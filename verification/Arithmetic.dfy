// Facts about products and quotients that the verifier is slow to find in context.
module Arithmetic {
  lemma Associate(a: int, b: int, c: int)
    ensures (a * b) * c == a * (b * c)
  {
  }

  lemma Distribute(a: int, b: int, c: int)
    ensures (a + b) * c == a * c + b * c
    ensures (-b) * c == -(b * c)
  {
  }

  lemma MulAtLeast(a: nat, b: int)
    requires b >= 1
    ensures a <= a * b
  {
  }

  lemma MulMono(a: int, b: int, c: nat)
    requires a <= b
    ensures a * c <= b * c
  {
  }

  lemma MulStrict(a: int, b: int, c: int)
    requires a < b && 0 < c
    ensures a * c < b * c && a * c + c <= b * c
  {
    assert (a + 1) * c <= b * c by { MulMono(a + 1, b, c); }
    assert (a + 1) * c == a * c + c;
  }

  lemma DivModUnique(p: int, d: int, quot: int, rem: int)
    requires 0 <= rem < d && p == quot * d + rem
    ensures p / d == quot && p % d == rem
  {
    var a, b := p / d, p % d;
    assert (quot - a) * d == b - rem;
    if quot > a {
      MulMono(1, quot - a, d);
    } else if quot < a {
      MulMono(1, a - quot, d);
    }
  }

  // C's division: towards zero.
  function TruncDiv(a: int, b: int): int
    requires b > 0
  {
    if a >= 0 then a / b else -(-a / b)
  }
}
