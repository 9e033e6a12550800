// Multiplication with an overflow test, for every integer width.
module CheckedMultiply {
  import opened Arithmetic

  // The limits of a C++ integer type; `signed` types have min == -max-1.
  datatype Width = Signed(max: int) | Unsigned(max: int) {
    function Min(): int {
      if Signed? then -max - 1 else 0
    }

    predicate Represents(v: int) {
      Min() <= v <= max
    }
  }

  // A signed type reaches one further down than up; an unsigned one starts at zero.
  lemma Ranges(max: int, v: int)
    ensures Signed(max).Represents(v) <==> Signed(max).Represents(-v - 1)
    ensures max >= 0 && v >= 0 ==> (Signed(max).Represents(v) <==> v <= max)
    ensures Unsigned(max).Represents(v) <==> 0 <= v <= max
  {
  }

  function Abs(v: int): (r: int)
    ensures r >= 0
  {
    if v < 0 then -v else v
  }

  predicate OverflowCheck(w: Width, a: int, b: int)
    requires a != 0
  {
    if w.Unsigned? then
      TruncDiv(w.max, Abs(a)) < b
    else if (a > 0) == (b > 0) then
      TruncDiv(w.max, Abs(a)) < Abs(b)
    else
      TruncDiv(w.Min(), Abs(a)) > -Abs(b)
  }

  lemma QuotientBelow(m: nat, a: int, b: int)
    requires a > 0 && b >= 0
    ensures m / a < b <==> a * b > m
  {
    var q, r := m / a, m % a;
    assert m == q * a + r;
    if q < b {
      MulMono(q + 1, b, a);
    } else {
      MulMono(b, q, a);
    }
  }

  // The overflow test is exact away from the minimum value.
  lemma OverflowCheckExact(w: Width, a: int, b: int)
    requires w.max >= 1 && w.Represents(a) && w.Represents(b) && a != 0 && b != 0
    requires w.Signed? ==> a != w.Min() && b != w.Min()
    ensures OverflowCheck(w, a, b) <==> !w.Represents(a * b)
  {
    AbsProduct(a, b);
    QuotientBelow(w.max, Abs(a), Abs(b));
    QuotientBelow(w.max + 1, Abs(a), Abs(b));
  }

  lemma AbsProduct(a: int, b: int)
    requires a != 0 && b != 0
    ensures Abs(a) * Abs(b) > 0
    ensures a * b == if (a > 0) == (b > 0) then Abs(a) * Abs(b) else -(Abs(a) * Abs(b))
  {
    MulMono(1, Abs(a), Abs(b));
  }

  // The minimum value times anything but zero and one does not fit.
  lemma MinimumOverflows(w: Width, a: int, b: int)
    requires w.Signed? && w.max >= 1 && a == w.Min() && b != 0 && b != 1
    ensures !w.Represents(a * b)
  {
    if b < 0 {
      MulMono(1, -b, -a);
    } else {
      MulMono(2, b, -a);
    }
  }

  // a *= b unless that overflows: true exactly when the product is representable.
  method Multiply(w: Width, a0: int, b: int) returns (ok: bool, a: int)
    requires w.max >= 1 && w.Represents(a0) && w.Represents(b)
    ensures ok <==> w.Represents(a0 * b)
    ensures a == if ok then a0 * b else a0
  {
    a := a0;
    if a == 0 || b == 0 || a == 1 || b == 1 {
      a := a * b;
      return true, a;
    }
    if a == w.Min() || b == w.Min() {
      if a == w.Min() { MinimumOverflows(w, a, b); } else { MinimumOverflows(w, b, a); }
      return false, a;
    }
    OverflowCheckExact(w, a, b);
    if OverflowCheck(w, a, b) {
      return false, a;
    }
    a := a * b;
    ok := true;
  }
}
