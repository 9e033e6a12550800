// What the Payne-Hanek reduction computes, stated on numbers: the product of
// x and a table of 2/pi in 24-bit chunks, its octant and the distance to the
// nearest integer.
module PayneHanek {
  import opened Arithmetic
  import opened Radix
  import opened Wrappers

  // Entry k of the 2/pi table; zero outside it (the C code writes zero for k < 0).
  function Entry(tab: seq<int>, k: int): int {
    if 0 <= k < |tab| then tab[k] else 0
  }

  // The first j terms of chunk m of the product of x and the table.
  function Conv(x: seq<int>, tab: seq<int>, m: int, j: nat): int
    requires j <= |x|
  {
    if j == 0 then 0 else Conv(x, tab, m, j - 1) + x[j - 1] * Entry(tab, m - (j - 1))
  }

  // Chunk m of the product.
  function Chunk(x: seq<int>, tab: seq<int>, m: int): int {
    Conv(x, tab, m, |x|)
  }

  // The product's chunks s, s+1, .., s+c-1 as one number; the last has weight one.
  function Product(x: seq<int>, tab: seq<int>, s: int, c: nat): int {
    if c == 0 then 0 else Product(x, tab, s, c - 1) * B + Chunk(x, tab, s + c - 1)
  }

  // The integer 1 in units of 2^(q0-24*jz), the weight of the last chunk kept.
  function One(jz: nat, q0: int): (r: nat)
    requires q0 <= 24 * jz
    ensures r >= 1
  {
    Pow2(24 * jz - q0)
  }

  // The integer part of p/one, up to multiples of eight.
  function Whole(p: int, one: int): (n: int)
    requires one >= 1
    ensures 0 <= n < 8
  {
    p / one % 8
  }

  // The fractional part of p/one, as a multiple of 1/one.
  function Rest(p: int, one: int): (r: int)
    requires one >= 1
    ensures 0 <= r < one
  {
    p % one
  }

  // Is the fractional part of p/one at least one half?
  predicate RoundsUp(p: int, one: int)
    requires one >= 1
  {
    2 * Rest(p, one) >= one
  }

  // The integer nearest to p/one, up to multiples of eight.
  function Octant(p: int, one: int): int
    requires one >= 1
  {
    Whole(p, one) + if RoundsUp(p, one) then 1 else 0
  }

  // How far p is from that integer.
  function Fraction(p: int, one: int): (f: nat)
    requires one >= 1
    ensures 0 <= 2 * f <= one
  {
    if RoundsUp(p, one) then one - Rest(p, one) else Rest(p, one)
  }

  function Signed(up: bool, v: int): int {
    if up then -v else v
  }

  // p is congruent to octant plus or minus fraction, modulo 8.
  lemma OctantMeaning(p: int, one: int) returns (k: int)
    requires one >= 1
    ensures p == 8 * one * k + Octant(p, one) * one + Signed(RoundsUp(p, one), Fraction(p, one))
    ensures 0 <= Octant(p, one) <= 8
  {
    k := p / one / 8;
    var n := p / one % 8;
    assert p / one == 8 * k + n;
    assert (p / one) * one == 8 * one * k + n * one by { Spread(k, n, one); }
    assert (n + 1) * one == n * one + one;
  }

  lemma Spread(k: int, n: int, one: int)
    ensures (8 * k + n) * one == 8 * one * k + n * one
  {
  }

  // ---- the run of `recompute` ----

  // Do the C arrays f[20] and ipio2[] hold what index jz needs?
  predicate Fits(x: seq<int>, tab: seq<int>, jv: nat, jz: nat) {
    |x| - 1 + jz < 20 && jv + jz < |tab|
  }

  function FractionAt(x: seq<int>, tab: seq<int>, jv: nat, q0: int, jz: nat): nat
    requires q0 <= 24 * jz
  {
    Fraction(Product(x, tab, jv, jz + 1), One(jz, q0))
  }

  // The index jz at which the loop around `recompute` stops, when it does so
  // without an index out of bounds.
  function Settle(x: seq<int>, tab: seq<int>, jv: nat, q0: int, jk: nat, jz: nat): (r: Option<nat>)
    requires 1 <= jk <= jz && q0 <= 2
    requires |x| >= 1 && Fits(x, tab, jv, jz)
    ensures r.Some? ==> jz <= r.value < 20 && Fits(x, tab, jv, r.value)
    ensures r.Some? ==> BPow(jk) <= FractionAt(x, tab, jv, q0, r.value)
    decreases 20 - jz
  {
    var v := FractionAt(x, tab, jv, q0, jz);
    if v >= BPow(jk) then
      if jz + 1 >= 20 && v >= BPow(jz + 1) then None else Some(jz)
    else
      match TermsNeeded(x, tab, jv, jk, jz, v)
      case None => None
      case Some(next) => Settle(x, tab, jv, q0, jk, next)
  }

  // A fraction v with fewer than jk+1 digits moves jz on until it has that many.
  function TermsNeeded(x: seq<int>, tab: seq<int>, jv: nat, jk: nat, jz: nat, v: nat): (next: Option<nat>)
    requires v < BPow(jk)
    ensures next.Some? ==> jz < next.value && Fits(x, tab, jv, next.value)
  {
    if v == 0 then None
    else
      ShortLen(v, jk);
      var next := jz + jk - Len(v) + 1;
      if Fits(x, tab, jv, next) then Some(next) else None
  }

  lemma ShortLen(v: nat, jk: nat)
    requires 0 < v < BPow(jk)
    ensures 1 <= Len(v) <= jk
  {
    LenBounds(v);
    if Len(v) > jk {
      BPowMono(jk, Len(v) - 1);
    }
  }

  lemma LongLen(v: nat, d: nat)
    requires v >= BPow(d)
    ensures Len(v) >= d + 1
  {
    LenBounds(v);
    if Len(v) <= d {
      BPowMono(Len(v), d);
    }
  }

  // When x*2/pi, cut at any index from jz to m, stays at least 2^(q0-24*(m-jk))
  // away from the integers, the loop settles, at index m at the latest.
  lemma {:induction false} SettlesBy(x: seq<int>, tab: seq<int>, jv: nat, q0: int, jk: nat, jz: nat, m: nat)
    requires 1 <= jk <= jz <= m <= 2 * jk && m < 19 && q0 <= 2
    requires |x| >= 1 && Fits(x, tab, jv, m)
    requires forall i | jz <= i <= m :: BPow(jk + i - m) <= FractionAt(x, tab, jv, q0, i)
    ensures Settle(x, tab, jv, q0, jk, jz).Some?
    ensures Settle(x, tab, jv, q0, jk, jz).value <= m
    decreases m - jz
  {
    hide FractionAt, BPow, Len;
    var v := FractionAt(x, tab, jv, q0, jz);
    assert BPow(jk + jz - m) <= v;
    if v < BPow(jk) {
      ShortLen(v, jk);
      LongLen(v, jk + jz - m);
      SettlesBy(x, tab, jv, q0, jk, jz + (jk - Len(v) + 1), m);
    }
  }

  // ---- the whole product ----

  // The first c chunks of the table preceded by `off` zeros, as one number.
  function Shifted(tab: seq<int>, off: nat, c: nat): int {
    if c == 0 then 0 else Shifted(tab, off, c - 1) * B + Entry(tab, c - 1 - off)
  }

  lemma {:induction false} ShiftedIsHorner(tab: seq<int>, off: nat, c: nat)
    requires c <= |tab| + off
    ensures Shifted(tab, off, c) == if c <= off then 0 else Horner(tab[..c - off])
  {
    if c > 0 {
      ShiftedIsHorner(tab, off, c - 1);
      if c > off {
        assert tab[..c - off][..c - off - 1] == tab[..c - 1 - off];
        if c - 1 == off {
          assert tab[..0] == [];
        }
      }
    }
  }

  lemma {:induction false} ConvLast(x: seq<int>, tab: seq<int>, m: int, j: nat)
    requires j < |x|
    ensures Conv(x, tab, m, j) == Conv(x[..|x| - 1], tab, m, j)
  {
    if j > 0 {
      ConvLast(x, tab, m, j - 1);
    }
  }

  lemma {:induction false} ProductLast(x: seq<int>, tab: seq<int>, c: nat)
    requires |x| > 0
    ensures Product(x, tab, 0, c)
         == Product(x[..|x| - 1], tab, 0, c) + x[|x| - 1] * Shifted(tab, |x| - 1, c)
  {
    if c > 0 {
      var l := |x| - 1;
      ProductLast(x, tab, c - 1);
      ConvLast(x, tab, c - 1, l);
      Regroup(Product(x[..l], tab, 0, c - 1), x[l], Shifted(tab, l, c - 1), Entry(tab, c - 1 - l));
    }
  }

  lemma Regroup(p: int, a: int, s: int, e: int)
    ensures (p + a * s) * B + a * e == p * B + a * (s * B + e)
  {
  }

  lemma {:induction false} ConvBeyond(x: seq<int>, tab: seq<int>, m: int, j: nat)
    requires j <= |x| && m >= |tab| + j - 1
    ensures Conv(x, tab, m, j) == 0
  {
    if j > 0 {
      ConvBeyond(x, tab, m, j - 1);
    }
  }

  // All chunks together are the product of the two numbers (one zero chunk at the end).
  lemma {:induction false} WholeProduct(x: seq<int>, tab: seq<int>)
    ensures Product(x, tab, 0, |x| + |tab|) == Horner(x) * Horner(tab) * B
  {
    var c := |x| + |tab|;
    if |x| == 0 {
      EmptyProduct(x, tab, c);
    } else {
      var l := |x| - 1;
      WholeProduct(x[..l], tab);
      ProductLast(x, tab, c);
      ConvBeyond(x[..l], tab, c - 1, l);
      ShiftedIsHorner(tab, l, c - 1);
      assert tab[..|tab|] == tab;
      if |tab| == 0 { assert Shifted(tab, l, c - 1) == Horner(tab); }
      assert Entry(tab, c - 1 - l) == 0;
      assert Shifted(tab, l, c) == Horner(tab) * B;
      Collect(Horner(x[..l]), Horner(tab), x[l]);
    }
  }

  lemma Collect(h: int, t: int, a: int)
    ensures h * t * B * B + a * (t * B) == (h * B + a) * t * B
  {
  }

  lemma {:induction false} EmptyProduct(x: seq<int>, tab: seq<int>, c: nat)
    requires |x| == 0
    ensures Product(x, tab, 0, c) == 0
  {
    if c > 0 {
      EmptyProduct(x, tab, c - 1);
    }
  }

  lemma {:induction false} ProductSplit(x: seq<int>, tab: seq<int>, s: int, a: nat, b: nat)
    ensures Product(x, tab, s, a + b) == Product(x, tab, s, a) * BPow(b) + Product(x, tab, s + a, b)
  {
    if b > 0 {
      ProductSplit(x, tab, s, a, b - 1);
      SplitStep(Product(x, tab, s, a), Product(x, tab, s + a, b - 1), BPow(b - 1));
      assert a + (b - 1) == a + b - 1;
      assert s + a + b - 1 == s + (a + b) - 1;
    }
  }

  lemma SplitStep(p: int, t: int, w: int)
    ensures (p * w + t) * B == p * (B * w) + t * B
  {
  }

  lemma {:induction false} ConvBound(x: seq<int>, tab: seq<int>, m: int, j: nat)
    requires Digits(x) && Digits(tab) && j <= |x|
    ensures 0 <= Conv(x, tab, m, j) <= j * ((B - 1) * (B - 1))
  {
    if j > 0 {
      ConvBound(x, tab, m, j - 1);
      DigitProduct(x[j - 1], Entry(tab, m - (j - 1)));
    }
  }

  lemma DigitProduct(a: int, b: int)
    requires 0 <= a < B && 0 <= b < B
    ensures 0 <= a * b <= (B - 1) * (B - 1)
  {
    MulMono(a, B - 1, b);
    MulMono(0, a, b);
  }

  lemma {:induction false} ProductBound(x: seq<int>, tab: seq<int>, s: int, c: nat)
    requires Digits(x) && Digits(tab)
    ensures 0 <= Product(x, tab, s, c) <= |x| * (B - 1) * (BPow(c) - 1)
  {
    if c > 0 {
      ProductBound(x, tab, s, c - 1);
      ConvBound(x, tab, s + c - 1, |x|);
      Geometric(|x|, BPow(c - 1));
    }
  }

  lemma Geometric(n: nat, p: int)
    ensures n * (B - 1) * (p - 1) * B + n * ((B - 1) * (B - 1)) == n * (B - 1) * (B * p - 1)
  {
  }

  // ---- what the dropped terms are worth ----

  // Index of the first table entry used: (e0-3)/24 truncated, but at least 0.
  function FirstEntry(e0: int): nat {
    if e0 - 3 >= 0 then (e0 - 3) / 24 else 0
  }

  function FirstExponent(e0: int): (q0: int)
    ensures q0 <= 2
    ensures e0 >= 3 ==> q0 >= -21
  {
    e0 - 24 * (FirstEntry(e0) + 1)
  }

  // The table entries before FirstEntry(e0) only contribute multiples of eight.
  lemma HeadIsMultipleOfEight(x: seq<int>, tab: seq<int>, e0: int, jz: nat) returns (k: int)
    requires jz >= 1
    ensures Product(x, tab, 0, FirstEntry(e0)) * BPow(jz + 1) == 8 * One(jz, FirstExponent(e0)) * k
  {
    var jv, q0 := FirstEntry(e0), FirstExponent(e0);
    var h := Product(x, tab, 0, jv);
    if jv == 0 {
      k := 0;
    } else {
      hide Product, BPow, Pow2;
      k := h * Pow2(21 + q0);
      EightBelow(jz, q0);
      EightOut(h, One(jz, q0), Pow2(21 + q0));
    }
  }

  lemma EightBelow(jz: nat, q0: int)
    requires -21 <= q0 <= 2 && jz >= 1
    ensures BPow(jz + 1) == One(jz, q0) * (8 * Pow2(21 + q0))
  {
    hide BPow, Pow2;
    BPowIsPow2(jz + 1);
    Pow2Add(24 * jz - q0, 24 + q0);
    Pow2Add(3, 21 + q0);
    Pow2Literals();
  }

  lemma EightOut(h: int, one: int, t: int)
    ensures h * (one * (8 * t)) == 8 * one * (h * t)
  {
  }

  // The full product, in units of 2^(e0-24*(|x|+|tab|)), is eight times an integer plus
  // the octant plus or minus the fraction found at index jz, plus a small tail.
  lemma ReductionMeaning(x: seq<int>, tab: seq<int>, e0: int, jz: nat) returns (k: int, tail: int)
    requires |x| >= 1 && Digits(x) && Digits(tab)
    requires jz >= 1 && FirstEntry(e0) + jz < |tab|
    ensures var jv, one := FirstEntry(e0), One(jz, FirstExponent(e0));
            var p := Product(x, tab, jv, jz + 1);
            var weight := BPow(|x| + |tab| - jv - jz - 1);
            && 24 * (|x| + |tab|) >= e0
            && one * weight == Pow2(24 * (|x| + |tab|) - e0)
            && Horner(x) * Horner(tab) * B
               == (8 * one * k + Octant(p, one) * one + Signed(RoundsUp(p, one), Fraction(p, one))) * weight + tail
            && 0 <= tail < |x| * B * weight
  {
    hide BPow, Pow2, Product, Horner, Octant, RoundsUp, Fraction;
    var jv, q0 := FirstEntry(e0), FirstExponent(e0);
    var c := |x| + |tab|;
    var r := c - jv - jz - 1;
    var one, weight := One(jz, q0), BPow(r);
    var p := Product(x, tab, jv, jz + 1);
    BPowIsPow2(r);
    Pow2Add(24 * jz - q0, 24 * r);
    WholeProduct(x, tab);
    ProductSplit(x, tab, 0, jv, jz + 1);
    ProductSplit(x, tab, 0, jv + jz + 1, r);
    tail := Product(x, tab, jv + jz + 1, r);
    ProductBound(x, tab, jv + jz + 1, r);
    TailBound(|x|, weight);
    var kh := HeadIsMultipleOfEight(x, tab, e0, jz);
    var ko := OctantMeaning(p, one);
    k := kh + ko;
    var rest := Octant(p, one) * one + Signed(RoundsUp(p, one), Fraction(p, one));
    Assemble(one, kh, ko, rest, weight);
  }

  lemma Assemble(one: int, kh: int, ko: int, rest: int, w: int)
    ensures (8 * one * kh + (8 * one * ko + rest)) * w == (8 * one * (kh + ko) + rest) * w
  {
  }

  lemma TailBound(n: nat, w: int)
    requires n >= 1 && w >= 1
    ensures n * (B - 1) * (w - 1) < n * B * w
  {
    assert n * (B - 1) * (w - 1) == n * B * w - n * B - n * w + n;
    MulMono(1, n, w);
  }

  // The tail is below 2^(26-24*jk) of a fraction that has jk chunks, for three chunks of x.
  lemma TailIsSmall(n: nat, weight: int, tail: int, f: int, jk: nat)
    requires weight >= 1 && 0 <= tail < n * B * weight && f >= BPow(jk)
    ensures tail * BPow(jk) < n * B * (f * weight)
    ensures n <= 3 ==> tail * BPow(jk) < Pow2(26) * (f * weight)
  {
    MulStrict(tail, n * B * weight, BPow(jk));
    MulMono(BPow(jk), f, n * B * weight);
    assert n * B * (f * weight) == f * (n * B * weight);
    if n <= 3 {
      Pow2Literals();
      Pow2Add(2, 24);
      MulMono(n * B, 4 * B, f * weight);
    }
  }
}
