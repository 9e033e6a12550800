// How far x*2/pi must keep from the integers for the loop around `recompute` to settle.
module Margin {
  import opened Arithmetic
  import opened Radix
  import opened PayneHanek
  import opened RemPio2
  import opened Wrappers

  // x*2/pi in units of 2^-unit, where unit is 24*(|x|+|tab|) - e0.
  function FullProduct(x: seq<int>, tab: seq<int>): int {
    Horner(x) * Horner(tab) * B
  }

  // How far x*2/pi is from the nearest integer, in the same units.
  function Distance(x: seq<int>, tab: seq<int>, e0: int): nat
    requires e0 <= 24 * (|x| + |tab|)
  {
    Fraction(FullProduct(x, tab), Pow2(24 * (|x| + |tab|) - e0))
  }

  // The last chunk kept by a cut at index i, in the same units.
  function Weight(x: seq<int>, tab: seq<int>, e0: int, i: nat): (w: nat)
    requires |x| >= 1 && FirstEntry(e0) + i < |tab|
    ensures w >= 1
  {
    BPow(|x| + |tab| - FirstEntry(e0) - i - 1)
  }

  lemma UnitIsPositive(x: seq<int>, tab: seq<int>, e0: int)
    requires |x| >= 1 && FirstEntry(e0) < |tab|
    ensures e0 <= 24 * (|x| + |tab|)
  {
  }

  // Two ways to write a number as a multiple of u and at most half of u more, or less.
  lemma Apart(u: int, a: int, s: int, tail: int, b: int, d: int)
    requires u >= 1 && 0 <= tail && a * u + s + tail == b * u + d
    requires -u <= 2 * s <= u && -u <= 2 * d <= u
    ensures Size(s) - tail <= Size(d) <= Size(s) + tail
  {
    if a < b {
      MulStrict(a, b, u);
    } else if b < a {
      MulStrict(b, a, u);
    }
  }

  function Size(s: int): nat {
    if s < 0 then -s else s
  }

  // The fraction at any cut is the distance of the whole product, but for the chunks cut off.
  lemma CutDistance(x: seq<int>, tab: seq<int>, e0: int, i: nat)
    requires |x| >= 1 && Digits(x) && Digits(tab)
    requires i >= 1 && FirstEntry(e0) + i < |tab|
    ensures var w := Weight(x, tab, e0, i);
            var f := FractionAt(x, tab, FirstEntry(e0), FirstExponent(e0), i);
            && e0 <= 24 * (|x| + |tab|)
            && f * w - |x| * B * w < Distance(x, tab, e0) < f * w + |x| * B * w
  {
    var q0, p := FirstExponent(e0), Product(x, tab, FirstEntry(e0), i + 1);
    var one, w, f := One(i, q0), Weight(x, tab, e0, i), Fraction(p, One(i, q0));
    var k, tail := ReductionMeaning(x, tab, e0, i);
    var full, u := FullProduct(x, tab), Pow2(24 * (|x| + |tab|) - e0);
    var b := OctantMeaning(full, u);
    var n, up, up' := Octant(p, one), RoundsUp(p, one), RoundsUp(full, u);
    Spread(b, Octant(full, u), u);
    Scaled(k, n, one, Signed(up, f), w);
    assert Signed(up, f) * w == Signed(up, f * w) by { Distribute(0, f, w); }
    MulMono(2 * f, one, w);
    Associate(2, f, w);
    Apart(u, 8 * k + n, Signed(up, f * w), tail, 8 * b + Octant(full, u), Signed(up', Distance(x, tab, e0)));
  }

  lemma Scaled(k: int, n: int, one: int, s: int, w: int)
    ensures (8 * one * k + n * one + s) * w == (8 * k + n) * (one * w) + s * w
  {
    Distribute(8 * one * k + n * one, s, w);
    Spread(k, n, one);
    Associate(8 * k + n, one, w);
  }

  lemma WeightMoves(x: seq<int>, tab: seq<int>, e0: int, i: nat, j: nat)
    requires |x| >= 1 && i <= j && FirstEntry(e0) + j < |tab|
    ensures Weight(x, tab, e0, i) == BPow(j - i) * Weight(x, tab, e0, j)
    ensures Weight(x, tab, e0, j) <= Weight(x, tab, e0, i)
  {
    var r := |x| + |tab| - FirstEntry(e0) - j - 1;
    BPowAdd(j - i, r);
    BPowMono(r, r + (j - i));
  }

  // What distance it takes to settle by index m.
  predicate Far(x: seq<int>, tab: seq<int>, e0: int, jk: nat, m: nat)
    requires |x| >= 1 && jk <= m <= 2 * jk && FirstEntry(e0) + m < |tab|
  {
    UnitIsPositive(x, tab, e0);
    Distance(x, tab, e0) >= (BPow(2 * jk - m) + |x| * B) * Weight(x, tab, e0, jk)
  }

  // Away from the integers by that much, the loop settles, at index m at the latest.
  lemma FarSettles(x: seq<int>, tab: seq<int>, e0: int, jk: nat, m: nat)
    requires |x| >= 1 && Digits(x) && Digits(tab)
    requires 1 <= jk <= m <= 2 * jk && m < 19 && Fits(x, tab, FirstEntry(e0), m)
    requires Far(x, tab, e0, jk, m)
    ensures var r := Settle(x, tab, FirstEntry(e0), FirstExponent(e0), jk, jk);
            r.Some? && jk <= r.value <= m
  {
    hide Fraction, One, Product, Horner;
    var jv, q0, wk := FirstEntry(e0), FirstExponent(e0), Weight(x, tab, e0, jk);
    forall i | jk <= i <= m
      ensures BPow(jk + i - m) <= FractionAt(x, tab, jv, q0, i)
    {
      var w, f := Weight(x, tab, e0, i), FractionAt(x, tab, jv, q0, i);
      CutDistance(x, tab, e0, i);
      WeightMoves(x, tab, e0, jk, i);
      BPowAdd(2 * jk - m, i - jk);
      Enough(BPow(2 * jk - m), BPow(i - jk), |x| * B, wk, w, f);
    }
    SettlesBy(x, tab, jv, q0, jk, jk, m);
  }

  lemma Enough(a: int, b: int, t: nat, wk: int, w: int, f: int)
    requires w >= 1 && w <= wk == b * w
    requires (a + t) * wk < f * w + t * w
    ensures a * b <= f
  {
    Distribute(a, t, wk);
    MulMono(w, wk, t);
    Associate(a, b, w);
    if f < a * b {
      MulStrict(f, a * b, w);
    }
  }

  // Whenever the loop settles, the product keeps almost jk chunks away from the integers.
  lemma SettledIsFar(x: seq<int>, tab: seq<int>, e0: int, jk: nat)
    requires |x| >= 1 && Digits(x) && Digits(tab) && jk >= 1 && Fits(x, tab, FirstEntry(e0), jk)
    requires Settle(x, tab, FirstEntry(e0), FirstExponent(e0), jk, jk).Some?
    ensures var s := Settle(x, tab, FirstEntry(e0), FirstExponent(e0), jk, jk).value;
            e0 <= 24 * (|x| + |tab|)
            && Distance(x, tab, e0) > (BPow(jk) - |x| * B) * Weight(x, tab, e0, s)
  {
    hide FractionAt, Settle, Distance, Weight;
    var jv, q0 := FirstEntry(e0), FirstExponent(e0);
    var s := Settle(x, tab, jv, q0, jk, jk).value;
    var w := Weight(x, tab, e0, s);
    CutDistance(x, tab, e0, s);
    Beyond(BPow(jk), |x| * B, FractionAt(x, tab, jv, q0, s), w, Distance(x, tab, e0));
  }

  lemma Beyond(c: int, t: int, f: int, w: nat, d: int)
    requires c <= f && f * w - t * w < d
    ensures d > (c - t) * w
  {
    MulMono(c, f, w);
    Distribute(c, -t, w);
  }

  // So it runs over when the product is nearer than that at the last index m that fits.
  lemma NearOverruns(x: seq<int>, tab: seq<int>, e0: int, jk: nat, m: nat)
    requires |x| >= 1 && Digits(x) && Digits(tab) && 1 <= jk <= m
    requires Fits(x, tab, FirstEntry(e0), m) && !Fits(x, tab, FirstEntry(e0), m + 1)
    requires e0 <= 24 * (|x| + |tab|)
    requires Distance(x, tab, e0) <= (BPow(jk) - |x| * B) * Weight(x, tab, e0, m)
    ensures Settle(x, tab, FirstEntry(e0), FirstExponent(e0), jk, jk).None?
  {
    hide Settle, Distance, Weight, BPow;
    var stop := Settle(x, tab, FirstEntry(e0), FirstExponent(e0), jk, jk);
    if stop.Some? {
      SettledIsFar(x, tab, e0, jk);
      WeightMoves(x, tab, e0, stop.value, m);
      Nearer(BPow(jk) - |x| * B, Weight(x, tab, e0, m), Weight(x, tab, e0, stop.value), Distance(x, tab, e0));
      assert false;
    }
  }

  lemma Nearer(c: int, w: nat, w': nat, d: nat)
    requires 1 <= w <= w' && d <= c * w
    ensures d <= c * w'
  {
    if c < 0 {
      MulStrict(c, 0, w);
    } else {
      MulMono(w, w', c);
    }
  }

  // The kernel's outcome on a product that is far enough from the integers.
  lemma FarReduces(x: seq<int>, tab: seq<int>, e0: int, jk: nat, m: nat, r: Outcome)
    requires |x| >= 1 && Digits(x) && Digits(tab)
    requires 1 <= jk <= m <= 2 * jk && m < 19 && Fits(x, tab, FirstEntry(e0), m)
    requires Far(x, tab, e0, jk, m) && Reduces(x, tab, e0, jk, r)
    ensures r.Reduced? && r.q0 - 24 * r.jz >= FirstExponent(e0) - 24 * m
  {
    hide Far, Fraction, One, Product;
    FarSettles(x, tab, e0, jk, m);
  }

  // ---- inputs that overrun ----

  lemma HornerSnoc(s: seq<int>, d: int)
    ensures Horner(s + [d]) == Horner(s) * B + d
  {
    assert (s + [d])[..|s|] == s;
  }

  lemma HornerOfFour(a: int, b: int, c: int, d: int)
    ensures Horner([a, b, c, d]) == ((a * B + b) * B + c) * B + d
    ensures Horner([b, c, d]) == (b * B + c) * B + d
  {
    HornerOfThree(a, b, c);
    HornerSnoc([a, b, c], d);
    assert [a, b, c] + [d] == [a, b, c, d];
    HornerOfThree(b, c, d);
  }

  lemma HornerOfThree(a: int, b: int, c: int)
    ensures Horner([a, b, c]) == (a * B + b) * B + c
  {
    HornerSnoc([], a);
    HornerSnoc([a], b);
    HornerSnoc([a, b], c);
    assert [] + [a] == [a] && [a] + [b] == [a, b] && [a, b] + [c] == [a, b, c];
  }

  lemma ChunkOfThree(x: seq<int>, tab: seq<int>, m: int)
    requires |x| == 3
    ensures Chunk(x, tab, m) == x[0] * Entry(tab, m) + x[1] * Entry(tab, m - 1) + x[2] * Entry(tab, m - 2)
  {
    hide Entry;
    assert Conv(x, tab, m, 1) == x[0] * Entry(tab, m);
    assert Conv(x, tab, m, 2) == Conv(x, tab, m, 1) + x[1] * Entry(tab, m - 1);
    assert Conv(x, tab, m, 3) == Conv(x, tab, m, 2) + x[2] * Entry(tab, m - 2);
  }

  lemma ProductOfThree(x: seq<int>, tab: seq<int>)
    ensures Product(x, tab, 0, 3) == (Chunk(x, tab, 0) * B + Chunk(x, tab, 1)) * B + Chunk(x, tab, 2)
    ensures Product(x, tab, 0, 4) == Product(x, tab, 0, 3) * B + Chunk(x, tab, 3)
  {
    hide Chunk;
    assert Product(x, tab, 0, 1) == Chunk(x, tab, 0);
    assert Product(x, tab, 0, 2) == Product(x, tab, 0, 1) * B + Chunk(x, tab, 1);
    assert Product(x, tab, 0, 3) == Product(x, tab, 0, 2) * B + Chunk(x, tab, 2);
  }

  lemma SmallFraction(p: int, one: int)
    requires 0 <= 2 * p < one
    ensures Fraction(p, one) == p
  {
    DivModUnique(p, one, 0, p);
  }

  // Nothing to find at all: the search for a non-zero digit leaves the array.
  lemma NoDigits()
    ensures Settle([1], [0, 0, 0, 0], 0, 0, 2, 2).None?
  {
    var x, tab: seq<int> := [1], [0, 0, 0, 0];
    assert Product(x, tab, 0, 1) == Product(x, tab, 0, 2) == Product(x, tab, 0, 3) == 0;
    SmallFraction(0, One(2, 0));
  }

  method NothingToFind() returns (r: Outcome)
    ensures r.Overrun?
  {
    hide Settle, Holds;
    NoDigits();
    r := KernelRemPio2([1], 24, 0, [0, 0, 0, 0]);
  }

  lemma PowersOfB()
    ensures BPow(0) == 1 && BPow(1) == B && BPow(2) == B * B && BPow(3) == B * B * B
  {
    assert BPow(1) == B * BPow(0);
    assert BPow(2) == B * BPow(1);
    assert BPow(3) == B * BPow(2);
  }

  // Two inputs of the same sizes and the same product, hence the same distance. One of them
  // settles; the other has too much of the product in chunks it has not reached, and overruns.
  lemma ProductDoesNotDecide()
    ensures var x, tab, x', tab': seq<int> := [1, 1, 1], [0, 1, B - 3, 1], [B - 1, B - 1, B - 1], [0, 0, 1, B - 1];
            && Digits(x) && Digits(tab) && Digits(x') && Digits(tab')
            && FullProduct(x, tab) == FullProduct(x', tab')
            && Settle(x, tab, FirstEntry(0), FirstExponent(0), 2, 2) == Some(3)
            && Settle(x', tab', FirstEntry(0), FirstExponent(0), 2, 2) == None
  {
    hide Settle, Horner;
    Settles();
    RunsOver();
    HornerOfFour(0, 1, 1, 1);
    HornerOfFour(0, 1, B - 3, 1);
    HornerOfFour(0, B - 1, B - 1, B - 1);
    HornerOfFour(0, 0, 1, B - 1);
  }

  lemma Settles()
    ensures Settle([1, 1, 1], [0, 1, B - 3, 1], 0, -24, 2, 2) == Some(3)
  {
    hide Product, Chunk, Fraction, One;
    var x, tab: seq<int> := [1, 1, 1], [0, 1, B - 3, 1];
    ChunkOfThree(x, tab, 0);
    ChunkOfThree(x, tab, 1);
    ChunkOfThree(x, tab, 2);
    ChunkOfThree(x, tab, 3);
    ProductOfThree(x, tab);
    PowersOfB();
    OneIsPower(2);
    OneIsPower(3);
    var v := 2 * B - 2;
    SmallFraction(v, One(2, -24));
    LenExact(v, 2);
    SmallFraction(v * B + (B - 1), One(3, -24));
    assert FractionAt(x, tab, 0, -24, 2) == v;
    assert TermsNeeded(x, tab, 0, 2, 2, v) == Some(3);
    assert FractionAt(x, tab, 0, -24, 3) >= BPow(2);
  }

  lemma OneIsPower(jz: nat)
    ensures One(jz, -24) == BPow(jz + 1)
  {
    BPowIsPow2(jz + 1);
  }

  lemma RunsOver()
    ensures Settle([B - 1, B - 1, B - 1], [0, 0, 1, B - 1], 0, -24, 2, 2) == None
  {
    hide Product, Chunk, Fraction, One;
    var x, tab: seq<int> := [B - 1, B - 1, B - 1], [0, 0, 1, B - 1];
    ChunkOfThree(x, tab, 0);
    ChunkOfThree(x, tab, 1);
    ChunkOfThree(x, tab, 2);
    ProductOfThree(x, tab);
    PowersOfB();
    OneIsPower(2);
    SmallFraction(B - 1, One(2, -24));
    LenExact(B - 1, 1);
  }
}
