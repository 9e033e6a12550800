// The large-argument path of ieee754_rem_pio2, and what its result means.
module LargeArgument {
  import opened Arithmetic
  import opened Radix
  import opened PayneHanek
  import opened RemPio2
  import opened Margin

  // x times 2/pi, in units of 2^-unit, is eight times an integer plus the octant n, plus
  // or minus a fraction f of at most one half, plus a tail below nx*2^24/B^jk of f.
  predicate Meaning(product: int, unit: nat, k: int, n: int, minus: bool, f: int, tail: int, nx: nat, jk: nat) {
    && product == (8 * k + n) * Pow2(unit) + Signed(minus, f) + tail
    && 0 < 2 * f <= Pow2(unit)
    && 0 <= tail && tail * BPow(jk) < nx * B * f
  }

  // The fraction that the digits of r stand for, in units of 2^-unit.
  function FractionValue(r: Outcome, unit: int): int
    requires r.Reduced? && unit + r.q0 - 24 * r.jz >= 0
  {
    Val(r.digits) * Pow2(unit + r.q0 - 24 * r.jz)
  }

  lemma KernelMeaning(x: seq<int>, tab: seq<int>, e0: int, jk: nat, r: Outcome) returns (k: int, tail: int)
    requires |x| >= 1 && jk >= 1 && Digits(x) && Digits(tab) && Fits(x, tab, FirstEntry(e0), jk)
    requires Reduces(x, tab, e0, jk, r) && r.Reduced?
    ensures var unit := 24 * (|x| + |tab|) - e0;
            && unit >= 0 && unit + r.q0 - 24 * r.jz >= 0 && 0 <= r.n < 8
            && Meaning(Horner(x) * Horner(tab) * B, unit, k, r.n, r.ih > 0, FractionValue(r, unit), tail, |x|, jk)
  {
    hide Settle, Meaning, BPow, Pow2, Horner, Val, Product, Octant, RoundsUp, Fraction, One;
    var jv, q0 := FirstEntry(e0), FirstExponent(e0);
    var m := Settle(x, tab, jv, q0, jk, jk).value;
    var p, one := Product(x, tab, jv, m + 1), One(m, q0);
    var unit, above := 24 * (|x| + |tab|) - e0, |x| + |tab| - jv - m - 1;
    var k0;
    k0, tail := ReductionMeaning(x, tab, e0, m);
    BPowIsPow2(above);
    assert unit + r.q0 - 24 * r.jz == 24 * above;
    k := k0 + Octant(p, one) / 8;
    Scale(Horner(x) * Horner(tab) * B, unit, one, BPow(above), k0, Octant(p, one), RoundsUp(p, one),
          Val(r.digits), tail, |x|, jk);
  }

  lemma Scale(product: int, unit: nat, one: int, w: int, k: int, n: int, up: bool, v: int, tail: int, nx: nat, jk: nat)
    requires w >= 1 && one * w == Pow2(unit)
    requires product == (8 * one * k + n * one + Signed(up, v)) * w + tail
    requires BPow(jk) <= v && 2 * v <= one
    requires 0 <= tail < nx * B * w
    ensures Meaning(product, unit, k + n / 8, n % 8, up, v * w, tail, nx, jk)
  {
    hide BPow, Pow2, Meaning;
    TailIsSmall(nx, w, tail, v, jk);
    Scaled(k, n, one, Signed(up, v), w);
    SignedScales(up, v, w);
    Bounds(v, one, w);
    CarryOctant(product, unit, k, n, up, v * w, tail, nx, jk);
  }

  lemma SignedScales(minus: bool, v: int, w: int)
    ensures Signed(minus, v) * w == Signed(minus, v * w)
  {
    Distribute(0, v, w);
  }

  // Octant 8 counts as 0, one turn further.
  lemma CarryOctant(product: int, unit: nat, k: int, n: int, minus: bool, f: int, tail: int, nx: nat, jk: nat)
    requires product == (8 * k + n) * Pow2(unit) + Signed(minus, f) + tail
    requires 0 < 2 * f <= Pow2(unit) && 0 <= tail && tail * BPow(jk) < nx * B * f
    ensures Meaning(product, unit, k + n / 8, n % 8, minus, f, tail, nx, jk)
  {
    hide BPow, Pow2;
    assert 8 * (k + n / 8) + n % 8 == 8 * k + n;
  }

  lemma Bounds(v: int, one: int, w: int)
    requires 1 <= v && 2 * v <= one && 1 <= w
    ensures 0 < 2 * (v * w) <= one * w
  {
    MulMono(2 * v, one, w);
    MulMono(1, v, w);
  }

  lemma ScaleSum(product: int, a: int, p: int, minus: bool, f: int, tail: int, w: int)
    requires product == a * p + Signed(minus, f) + tail
    ensures product * w == a * (p * w) + Signed(minus, f * w) + tail * w
  {
    Distribute(a * p + Signed(minus, f), tail, w);
    Distribute(a * p, Signed(minus, f), w);
    SignedScales(minus, f, w);
    Associate(a, p, w);
  }

  lemma ScaleTail(tail: int, b: int, c: int, f: int, w: int)
    requires tail * b < c * f && w >= 1
    ensures (tail * w) * b < c * (f * w)
  {
    MulStrict(tail * b, c * f, w);
    Associate(c, f, w);
    Associate(tail, b, w);
    Associate(tail, w, b);
    assert b * w == w * b;
  }

  // Multiplying everything by B^d moves the unit down by d chunks.
  lemma Rescale(product: int, unit: nat, k: int, n: int, minus: bool, f: int, tail: int, nx: nat, jk: nat, d: nat)
    requires Meaning(product, unit, k, n, minus, f, tail, nx, jk)
    ensures Meaning(product * BPow(d), unit + 24 * d, k, n, minus, f * BPow(d), tail * BPow(d), nx, jk)
  {
    var w := BPow(d);
    assert Pow2(unit + 24 * d) == Pow2(unit) * w by {
      BPowIsPow2(d);
      Pow2Add(unit, 24 * d);
    }
    ScaleSum(product, 8 * k + n, Pow2(unit), minus, f, tail, w);
    Bounds(f, Pow2(unit), w);
    MulMono(0, tail, w);
    ScaleTail(tail, BPow(jk), nx * B, f, w);
  }

  // Splits a 53-bit significand, read as a number in [2^23, 2^24), into 24-bit chunks
  // and leaves off zero chunks at the end.
  method SplitSignificand(significand: nat) returns (tx: seq<int>)
    requires 0x10_0000_0000_0000 <= significand < 0x20_0000_0000_0000
    ensures 1 <= |tx| <= 3 && Digits(tx) && tx[|tx| - 1] != 0
    ensures Horner(tx) * BPow(3 - |tx|) == significand * 0x8_0000
  {
    hide Horner, BPow;
    PowersOfB();
    NoChunks();
    var z, unit := significand * 0x8_0000, B * B;      // z in units of 2^-48
    tx := [];
    for i := 0 to 2
      invariant |tx| == i && Digits(tx)
      invariant unit == BPow(2 - i)
      invariant Horner(tx) * B * unit + z == significand * 0x8_0000
      invariant 0 <= z < B * unit
      invariant i > 0 ==> tx[0] > 0
    {
      Floor(z, unit);
      ChunkFits(z, unit);
      var chunk := z / unit;
      HornerSnoc(tx, chunk);
      NextChunk(Horner(tx), chunk, unit, BPow(1 - i));
      tx := tx + [chunk];
      z := z - unit * chunk;
      unit := unit / B;
    }
    HornerSnoc(tx, z);
    tx := tx + [z];
    assert tx[..3] == tx;
    var nx := 3;
    while tx[nx - 1] == 0
      invariant 1 <= nx <= 3 && tx[0] > 0
      invariant Horner(tx[..nx]) * BPow(3 - nx) == significand * 0x8_0000
      decreases nx
    {
      assert tx[..nx] == tx[..nx - 1] + [0];
      HornerSnoc(tx[..nx - 1], 0);
      DropZero(Horner(tx[..nx - 1]), BPow(3 - nx));
      nx := nx - 1;
    }
    tx := tx[..nx];
  }

  lemma NoChunks()
    ensures Horner([]) == 0
  {
  }

  lemma DropZero(h: int, p: int)
    ensures (h * B + 0) * p == h * (B * p)
  {
  }

  lemma ChunkFits(z: int, unit: int)
    requires unit >= 1 && 0 <= z < B * unit
    ensures 0 <= z / unit < B
  {
    Floor(z, unit);
  }

  lemma NextChunk(h: int, c: int, unit: int, u: int)
    requires unit == B * u
    ensures (h * B + c) * B * u == h * B * unit + unit * c
  {
  }

  // The same for a significand in chunks tx, zero chunks left off: the unit is that of
  // three chunks.
  lemma LargeMeaning(significand: int, tx: seq<int>, tab: seq<int>, e0: int, r: Outcome) returns (k: int, tail: int)
    requires 1 <= |tx| <= 3 && Digits(tx) && Digits(tab) && Fits(tx, tab, FirstEntry(e0), 4)
    requires Horner(tx) * BPow(3 - |tx|) == significand
    requires Reduces(tx, tab, e0, 4, r) && r.Reduced?
    ensures var unit := 24 * (3 + |tab|) - e0;
            && unit >= 0 && unit + r.q0 - 24 * r.jz >= 0 && 0 <= r.n < 8
            && Meaning(significand * Horner(tab) * B, unit, k, r.n, r.ih > 0, FractionValue(r, unit), tail, 3, 4)
  {
    hide Meaning, Reduces, Horner, BPow, Pow2, Val;
    var d, unit := 3 - |tx|, 24 * (|tx| + |tab|) - e0;
    k, tail := KernelMeaning(tx, tab, e0, 4, r);
    var f := FractionValue(r, unit);
    var product := Horner(tx) * Horner(tab) * B;
    Rescale(product, unit, k, r.n, r.ih > 0, f, tail, |tx|, 4, d);
    tail := tail * BPow(d);
    assert product * BPow(d) == significand * Horner(tab) * B by {
      Reorder(Horner(tx), Horner(tab), BPow(d));
    }
    assert FractionValue(r, unit + 24 * d) == f * BPow(d) by {
      BPowIsPow2(d);
      Pow2Add(unit + r.q0 - 24 * r.jz, 24 * d);
      Associate(Val(r.digits), Pow2(unit + r.q0 - 24 * r.jz), BPow(d));
    }
    MoreChunks(significand * Horner(tab) * B, unit + 24 * d, k, r.n, r.ih > 0, f * BPow(d), tail, |tx|, 3, 4);
  }

  lemma MoreChunks(product: int, unit: nat, k: int, n: int, minus: bool, f: int, tail: int, nx: nat, nx': nat, jk: nat)
    requires Meaning(product, unit, k, n, minus, f, tail, nx, jk) && nx <= nx'
    ensures Meaning(product, unit, k, n, minus, f, tail, nx', jk)
  {
    MulMono(nx, nx', B * f);
    Associate(nx, B, f);
    Associate(nx', B, f);
  }

  lemma Reorder(x: int, t: int, w: int)
    ensures x * t * B * w == x * w * t * B
  {
  }

  // How far significand*2/pi is from the nearest integer, in units of 2^-(24*(3+|tab|)-e0).
  function LargeDistance(significand: int, tab: seq<int>, e0: int): nat
    requires e0 <= 24 * (3 + |tab|)
  {
    Fraction(significand * Horner(tab) * B, Pow2(24 * (3 + |tab|) - e0))
  }

  lemma FractionScales(p: int, one: int, w: int)
    requires one >= 1 && w >= 1 && one * w >= 1
    ensures Fraction(p * w, one * w) == Fraction(p, one) * w
  {
    var quot, rem := p / one, p % one;
    assert p == quot * one + rem;
    Distribute(quot * one, rem, w);
    Associate(quot, one, w);
    MulStrict(rem, one, w);
    MulMono(0, rem, w);
    DivModUnique(p * w, one * w, quot, rem * w);
    if 2 * rem >= one {
      MulMono(one, 2 * rem, w);
    } else {
      MulStrict(2 * rem, one, w);
    }
    Associate(2, rem, w);
    Distribute(one, -rem, w);
  }

  lemma DistanceOfChunks(significand: int, tx: seq<int>, tab: seq<int>, e0: int)
    requires 1 <= |tx| <= 3 && e0 <= 24 * (|tx| + |tab|)
    requires Horner(tx) * BPow(3 - |tx|) == significand
    ensures LargeDistance(significand, tab, e0) == Distance(tx, tab, e0) * BPow(3 - |tx|)
  {
    hide Fraction;
    var d, unit := 3 - |tx|, 24 * (|tx| + |tab|) - e0;
    BPowIsPow2(d);
    Pow2Add(unit, 24 * d);
    Reorder(Horner(tx), Horner(tab), BPow(d));
    FractionScales(FullProduct(tx, tab), Pow2(unit), BPow(d));
  }

  // The distance that is enough for a significand split into chunks tx.
  lemma LargeFarReduces(significand: int, tx: seq<int>, tab: seq<int>, e0: int, r: Outcome)
    requires 1 <= |tx| <= 3 && Digits(tx) && Digits(tab) && |tab| == 66 && -3 <= e0 <= 1000
    requires Horner(tx) * BPow(3 - |tx|) == significand
    requires Reduces(tx, tab, e0, 4, r)
    requires LargeDistance(significand, tab, e0) >= (1 + 3 * B) * BPow(64 - FirstEntry(e0))
    ensures r.Reduced?
  {
    hide Distance, LargeDistance, Reduces, Horner, BPow, Far;
    var d := 3 - |tx|;
    DistanceOfChunks(significand, tx, tab, e0);
    BPowAdd(|tx| + 61 - FirstEntry(e0), d);
    Cancel(1 + 3 * B, 1 + |tx| * B, Weight(tx, tab, e0, 4), BPow(d), Distance(tx, tab, e0));
    FarByEight(tx, tab, e0);
    FarReduces(tx, tab, e0, 4, 8, r);
  }

  lemma FarByEight(x: seq<int>, tab: seq<int>, e0: int)
    requires |x| >= 1 && FirstEntry(e0) + 8 < |tab| && e0 <= 24 * (|x| + |tab|)
    requires Distance(x, tab, e0) >= (1 + |x| * B) * Weight(x, tab, e0, 4)
    ensures Far(x, tab, e0, 4, 8)
  {
    hide Distance, Weight;
    PowersOfB();
  }

  // The distance that every reduced one has.
  lemma LargeReducedIsFar(significand: int, tx: seq<int>, tab: seq<int>, e0: int, r: Outcome)
    requires 1 <= |tx| <= 3 && Digits(tx) && Digits(tab) && |tab| == 66 && -3 <= e0 <= 1000
    requires Horner(tx) * BPow(3 - |tx|) == significand
    requires Reduces(tx, tab, e0, 4, r) && r.Reduced?
    ensures LargeDistance(significand, tab, e0) > (BPow(4) - 3 * B) * BPow(49 - FirstEntry(e0))
  {
    hide Distance, LargeDistance, Horner, Settle, Holds, BPow;
    var jv, d := FirstEntry(e0), 3 - |tx|;
    DistanceOfChunks(significand, tx, tab, e0);
    SettledIsFar(tx, tab, e0, 4);
    var s := Settle(tx, tab, jv, FirstExponent(e0), 4, 4).value;
    BPowAdd(|tx| + 65 - jv - s, d);
    BPowMono(49 - jv, 68 - jv - s);
    FourChunks();
    Loosen(BPow(4) - |tx| * B, BPow(4) - 3 * B, Weight(tx, tab, e0, s), BPow(d), BPow(49 - jv), Distance(tx, tab, e0));
  }

  lemma FourChunks()
    ensures BPow(4) >= 3 * B
  {
    PowersOfB();
    BPowMono(2, 4);
  }

  lemma Cancel(c: nat, c': nat, weight: int, w: int, near: int)
    requires c' <= c && weight >= 1 && w >= 1 && near * w >= c * (weight * w)
    ensures near >= c' * weight
  {
    Associate(c, weight, w);
    if near < c * weight {
      MulStrict(near, c * weight, w);
    }
    MulMono(c', c, weight);
  }

  lemma Loosen(c: int, c': int, weight: int, w: int, least: int, near: int)
    requires 0 <= c' <= c && w >= 1 && near > c * weight && 1 <= least <= weight * w
    ensures near * w > c' * least
  {
    MulStrict(c * weight, near, w);
    Associate(c, weight, w);
    MulMono(c', c, weight * w);
    MulMono(least, weight * w, c');
  }

  // |x| is significand * 2^(exponent-1075). Returns the octant n, the remainder's sign and
  // its magnitude r; k and tail say how x*2/pi, in units of 2^-unit, is made up of them.
  method RemPio2Large(negative: bool, significand: nat, exponent: int, twoOverPi: seq<int>)
    returns (n: int, minus: bool, r: Outcome, ghost tx: seq<int>, ghost k: int, ghost tail: int)
    requires 0x10_0000_0000_0000 <= significand < 0x20_0000_0000_0000
    requires 1043 <= exponent < 2047
    requires Digits(twoOverPi) && |twoOverPi| == 66
    ensures 1 <= |tx| <= 3 && Digits(tx) && Horner(tx) * BPow(3 - |tx|) == significand * 0x8_0000
    ensures Reduces(tx, twoOverPi, exponent - 1046, 4, r)
    ensures var e0 := exponent - 1046;
            var far := LargeDistance(significand * 0x8_0000, twoOverPi, e0);
            && (far >= (1 + 3 * B) * BPow(64 - FirstEntry(e0)) ==> r.Reduced?)
            && (far <= (BPow(4) - 3 * B) * BPow(49 - FirstEntry(e0)) ==> r.Overrun?)
    ensures r.Reduced? ==>
      var unit := 24 * 69 - (exponent - 1046);
      && 0 <= Signed(negative, n) < 8
      && unit + r.q0 - 24 * r.jz >= 0
      && Meaning(significand * 0x8_0000 * Horner(twoOverPi) * B, unit, k, Signed(negative, n),
                 minus != negative, FractionValue(r, unit), tail, 3, 4)
  {
    hide Meaning, LargeDistance, FractionValue, Reduces, Horner, BPow;
    var e0 := exponent - 1046;
    var chunks := SplitSignificand(significand);
    tx := chunks;
    r := KernelRemPio2(chunks, e0, 2, twoOverPi);
    if LargeDistance(significand * 0x8_0000, twoOverPi, e0) >= (1 + 3 * B) * BPow(64 - FirstEntry(e0)) {
      LargeFarReduces(significand * 0x8_0000, tx, twoOverPi, e0, r);
    }
    n, minus, k, tail := 0, false, 0, 0;
    if r.Reduced? {
      n := if negative then -r.n else r.n;
      minus := (r.ih > 0) != negative;
      LargeReducedIsFar(significand * 0x8_0000, tx, twoOverPi, e0, r);
      k, tail := LargeMeaning(significand * 0x8_0000, tx, twoOverPi, e0, r);
    }
  }
}
