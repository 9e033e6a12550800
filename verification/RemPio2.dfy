// The C code of the reduction, phase by phase. A double that the code only ever
// gives integral values is an int with the bound that makes it exact; z after
// `scalbn(z,q0)` is kept in units of 2^min(q0,0).
module RemPio2 {
  import opened Arithmetic
  import opened Radix
  import opened PayneHanek
  import opened Wrappers
  import opened CInt

  // The integers that a double holds exactly.
  type Exact = z: int | -0x20_0000_0000_0000 <= z <= 0x20_0000_0000_0000

  const SIZE: nat := 20
  const INIT_JK: seq<nat> := [2, 3, 4, 6]

  // What the kernel leaves behind at the point where it starts to multiply by pi/2:
  // the octant, the sign, and the fraction as digits[0..jz], digits[jz] weighing 2^q0.
  // Overrun stands for the runs in which the C code indexes outside an array.
  datatype Outcome = Overrun | Reduced(n: int, ih: int, q0: int, jz: nat, digits: seq<int>)

  function BitOr(a: nat, b: nat): nat
    decreases a + b
  {
    if a == 0 && b == 0 then 0
    else 2 * BitOr(a / 2, b / 2) + if a % 2 == 1 || b % 2 == 1 then 1 else 0
  }

  lemma {:induction false} BitOrZero(a: nat, b: nat)
    ensures BitOr(a, b) == 0 <==> a == 0 && b == 0
    decreases a + b
  {
    if a != 0 || b != 0 {
      BitOrZero(a / 2, b / 2);
    }
  }

  // q[0..jz] and f[0..jx+jz] are what building them afresh for index jz gives.
  ghost predicate Built(f: array<Exact>, q: array<Exact>, x: seq<int>, tab: seq<int>, jv: nat, jz: nat)
    reads f, q
  {
    && f.Length == q.Length == SIZE && |x| >= 1 && Fits(x, tab, jv, jz)
    && (forall i | 0 <= i < |x| + jz :: f[i] == Entry(tab, jv - (|x| - 1) + i))
    && (forall i | 0 <= i <= jz :: q[i] == Chunk(x, tab, jv + i))
  }

  // One chunk of the convolution.
  method Convolve(x: seq<int>, f: array<Exact>, i: nat, ghost tab: seq<int>, ghost jv: nat) returns (fw: Exact)
    requires Digits(x) && Digits(tab) && 1 <= |x| <= SIZE
    requires f.Length == SIZE && |x| - 1 + i < SIZE
    requires forall j | i <= j < |x| + i :: f[j] == Entry(tab, jv - (|x| - 1) + j)
    ensures fw == Chunk(x, tab, jv + i)
  {
    var jx := |x| - 1;
    fw := 0;
    for j := 0 to jx + 1
      invariant fw == Conv(x, tab, jv + i, j)
    {
      ConvBound(x, tab, jv + i, j + 1);
      assert f[jx + i - j] == Entry(tab, jv + i - j);
      fw := fw + x[j] * f[jx + i - j];
    }
  }

  // Lines 187-193 of the source.
  method Build(x: seq<int>, ipio2: seq<int>, jv: nat, jk: nat) returns (f: array<Exact>, q: array<Exact>)
    requires Digits(x) && Digits(ipio2) && |x| >= 1 && Fits(x, ipio2, jv, jk)
    ensures fresh(f) && fresh(q) && f != q
    ensures Built(f, q, x, ipio2, jv, jk)
  {
    f, q := new Exact[SIZE], new Exact[SIZE];
    var jx := |x| - 1;
    var j := jv - jx;
    for i := 0 to jx + jk + 1
      invariant j == jv - jx + i
      invariant forall i' | 0 <= i' < i :: f[i'] == Entry(ipio2, jv - jx + i')
    {
      f[i] := if j < 0 then 0 else ipio2[j];
      j := j + 1;
    }
    for i := 0 to jk + 1
      invariant forall i' | 0 <= i' < |x| + jk :: f[i'] == Entry(ipio2, jv - jx + i')
      invariant forall i' | 0 <= i' < i :: q[i'] == Chunk(x, ipio2, jv + i')
    {
      var fw := Convolve(x, f, i, ipio2, jv);
      q[i] := fw;
    }
  }

  // Adds q[jz+1] to q[jz+k]: afterwards everything is as if built for jz+k.
  method Extend(x: seq<int>, ipio2: seq<int>, jv: nat, jz: nat, k: nat, f: array<Exact>, q: array<Exact>)
    requires Digits(x) && Digits(ipio2) && f != q
    requires Built(f, q, x, ipio2, jv, jz) && Fits(x, ipio2, jv, jz + k)
    modifies f, q
    ensures Built(f, q, x, ipio2, jv, jz + k)
  {
    var jx := |x| - 1;
    for i := jz + 1 to jz + k + 1
      invariant forall i' | 0 <= i' < jx + i :: f[i'] == Entry(ipio2, jv - jx + i')
      invariant forall i' | 0 <= i' < i :: q[i'] == Chunk(x, ipio2, jv + i')
    {
      f[jx + i] := ipio2[jv + i];
      var fw := Convolve(x, f, i, ipio2, jv);
      q[i] := fw;
    }
  }

  lemma {:induction false} HornerIsProduct(q: seq<int>, x: seq<int>, tab: seq<int>, jv: nat)
    requires forall i | 0 <= i < |q| :: q[i] == Chunk(x, tab, jv + i)
    ensures Horner(q) == Product(x, tab, jv, |q|)
  {
    if |q| > 0 {
      HornerIsProduct(q[..|q| - 1], x, tab, jv);
    }
  }

  // The largest value that a chunk of the convolution can have.
  const CHUNK_MAX: int := 20 * ((B - 1) * (B - 1))

  // Distils q[0..jz] into the digits iq[0..jz-1], least significant first, and z.
  method Distill(q: array<Exact>, iq: array<Int32>, jz: nat) returns (z: Exact)
    requires jz < q.Length && jz <= iq.Length
    requires forall i | 0 <= i <= jz :: 0 <= q[i] <= CHUNK_MAX
    modifies iq
    ensures Digits(iq[..jz])
    ensures 0 <= z <= 0x16_0000_0000_0000
    ensures z * BPow(jz) + Val(iq[..jz]) == Horner(q[..jz + 1])
  {
    ghost var qs: seq<int> := q[..jz + 1];
    var i, j := 0, jz;
    z := q[jz];
    assert qs[..jz + 1] == qs;
    while j > 0
      invariant 0 <= i && 0 <= j && i + j == jz
      invariant Digits(iq[..i])
      invariant 0 <= z <= 0x16_0000_0000_0000
      invariant Distilled(Horner(qs), qs, j, iq[..i], z)
    {
      CarryFits(z);
      var fw: Int32 := z / B;
      var digit: Int32 := z - B * fw;
      ghost var low: seq<int> := iq[..i];
      DistillStep(Horner(qs), qs, j, low, z, fw, digit);
      iq[i] := digit;
      z := q[j - 1] + fw;
      i, j := i + 1, j - 1;
      assert iq[..i] == low + [digit];
    }
    DistillEnd(Horner(qs), qs, iq[..jz], z);
  }

  lemma DistillEnd(v: int, qs: seq<int>, low: seq<int>, z: int)
    requires Distilled(v, qs, 0, low, z)
    ensures z * BPow(|low|) + Val(low) == v
  {
    assert Horner(qs[..0]) == 0;
  }

  lemma CarryFits(z: int)
    requires 0 <= z <= 0x16_0000_0000_0000
    ensures 0 <= z / B <= 0x1600_0000
    ensures 0 <= z - B * (z / B) < B
  {
  }

  // The value of the digits so far, z and the chunks q[0..j-1] still to come.
  ghost predicate Distilled(v: int, qs: seq<int>, j: nat, low: seq<int>, z: int)
    requires j <= |qs|
  {
    v == Val(low) + BPow(|low|) * (B * Horner(qs[..j]) + z)
  }

  lemma DistillStep(v: int, qs: seq<int>, j: nat, low: seq<int>, z: int, fw: int, digit: int)
    requires 1 <= j <= |qs| && digit == z - B * fw
    requires Distilled(v, qs, j, low, z)
    ensures Distilled(v, qs, j - 1, low + [digit], qs[j - 1] + fw)
  {
    assert qs[..j][..j - 1] == qs[..j - 1];
    ValSnoc(low, digit);
    Carry(BPow(|low|), Horner(qs[..j - 1]), qs[j - 1], z, fw);
  }

  lemma Carry(p: int, h: int, q: int, z: int, fw: int)
    ensures p * (B * (h * B + q) + z) == (z - B * fw) * p + B * p * (B * h + (q + fw))
  {
  }

  lemma WholeAndRest(p: int, one: int, quot: int, rem: int)
    requires 0 <= rem < one && p == quot * one + rem
    ensures Whole(p, one) == quot % 8 && Rest(p, one) == rem
  {
    DivModUnique(p, one, quot, rem);
  }

  // Whole and fractional part when z itself carries the fraction's top (q0 < 0):
  // n and r are z/s and z%s after dropping multiples of 8*s.
  lemma FractionBelow(zi: int, a: int, n: int, r: int, low: int, b: int, s: int, p: int, one: int)
    requires 0 <= low < b && 0 <= r < s && 0 <= n < 8
    requires zi == a * (8 * s) + (n * s + r)
    requires p == zi * b + low && one == s * b
    ensures Whole(p, one) == n
    ensures Rest(p, one) == r * b + low
  {
    hide Whole, Rest;
    var quot, rem := 8 * a + n, r * b + low;
    assert p == quot * one + rem by { Unfold(s, a, n, r, b); }
    assert 0 <= rem < one by {
      MulStrict(r, s, b);
      MulMono(0, r, b);
    }
    WholeAndRest(p, one, quot, rem);
  }

  lemma Unfold(s: int, a: int, n: int, r: int, b: int)
    ensures (a * (8 * s) + (n * s + r)) * b == (8 * a + n) * (s * b) + r * b
  {
    assert (a * (8 * s)) * b == (8 * a) * (s * b);
    assert (n * s) * b == n * (s * b);
  }

  // The same when the top digit i*t+r carries it (q0 >= 0): t = 2^(24-q0), u = 2^q0.
  lemma FractionInDigit(zi: int, i: int, r: int, low: int, bl: int, t: int, u: int, p: int, one: int)
    requires u * t == B && 0 <= low < bl && 0 <= r < t
    requires p == zi * (B * bl) + (i * t + r) * bl + low && one == t * bl
    ensures Whole(p, one) == (zi * u + i) % 8
    ensures Rest(p, one) == r * bl + low
  {
    hide Whole, Rest;
    var quot, rem := zi * u + i, r * bl + low;
    assert p == quot * one + rem by { Regroup4(zi, u, t, bl, i, r); }
    assert 0 <= rem < one by {
      MulStrict(r, t, bl);
      MulMono(0, r, bl);
    }
    WholeAndRest(p, one, quot, rem);
  }

  lemma LowBit(v: int, i: int)
    requires 0 <= i < 2
    ensures (2 * v + i) % 8 == (2 * v) % 8 + i
  {
    var a, b := v / 4, v % 4;
    DivModUnique(2 * v, 8, a, 2 * b);
    DivModUnique(2 * v + i, 8, a, 2 * b + i);
  }

  lemma LowBits(v: int, i: int)
    requires 0 <= i < 4
    ensures (4 * v + i) % 8 == (4 * v) % 8 + i
  {
    var a, b := v / 2, v % 2;
    DivModUnique(4 * v, 8, a, 4 * b);
    DivModUnique(4 * v + i, 8, a, 4 * b + i);
  }

  // Multiplying by 2^q0 leaves the low bits of the result free for the top bits of the next digit.
  lemma LowBitsFree(zi: int, whole: int, i: int, q0: int)
    requires 0 <= q0 <= 2 && 0 <= i < Pow2(q0)
    requires whole == if q0 == 0 then zi else if q0 == 1 then 2 * zi else 4 * zi
    ensures (zi * Pow2(q0) + i) % 8 == whole % 8 + i
  {
    Pow2Literals();
    hide Pow2;
    if q0 == 0 {
      assert zi * Pow2(q0) + i == whole;
    } else if q0 == 1 {
      assert zi * Pow2(q0) == 2 * zi;
      LowBit(zi, i);
    } else {
      assert zi * Pow2(q0) == 4 * zi;
      LowBits(zi, i);
    }
  }

  lemma Regroup4(zi: int, u: int, t: int, bl: int, i: int, r: int)
    ensures zi * ((u * t) * bl) + (i * t + r) * bl == (zi * u + i) * (t * bl) + r * bl
  {
    assert zi * ((u * t) * bl) == (zi * u) * (t * bl);
    assert (i * t) * bl == i * (t * bl);
  }

  // Comparing with one half only looks at the leading part.
  lemma HalfIsLeading(a: int, low: int, b: int, s: int)
    requires s % 2 == 0 && 0 <= low < b
    ensures 2 * (a * b + low) >= s * b <==> 2 * a >= s
  {
    var h := s / 2;
    if a >= h {
      MulMono(h, a, b);
    } else {
      MulStrict(a, h, b);
    }
    assert s * b == 2 * (h * b);
  }

  lemma NegativeExponent(zi: int, v: int, jz: nat, q0: int, a: int, n: int, r: int, p: int, one: int)
    requires q0 < 0 && 0 <= v < BPow(jz)
    requires 0 <= n < 8 && 0 <= r < Pow2(-q0)
    requires zi == a * (8 * Pow2(-q0)) + (n * Pow2(-q0) + r)
    requires p == zi * BPow(jz) + v && one == One(jz, q0)
    ensures n == Whole(p, one)
    ensures r * BPow(jz) + v == Rest(p, one)
    ensures RoundsUp(p, one) <==> 2 * r >= Pow2(-q0)
  {
    hide Whole, Rest, BPow, Pow2;
    var s := Pow2(-q0);
    assert one == s * BPow(jz) by {
      Pow2Add(-q0, 24 * jz);
      BPowIsPow2(jz);
    }
    FractionBelow(zi, a, n, r, v, BPow(jz), s, p, one);
    EvenPow2(-q0);
    HalfIsLeading(r, v, BPow(jz), s);
  }

  lemma EvenPow2(e: nat)
    requires e >= 1
    ensures Pow2(e) % 2 == 0
  {
    var half := Pow2(e - 1);
    assert Pow2(e) == 2 * half;
    hide Pow2;
    DivModUnique(Pow2(e), 2, half, 0);
  }

  lemma TopDigit(zi: int, whole: int, v: int, i: int, r: int, jz: nat, q0: int, p: int, one: int)
    requires 0 <= q0 <= 2 && jz >= 1
    requires whole == if q0 == 0 then zi else if q0 == 1 then 2 * zi else 4 * zi
    requires 0 <= v < BPow(jz - 1) && 0 <= r < Pow2(24 - q0) && 0 <= i < Pow2(q0)
    requires p == zi * BPow(jz) + (i * Pow2(24 - q0) + r) * BPow(jz - 1) + v && one == One(jz, q0)
    ensures Whole(p, one) == whole % 8 + i
    ensures Rest(p, one) == r * BPow(jz - 1) + v
    ensures RoundsUp(p, one) <==> 2 * r >= Pow2(24 - q0)
  {
    hide Whole, Rest, BPow, Pow2;
    var t, bl := Pow2(24 - q0), BPow(jz - 1);
    OneTop(jz, q0);
    Pow2Literals();
    BPowStep(jz);
    FractionInDigit(zi, i, r, v, bl, t, Pow2(q0), p, one);
    LowBitsFree(zi, whole, i, q0);
    HalfIsLeading(r, v, bl, t);
  }

  lemma OneTop(jz: nat, q0: int)
    requires 0 <= q0 <= 2 && jz >= 1
    ensures One(jz, q0) == Pow2(24 - q0) * BPow(jz - 1)
  {
    Pow2Add(24 - q0, 24 * (jz - 1));
    BPowIsPow2(jz - 1);
  }

  // The two parts that the shifts by 24-q0 and 23-q0 split the top digit into.
  lemma ShiftTop(d: int, q0: int, t: int, h: int)
    requires 0 <= d < B && 1 <= q0 <= 2 && t == Pow2(24 - q0) && h == Pow2(23 - q0)
    ensures 0 < h && t == 2 * h
    ensures 0 <= d / t < Pow2(q0) <= 4
    ensures 0 <= d - d / t * t < t <= B
    ensures (d - d / t * t) / h == if 2 * (d - d / t * t) >= t then 1 else 0
  {
    Pow2Literals();
    if q0 == 1 {
      assert t == 0x80_0000 && h == 0x40_0000;
    } else {
      assert t == 0x40_0000 && h == 0x20_0000;
    }
  }

  lemma Floor(v: int, e: int)
    requires e >= 1
    ensures 0 <= v - e * (v / e) < e
  {
  }

  // The integer part of z without multiples of eight, and what is left of z.
  method SplitWhole(zi: int, unit: nat) returns (n: Int32, z: int, ghost a: int)
    requires unit >= 1 && 0 <= zi
    ensures 0 <= n < 8 && 0 <= z < unit && z <= zi
    ensures zi == a * (8 * unit) + (n * unit + z)
  {
    a := zi / (8 * unit);
    Floor(zi, 8 * unit);
    z := zi - 8 * unit * (zi / (8 * unit));              // trim off integer >= 8
    ghost var z0 := z;
    Floor(z, unit);
    BelowEight(z, unit);
    n := z / unit;
    z := z - unit * n;
    WholeFits(zi, a, unit, n, z, z0);
  }

  lemma BelowEight(z: int, unit: int)
    requires unit >= 1 && 0 <= z < 8 * unit
    ensures 0 <= z / unit < 8
  {
    Floor(z, unit);
  }

  lemma WholeFits(zi: int, a: int, unit: int, n: int, z: int, z0: int)
    requires unit >= 1 && zi >= 0 && 0 <= n && 0 <= z0 < 8 * unit
    requires z0 == zi - 8 * unit * a && z == z0 - unit * n
    ensures zi == a * (8 * unit) + (n * unit + z) && z <= zi
  {
    MulMono(0, n, unit);
    if a < 0 { MulMono(a, -1, 8 * unit); } else { MulMono(0, a, 8 * unit); }
  }

  // Takes the octant's bits, if any, off the top digit.
  method TakeTopBits(iq: array<Int32>, top: nat, q0: int) returns (i: Int32, ih: Int32)
    requires top < iq.Length && 0 <= q0 <= 2 && 0 <= iq[top] < B
    modifies iq
    ensures forall m | 0 <= m < iq.Length && m != top :: iq[m] == old(iq[m])
    ensures 0 <= iq[top] < Pow2(24 - q0) <= B && 0 <= i < Pow2(q0) <= 4
    ensures old(iq[top]) == i * Pow2(24 - q0) + iq[top]
    ensures ih == if 2 * iq[top] >= Pow2(24 - q0) then 1 else 0
  {
    hide Pow2;
    i := 0;
    if q0 > 0 {
      var t, h := Pow2(24 - q0), Pow2(23 - q0);
      ShiftTop(iq[top], q0, t, h);
      i := iq[top] / t;                                  // iq[jz-1] >> (24-q0)
      iq[top] := iq[top] - i * t;
      ih := iq[top] / h;                                 // iq[jz-1] >> (23-q0)
    } else {
      Pow2Literals();
      ih := iq[top] / 0x80_0000;
    }
  }

  lemma ValSnoc(s: seq<int>, d: int)
    ensures Val(s + [d]) == Val(s) + d * BPow(|s|)
  {
    assert (s + [d])[..|s|] == s;
  }

  // z, n and ih from the distilled product p, which is z*2^(24*jz) and the digits.
  method ExtractOctant(iq: array<Int32>, jz: nat, q0: int, zi: Exact, ghost p: int)
    returns (z: int, n: Int32, ih: Int32)
    requires 1 <= jz <= iq.Length && q0 <= 2 && 0 <= zi <= 0x16_0000_0000_0000
    requires Digits(iq[..jz]) && p == zi * BPow(jz) + Val(iq[..jz])
    modifies iq
    ensures Digits(iq[..jz])
    ensures n == Whole(p, One(jz, q0))
    ensures z * BPow(jz) + Val(iq[..jz]) == Rest(p, One(jz, q0))
    ensures ih > 0 <==> RoundsUp(p, One(jz, q0))
    ensures 0 <= ih <= 2
    ensures if q0 < 0 then 0 <= z < Pow2(-q0) && z <= zi && (ih > 0 ==> 2 * z >= Pow2(-q0)) else z == 0
  {
    hide Whole, Rest, Val, BPow, Pow2;
    ValBound(iq[..jz]);
    if q0 < 0 {
      n, z, ih := OctantOfZ(zi, jz, q0, Val(iq[..jz]), p, One(jz, q0));
    } else {
      z := 0;
      n, ih := OctantInDigit(iq, jz, q0, zi, p);
    }
  }

  // q0 < 0: z holds the octant and the top of the fraction.
  method OctantOfZ(zi: nat, jz: nat, q0: int, ghost v: int, ghost p: int, ghost one: int)
    returns (n: Int32, z: int, ih: Int32)
    requires q0 < 0
    requires v >= 0 && v < BPow(jz) && p == zi * BPow(jz) + v && one == One(jz, q0)
    ensures n == Whole(p, one)
    ensures z * BPow(jz) + v == Rest(p, one)
    ensures ih == if RoundsUp(p, one) then 2 else 0
    ensures 0 <= z < Pow2(-q0) && z <= zi && (ih > 0 ==> 2 * z >= Pow2(-q0))
  {
    hide Whole, Rest;
    ghost var a;
    n, z, a := SplitWhole(zi, Pow2(-q0));
    NegativeExponent(zi, v, jz, q0, a, n, z, p, one);
    ih := if 2 * z >= Pow2(-q0) then 2 else 0;
  }

  // q0 >= 0: the low bits of the octant and all of the fraction sit in the digits.
  method OctantInDigit(iq: array<Int32>, jz: nat, q0: int, zi: nat, ghost p: int) returns (n: Int32, ih: Int32)
    requires 1 <= jz <= iq.Length && 0 <= q0 <= 2
    requires Digits(iq[..jz]) && p == zi * BPow(jz) + Val(iq[..jz])
    modifies iq
    ensures Digits(iq[..jz])
    ensures n == Whole(p, One(jz, q0))
    ensures Val(iq[..jz]) == Rest(p, One(jz, q0))
    ensures ih == if RoundsUp(p, One(jz, q0)) then 1 else 0
  {
    hide Whole, Rest;
    Pow2Literals();
    var whole := if q0 == 0 then zi else if q0 == 1 then 2 * zi else 4 * zi;      // scalbn(z, q0)
    var rest;
    ghost var a;
    n, rest, a := SplitWhole(whole, 1);
    DivModUnique(whole, 8, a, n);
    var i;
    i, ih := OctantBits(iq, jz, q0, zi, whole, p);
    n := n + i;
  }

  method OctantBits(iq: array<Int32>, jz: nat, q0: int, ghost zi: int, ghost whole: int, ghost p: int)
    returns (i: Int32, ih: Int32)
    requires 1 <= jz <= iq.Length && 0 <= q0 <= 2
    requires Digits(iq[..jz]) && p == zi * BPow(jz) + Val(iq[..jz])
    requires whole == if q0 == 0 then zi else if q0 == 1 then 2 * zi else 4 * zi
    modifies iq
    ensures Digits(iq[..jz])
    ensures Whole(p, One(jz, q0)) == whole % 8 + i && 0 <= i < 4
    ensures Val(iq[..jz]) == Rest(p, One(jz, q0))
    ensures ih == if RoundsUp(p, One(jz, q0)) then 1 else 0
  {
    hide Whole, Rest, Val, BPow, Pow2;
    ghost var low: seq<int>, top := iq[..jz - 1], iq[jz - 1];
    assert iq[..jz] == low + [top];
    i, ih := TakeTopBits(iq, jz - 1, q0);
    assert iq[..jz] == low + [iq[jz - 1]];
    ValSnoc(low, top);
    ValSnoc(low, iq[jz - 1]);
    ValBound(low);
    TopDigit(zi, whole, Val(low), i, iq[jz - 1], jz, q0, p, One(jz, q0));
  }

  // The digits of B^jz minus their value; carry tells whether any digit was non-zero.
  method ComplementDigits(iq: array<Int32>, jz: nat) returns (carry: int)
    requires jz <= iq.Length && Digits(iq[..jz])
    modifies iq
    ensures Digits(iq[..jz])
    ensures carry == if old(Val(iq[..jz])) == 0 then 0 else 1
    ensures Val(iq[..jz]) == (if carry == 0 then 0 else BPow(jz)) - old(Val(iq[..jz]))
  {
    hide BPow;
    ghost var was: seq<int> := iq[..jz];
    carry := 0;
    for i := 0 to jz
      invariant forall m | i <= m < jz :: iq[m] == was[m]
      invariant Digits(iq[..i])
      invariant Complemented(was[..i], iq[..i], carry)
    {
      ghost var now: seq<int>, c0 := iq[..i], carry;
      var j := iq[i];
      assert was[..i + 1] == was[..i] + [j];
      if carry == 0 {
        if j != 0 {
          carry := 1;
          iq[i] := 0x100_0000 - j;
        }
      } else {
        iq[i] := 0xff_ffff - j;
      }
      assert iq[..i + 1] == now + [iq[i]];
      ComplementStep(was[..i], now, j, iq[i], c0, carry);
    }
    assert was[..jz] == was;
  }

  ghost predicate Complemented(s: seq<int>, t: seq<int>, carry: int) {
    && carry == (if Val(s) == 0 then 0 else 1)
    && Val(t) == (if carry == 0 then 0 else BPow(|s|)) - Val(s)
  }

  lemma ComplementStep(s: seq<int>, t: seq<int>, j: int, j': int, c: int, c': int)
    requires Digits(s) && |t| == |s| && 0 <= j < B
    requires Complemented(s, t, c)
    requires c' == if c == 0 && j == 0 then 0 else 1
    requires j' == if c == 1 then B - 1 - j else if j == 0 then 0 else B - j
    ensures Complemented(s + [j], t + [j'], c')
  {
    ValSnoc(s, j);
    ValSnoc(t, j');
    ValBound(s);
    ComplementDigit(Val(s), j, j', BPow(|s|), c, c');
  }

  lemma ComplementDigit(v: int, j: int, j': int, p: int, c: int, c': int)
    requires 0 <= v < p && 0 <= j
    requires c == if v == 0 then 0 else 1
    requires c' == if c == 0 && j == 0 then 0 else 1
    requires j' == if c == 1 then B - 1 - j else if j == 0 then 0 else B - j
    ensures c' == if v + j * p == 0 then 0 else 1
    ensures (if c == 0 then 0 else p) - v + j' * p == (if c' == 0 then 0 else B * p) - (v + j * p)
  {
    MulMono(if j == 0 then 0 else 1, j, p);
    assert (B - j) * p == B * p - j * p;
    assert (B - 1 - j) * p == B * p - p - j * p;
  }

  // Masking the complemented top digit: t = 2^(24-q0), u = 2^q0.
  lemma MaskTop(low: int, top: int, f: int, t: int, u: int, bl: int)
    requires u == 2 || u == 4
    requires u * t == B && 0 <= low < bl && 0 <= top < B && 0 <= f < t * bl
    requires top * bl + low == B * bl - f
    ensures top % t == top - (u - 1) * t && 0 <= top % t < t
    ensures (top % t) * bl + low == t * bl - f
  {
    var c := (u - 1) * t;
    assert c == B - t;
    assert c * bl == B * bl - t * bl;
    if top < c {
      MulStrict(top, c, bl);
      assert false;
    }
    DivModUnique(top, t, u - 1, top - c);
    assert (top - c) * bl == top * bl - c * bl;
  }

  // Replaces the fraction by its distance to the next integer.
  method Complement(iq: array<Int32>, jz: nat, q0: int, z: int, ghost f: int) returns (z': int)
    requires 1 <= jz <= iq.Length && q0 <= 2 && Digits(iq[..jz])
    requires f == z * BPow(jz) + Val(iq[..jz]) && 0 < f < One(jz, q0)
    requires if q0 < 0 then 0 <= z < Pow2(-q0) else z == 0
    modifies iq
    ensures Digits(iq[..jz])
    ensures z' * BPow(jz) + Val(iq[..jz]) == One(jz, q0) - f
    ensures if q0 < 0 then 0 <= z' <= Pow2(-q0) - z else z' == 0
  {
    hide Val, BPow;
    z' := z;
    var carry := ComplementDigits(iq, jz);
    if q0 > 0 {
      MaskDigit(iq, jz, q0, f);
    }
    if q0 < 0 {                                  // ih == 2
      z' := Pow2(-q0) - z';
      if carry != 0 {
        z' := z' - 1;
      }
      Pow2Add(-q0, 24 * jz);
      BPowIsPow2(jz);
      var s := Pow2(-q0);
      Distribute(s - z, -carry, BPow(jz));
      Distribute(s, -z, BPow(jz));
    } else if q0 == 0 {
      BPowIsPow2(jz);
    }
  }

  lemma BPowStep(k: nat)
    requires k >= 1
    ensures BPow(k) == B * BPow(k - 1)
  {
  }

  method MaskDigit(iq: array<Int32>, jz: nat, q0: int, ghost f: int)
    requires 1 <= jz <= iq.Length && 1 <= q0 <= 2 && Digits(iq[..jz])
    requires Val(iq[..jz]) == BPow(jz) - f && 0 < f < One(jz, q0)
    modifies iq
    ensures Digits(iq[..jz])
    ensures Val(iq[..jz]) == One(jz, q0) - f
  {
    hide Val, One, BPow, Pow2;
    ghost var low: seq<int>, top := iq[..jz - 1], iq[jz - 1];
    assert iq[..jz] == low + [top];
    ValSnoc(low, top);
    ValBound(low);
    Pow2Literals();
    OneTop(jz, q0);
    BPowStep(jz);
    MaskTop(Val(low), top, f, Pow2(24 - q0), Pow2(q0), BPow(jz - 1));
    if q0 == 1 {
      iq[jz - 1] := iq[jz - 1] % 0x80_0000;      // &= 0x7fffff
    } else {
      iq[jz - 1] := iq[jz - 1] % 0x40_0000;      // &= 0x3fffff
    }
    assert iq[..jz] == low + [iq[jz - 1]];
    ValSnoc(low, iq[jz - 1]);
  }

  // Does the fraction have no non-zero digit at index jk or above?
  method NeedsMoreTerms(iq: array<Int32>, jz: nat, jk: nat, z: int) returns (more: bool)
    requires jk <= jz <= iq.Length && Digits(iq[..jz]) && z >= 0
    ensures more <==> z * BPow(jz) + Val(iq[..jz]) < BPow(jk)
    ensures more ==> z == 0
  {
    BelowPower(iq[..jz], jk);
    ValBound(iq[..jz]);
    more := false;
    if z == 0 {
      var j: nat := 0;
      var i := jz - 1;
      while i >= jk
        invariant jk - 1 <= i < jz
        invariant j == 0 <==> forall m | i < m < jz :: iq[m] == 0
      {
        BitOrZero(j, iq[i]);
        j := BitOr(j, iq[i]);
        i := i - 1;
      }
      ghost var s: seq<int> := iq[..jz];
      assert forall m | jk <= m < jz :: s[m] == iq[m];
      more := j == 0;
    } else {
      MulMono(1, z, BPow(jz));
      BPowMono(jk, jz);
    }
  }

  // The number of terms to add: one more than the zero digits below index jk.
  // Zero stands for the run off the front of iq when all of them are zero.
  method CountTerms(iq: array<Int32>, jz: nat, jk: nat, ghost v: nat) returns (k: nat)
    requires 1 <= jk <= jz <= iq.Length && Digits(iq[..jz])
    requires v == Val(iq[..jz]) < BPow(jk)
    ensures k == if v == 0 then 0 else jk - Len(v) + 1
  {
    hide Val, BPow, Len;
    ghost var s: seq<int> := iq[..jz];
    BelowPower(s, jk);
    ValZero(s);
    ValBound(s);
    k := 1;
    while iq[jk - k] == 0
      invariant 1 <= k <= jk
      invariant forall m | jk - k < m < jz :: s[m] == 0
      decreases jk - k
    {
      if k == jk {
        return 0;
      }
      k := k + 1;
    }
    BelowPower(s, jk - k + 1);
    BelowPower(s, jk - k);
    LenExact(Val(s), jk - k + 1);
  }

  // Drops zero chunks from the top.
  method DropZeroChunks(iq: array<Int32>, jz0: nat, q00: int, jk: nat, ghost f: nat) returns (jz: nat, q0: int)
    requires jk < jz0 <= iq.Length && Digits(iq[..jz0])
    requires Val(iq[..jz0]) == f && f >= BPow(jk)
    ensures jk <= jz < jz0 && q0 - 24 * jz == q00 - 24 * jz0
    ensures Val(iq[..jz + 1]) == f && iq[jz] > 0
  {
    hide Val, BPow;
    ghost var s: seq<int> := iq[..jz0];
    BelowPower(s, jk);
    jz, q0 := jz0 - 1, q00 - 24;
    assert iq[..jz + 1] == s;
    while iq[jz] == 0
      invariant jk <= jz < jz0 && q0 - 24 * jz == q00 - 24 * jz0
      invariant Val(iq[..jz + 1]) == f
      invariant forall m | jz < m < jz0 :: s[m] == 0
      decreases jz
    {
      assert iq[..jz + 1] == iq[..jz] + [0];
      ValSnoc(iq[..jz], 0);
      jz, q0 := jz - 1, q0 - 24;
    }
  }

  // Appends z as the top chunk, or as two chunks when it needs more than 24 bits.
  method AppendTop(iq: array<Int32>, jz0: nat, q00: int, z: int) returns (jz: nat, q0: int)
    requires iq.Length == SIZE && jz0 < SIZE && Digits(iq[..jz0])
    requires 0 < z <= 0x16_0000_0000_0000 && (z >= B ==> jz0 + 1 < SIZE)
    modifies iq
    ensures jz0 <= jz < SIZE && q0 - 24 * jz == q00 - 24 * jz0
    ensures Val(iq[..jz + 1]) == z * BPow(jz0) + old(Val(iq[..jz0]))
    ensures iq[jz] > 0 && Digits(iq[..jz])
  {
    jz, q0 := jz0, q00;
    ghost var s: seq<int> := iq[..jz];
    if z >= B {
      CarryFits(z);
      var fw: Int32 := z / B;
      var low: Int32 := z - B * fw;
      iq[jz] := low;
      jz, q0 := jz + 1, q0 + 24;
      iq[jz] := fw;
      assert iq[..jz] == s + [low];
      assert iq[..jz + 1] == (s + [low]) + [fw];
      ValSnoc(s, low);
      ValSnoc(s + [low], fw);
      TwoChunks(z, low, fw, BPow(jz0));
    } else {
      iq[jz] := z;
      assert iq[..jz + 1] == s + [z];
      ValSnoc(s, z);
    }
  }

  lemma TwoChunks(z: int, low: int, fw: int, p: int)
    requires z == B * fw + low
    ensures low * p + fw * (B * p) == z * p
  {
  }

  // r holds the fraction f, its top chunk non-zero, in units of 2^(q0-24*jz).
  predicate Holds(r: Outcome, jk: nat, unit: int, f: int) {
    && r.Reduced?
    && r.q0 - 24 * r.jz == unit
    && jk <= r.jz < SIZE && |r.digits| == r.jz + 1
    && Val(r.digits) == f
    && r.digits[r.jz] > 0 && Digits(r.digits[..r.jz])
  }

  // r is what the product of x and the table calls for: an overrun exactly when the
  // loop cannot settle inside the buffers, else octant, sign and fraction of the product
  // cut at the index where it settles.
  ghost predicate Reduces(x: seq<int>, tab: seq<int>, e0: int, jk: nat, r: Outcome)
    requires |x| >= 1 && jk >= 1 && Fits(x, tab, FirstEntry(e0), jk)
  {
    var jv, q0 := FirstEntry(e0), FirstExponent(e0);
    match Settle(x, tab, jv, q0, jk, jk)
    case None => r.Overrun?
    case Some(m) =>
      var p, one := Product(x, tab, jv, m + 1), One(m, q0);
      && Holds(r, jk, q0 - 24 * m, Fraction(p, one))
      && r.n == Octant(p, one) % 8
      && (r.ih > 0 <==> RoundsUp(p, one))
  }

  predicate Chopped(r: Outcome, jk: nat, jz: nat, q0: int, n: int, ih: int, f: int) {
    if jz + 1 >= SIZE && f >= BPow(jz + 1) then r.Overrun?
    else Holds(r, jk, q0 - 24 * jz, f) && r.n == n % 8 && r.ih == ih
  }

  lemma Conclude(x: seq<int>, tab: seq<int>, e0: int, jk: nat, m: nat, f: nat, n: int, ih: int, r: Outcome)
    requires |x| >= 1 && 1 <= jk <= m && Fits(x, tab, FirstEntry(e0), jk) && Fits(x, tab, FirstEntry(e0), m)
    requires Settle(x, tab, FirstEntry(e0), FirstExponent(e0), jk, jk)
          == Settle(x, tab, FirstEntry(e0), FirstExponent(e0), jk, m)
    requires f == FractionAt(x, tab, FirstEntry(e0), FirstExponent(e0), m) && f >= BPow(jk)
    requires n == Octant(Product(x, tab, FirstEntry(e0), m + 1), One(m, FirstExponent(e0)))
    requires ih > 0 <==> RoundsUp(Product(x, tab, FirstEntry(e0), m + 1), One(m, FirstExponent(e0)))
    requires Chopped(r, jk, m, FirstExponent(e0), n, ih, f)
    ensures Reduces(x, tab, e0, jk, r)
  {
    hide Settle, FirstEntry, FirstExponent, Holds, Octant, RoundsUp, Product, BPow, One, Fraction;
    SettlesHere(x, tab, FirstEntry(e0), FirstExponent(e0), jk, m);
  }

  lemma SettlesHere(x: seq<int>, tab: seq<int>, jv: nat, q0: int, jk: nat, m: nat)
    requires |x| >= 1 && 1 <= jk <= m && q0 <= 2 && Fits(x, tab, jv, m)
    requires FractionAt(x, tab, jv, q0, m) >= BPow(jk)
    ensures Settle(x, tab, jv, q0, jk, m)
         == if m + 1 >= SIZE && FractionAt(x, tab, jv, q0, m) >= BPow(m + 1) then None else Some(m)
  {
    hide FractionAt, BPow;
  }

  // The code after the recomputation test, down to the chopped chunks.
  method Chop(iq: array<Int32>, jz: nat, q0: int, z: int, n: int, ih: int, jk: nat, ghost f: nat) returns (r: Outcome)
    requires iq.Length == SIZE && 1 <= jk <= jz < SIZE && Digits(iq[..jz])
    requires 0 <= z <= 0x16_0000_0000_0000
    requires f == z * BPow(jz) + Val(iq[..jz]) && f >= BPow(jk)
    modifies iq
    ensures Chopped(r, jk, jz, q0, n, ih, f)
  {
    hide Val, BPow;
    ValBound(iq[..jz]);
    TopChunks(z, Val(iq[..jz]), jz);
    var jz', q0';
    if z == 0 {
      if jk == jz { assert false; }
      jz', q0' := DropZeroChunks(iq, jz, q0, jk, f);
      assert iq[..jz'] == iq[..jz][..jz'];
    } else {
      if z >= B && jz + 1 >= SIZE {
        return Overrun;
      }
      jz', q0' := AppendTop(iq, jz, q0, z);
    }
    assert iq[..jz' + 1][..jz'] == iq[..jz'];
    r := Reduced(n % 8, ih, q0', jz', iq[..jz' + 1]);
  }

  // The jump back to `recompute`: the new jz, or None when an index would leave its array.
  method MoreTerms(x: seq<int>, ipio2: seq<int>, jv: nat, q0: int, jk: nat, jz: nat,
        f: array<Exact>, q: array<Exact>, iq: array<Int32>, ghost n: int, ghost ih: int)
    returns (next: Option<nat>)
    requires Digits(x) && Digits(ipio2) && f != q && 1 <= jk <= jz && q0 <= 2
    requires Built(f, q, x, ipio2, jv, jz) && Rounded(iq, 0, n, ih, jz, q0, x, ipio2, jv)
    requires FractionAt(x, ipio2, jv, q0, jz) < BPow(jk)
    modifies f, q
    ensures next == TermsNeeded(x, ipio2, jv, jk, jz, FractionAt(x, ipio2, jv, q0, jz))
    ensures next.Some? ==> jz < next.value && Built(f, q, x, ipio2, jv, next.value)
  {
    hide Whole, Rest, Product;
    ghost var v := FractionAt(x, ipio2, jv, q0, jz);
    if v > 0 { ShortLen(v, jk); }
    var k := CountTerms(iq, jz, jk, v);
    if k == 0 || |x| - 1 + (jz + k) >= SIZE || jv + (jz + k) >= |ipio2| {
      return None;
    }
    Extend(x, ipio2, jv, jz, k, f, q);
    next := Some(jz + k);
  }

  // Does the fraction at index jz have no non-zero digit at index jk or above?
  method TestFraction(iq: array<Int32>, z: int, n: int, ih: int, jz: nat, jk: nat, q0: int,
        ghost x: seq<int>, ghost tab: seq<int>, ghost jv: nat)
    returns (more: bool)
    requires jk <= jz && q0 <= 2 && 1 <= jz && Rounded(iq, z, n, ih, jz, q0, x, tab, jv)
    ensures more <==> FractionAt(x, tab, jv, q0, jz) < BPow(jk)
    ensures more ==> z == 0
  {
    hide Whole, Rest, Product;
    more := NeedsMoreTerms(iq, jz, jk, z);
  }

  // The code between `recompute` and the chopping, with its jumps back: the index where it
  // stops, or None when an index would leave its array.
  method Recompute(x: seq<int>, ipio2: seq<int>, jv: nat, q0: int, jk: nat,
        f: array<Exact>, q: array<Exact>, iq: array<Int32>)
    returns (stop: Option<nat>, z: int, n: int, ih: int)
    requires Digits(x) && Digits(ipio2) && f != q && 1 <= jk && q0 <= 2
    requires |x| >= 1 && Fits(x, ipio2, jv, jk) && Built(f, q, x, ipio2, jv, jk) && iq.Length == SIZE
    modifies f, q, iq
    ensures stop.None? ==> Settle(x, ipio2, jv, q0, jk, jk) == None
    ensures stop.Some? ==> jk <= stop.value && Fits(x, ipio2, jv, stop.value)
    ensures stop.Some? ==> Settle(x, ipio2, jv, q0, jk, jk) == Settle(x, ipio2, jv, q0, jk, stop.value)
    ensures stop.Some? ==> FractionAt(x, ipio2, jv, q0, stop.value) >= BPow(jk)
    ensures stop.Some? ==> Rounded(iq, z, n, ih, stop.value, q0, x, ipio2, jv)
  {
    hide Built, Rounded, FractionAt;
    var jz := jk;
    z, n, ih := Round(f, q, iq, jz, q0, x, ipio2, jv);
    var more := TestFraction(iq, z, n, ih, jz, jk, q0, x, ipio2, jv);
    while more                                     // goto recompute
      invariant jk <= jz && Fits(x, ipio2, jv, jz) && Built(f, q, x, ipio2, jv, jz)
      invariant Settle(x, ipio2, jv, q0, jk, jk) == Settle(x, ipio2, jv, q0, jk, jz)
      invariant Rounded(iq, z, n, ih, jz, q0, x, ipio2, jv)
      invariant more <==> FractionAt(x, ipio2, jv, q0, jz) < BPow(jk)
      invariant more ==> z == 0
      decreases SIZE - jz
    {
      stop := MoreTerms(x, ipio2, jv, q0, jk, jz, f, q, iq, n, ih);
      if stop.None? {
        return;
      }
      jz := stop.value;
      z, n, ih := Round(f, q, iq, jz, q0, x, ipio2, jv);
      more := TestFraction(iq, z, n, ih, jz, jk, q0, x, ipio2, jv);
    }
    stop := Some(jz);
  }

  // Lines 182-184 of the source.
  method Position(e0: int) returns (jv: nat, q0: int)
    ensures jv == FirstEntry(e0) && q0 == FirstExponent(e0)
  {
    var j := TruncDiv(e0 - 3, 24);
    if j < 0 { j := 0; }
    jv := j;
    q0 := e0 - 24 * (jv + 1);
  }

  method KernelRemPio2(x: seq<int>, e0: int, prec: nat, ipio2: seq<int>) returns (r: Outcome)
    requires |x| >= 1 && Digits(x) && Digits(ipio2) && prec < 4
    requires Fits(x, ipio2, FirstEntry(e0), INIT_JK[prec])
    ensures Reduces(x, ipio2, e0, INIT_JK[prec], r)
  {
    hide Whole, Rest, Product, Octant, RoundsUp, One, BPow, Chopped, Settle;
    var jk := INIT_JK[prec];
    var jv, q0 := Position(e0);
    var f, q := Build(x, ipio2, jv, jk);
    var iq := new Int32[SIZE];
    var stop, z, n, ih := Recompute(x, ipio2, jv, q0, jk, f, q, iq);
    if stop.None? {
      return Overrun;
    }
    ghost var v := FractionAt(x, ipio2, jv, q0, stop.value);
    r := Chop(iq, stop.value, q0, z, n, ih, jk, v);
    Conclude(x, ipio2, e0, jk, stop.value, v, n, ih, r);
  }

  lemma TopChunks(z: int, v: int, jz: nat)
    requires 0 <= v < BPow(jz)
    ensures z >= B <==> z * BPow(jz) + v >= BPow(jz + 1)
  {
    if z >= B {
      MulMono(B, z, BPow(jz));
    } else {
      MulMono(z, B - 1, BPow(jz));
    }
  }

  // iq, z, n and ih hold fraction, octant and sign of the product cut at index jz.
  ghost predicate Rounded(iq: array<Int32>, z: int, n: int, ih: int, jz: nat, q0: int,
        x: seq<int>, tab: seq<int>, jv: nat)
    requires q0 <= 24 * jz
    reads iq
  {
    var p, one := Product(x, tab, jv, jz + 1), One(jz, q0);
    && iq.Length == SIZE && jz < SIZE && Digits(iq[..jz])
    && 0 <= z <= 0x16_0000_0000_0000
    && z * BPow(jz) + Val(iq[..jz]) == Fraction(p, one)
    && n == Octant(p, one)
    && (ih > 0 <==> RoundsUp(p, one))
  }

  lemma ChunkRange(x: seq<int>, tab: seq<int>, m: int)
    requires Digits(x) && Digits(tab) && |x| <= SIZE
    ensures 0 <= Chunk(x, tab, m) <= CHUNK_MAX
  {
    ConvBound(x, tab, m, |x|);
    MulMono(|x|, SIZE, (B - 1) * (B - 1));
  }

  method DistillProduct(f: array<Exact>, q: array<Exact>, iq: array<Int32>, jz: nat,
        ghost x: seq<int>, ghost tab: seq<int>, ghost jv: nat)
    returns (z: Exact)
    requires iq.Length == SIZE && Digits(x) && Digits(tab) && Built(f, q, x, tab, jv, jz)
    modifies iq
    ensures jz < SIZE && Digits(iq[..jz]) && 0 <= z <= 0x16_0000_0000_0000
    ensures z * BPow(jz) + Val(iq[..jz]) == Product(x, tab, jv, jz + 1)
  {
    hide Val, BPow, Product, Chunk, Horner;
    forall i | 0 <= i <= jz
      ensures 0 <= q[i] <= CHUNK_MAX
    {
      ChunkRange(x, tab, jv + i);
    }
    HornerIsProduct(q[..jz + 1], x, tab, jv);
    z := Distill(q, iq, jz);
  }

  // From `recompute` to the test for more terms.
  method Round(f: array<Exact>, q: array<Exact>, iq: array<Int32>, jz: nat, q0: int,
        ghost x: seq<int>, ghost tab: seq<int>, ghost jv: nat)
    returns (z: int, n: Int32, ih: Int32)
    requires iq.Length == SIZE && 1 <= jz && q0 <= 2
    requires Digits(x) && Digits(tab) && Built(f, q, x, tab, jv, jz)
    modifies iq
    ensures Rounded(iq, z, n, ih, jz, q0, x, tab, jv)
  {
    hide Whole, Rest, Product, Built;
    ghost var p, one := Product(x, tab, jv, jz + 1), One(jz, q0);
    var zi := DistillProduct(f, q, iq, jz, x, tab, jv);
    z, n, ih := ExtractOctant(iq, jz, q0, zi, p);
    if ih > 0 {
      n := n + 1;
      z := Complement(iq, jz, q0, z, Rest(p, one));
    }
  }
}
