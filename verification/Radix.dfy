// Powers of two and numbers held in 24-bit chunks.
module Radix {
  import opened Arithmetic

  // The chunk base, 2^24 (`two24` in the C source).
  const B: int := 0x1000000

  function Pow2(e: nat): (r: nat)
    ensures r >= 1
  {
    if e == 0 then 1 else 2 * Pow2(e - 1)
  }

  function BPow(k: nat): (r: nat)
    ensures r >= 1
  {
    if k == 0 then 1 else B * BPow(k - 1)
  }

  predicate Digits(s: seq<int>) {
    forall i | 0 <= i < |s| :: 0 <= s[i] < B
  }

  // Least significant chunk first.
  function Val(s: seq<int>): int {
    if |s| == 0 then 0 else Val(s[..|s| - 1]) + s[|s| - 1] * BPow(|s| - 1)
  }

  // Most significant chunk first; chunks may exceed the base.
  function Horner(s: seq<int>): int {
    if |s| == 0 then 0 else Horner(s[..|s| - 1]) * B + s[|s| - 1]
  }

  // The number of base-2^24 digits of v.
  function Len(v: nat): nat {
    if v == 0 then 0 else 1 + Len(v / B)
  }

  lemma {:induction false} Pow2Add(a: nat, b: nat)
    ensures Pow2(a + b) == Pow2(a) * Pow2(b)
  {
    if a > 0 {
      Pow2Add(a - 1, b);
      Associate(2, Pow2(a - 1), Pow2(b));
    }
  }

  lemma Pow2Literals()
    ensures Pow2(0) == 1 && Pow2(1) == 2 && Pow2(2) == 4 && Pow2(3) == 8
    ensures Pow2(21) == 0x200000 && Pow2(22) == 0x400000 && Pow2(23) == 0x800000 && Pow2(24) == B
  {
    assert Pow2(8) == 256;
    Pow2Add(8, 8);
    Pow2Add(16, 5);
  }

  lemma {:induction false} BPowAdd(a: nat, b: nat)
    ensures BPow(a + b) == BPow(a) * BPow(b)
  {
    if a > 0 {
      BPowAdd(a - 1, b);
      Associate(B, BPow(a - 1), BPow(b));
    }
  }

  lemma {:induction false} BPowIsPow2(k: nat)
    ensures BPow(k) == Pow2(24 * k)
  {
    if k > 0 {
      BPowIsPow2(k - 1);
      Pow2Literals();
      Pow2Add(24, 24 * (k - 1));
    }
  }

  lemma {:induction false} BPowMono(a: nat, b: nat)
    requires a <= b
    ensures BPow(a) <= BPow(b)
  {
    BPowAdd(a, b - a);
    MulAtLeast(BPow(a), BPow(b - a));
  }

  lemma MulShift(a: int, d: int, p: int, k: int)
    ensures (a + d * p) * k == a * k + d * (p * k)
  {
  }

  lemma {:induction false} ValBound(s: seq<int>)
    requires Digits(s)
    ensures 0 <= Val(s) < BPow(|s|)
  {
    if |s| > 0 {
      var k := |s| - 1;
      ValBound(s[..k]);
      MulMono(s[k], B - 1, BPow(k));
      MulMono(0, s[k], BPow(k));
      assert (B - 1) * BPow(k) == B * BPow(k) - BPow(k);
    }
  }

  lemma {:induction false} ValSplit(s: seq<int>, k: nat)
    requires k <= |s|
    ensures Val(s) == Val(s[..k]) + Val(s[k..]) * BPow(k)
  {
    if |s| == k {
      assert s[..k] == s;
    } else {
      var m := |s| - 1;
      ValSplit(s[..m], k);
      assert s[..m][..k] == s[..k];
      assert s[k..][..m - k] == s[..m][k..];
      BPowAdd(m - k, k);
      MulShift(Val(s[..m][k..]), s[m], BPow(m - k), BPow(k));
    }
  }

  lemma {:induction false} ValZero(s: seq<int>)
    requires Digits(s)
    ensures Val(s) == 0 <==> forall i | 0 <= i < |s| :: s[i] == 0
  {
    if |s| > 0 {
      var k := |s| - 1;
      ValZero(s[..k]);
      ValBound(s[..k]);
      if s[k] == 0 {
        assert forall i | 0 <= i < k :: s[..k][i] == s[i];
      } else {
        MulMono(1, s[k], BPow(k));
      }
    }
  }

  // The value is below B^k exactly when every chunk from index k up is zero.
  lemma BelowPower(s: seq<int>, k: nat)
    requires Digits(s) && k <= |s|
    ensures Val(s) < BPow(k) <==> forall i | k <= i < |s| :: s[i] == 0
  {
    hide Val, BPow;
    ValSplit(s, k);
    ValBound(s[..k]);
    ValBound(s[k..]);
    HighPart(Val(s[..k]), Val(s[k..]), BPow(k));
    if forall i | k <= i < |s| :: s[i] == 0 {
      HighZero(s, k);
    } else {
      var i :| k <= i < |s| && s[i] != 0;
      HighNonZero(s, k, i);
    }
  }

  lemma HighZero(s: seq<int>, k: nat)
    requires Digits(s) && k <= |s| && forall i | k <= i < |s| :: s[i] == 0
    ensures Val(s[k..]) == 0
  {
    hide Val;
    ValZero(s[k..]);
  }

  lemma HighNonZero(s: seq<int>, k: nat, i: nat)
    requires Digits(s) && k <= i < |s| && s[i] != 0
    ensures Val(s[k..]) != 0
  {
    hide Val;
    assert s[k..][i - k] != 0;
    ValZero(s[k..]);
  }

  lemma HighPart(low: int, high: int, p: int)
    requires 0 <= low < p && 0 <= high
    ensures low + high * p < p <==> high == 0
  {
    if high != 0 {
      MulMono(1, high, p);
    }
  }

  // A value between B^(k-1) and B^k has k digits.
  lemma {:induction false} LenExact(v: nat, k: nat)
    requires k >= 1 && BPow(k - 1) <= v < BPow(k)
    ensures Len(v) == k
  {
    if k == 1 {
      assert BPow(1) == B * BPow(0);
      assert v / B == 0;
      assert Len(v / B) == 0;
    } else {
      assert BPow(k) == B * BPow(k - 1) && BPow(k - 1) == B * BPow(k - 2);
      LenExact(v / B, k - 1);
    }
  }

  lemma {:induction false} LenBounds(v: nat)
    requires v > 0
    ensures Len(v) >= 1 && BPow(Len(v) - 1) <= v < BPow(Len(v))
  {
    if v < B {
      assert v / B == 0;
      assert Len(v) == 1 + Len(0);
      assert BPow(1) == B * BPow(0);
    } else {
      LenBounds(v / B);
      var l := Len(v / B);
      assert Len(v) == 1 + l;
      assert BPow(l) == B * BPow(l - 1);
      assert BPow(l + 1) == B * BPow(l);
    }
  }
}
