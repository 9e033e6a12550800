// The C type int32_t.
module CInt {
  const TWO32: int := 0x1_0000_0000

  type Int32 = i: int | -0x8000_0000 <= i < 0x8000_0000

  // Two's complement wrap-around.
  function Wrap32(v: int): (r: Int32)
    ensures (r - v) % TWO32 == 0
  {
    (v + 0x8000_0000) % TWO32 - 0x8000_0000
  }

  predicate Same32(a: int, b: int) {
    (a - b) % TWO32 == 0
  }

  lemma WrapCongruent(a: int, b: int)
    requires Same32(a, b)
    ensures Wrap32(a) == Wrap32(b)
  {
  }

  lemma WrapInRange(v: int)
    requires -0x8000_0000 <= v < 0x8000_0000
    ensures Wrap32(v) == v
  {
  }

  lemma WrapSum(a: int, b: int)
    ensures Wrap32(Wrap32(a) + Wrap32(b)) == Wrap32(a + b)
  {
  }

  lemma SameTimes(a: int, b: int, f: int)
    requires Same32(a, b)
    ensures Same32(a * f, b * f)
  {
    var q := (a - b) / TWO32;
    assert a - b == TWO32 * q;
    assert a * f - b * f == TWO32 * (q * f);
  }

  lemma WrapTimes(a: int, f: int)
    ensures Wrap32(Wrap32(a) * f) == Wrap32(a * f)
  {
    SameTimes(Wrap32(a), a, f);
    WrapCongruent(Wrap32(a) * f, a * f);
  }
}
