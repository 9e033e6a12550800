// Walking the elements of a C descriptor (ISO_Fortran_binding.h) by extent and stride.
module CfiDescriptor {
  import opened Arithmetic
  import opened CInt

  datatype Dim = Dim(extent: int, sm: int)

  // ---- the elements of a descriptor ----

  predicate InBounds(d: seq<Dim>, index: seq<int>) {
    |index| == |d| && forall k | 0 <= k < |d| :: 0 <= index[k] < d[k].extent
  }

  function Address(d: seq<Dim>, index: seq<int>, base: int): int
    requires |index| == |d|
  {
    if d == [] then base else Address(d[1..], index[1..], base + index[0] * d[0].sm)
  }

  // No two elements share an address.
  ghost predicate Distinct(d: seq<Dim>, base: int) {
    forall s, t | InBounds(d, s) && InBounds(d, t) && Address(d, s, base) == Address(d, t, base) :: s == t
  }

  ghost predicate Addressed(d: seq<Dim>, base: int, a: int) {
    exists s :: InBounds(d, s) && Address(d, s, base) == a
  }

  // The sum of g over the element addresses, dimension 0 outermost.
  function Total(g: int -> int, d: seq<Dim>, base: int): int
    decreases |d|, 0
  {
    if d == [] then g(base)
    else Slices(g, d, base, if d[0].extent > 0 then d[0].extent else 0)
  }

  // The first n slices along dimension 0.
  function Slices(g: int -> int, d: seq<Dim>, base: int, n: nat): int
    requires d != []
    decreases |d| - 1, 1, n
  {
    if n == 0 then 0 else Slices(g, d, base, n - 1) + Total(g, d[1..], base + (n - 1) * d[0].sm)
  }

  function Indicator(a: int): int -> int {
    x => if x == a then 1 else 0
  }

  // How many elements of the descriptor are stored at address a.
  function Times(d: seq<Dim>, base: int, a: int): int {
    Total(Indicator(a), d, base)
  }

  predicate Mapped(m: map<int, Int32>, d: seq<Dim>, base: int) {
    if d == [] then base in m
    else forall i | 0 <= i < d[0].extent :: Mapped(m, d[1..], base + i * d[0].sm)
  }

  function Cells(m: map<int, Int32>): int -> int {
    a => if a in m then m[a] else 0
  }

  // One element's total is its cell, and a dimension adds up its slices.
  lemma OneCell(m: map<int, Int32>, base: int)
    requires base in m
    ensures Total(Cells(m), [], base) == m[base]
  {
  }

  lemma OneDimension(m: map<int, Int32>, d: Dim, base: int, n: nat)
    requires base + n * d.sm in m
    ensures Slices(Cells(m), [d], base, n + 1) == Slices(Cells(m), [d], base, n) + m[base + n * d.sm]
  {
    assert [d][1..] == [];
    OneCell(m, base + n * d.sm);
  }

  // ---- contiguity ----

  // The first stride is `step` and every stride covers the dimensions before it.
  predicate Packed(d: seq<Dim>, step: int) {
    d == [] || (d[0].sm == step && Packed(d[1..], step * d[0].extent))
  }

  function Count(d: seq<Dim>): int {
    if d == [] then 1 else d[0].extent * Count(d[1..])
  }

  lemma {:induction false} CountSnoc(d: seq<Dim>, last: Dim)
    ensures Count(d + [last]) == Count(d) * last.extent
  {
    if d == [] {
      assert [] + [last] == [last] && [last][1..] == [];
    } else {
      CountSnoc(d[1..], last);
      assert (d + [last])[1..] == d[1..] + [last];
      Associate(d[0].extent, Count(d[1..]), last.extent);
    }
  }

  // Each stride is the element length times the extents of the dimensions before it.
  lemma {:induction false} PackedWhen(d: seq<Dim>, step: int)
    ensures Packed(d, step) <==> forall k | 0 <= k < |d| :: d[k].sm == step * Count(d[..k])
  {
    if d != [] {
      var next := step * d[0].extent;
      PackedWhen(d[1..], next);
      assert d[..0] == [];
      forall k | 0 < k < |d|
        ensures step * Count(d[..k]) == next * Count(d[1..][..k - 1])
      {
        assert d[..k][1..] == d[1..][..k - 1];
        Associate(step, d[0].extent, Count(d[1..][..k - 1]));
      }
      assert forall k | 0 < k < |d| :: d[k].sm == d[1..][k - 1].sm;
      if Packed(d, step) {
        forall k | 0 <= k < |d|
          ensures d[k].sm == step * Count(d[..k])
        {
          if k > 0 {
            assert d[1..][k - 1].sm == next * Count(d[1..][..k - 1]);
          }
        }
      }
      if forall k | 0 <= k < |d| :: d[k].sm == step * Count(d[..k]) {
        forall k | 0 <= k < |d[1..]|
          ensures d[1..][k].sm == next * Count(d[1..][..k])
        {
          assert d[k + 1].sm == step * Count(d[..k + 1]);
        }
        assert d[0].sm == step * Count(d[..0]);
      }
    }
  }

  predicate NonNegative(d: seq<Dim>) {
    forall k | 0 <= k < |d| :: d[k].extent >= 0
  }

  // A plain loop over n equally spaced addresses.
  function Flat(g: int -> int, base: int, step: int, n: nat): int {
    if n == 0 then 0 else Flat(g, base, step, n - 1) + g(base + (n - 1) * step)
  }

  // n plain loops of t steps of size `far`, started `near` apart.
  function Grid(g: int -> int, base: int, near: int, n: nat, far: int, t: nat): int {
    if n == 0 then 0 else Grid(g, base, near, n - 1, far, t) + Flat(g, base + (n - 1) * near, far, t)
  }

  lemma {:induction false} GridColumn(g: int -> int, base: int, near: int, n: nat, far: int, t: nat)
    requires t > 0
    ensures Grid(g, base, near, n, far, t)
         == Grid(g, base, near, n, far, t - 1) + Flat(g, base + (t - 1) * far, near, n)
  {
    if n > 0 {
      GridColumn(g, base, near, n - 1, far, t);
    }
  }

  lemma {:induction false} FlatAppend(g: int -> int, base: int, step: int, n: nat, m: nat)
    ensures Flat(g, base, step, n + m) == Flat(g, base, step, n) + Flat(g, base + n * step, step, m)
  {
    if m > 0 {
      FlatAppend(g, base, step, n, m - 1);
      assert n * step + (m - 1) * step == (n + m - 1) * step;
    }
  }

  // Visiting a packed grid by rows or in address order makes no difference.
  lemma {:induction false} GridIsFlat(g: int -> int, base: int, near: int, n: nat, far: int, t: nat, m: nat)
    requires far == near * n && m == n * t
    ensures Grid(g, base, near, n, far, t) == Flat(g, base, near, m)
  {
    if t == 0 {
      EmptyGrid(g, base, near, n, far);
    } else {
      var l := n * (t - 1);
      assert m == l + n && l >= 0 by { Distribute(t - 1, 1, n); MulMono(0, t - 1, n); }
      assert (t - 1) * far == l * near by { Associate(n, t - 1, near); Associate(t - 1, near, n); }
      GridColumn(g, base, near, n, far, t);
      GridIsFlat(g, base, near, n, far, t - 1, l);
      FlatAppend(g, base, near, l, n);
    }
  }

  lemma {:induction false} EmptyGrid(g: int -> int, base: int, near: int, n: nat, far: int)
    ensures Grid(g, base, near, n, far, 0) == 0
  {
    if n > 0 {
      EmptyGrid(g, base, near, n - 1, far);
    }
  }

  lemma {:induction false} CountNonNegative(d: seq<Dim>)
    requires NonNegative(d)
    ensures Count(d) >= 0
  {
    if d != [] {
      CountNonNegative(d[1..]);
      assert d[0].extent * Count(d[1..]) >= 0;
    }
  }

  // A contiguous descriptor is summed like a flat array, whatever the rank.
  lemma {:induction false} PackedIsFlat(g: int -> int, d: seq<Dim>, step: int, base: int)
    requires NonNegative(d) && Packed(d, step)
    ensures Count(d) >= 0
    ensures Total(g, d, base) == Flat(g, base, step, Count(d))
    decreases |d|, 0
  {
    CountNonNegative(d);
    if d == [] {
      assert Flat(g, base, step, 1) == Flat(g, base, step, 0) + g(base);
    } else {
      CountNonNegative(d[1..]);
      SlicesAreGrid(g, d, step, base, d[0].extent);
      GridIsFlat(g, base, step, d[0].extent, step * d[0].extent, Count(d[1..]), Count(d));
    }
  }

  lemma {:induction false} SlicesAreGrid(g: int -> int, d: seq<Dim>, step: int, base: int, n: nat)
    requires d != [] && NonNegative(d) && Packed(d, step)
    requires Count(d[1..]) >= 0
    ensures Slices(g, d, base, n) == Grid(g, base, step, n, step * d[0].extent, Count(d[1..]))
    decreases |d| - 1, 1, n
  {
    if n > 0 {
      SlicesAreGrid(g, d, step, base, n - 1);
      PackedIsFlat(g, d[1..], step * d[0].extent, base + (n - 1) * d[0].sm);
    }
  }

  // ---- how often an address is visited ----

  ghost predicate SliceAddressed(d: seq<Dim>, base: int, a: int, n: nat)
    requires d != []
  {
    exists i :: 0 <= i < n && Addressed(d[1..], base + i * d[0].sm, a)
  }

  lemma AddressedBySlices(d: seq<Dim>, base: int, a: int)
    requires d != []
    ensures Addressed(d, base, a) <==> d[0].extent > 0 && SliceAddressed(d, base, a, d[0].extent)
  {
    if Addressed(d, base, a) {
      var s :| InBounds(d, s) && Address(d, s, base) == a;
      assert InBounds(d[1..], s[1..]) && Address(d[1..], s[1..], base + s[0] * d[0].sm) == a;
    }
    if d[0].extent > 0 && SliceAddressed(d, base, a, d[0].extent) {
      var i :| 0 <= i < d[0].extent && Addressed(d[1..], base + i * d[0].sm, a);
      var s :| InBounds(d[1..], s) && Address(d[1..], s, base + i * d[0].sm) == a;
      assert ([i] + s)[1..] == s;
      assert InBounds(d, [i] + s) && Address(d, [i] + s, base) == a;
    }
  }

  lemma {:induction false} TimesMeaning(d: seq<Dim>, base: int, a: int)
    ensures Times(d, base, a) >= 0
    ensures Times(d, base, a) > 0 <==> Addressed(d, base, a)
    decreases |d|, 0
  {
    var g := Indicator(a);
    if d == [] {
      assert InBounds(d, []) && Address(d, [], base) == base;
      assert forall s | InBounds(d, s) :: s == [];
      assert Total(g, d, base) == g(base);
    } else {
      AddressedBySlices(d, base, a);
      if d[0].extent <= 0 {
        assert Total(g, d, base) == Slices(g, d, base, 0);
      } else {
        SliceTimes(d, base, a, d[0].extent);
      }
    }
  }

  lemma {:induction false} SliceTimes(d: seq<Dim>, base: int, a: int, n: nat)
    requires d != []
    ensures Slices(Indicator(a), d, base, n) >= 0
    ensures Slices(Indicator(a), d, base, n) > 0 <==> SliceAddressed(d, base, a, n)
    decreases |d| - 1, 1, n
  {
    if n > 0 {
      SliceTimes(d, base, a, n - 1);
      TimesMeaning(d[1..], base + (n - 1) * d[0].sm, a);
      if Addressed(d[1..], base + (n - 1) * d[0].sm, a) {
        assert SliceAddressed(d, base, a, n);
      }
      if SliceAddressed(d, base, a, n - 1) {
        var i :| 0 <= i < n - 1 && Addressed(d[1..], base + i * d[0].sm, a);
        assert SliceAddressed(d, base, a, n);
      }
    }
  }

  // Elements in different slices, or at different places of one slice, are different.
  lemma SliceDistinct(d: seq<Dim>, base: int, i: nat)
    requires d != [] && Distinct(d, base) && i < d[0].extent
    ensures Distinct(d[1..], base + i * d[0].sm)
  {
    var b := base + i * d[0].sm;
    forall s, t | InBounds(d[1..], s) && InBounds(d[1..], t) && Address(d[1..], s, b) == Address(d[1..], t, b)
      ensures s == t
    {
      var u, v := [i] + s, [i] + t;
      assert u[1..] == s && v[1..] == t;
      assert InBounds(d, u) && InBounds(d, v) && Address(d, u, base) == Address(d, v, base);
    }
  }

  lemma SlicesDisjoint(d: seq<Dim>, base: int, a: int, i: nat, j: nat)
    requires d != [] && Distinct(d, base) && i < d[0].extent && j < d[0].extent
    requires Addressed(d[1..], base + i * d[0].sm, a) && Addressed(d[1..], base + j * d[0].sm, a)
    ensures i == j
  {
    var s :| InBounds(d[1..], s) && Address(d[1..], s, base + i * d[0].sm) == a;
    var t :| InBounds(d[1..], t) && Address(d[1..], t, base + j * d[0].sm) == a;
    var u, v := [i] + s, [j] + t;
    assert u[1..] == s && v[1..] == t;
    assert InBounds(d, u) && InBounds(d, v) && Address(d, u, base) == Address(d, v, base);
    assert u[0] == v[0];
  }

  lemma {:induction false} DistinctTimes(d: seq<Dim>, base: int, a: int)
    requires Distinct(d, base)
    ensures Times(d, base, a) == if Addressed(d, base, a) then 1 else 0
    decreases |d|, 0
  {
    TimesMeaning(d, base, a);
    if d != [] && d[0].extent > 0 {
      DistinctSlices(d, base, a, d[0].extent);
    }
  }

  lemma {:induction false} DistinctSlices(d: seq<Dim>, base: int, a: int, n: nat)
    requires d != [] && Distinct(d, base) && n <= d[0].extent
    ensures Slices(Indicator(a), d, base, n) <= 1
    decreases |d| - 1, 1, n
  {
    if n > 0 {
      DistinctSlices(d, base, a, n - 1);
      SliceTimes(d, base, a, n - 1);
      SliceDistinct(d, base, n - 1);
      DistinctTimes(d[1..], base + (n - 1) * d[0].sm, a);
      if SliceAddressed(d, base, a, n - 1) && Addressed(d[1..], base + (n - 1) * d[0].sm, a) {
        var i :| 0 <= i < n - 1 && Addressed(d[1..], base + i * d[0].sm, a);
        SlicesDisjoint(d, base, a, i, n - 1);
      }
    }
  }

  // ---- a contiguous descriptor has distinct elements ----

  // The position of an element in memory order.
  function Linear(d: seq<Dim>, index: seq<int>): int
    requires |index| == |d|
  {
    if d == [] then 0 else index[0] + d[0].extent * Linear(d[1..], index[1..])
  }

  lemma {:induction false} PackedAddress(d: seq<Dim>, step: int, index: seq<int>, base: int)
    requires Packed(d, step) && |index| == |d|
    ensures Address(d, index, base) == base + step * Linear(d, index)
  {
    if d != [] {
      PackedAddress(d[1..], step * d[0].extent, index[1..], base + index[0] * d[0].sm);
      var l := Linear(d[1..], index[1..]);
      assert step * d[0].extent * l == step * (d[0].extent * l);
    }
  }

  lemma {:induction false} LinearInjective(d: seq<Dim>, s: seq<int>, t: seq<int>)
    requires InBounds(d, s) && InBounds(d, t) && Linear(d, s) == Linear(d, t)
    ensures s == t
  {
    if d != [] {
      var e, l, r := d[0].extent, Linear(d[1..], s[1..]), Linear(d[1..], t[1..]);
      SameDigit(e, l, r, s[0], t[0]);
      LinearInjective(d[1..], s[1..], t[1..]);
      assert s == [s[0]] + s[1..] && t == [t[0]] + t[1..];
    }
  }

  lemma SameDigit(e: int, l: int, r: int, a: int, b: int)
    requires 0 <= a < e && 0 <= b < e && a + e * l == b + e * r
    ensures a == b && l == r
  {
    DivModUnique(a + e * l, e, l, a);
    DivModUnique(a + e * l, e, r, b);
  }

  lemma Cancel(f: int, a: int, b: int)
    requires f != 0 && f * a == f * b
    ensures a == b
  {
  }

  lemma PackedIsDistinct(d: seq<Dim>, step: int, base: int)
    requires Packed(d, step) && step != 0
    ensures Distinct(d, base)
  {
    forall s, t | InBounds(d, s) && InBounds(d, t) && Address(d, s, base) == Address(d, t, base)
      ensures s == t
    {
      PackedAddress(d, step, s, base);
      PackedAddress(d, step, t, base);
      Cancel(step, Linear(d, s), Linear(d, t));
      LinearInjective(d, s, t);
    }
  }

  // ---- the C functions ----

  class Memory {
    var cells: map<int, Int32>

    method SumI32(base: int, d: seq<Dim>, k: nat) returns (total: Int32)
      requires k <= |d| && Mapped(cells, d[k..], base)
      ensures total == Wrap32(Total(Cells(cells), d[k..], base))
      ensures k == |d| ==> total == cells[base]
      decreases |d| - k
    {
      if k == |d| {
        return cells[base];
      }
      ghost var g, rest := Cells(cells), d[k..];
      assert rest[1..] == d[k + 1..];
      total := 0;
      var i := 0;
      while i < d[k].extent
        invariant 0 <= i && (i <= d[k].extent || i == 0)
        invariant total == Wrap32(Slices(g, rest, base, i))
      {
        var sub := SumI32(base + i * d[k].sm, d, k + 1);
        WrapSum(Slices(g, rest, base, i), Total(g, rest[1..], base + i * d[k].sm));
        total := Wrap32(total + sub);
        i := i + 1;
      }
    }

    // The three together: a descriptor found contiguous is summed as a plain loop over as many
    // elements as its total size would sum it, as long as that size is an int32_t.
    method SumContiguous(base: int, elemLen: int, d: seq<Dim>) returns (contiguous: bool, size: Int32, total: Int32)
      requires NonNegative(d) && Mapped(cells, d, base)
      ensures contiguous <==> Packed(d, elemLen)
      ensures size == Wrap32(Count(d)) && total == Wrap32(Total(Cells(cells), d, base))
      ensures contiguous && Count(d) < 0x8000_0000 ==>
        0 <= size == Count(d) && total == Wrap32(Flat(Cells(cells), base, elemLen, size))
    {
      assert d[0..] == d;
      contiguous := IsContiguous(elemLen, d);
      size := TotalSize(d);
      total := SumI32(base, d, 0);
      CountNonNegative(d);
      if contiguous && Count(d) < 0x8000_0000 {
        WrapInRange(Count(d));
        PackedIsFlat(Cells(cells), d, elemLen, base);
      }
    }

    // Doubles each cell once for every element stored in it.
    method DblI32(base: int, d: seq<Dim>, k: nat)
      requires k <= |d| && Mapped(cells, d[k..], base)
      modifies this
      ensures Doubled(old(cells), cells, d[k..], base)
      decreases |d| - k
    {
      ghost var rest := d[k..];
      if k == |d| {
        cells := cells[base := Wrap32((cells[base] as int) * 2)];
        forall a | a in cells
          ensures cells[a] == Wrap32(old(cells)[a] * Twofold(Times(rest, base, a)))
        {
          assert Twofold(1) == 2 * Twofold(0);
        }
        return;
      }
      assert rest[1..] == d[k + 1..];
      ghost var was := cells;
      var i := 0;
      while i < d[k].extent
        invariant 0 <= i && (i <= d[k].extent || i == 0)
        invariant SlicesDoubled(was, cells, rest, base, i)
      {
        ghost var before := cells;
        StillMapped(was, cells, rest[1..], base + i * d[k].sm);
        DblI32(base + i * d[k].sm, d, k + 1);
        NextSliceDoubled(was, before, cells, rest, base, i);
        i := i + 1;
      }
    }
  }

  function Twofold(n: int): int {
    if n <= 0 then 1 else 2 * Twofold(n - 1)
  }

  ghost predicate Doubled(m: map<int, Int32>, m': map<int, Int32>, d: seq<Dim>, base: int) {
    m'.Keys == m.Keys && forall a | a in m :: m'[a] == Wrap32(m[a] * Twofold(Times(d, base, a)))
  }

  ghost predicate SlicesDoubled(m: map<int, Int32>, m': map<int, Int32>, d: seq<Dim>, base: int, n: nat)
    requires d != []
  {
    m'.Keys == m.Keys && forall a | a in m :: m'[a] == Wrap32(m[a] * Twofold(Slices(Indicator(a), d, base, n)))
  }

  lemma {:induction false} TwofoldAdd(a: nat, b: nat)
    ensures Twofold(a + b) == Twofold(a) * Twofold(b)
  {
    if a > 0 {
      TwofoldAdd(a - 1, b);
      assert 2 * (Twofold(a - 1) * Twofold(b)) == (2 * Twofold(a - 1)) * Twofold(b);
    }
  }

  lemma NextSliceDoubled(m: map<int, Int32>, m1: map<int, Int32>, m2: map<int, Int32>, d: seq<Dim>, base: int, i: nat)
    requires d != [] && SlicesDoubled(m, m1, d, base, i)
    requires Doubled(m1, m2, d[1..], base + i * d[0].sm)
    ensures SlicesDoubled(m, m2, d, base, i + 1)
  {
    forall a | a in m
      ensures m2[a] == Wrap32(m[a] * Twofold(Slices(Indicator(a), d, base, i + 1)))
    {
      var p, q := Slices(Indicator(a), d, base, i), Times(d[1..], base + i * d[0].sm, a);
      SliceTimes(d, base, a, i);
      TimesMeaning(d[1..], base + i * d[0].sm, a);
      TwofoldTwice(m[a], m1[a], p, q);
    }
  }

  lemma TwofoldTwice(v: int, v1: int, p: nat, q: nat)
    requires v1 == Wrap32(v * Twofold(p))
    ensures Wrap32(v1 * Twofold(q)) == Wrap32(v * Twofold(p + q))
  {
    hide Twofold, Wrap32;
    TwofoldAdd(p, q);
    WrapTimes(v * Twofold(p), Twofold(q));
    Associate(v, Twofold(p), Twofold(q));
  }

  lemma {:induction false} StillMapped(m: map<int, Int32>, m': map<int, Int32>, d: seq<Dim>, base: int)
    requires m'.Keys == m.Keys && Mapped(m, d, base)
    ensures Mapped(m', d, base)
    decreases |d|
  {
    if d != [] {
      forall i | 0 <= i < d[0].extent
        ensures Mapped(m', d[1..], base + i * d[0].sm)
      {
        StillMapped(m, m', d[1..], base + i * d[0].sm);
      }
    }
  }

  // Elements at distinct addresses are doubled once and nothing else changes.
  lemma DoublesEachOnce(m: map<int, Int32>, m': map<int, Int32>, d: seq<Dim>, base: int)
    requires Distinct(d, base) && Doubled(m, m', d, base)
    ensures forall a | a in m :: m'[a] == if Addressed(d, base, a) then Wrap32(2 * (m[a] as int)) else m[a]
  {
    forall a | a in m
      ensures m'[a] == if Addressed(d, base, a) then Wrap32(2 * (m[a] as int)) else m[a]
    {
      DistinctTimes(d, base, a);
      assert Twofold(0) == 1 && Twofold(1) == 2 * Twofold(0);
      if Addressed(d, base, a) {
        assert m'[a] == Wrap32(m[a] * Twofold(1));
      } else {
        assert m'[a] == Wrap32(m[a] * Twofold(0));
        WrapInRange(m[a]);
      }
    }
  }

  // ... so the sum afterwards is twice the sum before.
  lemma DoubledSum(m: map<int, Int32>, m': map<int, Int32>, d: seq<Dim>, base: int)
    requires Distinct(d, base) && Mapped(m, d, base) && Doubled(m, m', d, base)
    ensures Wrap32(Total(Cells(m'), d, base)) == Wrap32(2 * Total(Cells(m), d, base))
  {
    hide Total, Cells, Mapped, Distinct, Doubled, Wrap32;
    EachIsTwice(m, m', d, base);
    hide EachTwice;
    TotalsCongruent(m, m', d, base);
    WrapCongruent(Total(Cells(m'), d, base), 2 * Total(Cells(m), d, base));
  }

  lemma EachIsTwice(m: map<int, Int32>, m': map<int, Int32>, d: seq<Dim>, base: int)
    requires Distinct(d, base) && Doubled(m, m', d, base)
    ensures EachTwice(m, m', d, base)
  {
    hide Distinct, Addressed;
    DoublesEachOnce(m, m', d, base);
  }

  ghost predicate EachTwice(m: map<int, Int32>, m': map<int, Int32>, d: seq<Dim>, base: int) {
    m'.Keys == m.Keys && forall a | a in m && Addressed(d, base, a) :: Same32(m'[a], 2 * (m[a] as int))
  }

  lemma {:induction false} TotalsCongruent(m: map<int, Int32>, m': map<int, Int32>, d: seq<Dim>, base: int)
    requires Mapped(m, d, base) && EachTwice(m, m', d, base)
    ensures Same32(Total(Cells(m'), d, base), 2 * Total(Cells(m), d, base))
    decreases |d|, 0
  {
    if d == [] {
      assert InBounds(d, []) && Address(d, [], base) == base;
    } else if d[0].extent > 0 {
      SlicesCongruent(m, m', d, base, d[0].extent);
    }
  }

  lemma {:induction false} SlicesCongruent(m: map<int, Int32>, m': map<int, Int32>, d: seq<Dim>, base: int, n: nat)
    requires d != [] && n <= d[0].extent
    requires Mapped(m, d, base) && EachTwice(m, m', d, base)
    ensures Same32(Slices(Cells(m'), d, base, n), 2 * Slices(Cells(m), d, base, n))
    decreases |d| - 1, 1, n
  {
    if n > 0 {
      SlicesCongruent(m, m', d, base, n - 1);
      var b := base + (n - 1) * d[0].sm;
      forall a | a in m && Addressed(d[1..], b, a)
        ensures Same32(m'[a], 2 * (m[a] as int))
      {
        AddressedBySlices(d, base, a);
        assert SliceAddressed(d, base, a, d[0].extent);
      }
      TotalsCongruent(m, m', d[1..], b);
    }
  }

  method IsContiguous(elemLen: int, d: seq<Dim>) returns (yes: bool)
    ensures yes <==> Packed(d, elemLen)
  {
    var expected := elemLen;
    for i := 0 to |d|
      invariant Packed(d, elemLen) <==> Packed(d[i..], expected)
    {
      assert d[i..][1..] == d[i + 1..];
      if d[i].sm != expected {
        return false;
      }
      expected := expected * d[i].extent;
    }
    yes := true;
  }

  method TotalSize(d: seq<Dim>) returns (total: Int32)
    ensures total == Wrap32(Count(d))
  {
    if |d| == 0 {
      return 1;
    }
    total := 1;
    ghost var done := 1;
    for i := 0 to |d|
      invariant total == Wrap32(done)
      invariant done * Count(d[i..]) == Count(d)
    {
      assert d[i..][1..] == d[i + 1..];
      WrapProduct(done, d[i].extent);
      total := Wrap32(total * Wrap32(d[i].extent));
      assert done * d[i].extent * Count(d[i + 1..]) == done * (d[i].extent * Count(d[i + 1..]));
      done := done * d[i].extent;
    }
    assert Count(d[|d|..]) == 1;
  }

  lemma WrapProduct(a: int, b: int)
    ensures Wrap32(Wrap32(a) * Wrap32(b)) == Wrap32(a * b)
  {
    WrapTimes(a, Wrap32(b));
    WrapTimes(b, a);
    assert a * Wrap32(b) == Wrap32(b) * a && a * b == b * a;
  }
}
