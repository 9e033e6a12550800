// Flattening nested scopes into a list whose entries name their parent by index.
module SymbolLists {
  import opened Sequences

  datatype Kind = Module | Function | Program | Other

  // A symbol with the symbols of its own table, in the table's order.
  datatype Symbol = Symbol(name: string, kind: Kind, scope: seq<Symbol>)

  datatype Entry = Entry(parent: int, name: string, kind: Kind)

  // A name that the compiler made up.
  predicate IsGenerated(name: string) {
    '~' in name
  }

  // The number of symbols in a scope, at all levels.
  function Weight(scope: seq<Symbol>): nat
    decreases scope
  {
    if scope == [] then 0 else 1 + Weight(scope[0].scope) + Weight(scope[1..])
  }

  lemma {:induction false} WeightBelow(scope: seq<Symbol>, i: nat)
    requires i < |scope|
    ensures Weight(scope[i].scope) < Weight(scope)
    decreases i
  {
    if i > 0 {
      WeightBelow(scope[1..], i - 1);
    }
  }

  // Only modules, functions and programs are descended into.
  function Inner(s: Symbol): (r: seq<Symbol>)
    ensures Weight(r) <= Weight(s.scope)
  {
    if s.kind.Other? then [] else s.scope
  }

  // The preorder listing of a scope whose first entry gets index `start`.
  function Listing(scope: seq<Symbol>, parent: int, start: nat): seq<Entry>
    decreases Weight(scope)
  {
    if scope == [] then []
    else if IsGenerated(scope[0].name) then Listing(scope[1..], parent, start)
    else
      var inner := Listing(Inner(scope[0]), start, start + 1);
      [Entry(parent, scope[0].name, scope[0].kind)] + inner
      + Listing(scope[1..], parent, start + 1 + |inner|)
  }

  // The scope without generated names and without tables that are not descended into.
  function Visible(scope: seq<Symbol>): seq<Symbol>
    decreases Weight(scope)
  {
    if scope == [] then []
    else if IsGenerated(scope[0].name) then Visible(scope[1..])
    else
      [Symbol(scope[0].name, scope[0].kind, Visible(Inner(scope[0])))] + Visible(scope[1..])
  }

  class Accessor {
    var symbolLists: seq<Entry>

    method PopulateSymbolLists(scope: seq<Symbol>, parentIndex: int)
      modifies this
      ensures symbolLists == old(symbolLists) + Listing(scope, parentIndex, |old(symbolLists)|)
      decreases Weight(scope)
    {
      hide Listing;
      ghost var before := symbolLists;
      for i := 0 to |scope|
        invariant symbolLists + Listing(scope[i..], parentIndex, |symbolLists|)
               == before + Listing(scope, parentIndex, |before|)
      {
        ghost var now, rest := symbolLists, scope[i..];
        var a := scope[i];
        assert rest[0] == a && rest[1..] == scope[i + 1..];
        if IsGenerated(a.name) {
          ListingStep(rest, parentIndex, |now|);
          continue;
        }
        var index := |symbolLists|;
        symbolLists := symbolLists + [Entry(parentIndex, a.name, a.kind)];
        WeightBelow(scope, i);
        match a.kind {
          case Module => PopulateSymbolLists(a.scope, index);
          case Function => PopulateSymbolLists(a.scope, index);
          case Program => PopulateSymbolLists(a.scope, index);
          case Other =>
        }
        ListingEnd(index, index + 1);
        assert symbolLists == now + Own(a, parentIndex, index);
        OneListed(now, rest, parentIndex);
      }
      assert scope[|scope|..] == [];
      ListingEnd(parentIndex, |symbolLists|);
    }
  }

  lemma ListingEnd(parent: int, start: nat)
    ensures Listing([], parent, start) == []
  {
  }

  lemma ListingStep(scope: seq<Symbol>, parent: int, start: nat)
    requires scope != []
    ensures Listing(scope, parent, start) ==
            if IsGenerated(scope[0].name) then Listing(scope[1..], parent, start)
            else
              var own := Own(scope[0], parent, start);
              own + Listing(scope[1..], parent, start + |own|)
  {
  }

  // A symbol that is listed, with what is inside it.
  function Own(a: Symbol, parent: int, start: nat): seq<Entry> {
    [Entry(parent, a.name, a.kind)] + Listing(Inner(a), start, start + 1)
  }

  // Symbol by symbol: a name that the compiler made up leaves nothing behind.
  lemma GeneratedListing(a: string, b: string, kind: Kind, scope: seq<Symbol>, more: seq<Symbol>,
        parent: int, start: nat)
    ensures var all := [Symbol(a + "~" + b, kind, scope)] + more;
            Listing(all, parent, start) == Listing(more, parent, start) && Visible(all) == Visible(more)
  {
    var all := [Symbol(a + "~" + b, kind, scope)] + more;
    assert (a + "~" + b)[|a|] == '~';
    assert all[1..] == more;
  }

  // A module, a function or a program is followed by what its table holds.
  lemma TableListing(name: string, kind: Kind, scope: seq<Symbol>, more: seq<Symbol>, parent: int, start: nat)
    requires '~' !in name && kind in {Module, Function, Program}
    ensures var all, inner := [Symbol(name, kind, scope)] + more, Listing(scope, start, start + 1);
            && Listing(all, parent, start)
               == [Entry(parent, name, kind)] + inner + Listing(more, parent, start + 1 + |inner|)
            && Visible(all) == [Symbol(name, kind, Visible(scope))] + Visible(more)
  {
    var all := [Symbol(name, kind, scope)] + more;
    assert all[1..] == more;
  }

  // Any other symbol stands alone.
  lemma OtherListing(name: string, scope: seq<Symbol>, more: seq<Symbol>, parent: int, start: nat)
    requires '~' !in name
    ensures var all := [Symbol(name, Other, scope)] + more;
            && Listing(all, parent, start) == [Entry(parent, name, Other)] + Listing(more, parent, start + 1)
            && Visible(all) == [Symbol(name, Other, [])] + Visible(more)
  {
    var all := [Symbol(name, Other, scope)] + more;
    assert all[1..] == more;
    assert Visible([]) == [];
  }

  // After it, the rest of its scope is left to list.
  lemma OneListed(now: seq<Entry>, rest: seq<Symbol>, parent: int)
    requires rest != [] && !IsGenerated(rest[0].name)
    ensures var out := now + Own(rest[0], parent, |now|);
            out + Listing(rest[1..], parent, |out|) == now + Listing(rest, parent, |now|)
  {
    hide Listing, Inner, IsGenerated, Own;
    ListingStep(rest, parent, |now|);
    var own := Own(rest[0], parent, |now|);
    assert |now + own| == |now| + |own|;
    Associative(now, own, Listing(rest[1..], parent, |now| + |own|));
  }

  predicate ParentBefore(e: Entry, parent: int, start: nat, index: int) {
    e.parent == parent || start <= e.parent < index
  }

  // Every entry's parent is the given one or an earlier entry of the listing.
  lemma {:induction false} ParentsComeFirst(scope: seq<Symbol>, parent: int, start: nat, l: seq<Entry>)
    requires l == Listing(scope, parent, start)
    ensures forall k | 0 <= k < |l| :: ParentBefore(l[k], parent, start, start + k)
    decreases Weight(scope)
  {
    if scope == [] {
    } else if IsGenerated(scope[0].name) {
      ParentsComeFirst(scope[1..], parent, start, l);
    } else {
      var inner := Listing(Inner(scope[0]), start, start + 1);
      var more := Listing(scope[1..], parent, start + 1 + |inner|);
      ParentsComeFirst(Inner(scope[0]), start, start + 1, inner);
      ParentsComeFirst(scope[1..], parent, start + 1 + |inner|, more);
      forall k | 0 <= k < |l|
        ensures ParentBefore(l[k], parent, start, start + k)
      {
        if 0 < k <= |inner| {
          assert l[k] == inner[k - 1];
          assert ParentBefore(inner[k - 1], start, start + 1, start + k);
        } else if k > |inner| {
          var m := k - 1 - |inner|;
          assert l[k] == more[m];
          assert ParentBefore(more[m], parent, start + 1 + |inner|, start + 1 + |inner| + m);
        }
      }
    }
  }

  // ---- rebuilding the tree ----

  // The symbols, from index i on, whose entries have parent p.
  function Rebuild(list: seq<Entry>, p: int, i: nat): seq<Symbol>
    requires i <= |list|
    decreases |list| - i
  {
    if i == |list| then []
    else if list[i].parent == p then
      [Symbol(list[i].name, list[i].kind, Rebuild(list, i, i + 1))] + Rebuild(list, p, i + 1)
    else Rebuild(list, p, i + 1)
  }

  lemma {:induction false} RebuildSkips(list: seq<Entry>, p: int, i: nat, j: nat)
    requires i <= j <= |list|
    requires forall k | i <= k < j :: list[k].parent != p
    ensures Rebuild(list, p, i) == Rebuild(list, p, j)
    ensures j == |list| ==> Rebuild(list, p, j) == []
    decreases |list| - i
  {
    if i < j {
      RebuildSkips(list, p, i + 1, j);
    }
  }

  // l stands in the list from index b on, and no later entry claims a parent inside it.
  ghost predicate Segment(list: seq<Entry>, l: seq<Entry>, b: nat) {
    && b + |l| <= |list| && list[b..b + |l|] == l
    && forall j | b + |l| <= j < |list| :: !(b <= list[j].parent < b + |l|)
  }

  // A segment that lists a scope falls into its first entry, the segment of that one's inner
  // scope, and the segment of the rest.
  lemma SegmentParts(list: seq<Entry>, first: Entry, inner: seq<Entry>, more: seq<Entry>, b: nat)
    requires first.parent < b && Segment(list, [first] + inner + more, b)
    requires forall k | 0 <= k < |inner| :: ParentBefore(inner[k], b, b + 1, b + 1 + k)
    requires forall k | 0 <= k < |more| :: ParentBefore(more[k], first.parent, b + 1 + |inner|, b + 1 + |inner| + k)
    ensures b + 1 + |inner| + |more| <= |list|
    ensures list[b] == first && Segment(list, inner, b + 1) && Segment(list, more, b + 1 + |inner|)
    ensures forall k | b + 1 <= k < b + 1 + |inner| :: list[k].parent != first.parent
    ensures forall k | b + 1 + |inner| <= k < |list| :: list[k].parent != b
  {
    var l := [first] + inner + more;
    var c, e := b + 1 + |inner|, b + |l|;
    assert forall k | b <= k < e :: list[k] == list[b..e][k - b] == l[k - b];
    assert forall k | b + 1 <= k < c :: list[k] == inner[k - (b + 1)];
    assert forall k | c <= k < e :: list[k] == more[k - c];
    assert list[b + 1..c] == inner && list[c..e] == more;
    forall k | b + 1 <= k < |list|
      ensures k < c ==> b <= list[k].parent < c
      ensures c <= k ==> !(b <= list[k].parent < c)
    {
      if k < c {
        assert ParentBefore(inner[k - (b + 1)], b, b + 1, b + 1 + (k - (b + 1)));
      } else if k < e {
        assert ParentBefore(more[k - c], first.parent, c, c + (k - c));
      }
    }
  }

  // A segment that lists a scope gives that scope back.
  lemma {:induction false} RebuildsSegment(list: seq<Entry>, scope: seq<Symbol>, p: int, b: nat, l: seq<Entry>)
    requires p < b && l == Listing(scope, p, b) && b + |l| <= |list| && Segment(list, l, b)
    ensures Rebuild(list, p, b) == Visible(scope) + Rebuild(list, p, b + |l|)
    decreases Weight(scope)
  {
    hide Rebuild, Segment, Visible, Listing;
    ListingEnd(p, b);
    if scope == [] {
      VisibleEnd();
      assert [] + Rebuild(list, p, b) == Rebuild(list, p, b);
    } else if IsGenerated(scope[0].name) {
      ListingStep(scope, p, b);
      VisibleGenerated(scope);
      RebuildsSegment(list, scope[1..], p, b, l);
    } else {
      var first := Entry(p, scope[0].name, scope[0].kind);
      var inner := Listing(Inner(scope[0]), b, b + 1);
      var c := b + 1 + |inner|;
      var more := Listing(scope[1..], p, c);
      ParentsComeFirst(Inner(scope[0]), b, b + 1, inner);
      ParentsComeFirst(scope[1..], p, c, more);
      ListingStep(scope, p, b);
      SegmentParts(list, first, inner, more, b);
      RebuildsSegment(list, Inner(scope[0]), b, b + 1, inner);
      RebuildsSegment(list, scope[1..], p, c, more);
      RebuildSkips(list, b, c, |list|);
      RebuildSkips(list, p, b + 1, c);
      RebuildFirst(list, p, b, Visible(Inner(scope[0])), Visible(scope[1..]), Rebuild(list, p, c + |more|));
      VisibleStep(scope);
    }
  }

  lemma RebuildFirst(list: seq<Entry>, p: int, b: nat, inner: seq<Symbol>, rest: seq<Symbol>, after: seq<Symbol>)
    requires b < |list| && list[b].parent == p
    requires Rebuild(list, b, b + 1) == inner + []
    requires Rebuild(list, p, b + 1) == rest + after
    ensures Rebuild(list, p, b) == ([Symbol(list[b].name, list[b].kind, inner)] + rest) + after
  {
    assert inner + [] == inner;
  }

  lemma VisibleEnd()
    ensures Visible([]) == []
  {
  }

  lemma VisibleGenerated(scope: seq<Symbol>)
    requires scope != [] && IsGenerated(scope[0].name)
    ensures Visible(scope) == Visible(scope[1..])
  {
  }

  lemma VisibleStep(scope: seq<Symbol>)
    requires scope != [] && !IsGenerated(scope[0].name)
    ensures Visible(scope)
         == [Symbol(scope[0].name, scope[0].kind, Visible(Inner(scope[0])))] + Visible(scope[1..])
  {
  }

  // So the listing of a table's owner gives back the owner with its table.
  lemma TableRebuilt(name: string, kind: Kind, scope: seq<Symbol>)
    requires '~' !in name
    ensures Rebuild(Listing([Symbol(name, kind, scope)], -1, 0), -1, 0)
         == [Symbol(name, kind, if kind in {Module, Function, Program} then Visible(scope) else [])]
  {
    Reversible([Symbol(name, kind, scope)]);
    VisibleEnd();
    if kind.Other? {
      OtherListing(name, scope, [], -1, 0);
    } else {
      TableListing(name, kind, scope, [], -1, 0);
    }
    assert [Symbol(name, kind, scope)] + [] == [Symbol(name, kind, scope)];
  }

  // The parent indices of a complete listing determine the visible tree.
  lemma Reversible(scope: seq<Symbol>)
    ensures Rebuild(Listing(scope, -1, 0), -1, 0) == Visible(scope)
  {
    var list := Listing(scope, -1, 0);
    assert list[0..|list|] == list;
    RebuildsSegment(list, scope, -1, 0, list);
    assert Rebuild(list, -1, |list|) == [];
  }
}
