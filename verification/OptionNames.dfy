// The names of an App's options: which spellings resolve to which option.
module OptionNames {
  import opened Sequences
  import opened Text

  datatype Names = Names(short: seq<string>, long: seq<string>, ignoreCase: bool, ignoreUnderscore: bool)

  function RemoveUnderscore(s: string): (r: string)
    ensures |r| <= |s| && '_' !in r
    decreases |s|
  {
    if s == "" then ""
    else if s[0] == '_' then RemoveUnderscore(s[1..])
    else [s[0]] + RemoveUnderscore(s[1..])
  }

  // The form in which a name is compared.
  function Norm(ignoreCase: bool, ignoreUnderscore: bool, s: string): string {
    if ignoreCase then
      if ignoreUnderscore then ToLower(RemoveUnderscore(s)) else ToLower(s)
    else if ignoreUnderscore then RemoveUnderscore(s)
    else s
  }

  function FindMember(name: string, names: seq<string>, ignoreCase: bool, ignoreUnderscore: bool): (i: int)
    ensures -1 <= i < |names|
    ensures i >= 0 ==> Norm(ignoreCase, ignoreUnderscore, names[i]) == Norm(ignoreCase, ignoreUnderscore, name)
    ensures i == -1 ==> forall n | n in names ::
      Norm(ignoreCase, ignoreUnderscore, n) != Norm(ignoreCase, ignoreUnderscore, name)
  {
    if names == [] then -1
    else if Norm(ignoreCase, ignoreUnderscore, names[0]) == Norm(ignoreCase, ignoreUnderscore, name) then 0
    else
      var i := FindMember(name, names[1..], ignoreCase, ignoreUnderscore);
      if i == -1 then -1 else i + 1
  }

  predicate CheckShort(o: Names, s: string) {
    FindMember(s, o.short, o.ignoreCase, false) >= 0
  }

  predicate CheckLong(o: Names, s: string) {
    FindMember(s, o.long, o.ignoreCase, o.ignoreUnderscore) >= 0
  }

  function FirstShort(names: seq<string>, o: Names): (r: string)
    ensures (exists n :: n in names && CheckShort(o, n)) ==> r in names && CheckShort(o, r)
    ensures (forall n | n in names :: !CheckShort(o, n)) ==> r == ""
  {
    if names == [] then "" else if CheckShort(o, names[0]) then names[0] else FirstShort(names[1..], o)
  }

  function FirstLong(names: seq<string>, o: Names): (r: string)
    ensures (exists n :: n in names && CheckLong(o, n)) ==> r in names && CheckLong(o, r)
    ensures (forall n | n in names :: !CheckLong(o, n)) ==> r == ""
  {
    if names == [] then "" else if CheckLong(o, names[0]) then names[0] else FirstLong(names[1..], o)
  }

  // The first name that a shares with b, or the empty string.
  function MatchingName(a: Names, b: Names): string {
    var s := FirstShort(a.short, b);
    if s != "" then s else
    var l := FirstLong(a.long, b);
    if l != "" then l else
    if a.ignoreCase || a.ignoreUnderscore then
      var s' := FirstShort(b.short, a);
      if s' != "" then s' else FirstLong(b.long, a)
    else ""
  }

  predicate Proper(o: Names) {
    "" !in o.short && "" !in o.long
  }

  // Does some spelling of an option name resolve to both options?
  ghost predicate Ambiguous(a: Names, b: Names) {
    || (exists s :: CheckShort(a, s) && CheckShort(b, s))
    || (exists s :: CheckLong(a, s) && CheckLong(b, s))
  }

  // What a windows-style word such as `/a` is compared with: names of either kind.
  predicate CheckAny(o: Names, s: string) {
    CheckLong(o, s) || CheckShort(o, s)
  }

  ghost predicate AmbiguousWindows(a: Names, b: Names) {
    exists s :: CheckAny(a, s) && CheckAny(b, s)
  }

  // A short name of a equals a long name of b, compared as freely as either option allows.
  ghost predicate Crossed(a: Names, b: Names) {
    exists m, n :: m in a.short && n in b.long
      && Norm(a.ignoreCase || b.ignoreCase, b.ignoreUnderscore, m)
      == Norm(a.ignoreCase || b.ignoreCase, b.ignoreUnderscore, n)
  }

  // One option ignores case only, the other underscores only.
  predicate Mixed(a: Names, b: Names) {
    || (a.ignoreCase && !a.ignoreUnderscore && !b.ignoreCase && b.ignoreUnderscore)
    || (b.ignoreCase && !b.ignoreUnderscore && !a.ignoreCase && a.ignoreUnderscore)
  }

  // Two long names that are equal but for case and underscores.
  ghost predicate Alike(a: Names, b: Names) {
    exists m, n :: m in a.long && n in b.long && Norm(true, true, m) == Norm(true, true, n)
  }

  // ---- what the comparison forms have in common ----

  lemma {:induction false} RemoveLower(s: string)
    ensures ToLower(RemoveUnderscore(s)) == RemoveUnderscore(ToLower(s))
    decreases |s|
  {
    if s != "" {
      RemoveLower(s[1..]);
      assert ToLower(s) == [LowerChar(s[0])] + ToLower(s[1..]);
      if s[0] != '_' {
        assert ToLower([s[0]] + RemoveUnderscore(s[1..])) == [LowerChar(s[0])] + ToLower(RemoveUnderscore(s[1..]));
      }
    }
  }

  // A comparison that ignores more accepts whatever one that ignores less accepts.
  lemma NormCoarser(c1: bool, u1: bool, c2: bool, u2: bool, s: string, t: string)
    requires (c1 ==> c2) && (u1 ==> u2)
    requires Norm(c1, u1, s) == Norm(c1, u1, t)
    ensures Norm(c2, u2, s) == Norm(c2, u2, t)
  {
    RemoveLower(s);
    RemoveLower(t);
  }

  // The spelling with the underscores of m and the case of n.
  function Merge(m: string, n: string): string
    decreases |m|
  {
    if m == "" then ""
    else if m[0] == '_' then ['_'] + Merge(m[1..], n)
    else if n == "" then m
    else [n[0]] + Merge(m[1..], n[1..])
  }

  lemma LowerCons(c: char, s: string)
    ensures ToLower([c] + s) == [LowerChar(c)] + ToLower(s)
  {
  }

  lemma {:induction false} MergeMatchesBoth(m: string, n: string)
    requires '_' !in n && ToLower(RemoveUnderscore(m)) == ToLower(n)
    ensures ToLower(Merge(m, n)) == ToLower(m)
    ensures RemoveUnderscore(Merge(m, n)) == n
    decreases |m|
  {
    hide ToLower;
    if m == "" {
      assert |ToLower(n)| == 0;
    } else {
      assert m == [m[0]] + m[1..];
      LowerCons(m[0], m[1..]);
      if m[0] == '_' {
        MergeMatchesBoth(m[1..], n);
        var rest := Merge(m[1..], n);
        LowerCons('_', rest);
        assert (['_'] + rest)[1..] == rest;
      } else {
        var r := RemoveUnderscore(m[1..]);
        LowerCons(m[0], r);
        assert |n| == |r| + 1;
        assert n == [n[0]] + n[1..];
        LowerCons(n[0], n[1..]);
        assert ToLower(r) == ToLower(n)[1..] == ToLower(n[1..]);
        MergeMatchesBoth(m[1..], n[1..]);
        var rest := Merge(m[1..], n[1..]);
        LowerCons(n[0], rest);
        assert ([n[0]] + rest)[1..] == rest;
      }
    }
  }

  // ---- names, character by character ----

  // Underscores go, everything else stays.
  lemma {:induction false} WithoutUnderscore(a: string, b: string)
    ensures RemoveUnderscore(a + "_" + b) == RemoveUnderscore(a) + RemoveUnderscore(b)
    decreases |a|
  {
    hide RemoveUnderscore;
    NoUnderscores();
    if a == "" {
      UnderscoreFirst('_', b);
      assert a + "_" + b == ['_'] + b && [] + RemoveUnderscore(b) == RemoveUnderscore(b);
    } else {
      var c, t := a[0], a[1..];
      WithoutUnderscore(t, b);
      UnderscoreFirst(c, t);
      UnderscoreFirst(c, t + "_" + b);
      assert a == [c] + t && a + "_" + b == [c] + (t + "_" + b);
      Associative([c], RemoveUnderscore(t), RemoveUnderscore(b));
    }
  }

  lemma {:induction false} NothingToRemove(a: string)
    requires '_' !in a
    ensures RemoveUnderscore(a) == a
  {
    if a != "" {
      NothingToRemove(a[1..]);
      assert a == [a[0]] + a[1..];
    }
  }

  lemma NoUnderscores()
    ensures RemoveUnderscore("") == ""
  {
  }

  lemma UnderscoreFirst(c: char, s: string)
    ensures RemoveUnderscore([c] + s) == if c == '_' then RemoveUnderscore(s) else [c] + RemoveUnderscore(s)
  {
    assert ([c] + s)[1..] == s;
  }

  // Is s a spelling of the name?
  predicate Spells(name: string, s: string, ignoreCase: bool, ignoreUnderscore: bool) {
    var n := if ignoreUnderscore then RemoveUnderscore(name) else name;
    var t := if ignoreUnderscore then RemoveUnderscore(s) else s;
    n == t || (ignoreCase && SameLetters(n, t))
  }

  lemma SpellsWhen(name: string, s: string, ignoreCase: bool, ignoreUnderscore: bool)
    ensures Norm(ignoreCase, ignoreUnderscore, name) == Norm(ignoreCase, ignoreUnderscore, s)
       <==> Spells(name, s, ignoreCase, ignoreUnderscore)
  {
    hide ToLower;
    SameInLowerCase(name, s);
    SameInLowerCase(RemoveUnderscore(name), RemoveUnderscore(s));
  }

  // The names that an option answers to: its own, with the case of letters ignored when it
  // ignores case, and for long ones underscores when it ignores those.
  lemma CheckWhen(o: Names, s: string)
    ensures CheckShort(o, s) <==> exists n :: n in o.short && Spells(n, s, o.ignoreCase, false)
    ensures CheckLong(o, s) <==> exists n :: n in o.long && Spells(n, s, o.ignoreCase, o.ignoreUnderscore)
  {
    hide Spells, Norm;
    forall n: string
      ensures Norm(o.ignoreCase, false, n) == Norm(o.ignoreCase, false, s) <==> Spells(n, s, o.ignoreCase, false)
      ensures Norm(o.ignoreCase, o.ignoreUnderscore, n) == Norm(o.ignoreCase, o.ignoreUnderscore, s)
         <==> Spells(n, s, o.ignoreCase, o.ignoreUnderscore)
    {
      SpellsWhen(n, s, o.ignoreCase, false);
      SpellsWhen(n, s, o.ignoreCase, o.ignoreUnderscore);
    }
  }

  // ---- what a match means ----

  ghost predicate ShortHits(a: Names, b: Names) {
    exists n :: n in a.short && CheckShort(b, n)
  }

  ghost predicate LongHits(a: Names, b: Names) {
    exists n :: n in a.long && CheckLong(b, n)
  }

  // A name of one option is accepted by the other.
  ghost predicate Hits(a: Names, b: Names) {
    ShortHits(a, b) || LongHits(a, b) || ShortHits(b, a) || LongHits(b, a)
  }

  lemma HitsBothWays(a: Names, b: Names)
    ensures Hits(a, b) <==> Hits(b, a)
  {
  }

  // The inverse test that matching_name leaves out without a flag would find nothing new.
  lemma MatchIsHit(a: Names, b: Names)
    requires Proper(a) && Proper(b)
    ensures MatchingName(a, b) != "" <==> Hits(a, b)
  {
    if !a.ignoreCase && !a.ignoreUnderscore {
      if ShortHits(b, a) {
        var n :| n in b.short && CheckShort(a, n);
        assert n in a.short && CheckShort(b, n);
      }
      if LongHits(b, a) {
        var n :| n in b.long && CheckLong(a, n);
        assert n in a.long && CheckLong(b, n);
      }
    }
  }

  // Two long names that differ only in the case of letters match if either option ignores case.
  lemma CaseHits(a: Names, b: Names, m: string, n: string)
    requires m in a.long && n in b.long && SameLetters(m, n) && (a.ignoreCase || b.ignoreCase)
    requires !a.ignoreUnderscore && !b.ignoreUnderscore
    ensures Hits(a, b)
  {
    assert SameLetters(n, m);
    if b.ignoreCase {
      CheckWhen(b, m);
      assert Spells(n, m, true, false);
      assert LongHits(a, b);
    } else {
      CheckWhen(a, n);
      assert Spells(m, n, true, false);
      assert LongHits(b, a);
    }
  }

  lemma HitIsAmbiguous(a: Names, b: Names)
    requires Hits(a, b)
    ensures Ambiguous(a, b)
  {
    if ShortHits(a, b) {
      var n :| n in a.short && CheckShort(b, n);
      assert CheckShort(a, n);
    } else if LongHits(a, b) {
      var n :| n in a.long && CheckLong(b, n);
      assert CheckLong(a, n);
    } else if ShortHits(b, a) {
      var n :| n in b.short && CheckShort(a, n);
      assert CheckShort(b, n);
    } else {
      var n :| n in b.long && CheckLong(a, n);
      assert CheckLong(b, n);
    }
  }

  lemma AmbiguousShort(a: Names, b: Names, s: string)
    requires CheckShort(a, s) && CheckShort(b, s)
    ensures Hits(a, b)
  {
    var m := a.short[FindMember(s, a.short, a.ignoreCase, false)];
    var n := b.short[FindMember(s, b.short, b.ignoreCase, false)];
    if a.ignoreCase ==> b.ignoreCase {
      NormCoarser(a.ignoreCase, false, b.ignoreCase, false, m, s);
      assert CheckShort(b, m);
    } else {
      NormCoarser(b.ignoreCase, false, a.ignoreCase, false, n, s);
      assert CheckShort(a, n);
    }
  }

  lemma AmbiguousLong(a: Names, b: Names, s: string)
    requires CheckLong(a, s) && CheckLong(b, s)
    ensures Hits(a, b) || (Mixed(a, b) && Alike(a, b))
  {
    var m := a.long[FindMember(s, a.long, a.ignoreCase, a.ignoreUnderscore)];
    var n := b.long[FindMember(s, b.long, b.ignoreCase, b.ignoreUnderscore)];
    if (a.ignoreCase ==> b.ignoreCase) && (a.ignoreUnderscore ==> b.ignoreUnderscore) {
      NormCoarser(a.ignoreCase, a.ignoreUnderscore, b.ignoreCase, b.ignoreUnderscore, m, s);
      assert CheckLong(b, m);
    } else if (b.ignoreCase ==> a.ignoreCase) && (b.ignoreUnderscore ==> a.ignoreUnderscore) {
      NormCoarser(b.ignoreCase, b.ignoreUnderscore, a.ignoreCase, a.ignoreUnderscore, n, s);
      assert CheckLong(a, n);
    } else {
      NormCoarser(a.ignoreCase, a.ignoreUnderscore, true, true, m, s);
      NormCoarser(b.ignoreCase, b.ignoreUnderscore, true, true, n, s);
    }
  }

  // Ignoring case in one option and underscores in the other, some spelling reaches both.
  lemma AlikeIsAmbiguous(a: Names, b: Names)
    requires a.ignoreCase && !a.ignoreUnderscore && !b.ignoreCase && b.ignoreUnderscore
    requires Alike(a, b)
    ensures Ambiguous(a, b)
  {
    var m, n :| m in a.long && n in b.long && Norm(true, true, m) == Norm(true, true, n);
    var s := Merge(m, RemoveUnderscore(n));
    MergeMatchesBoth(m, RemoveUnderscore(n));
    assert CheckLong(a, s) && CheckLong(b, s);
  }

  // Two options share a spelling exactly when matching_name reports one of their names, or when
  // one ignores just case, the other just underscores, and two long names differ only in those.
  lemma AmbiguousWhen(a: Names, b: Names)
    requires Proper(a) && Proper(b)
    ensures Ambiguous(a, b) <==> MatchingName(a, b) != "" || (Mixed(a, b) && Alike(a, b))
  {
    MatchIsHit(a, b);
    if Hits(a, b) {
      HitIsAmbiguous(a, b);
    } else if Mixed(a, b) && Alike(a, b) {
      if a.ignoreCase {
        AlikeIsAmbiguous(a, b);
      } else {
        var m, n :| m in a.long && n in b.long && Norm(true, true, m) == Norm(true, true, n);
        assert Alike(b, a);
        AlikeIsAmbiguous(b, a);
      }
    } else if Ambiguous(a, b) {
      if s :| CheckShort(a, s) && CheckShort(b, s) {
        AmbiguousShort(a, b, s);
      } else {
        var s :| CheckLong(a, s) && CheckLong(b, s);
        AmbiguousLong(a, b, s);
      }
    }
  }

  // Some spelling is a short name of a and a long name of b just if two such names are crossed.
  lemma CrossedWhen(a: Names, b: Names)
    ensures (exists s :: CheckShort(a, s) && CheckLong(b, s)) <==> Crossed(a, b)
  {
    var c, u := a.ignoreCase || b.ignoreCase, b.ignoreUnderscore;
    if s :| CheckShort(a, s) && CheckLong(b, s) {
      var m := a.short[FindMember(s, a.short, a.ignoreCase, false)];
      var n := b.long[FindMember(s, b.long, b.ignoreCase, u)];
      NormCoarser(a.ignoreCase, false, c, u, m, s);
      NormCoarser(b.ignoreCase, u, c, u, n, s);
      assert m in a.short && n in b.long && Norm(c, u, m) == Norm(c, u, n);
      assert Crossed(a, b);
    }
    if Crossed(a, b) {
      var m, n :| m in a.short && n in b.long && Norm(c, u, m) == Norm(c, u, n);
      var s := CommonSpelling(a, b, m, n);
      assert CheckShort(a, s) && CheckLong(b, s);
    }
  }

  lemma CommonSpelling(a: Names, b: Names, m: string, n: string) returns (s: string)
    requires m in a.short && n in b.long
    requires Norm(a.ignoreCase || b.ignoreCase, b.ignoreUnderscore, m)
          == Norm(a.ignoreCase || b.ignoreCase, b.ignoreUnderscore, n)
    ensures CheckShort(a, s) && CheckLong(b, s)
  {
    if a.ignoreCase ==> b.ignoreCase {
      s := m;
    } else if !b.ignoreUnderscore {
      s := n;
    } else {
      s := Merge(m, RemoveUnderscore(n));
      MergeMatchesBoth(m, RemoveUnderscore(n));
    }
  }

  // With windows-style words there is one more way: no test of the source compares short names
  // with long ones.
  lemma AmbiguousWindowsWhen(a: Names, b: Names)
    requires Proper(a) && Proper(b)
    ensures AmbiguousWindows(a, b)
       <==> MatchingName(a, b) != "" || (Mixed(a, b) && Alike(a, b)) || Crossed(a, b) || Crossed(b, a)
  {
    AmbiguousWhen(a, b);
    CrossedWhen(a, b);
    CrossedWhen(b, a);
    assert AmbiguousWindows(a, b)
      <==> Ambiguous(a, b) || (exists s :: CheckShort(a, s) && CheckLong(b, s))
           || (exists s :: CheckShort(b, s) && CheckLong(a, s)) by {
      AnyIsEither(a, b);
    }
  }

  lemma AnyIsEither(a: Names, b: Names)
    ensures AmbiguousWindows(a, b)
      <==> Ambiguous(a, b) || (exists s :: CheckShort(a, s) && CheckLong(b, s))
           || (exists s :: CheckShort(b, s) && CheckLong(a, s))
  {
    hide CheckShort, CheckLong;
    if AmbiguousWindows(a, b) {
      var s :| CheckAny(a, s) && CheckAny(b, s);
    }
    if s :| CheckShort(a, s) && CheckShort(b, s) {
      assert CheckAny(a, s) && CheckAny(b, s);
    }
    if s :| CheckLong(a, s) && CheckLong(b, s) {
      assert CheckAny(a, s) && CheckAny(b, s);
    }
    if s :| CheckShort(a, s) && CheckLong(b, s) {
      assert CheckAny(a, s) && CheckAny(b, s);
    }
    if s :| CheckShort(b, s) && CheckLong(a, s) {
      assert CheckAny(a, s) && CheckAny(b, s);
    }
  }

  // An option `-a` and an option `--a`: no test reports them and no short or long spelling is
  // shared, but `/a` reaches both.
  lemma CrossedExample()
    ensures var a, b := Names(["a"], [], false, false), Names([], ["a"], false, false);
            && MatchingName(a, b) == "" && MatchingName(b, a) == "" && !Ambiguous(a, b)
            && CheckAny(a, "a") && CheckAny(b, "a")
  {
    var a, b := Names(["a"], [], false, false), Names([], ["a"], false, false);
    assert "a" in a.short && "a" in b.long;
    AmbiguousWhen(a, b);
  }

  lemma MixedForms()
    ensures RemoveUnderscore("A_B") == "AB" && RemoveUnderscore("ab") == "ab"
    ensures ToLower("AB") == "ab" && ToLower("A_B") == "a_b" && ToLower("ab") == "ab"
  {
    var m, n := "A_B", "ab";
    assert |m| == 3 && |n| == 2 && m[1] == '_';
  }

  // The pair that no test of the source reports.
  lemma MixedExample()
    ensures var a, b := Names([], ["A_B"], true, false), Names([], ["ab"], false, true);
            MatchingName(a, b) == "" && MatchingName(b, a) == "" && Ambiguous(a, b)
  {
    var a, b := Names([], ["A_B"], true, false), Names([], ["ab"], false, true);
    var m, n := "A_B", "ab";
    assert m in a.long && n in b.long;
    MixedForms();
    hide ToLower, RemoveUnderscore;
    assert |"AB"| == |"ab"| == 2 && "AB"[0] == 'A' && "ab"[0] == 'a' && |"a_b"| == 3;
    assert FindMember(m, b.long, false, true) == -1;
    assert FindMember(n, a.long, true, false) == -1;
    AlikeIsAmbiguous(a, b);
  }

  // Setting a flag back can only lose matches.
  lemma FewerFlagsFewerHits(a: Names, a': Names, b: Names)
    requires a'.short == a.short && a'.long == a.long
    requires (a'.ignoreCase ==> a.ignoreCase) && (a'.ignoreUnderscore ==> a.ignoreUnderscore)
    requires Hits(a', b)
    ensures Hits(a, b)
  {
    if ShortHits(a', b) {
      var n :| n in a'.short && CheckShort(b, n);
      assert ShortHits(a, b);
    } else if LongHits(a', b) {
      var n :| n in a'.long && CheckLong(b, n);
      assert LongHits(a, b);
    } else if ShortHits(b, a') {
      var n :| n in b.short && CheckShort(a', n);
      var m := a'.short[FindMember(n, a'.short, a'.ignoreCase, false)];
      NormCoarser(a'.ignoreCase, false, a.ignoreCase, false, m, n);
      assert CheckShort(a, n);
    } else {
      var n :| n in b.long && CheckLong(a', n);
      var m := a'.long[FindMember(n, a'.long, a'.ignoreCase, a'.ignoreUnderscore)];
      NormCoarser(a'.ignoreCase, a'.ignoreUnderscore, a.ignoreCase, a.ignoreUnderscore, m, n);
      assert CheckLong(a, n);
    }
  }

  // ---- the App ----

  class Option {
    const short: seq<string>
    const long: seq<string>
    var ignoreCase: bool
    var ignoreUnderscore: bool

    constructor (short: seq<string>, long: seq<string>)
      ensures this.short == short && this.long == long && !ignoreCase && !ignoreUnderscore
    {
      this.short, this.long := short, long;
      ignoreCase, ignoreUnderscore := false, false;
    }

    function Own(): (n: Names)
      reads this
    {
      Names(short, long, ignoreCase, ignoreUnderscore)
    }
  }

  class App {
    var options: seq<Option>
    var defaultIgnoreCase: bool
    var defaultIgnoreUnderscore: bool

    // The options are different objects with proper names, and no test of the source would
    // report a match between two of them.
    ghost predicate Valid()
      reads this, options
    {
      && (forall o | o in options :: Proper(o.Own()))
      && Distinct(options)
      && (forall a, b | a in options && b in options && a != b :: !Hits(a.Own(), b.Own()))
    }

    constructor (defaultIgnoreCase: bool, defaultIgnoreUnderscore: bool)
      ensures Valid() && options == []
      ensures this.defaultIgnoreCase == defaultIgnoreCase && this.defaultIgnoreUnderscore == defaultIgnoreUnderscore
    {
      options := [];
      this.defaultIgnoreCase, this.defaultIgnoreUnderscore := defaultIgnoreCase, defaultIgnoreUnderscore;
    }

    // Does the option match another one of this App?
    method Conflicts(opt: Option) returns (conflict: bool)
      requires Proper(opt.Own()) && forall o | o in options :: Proper(o.Own())
      ensures conflict <==> exists o :: o in options && o != opt && Hits(o.Own(), opt.Own())
    {
      conflict := false;
      for i := 0 to |options|
        invariant forall k | 0 <= k < i :: options[k] == opt || !Hits(options[k].Own(), opt.Own())
      {
        if options[i] != opt {
          var omatch := MatchingName(options[i].Own(), opt.Own());
          MatchIsHit(options[i].Own(), opt.Own());
          if omatch != "" {
            assert options[i] in options;
            return true;
          }
        }
      }
    }

    // False stands for the OptionAlreadyAdded exception.
    method IgnoreCase(opt: Option, value: bool) returns (ok: bool)
      requires Valid() && opt in options
      modifies opt`ignoreCase
      ensures Valid() && opt.ignoreCase == (if ok then value else false)
      ensures !ok ==> !old(opt.ignoreCase) && value
      ensures !ok <==> (value && !old(opt.ignoreCase)
                        && exists o :: o in options && o != opt && Hits(o.Own(), old(opt.Own()).(ignoreCase := true)))
    {
      ghost var was := opt.Own();
      if !opt.ignoreCase && value {
        opt.ignoreCase := value;
        var conflict := Conflicts(opt);
        if conflict {
          opt.ignoreCase := false;
          assert opt.Own() == was;
          return false;
        }
      } else {
        opt.ignoreCase := value;
        Lowered(opt, was);
      }
      ok := true;
    }

    lemma Lowered(opt: Option, was: Names)
      requires opt in options && was.short == opt.short && was.long == opt.long
      requires (opt.ignoreCase ==> was.ignoreCase) && (opt.ignoreUnderscore ==> was.ignoreUnderscore)
      requires forall o | o in options && o != opt :: !Hits(was, o.Own())
      ensures forall o | o in options && o != opt :: !Hits(opt.Own(), o.Own())
    {
      forall o | o in options && o != opt
        ensures !Hits(opt.Own(), o.Own())
      {
        if Hits(opt.Own(), o.Own()) {
          FewerFlagsFewerHits(was, opt.Own(), o.Own());
        }
      }
    }

    method IgnoreUnderscore(opt: Option, value: bool) returns (ok: bool)
      requires Valid() && opt in options
      modifies opt`ignoreUnderscore
      ensures Valid() && opt.ignoreUnderscore == (if ok then value else false)
      ensures !ok <==> (value && !old(opt.ignoreUnderscore)
                        && exists o :: o in options && o != opt
                             && Hits(o.Own(), old(opt.Own()).(ignoreUnderscore := true)))
    {
      ghost var was := opt.Own();
      if !opt.ignoreUnderscore && value {
        opt.ignoreUnderscore := value;
        var conflict := Conflicts(opt);
        if conflict {
          opt.ignoreUnderscore := false;
          assert opt.Own() == was;
          return false;
        }
      } else {
        opt.ignoreUnderscore := value;
        Lowered(opt, was);
      }
      ok := true;
    }

    // The part of option_defaults_.copy_to that can throw; false stands for the exception.
    method CopyDefaults(opt: Option) returns (ok: bool)
      requires Valid() && opt in options && !opt.ignoreCase && !opt.ignoreUnderscore
      modifies opt`ignoreCase, opt`ignoreUnderscore
      ensures Valid()
      ensures ok ==> opt.ignoreCase == defaultIgnoreCase && opt.ignoreUnderscore == defaultIgnoreUnderscore
      ensures ok <==> forall o | o in options && o != opt ::
        !Hits(o.Own(), Names(opt.short, opt.long, defaultIgnoreCase, defaultIgnoreUnderscore))
    {
      ghost var full := Names(opt.short, opt.long, defaultIgnoreCase, defaultIgnoreUnderscore);
      ok := IgnoreCase(opt, defaultIgnoreCase);
      if !ok {
        SomeHit(options, opt, Names(opt.short, opt.long, true, false), full);
        return;
      }
      ok := IgnoreUnderscore(opt, defaultIgnoreUnderscore);
      if !ok {
        SomeHit(options, opt, Names(opt.short, opt.long, defaultIgnoreCase, true), full);
      }
    }

    // None stands for the exception. When it comes from copying the defaults, the new option
    // stays registered, without the flag that caused the conflict.
    method AddOption(short: seq<string>, long: seq<string>) returns (opt: Option?)
      requires Valid() && "" !in short && "" !in long
      modifies this`options
      ensures Valid()
      ensures options == old(options) || (|options| == |old(options)| + 1 && options[..|old(options)|] == old(options)
              && fresh(options[|old(options)|]))
      ensures opt != null ==> options == old(options) + [opt]
      ensures opt != null ==> opt.Own() == Names(short, long, defaultIgnoreCase, defaultIgnoreUnderscore)
      ensures opt == null && options != old(options) ==>
        options[|old(options)|].short == short && options[|old(options)|].long == long
      ensures opt != null
         <==> forall o | o in old(options) ::
                !old(Hits(o.Own(), Names(short, long, defaultIgnoreCase, defaultIgnoreUnderscore)))
      ensures options == old(options)
         <==> exists o :: o in old(options) && old(Hits(o.Own(), Names(short, long, false, false)))
    {
      hide Hits;
      var myopt := new Option(short, long);
      assert forall o | o in options :: o != myopt && o.Own() == old(o.Own());
      var taken := Conflicts(myopt);
      if taken {
        SomeHit(options, myopt, myopt.Own(), Names(short, long, defaultIgnoreCase, defaultIgnoreUnderscore));
        return null;
      }
      forall o | o in options
        ensures !Hits(myopt.Own(), o.Own())
      {
        HitsBothWays(myopt.Own(), o.Own());
      }
      options := options + [myopt];
      var copied := CopyDefaults(myopt);
      assert forall o | o in old(options) :: o in options && o != myopt && o.Own() == old(o.Own());
      assert forall o | o in options && o != myopt :: o in old(options);
      opt := if copied then myopt else null;
    }

    lemma SomeHit(among: seq<Option>, opt: Option, part: Names, full: Names)
      requires part.short == full.short && part.long == full.long
      requires (part.ignoreCase ==> full.ignoreCase) && (part.ignoreUnderscore ==> full.ignoreUnderscore)
      requires exists o :: o in among && o != opt && Hits(o.Own(), part)
      ensures exists o :: o in among && o != opt && Hits(o.Own(), full)
    {
      var o :| o in among && o != opt && Hits(o.Own(), part);
      FewerFlagsFewerHits(full, part, o.Own());
    }

    method RemoveOption(opt: Option) returns (found: bool)
      requires Valid()
      modifies this`options
      ensures Valid() && found == (opt in old(options)) && opt !in options
      ensures forall o :: o in options <==> o in old(options) && o != opt
    {
      for i := 0 to |options|
        invariant opt !in options[..i]
      {
        if options[i] == opt {
          Erased(options, i);
          options := options[..i] + options[i + 1..];
          return true;
        }
      }
      found := false;
    }

    // What validity means for a caller: a spelling reaches two options only in the mixed case.
    lemma Unambiguous(a: Option, b: Option)
      requires Valid() && a in options && b in options && a != b
      ensures Ambiguous(a.Own(), b.Own()) <==> Mixed(a.Own(), b.Own()) && Alike(a.Own(), b.Own())
    {
      MatchIsHit(a.Own(), b.Own());
      AmbiguousWhen(a.Own(), b.Own());
    }

    // With windows-style words, in the crossed case too.
    lemma UnambiguousWindows(a: Option, b: Option)
      requires Valid() && a in options && b in options && a != b
      ensures AmbiguousWindows(a.Own(), b.Own())
         <==> || (Mixed(a.Own(), b.Own()) && Alike(a.Own(), b.Own()))
              || Crossed(a.Own(), b.Own()) || Crossed(b.Own(), a.Own())
    {
      MatchIsHit(a.Own(), b.Own());
      AmbiguousWindowsWhen(a.Own(), b.Own());
    }
  }
}
