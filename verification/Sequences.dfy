module Sequences {
  ghost predicate Distinct<T>(s: seq<T>) {
    forall i, j | 0 <= i < j < |s| :: s[i] != s[j]
  }

  lemma Associative<T>(a: seq<T>, b: seq<T>, c: seq<T>)
    ensures a + b + c == a + (b + c)
  {
  }

  // Erasing one element of a sequence without repetition takes just that element away.
  lemma Erased<T>(s: seq<T>, i: nat)
    requires i < |s| && Distinct(s)
    ensures var t := s[..i] + s[i + 1..];
            && Distinct(t) && s[i] !in t
            && (forall x | x in t :: x in s)
            && (forall x | x in s && x != s[i] :: x in t)
  {
    var t := s[..i] + s[i + 1..];
    assert forall k | 0 <= k < |t| :: t[k] == s[if k < i then k else k + 1];
    assert forall k | 0 <= k < |s| && k != i :: s[k] == t[if k < i then k else k - 1];
  }
}
