// Taking CUDA sources out of NUL-delimited section contents.
module CudaPayload {
  import opened Sequences
  import opened Text

  const NUL: char := '\0'

  // The non-empty stretches that a NUL ends, in order.
  function Sources(data: string): seq<string>
    decreases |data|
  {
    var i := Find(data, NUL);
    if i == |data| then []
    else (if i > 0 then [data[..i]] else []) + Sources(data[i + 1..])
  }

  // Empty, or ending in NUL.
  predicate Terminated(data: string) {
    data == "" || data[|data| - 1] == NUL
  }

  lemma NextSource(data: string, i: nat)
    requires i < |data| && data[i] == NUL && forall j | 0 <= j < i :: data[j] != NUL
    ensures Sources(data) == (if i > 0 then [data[..i]] else []) + Sources(data[i + 1..])
  {
    assert Find(data, NUL) == i;
  }

  lemma NoMoreSources(data: string)
    requires forall j | 0 <= j < |data| :: data[j] != NUL
    ensures Sources(data) == []
  {
    assert Find(data, NUL) == |data|;
  }

  // Passes over further NULs.
  method SkipNuls(data: string, from: nat) returns (pos: nat)
    requires 0 < from <= |data| && data[from - 1] == NUL
    ensures from <= pos <= |data| && data[pos - 1] == NUL
    ensures Sources(data[pos..]) == Sources(data[from..])
  {
    hide Sources;
    pos := from;
    while pos < |data| && data[pos] == NUL
      invariant from <= pos <= |data| && data[pos - 1] == NUL
      invariant Sources(data[pos..]) == Sources(data[from..])
    {
      NextSource(data[pos..], 0);
      assert data[pos..][1..] == data[pos + 1..];
      pos := pos + 1;
    }
  }

  // The stretch up to the next NUL, or the rest of the data.
  method NextStretch(data: string, pos: nat) returns (end: nat)
    requires pos <= |data|
    ensures pos <= end <= |data| && forall j | pos <= j < end :: data[j] != NUL
    ensures end < |data| ==> data[end] == NUL
    ensures Sources(data[pos..])
         == if end == |data| then []
            else (if end > pos then [data[pos..end]] else []) + Sources(data[end + 1..])
  {
    hide Sources;
    end := pos;
    while end < |data| && data[end] != NUL
      invariant pos <= end <= |data|
      invariant forall j | pos <= j < end :: data[j] != NUL
    {
      end := end + 1;
    }
    ghost var rest := data[pos..];
    if end == |data| {
      NoMoreSources(rest);
    } else {
      NextSource(rest, end - pos);
      assert rest[end - pos + 1..] == data[end + 1..] && rest[..end - pos] == data[pos..end];
    }
  }

  // Appends the sources found and returns whether the payload is well formed; what a
  // malformed payload holds before its last piece is appended all the same.
  method AppendPayload(data: string, sources: seq<string>) returns (ok: bool, out: seq<string>)
    ensures ok <==> Terminated(data)
    ensures out == sources + Sources(data)
  {
    hide Sources;
    out := sources;
    var pos := 0;
    assert data[0..] == data;
    while pos < |data|
      invariant pos <= |data|
      invariant pos > 0 ==> data[pos - 1] == NUL
      invariant sources + Sources(data) == out + Sources(data[pos..])
    {
      var end := NextStretch(data, pos);
      if end == |data| {
        return false, out;
      }
      ghost var before, more := out, Sources(data[end + 1..]);
      if end > pos {
        out := out + [data[pos..end]];
      }
      Associative(before, if end > pos then [data[pos..end]] else [], more);
      assert out == before + if end > pos then [data[pos..end]] else [];
      pos := SkipNuls(data, end + 1);
    }
    assert data[pos..] == "";
    NoMoreSources("");
    ok := true;
  }

  function Nuls(n: nat): string {
    if n == 0 then "" else [NUL] + Nuls(n - 1)
  }

  predicate PlainSource(s: string) {
    s != "" && forall j | 0 <= j < |s| :: s[j] != NUL
  }

  // Each string followed by as many NULs as the list of counts says.
  function Encode(strings: seq<string>, counts: seq<nat>): string
    requires |strings| == |counts|
  {
    if strings == [] then "" else strings[0] + Nuls(counts[0]) + Encode(strings[1..], counts[1..])
  }

  // Parsing the first of two payloads leaves off where the second begins.
  lemma {:induction false} Concatenation(a: string, b: string)
    requires Terminated(a)
    ensures Sources(a + b) == Sources(a) + Sources(b)
    decreases |a|
  {
    hide Sources;
    if a == "" {
      assert a + b == b;
      NoMoreSources(a);
    } else {
      var i := Find(a, NUL);
      assert a[|a| - 1] == NUL;
      NextSource(a, i);
      NextSource(a + b, i);
      assert (a + b)[..i] == a[..i] && (a + b)[i + 1..] == a[i + 1..] + b;
      Concatenation(a[i + 1..], b);
    }
  }

  lemma {:induction false} NoSources(n: nat)
    ensures Sources(Nuls(n)) == [] && Terminated(Nuls(n))
    ensures |Nuls(n)| == n
  {
    if n > 0 {
      NoSources(n - 1);
      assert Nuls(n)[1..] == Nuls(n - 1);
      NextSource(Nuls(n), 0);
    } else {
      NoMoreSources("");
    }
  }

  lemma OneSource(s: string, n: nat)
    requires PlainSource(s) && n >= 1
    ensures Sources(s + Nuls(n)) == [s] && Terminated(s + Nuls(n))
  {
    hide Sources;
    var nuls, t := Nuls(n), s + Nuls(n);
    NoSources(n);
    NoSources(n - 1);
    assert nuls == [NUL] + Nuls(n - 1);
    hide Nuls;
    assert t[|t| - 1] == nuls[n - 1];
    NextSource(t, |s|);
    assert t[..|s|] == s;
    assert t[|s| + 1..] == nuls[1..] == Nuls(n - 1);
  }

  // Any list of non-empty NUL-free strings, each followed by at least one NUL, parses to itself.
  lemma {:induction false} ParsesEncoding(strings: seq<string>, counts: seq<nat>)
    requires |strings| == |counts|
    requires forall i | 0 <= i < |strings| :: PlainSource(strings[i]) && counts[i] >= 1
    ensures Terminated(Encode(strings, counts))
    ensures Sources(Encode(strings, counts)) == strings
  {
    hide Sources, Nuls;
    if strings == [] {
      NoMoreSources("");
    } else {
      var head := strings[0] + Nuls(counts[0]);
      var tail := Encode(strings[1..], counts[1..]);
      OneSource(strings[0], counts[0]);
      ParsesEncoding(strings[1..], counts[1..]);
      Concatenation(head, tail);
      if tail != "" {
        assert (head + tail)[|head + tail| - 1] == tail[|tail| - 1];
      } else {
        assert head + tail == head;
      }
      assert strings == [strings[0]] + strings[1..];
    }
  }

  // Two sources and the padding between them, written out.
  lemma TwoSources()
    ensures Sources("ab\0\0c\0") == ["ab", "c"] && Terminated("ab\0\0c\0") && !Terminated("ab")
  {
    hide Sources;
    var strings, counts: seq<nat> := ["ab", "c"], [2, 1];
    ParsesEncoding(strings, counts);
    assert Nuls(1) == "\0" && Nuls(2) == "\0\0";
    assert strings[1..] == ["c"] && counts[1..] == [1];
    hide Nuls;
    assert Encode(["c"], [1]) == "c\0";
    assert Encode(strings, counts) == "ab" + "\0\0" + "c\0" == "ab\0\0c\0";
  }
}
