// String helpers of CLI11, in the C locale.
module Text {
  // ---- letters ----

  predicate IsUpper(c: char) {
    'A' <= c <= 'Z'
  }

  // The two cases of one letter.
  predicate IsCasePair(upper: char, lower: char) {
    IsUpper(upper) && lower as int - 'a' as int == upper as int - 'A' as int
  }

  predicate SameLetter(c: char, d: char) {
    c == d || IsCasePair(c, d) || IsCasePair(d, c)
  }

  predicate SameLetters(s: string, t: string) {
    |s| == |t| && forall i | 0 <= i < |s| :: SameLetter(s[i], t[i])
  }

  function LowerChar(c: char): (r: char)
    ensures !IsUpper(r) && SameLetter(c, r)
  {
    if 'A' <= c <= 'Z' then (c as int + 32) as char else c
  }

  function ToLower(s: string): (r: string)
    ensures |r| == |s|
  {
    seq(|s|, i requires 0 <= i < |s| => LowerChar(s[i]))
  }

  // Lower-case text has no capital, and every character is the one it was or its other case.
  lemma ToLowerChars(s: string)
    ensures forall i | 0 <= i < |s| :: !IsUpper(ToLower(s)[i]) && SameLetter(s[i], ToLower(s)[i])
    ensures (forall i | 0 <= i < |s| :: !IsUpper(s[i])) ==> ToLower(s) == s
  {
  }

  const CAPITALS: string := "ABCDEFGHIJKLMNOPQRSTUVWXYZ"
  const SMALL: string := "abcdefghijklmnopqrstuvwxyz"
  const DIGITS: string := "0123456789"

  lemma Alphabet(c: char)
    ensures |CAPITALS| == |SMALL| == 26
    ensures IsUpper(c) <==> c in CAPITALS
    ensures forall i | 0 <= i < 26 :: LowerChar(CAPITALS[i]) == SMALL[i]
  {
    assert forall i | 0 <= i < 26 :: CAPITALS[i] as int == 'A' as int + i && SMALL[i] as int == 'a' as int + i;
    if IsUpper(c) {
      assert CAPITALS[c as int - 'A' as int] == c;
    }
  }

  lemma SmallLetter(c: char)
    ensures 'a' <= c <= 'z' <==> c in SMALL
  {
    if 'a' <= c <= 'z' {
      assert SMALL[c as int - 'a' as int] == c;
    }
  }

  lemma Digit(c: char)
    ensures '0' <= c <= '9' <==> c in DIGITS
  {
    if '0' <= c <= '9' {
      assert DIGITS[c as int - '0' as int] == c;
    }
  }

  // Equal in lower case is equal but for the case of letters.
  lemma SameInLowerCase(s: string, t: string)
    ensures ToLower(s) == ToLower(t) <==> SameLetters(s, t)
  {
    if ToLower(s) == ToLower(t) {
      forall i | 0 <= i < |s|
        ensures SameLetter(s[i], t[i])
      {
        assert ToLower(s)[i] == ToLower(t)[i];
      }
    }
    if SameLetters(s, t) {
      forall i | 0 <= i < |s|
        ensures ToLower(s)[i] == ToLower(t)[i]
      {
        assert SameLetter(s[i], t[i]);
      }
    }
  }

  // ---- blanks and quotes ----

  predicate IsSpace(c: char) {
    c == ' ' || '\t' <= c <= '\r'
  }

  lemma Blanks(c: char)
    ensures IsSpace(c) <==> c in " \t\n\U{0B}\U{0C}\r"
  {
  }

  // Does a pair of equal quotes stand around s?
  predicate Enclosed(s: string) {
    |s| > 1 && (s[0] == '"' || s[0] == '\'') && s[0] == s[|s| - 1]
  }

  function RemoveQuotes(s: string): string {
    if Enclosed(s) then s[1..|s| - 1] else s
  }

  function Unquoted(p: seq<string>): (r: seq<string>)
    ensures |r| == |p|
  {
    seq(|p|, i requires 0 <= i < |p| => RemoveQuotes(p[i]))
  }

  lemma UnquotedConcat(a: seq<string>, b: seq<string>)
    ensures Unquoted(a + b) == Unquoted(a) + Unquoted(b)
    ensures Unquoted([]) == []
  {
  }

  // One pair of quotes is taken off, of either kind; text without quotes at its ends stays.
  lemma QuotesTakenOff(s: string, q: char)
    requires q == '"' || q == '\''
    ensures RemoveQuotes([q] + s + [q]) == s
    ensures s != "" && s[0] != '"' && s[0] != '\'' ==> RemoveQuotes(s) == s
  {
  }

  // ---- splitting ----

  // Index of the first character equal to c, or |s|.
  function Find(s: string, c: char): (i: nat)
    ensures i <= |s| && forall j | 0 <= j < i :: s[j] != c
    ensures i < |s| ==> s[i] == c
  {
    if s == "" || s[0] == c then 0 else Find(s[1..], c) + 1
  }

  // The pieces that `std::getline` reads: no empty piece after a final delimiter.
  function Pieces(s: string, delim: char): seq<string> {
    if s == [] then []
    else
      var i := Find(s, delim);
      if i == |s| then [s] else [s[..i]] + Pieces(s[i + 1..], delim)
  }

  function Split(s: string, delim: char): (r: seq<string>)
    ensures |r| >= 1
  {
    if s == [] then [""] else Pieces(s, delim)
  }

  function Join(pieces: seq<string>, delim: char): string {
    if pieces == [] then "" else if |pieces| == 1 then pieces[0]
    else pieces[0] + [delim] + Join(pieces[1..], delim)
  }

  predicate Undivided(pieces: seq<string>, delim: char) {
    forall i | 0 <= i < |pieces| :: delim !in pieces[i]
  }

  lemma {:induction false} SplitIsUndivided(s: string, delim: char)
    ensures Undivided(Pieces(s, delim), delim) && Undivided(Split(s, delim), delim)
  {
    if s != [] {
      var i := Find(s, delim);
      if i < |s| {
        SplitIsUndivided(s[i + 1..], delim);
      }
    }
  }

  lemma FirstPiece(a: string, delim: char, rest: string)
    requires delim !in a
    ensures Pieces(a + [delim] + rest, delim) == [a] + Pieces(rest, delim)
  {
    var s := a + [delim] + rest;
    assert s[|a|] == delim;
    assert forall j | 0 <= j < |a| :: s[j] == a[j];
    assert Find(s, delim) == |a|;
    assert s[..|a|] == a && s[|a| + 1..] == rest;
  }

  lemma OnlyPiece(a: string, delim: char)
    requires delim !in a && a != ""
    ensures Pieces(a, delim) == [a] && Pieces("", delim) == []
  {
    assert Find(a, delim) == |a|;
  }

  // Splitting takes joined pieces apart again; a final delimiter adds nothing.
  lemma {:induction false} SplitJoined(pieces: seq<string>, delim: char)
    requires pieces != [] && Undivided(pieces, delim) && pieces[|pieces| - 1] != ""
    ensures Join(pieces, delim) != "" && Split(Join(pieces, delim), delim) == pieces
    ensures Split(Join(pieces, delim) + [delim], delim) == pieces
  {
    hide Pieces;
    var p, s := pieces[0], Join(pieces, delim);
    if |pieces| == 1 {
      OnlyPiece(p, delim);
      FirstPiece(p, delim, "");
      assert s + [delim] == p + [delim] + "";
    } else {
      var more := Join(pieces[1..], delim);
      SplitJoined(pieces[1..], delim);
      FirstPiece(p, delim, more);
      FirstPiece(p, delim, more + [delim]);
      assert s + [delim] == p + [delim] + (more + [delim]);
    }
  }

  // Two or more pieces, joined, hold the delimiter; one piece does not.
  lemma JoinedHas(pieces: seq<string>, delim: char)
    requires pieces != [] && Undivided(pieces, delim)
    ensures delim in Join(pieces, delim) <==> |pieces| > 1
  {
    if |pieces| > 1 {
      assert Join(pieces, delim)[|pieces[0]|] == delim;
    }
  }
}
