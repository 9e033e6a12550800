// Printing an option's values into a config file and splitting them up again.
module IniValues {
  import opened Text

  const SEP: char := ','
  const STRING_QUOTE: char := '"'
  const CHARACTER_QUOTE: char := '\''
  const BACKSLASH: char := '\\'

  predicate IsQuote(c: char) {
    c == '\'' || c == '"' || c == '`'
  }

  // ---- printing ----

  predicate AllHex(s: string) {
    forall i | 0 <= i < |s| :: '0' <= s[i] <= '9' || 'A' <= s[i] <= 'F' || 'a' <= s[i] <= 'f'
  }

  predicate AllOctal(s: string) {
    forall i | 0 <= i < |s| :: '0' <= s[i] <= '7'
  }

  predicate AllBinary(s: string) {
    forall i | 0 <= i < |s| :: s[i] == '0' || s[i] == '1'
  }

  // A hexadecimal, octal or binary literal.
  predicate IsPrefixed(arg: string) {
    && |arg| >= 2 && arg[0] == '0'
    && (|| (arg[1] == 'x' && AllHex(arg[2..]))
        || (arg[1] == 'o' && AllOctal(arg[2..]))
        || (arg[1] == 'b' && AllBinary(arg[2..])))
  }

  // Is the argument printed as it is? The number test is a parameter.
  predicate Bare(isNumber: string -> bool, arg: string) {
    && arg != ""
    && (|| arg in {"true", "false", "nan", "inf"}
        || (arg[..if |arg| < 2 then |arg| else 2] !in {"0x", "0X"} && isNumber(arg))
        || IsPrefixed(arg))
  }

  // Literals, digit by digit.
  lemma LiteralDigits(s: string)
    ensures AllHex(s) <==> forall i | 0 <= i < |s| :: s[i] in DIGITS || s[i] in "abcdef" || s[i] in "ABCDEF"
    ensures AllOctal(s) <==> forall i | 0 <= i < |s| :: s[i] in "01234567"
    ensures AllBinary(s) <==> forall i | 0 <= i < |s| :: s[i] in "01"
  {
    forall i | 0 <= i < |s|
      ensures ('0' <= s[i] <= '9' || 'A' <= s[i] <= 'F' || 'a' <= s[i] <= 'f')
         <==> s[i] in DIGITS || s[i] in "abcdef" || s[i] in "ABCDEF"
      ensures '0' <= s[i] <= '7' <==> s[i] in "01234567"
    {
      Digit(s[i]);
      hide DIGITS;
    }
  }

  // The quote put around an argument that is not printed as it is.
  function QuoteFor(arg: string): (q: char)
    ensures IsQuote(q)
  {
    if arg == "" then STRING_QUOTE
    else if |arg| == 1 then CHARACTER_QUOTE
    else if STRING_QUOTE !in arg then STRING_QUOTE
    else CHARACTER_QUOTE
  }

  function Printed(isNumber: string -> bool, arg: string): string {
    if Bare(isNumber, arg) then arg else [QuoteFor(arg)] + arg + [QuoteFor(arg)]
  }

  // The source's convert_arg_for_ini, test by test.
  method ConvertArgForIni(isNumber: string -> bool, arg: string) returns (text: string)
    ensures text == Printed(isNumber, arg)
    ensures arg in {"true", "false", "nan", "inf"} ==> text == arg
    ensures arg != "" && isNumber(arg) && !("0x" <= arg) && !("0X" <= arg) ==> text == arg
    ensures forall digits: string :: arg == "0x" + digits && AllHex(digits) ==> text == arg
    ensures forall digits: string :: arg == "0o" + digits && AllOctal(digits) ==> text == arg
    ensures forall digits: string :: arg == "0b" + digits && AllBinary(digits) ==> text == arg
    ensures text != arg ==> exists q :: q in {'\'', '"'} && text == [q] + arg + [q]
    ensures text != arg && |arg| > 1 ==> (text[0] == '"' <==> '"' !in arg)
    ensures |arg| == 1 && text != arg ==> text[0] == '\''
    ensures arg == "" ==> text == "\"\""
  {
    if arg == "" {
      return [STRING_QUOTE, STRING_QUOTE];
    }
    if arg == "true" || arg == "false" || arg == "nan" || arg == "inf" {
      return arg;
    }
    var start := arg[..if |arg| < 2 then |arg| else 2];
    if start != "0x" && start != "0X" {
      if isNumber(arg) {
        return arg;
      }
    }
    if |arg| == 1 {
      return [CHARACTER_QUOTE] + arg + [CHARACTER_QUOTE];
    }
    if arg[0] == '0' {
      if arg[1] == 'x' {
        if AllHex(arg[2..]) { return arg; }
      } else if arg[1] == 'o' {
        if AllOctal(arg[2..]) { return arg; }
      } else if arg[1] == 'b' {
        if AllBinary(arg[2..]) { return arg; }
      }
    }
    if STRING_QUOTE !in arg {
      return [STRING_QUOTE] + arg + [STRING_QUOTE];
    } else {
      return [CHARACTER_QUOTE] + arg + [CHARACTER_QUOTE];
    }
  }

  // Printing two arguments, written out.
  lemma PrintedExample(isNumber: string -> bool)
    requires !isNumber("a b") && !isNumber("c")
    ensures Written(isNumber, ["a b", "c"]) == "[\"a b\", 'c']"
  {
    var a, c := "a b", "c";
    assert |a| == 3 && a[0] == 'a' && |c| == 1;
    assert Printed(isNumber, a) == "\"a b\"" && Printed(isNumber, c) == "'c'";
    hide Printed;
    assert [a, c][1..] == [c];
    assert Body(isNumber, [c]) == "'c'";
    assert Body(isNumber, [a, c]) == "\"a b\", 'c'";
  }

  // The printed arguments separated by a comma and a blank.
  function Body(isNumber: string -> bool, args: seq<string>): string {
    if args == [] then ""
    else if |args| == 1 then Printed(isNumber, args[0])
    else Printed(isNumber, args[0]) + [SEP, ' '] + Body(isNumber, args[1..])
  }

  lemma {:induction false} BodySnoc(isNumber: string -> bool, args: seq<string>, arg: string)
    requires args != []
    ensures Body(isNumber, args + [arg]) == Body(isNumber, args) + [SEP, ' '] + Printed(isNumber, arg)
  {
    hide Printed;
    if |args| == 1 {
      assert (args + [arg])[1..] == [arg];
    } else {
      BodySnoc(isNumber, args[1..], arg);
      assert (args + [arg])[1..] == args[1..] + [arg];
    }
  }

  lemma BodyShort(isNumber: string -> bool, args: seq<string>)
    ensures Body(isNumber, []) == ""
    ensures args != [] ==> Body(isNumber, args[..1]) == Printed(isNumber, args[0])
  {
  }

  method IniJoin(isNumber: string -> bool, args: seq<string>) returns (joined: string)
    ensures joined == if |args| > 1 then "[" + Body(isNumber, args) + "]" else Body(isNumber, args)
  {
    hide Printed, Body;
    BodyShort(isNumber, args);
    joined := "";
    if |args| > 1 {
      joined := joined + ['['];
    }
    ghost var open := joined;
    var start := 0;
    for i := 0 to |args|
      invariant start == i
      invariant joined == open + Body(isNumber, args[..i])
    {
      ghost var before := joined;
      if start > 0 {
        joined := joined + [SEP];
        joined := joined + [' '];
        BodySnoc(isNumber, args[..i], args[i]);
      }
      start := start + 1;
      assert args[..i + 1] == args[..i] + [args[i]];
      assert i == 0 ==> args[..i] == [];
      var text := ConvertArgForIni(isNumber, args[i]);
      joined := joined + text;
    }
    assert args[..|args|] == args;
    if |args| > 1 {
      joined := joined + [']'];
    }
  }

  // ---- splitting ----

  function TrimLeft(s: string): (r: string)
    ensures |r| <= |s|
    ensures r != "" ==> !IsSpace(r[0])
  {
    if s == "" || !IsSpace(s[0]) then s else TrimLeft(s[1..])
  }

  function TrimRight(s: string): (r: string)
    ensures |r| <= |s|
    ensures r != "" ==> !IsSpace(r[|r| - 1])
    ensures s != "" && !IsSpace(s[0]) ==> r != "" && r[0] == s[0]
  {
    if s == "" || !IsSpace(s[|s| - 1]) then s else TrimRight(s[..|s| - 1])
  }

  function Trim(s: string): (r: string)
    ensures |r| <= |s|
  {
    TrimLeft(TrimRight(s))
  }

  predicate AllBlank(s: string) {
    forall i | 0 <= i < |s| :: IsSpace(s[i])
  }

  // Trimming takes the blanks off both ends and nothing else.
  lemma {:induction false} TrimWhen(p: string, t: string, q: string)
    requires AllBlank(p) && AllBlank(q)
    requires t == "" || (!IsSpace(t[0]) && !IsSpace(t[|t| - 1]))
    ensures Trim(p + t + q) == t
    decreases |p| + |q|
  {
    if q != "" {
      assert (p + t + q)[..|p + t + q| - 1] == p + t + q[..|q| - 1];
      TrimWhen(p, t, q[..|q| - 1]);
    } else {
      assert p + t + q == p + t;
      if t == "" {
        assert p + t == p;
        BlankIsTrimmed(p);
      } else {
        LeftIsTrimmed(p, t);
      }
    }
  }

  lemma {:induction false} BlankIsTrimmed(p: string)
    requires AllBlank(p)
    ensures Trim(p) == ""
  {
    if p != "" {
      BlankIsTrimmed(p[..|p| - 1]);
    }
  }

  lemma {:induction false} LeftIsTrimmed(p: string, t: string)
    requires AllBlank(p) && t != "" && !IsSpace(t[0])
    ensures TrimLeft(p + t) == t
  {
    if p == "" {
      assert p + t == t;
    } else {
      LeftIsTrimmed(p[1..], t);
      assert (p + t)[1..] == p[1..] + t;
    }
  }

  // The first key at or after `from` that no backslash precedes, or |s|.
  function Closing(s: string, key: char, from: nat): (end: nat)
    requires 1 <= from <= |s|
    ensures from <= end <= |s|
    ensures end < |s| ==> s[end] == key && s[end - 1] != BACKSLASH
    ensures forall i | from <= i < end :: s[i] == key ==> s[i - 1] == BACKSLASH
    decreases |s| - from
  {
    if from == |s| then from
    else if s[from] == key && s[from - 1] != BACKSLASH then from
    else Closing(s, key, from + 1)
  }

  // Replaces a backslash and key by key, left to right.
  function Unescape(s: string, key: char): (r: string)
    ensures |r| <= |s|
  {
    if |s| < 2 then s
    else if s[0] == BACKSLASH && s[1] == key then [key] + Unescape(s[2..], key)
    else [s[0]] + Unescape(s[1..], key)
  }

  // Separators: the delimiter, or any blank when it is the NUL character.
  predicate Separates(delimiter: char, c: char) {
    if delimiter == '\0' then IsSpace(c) else c == delimiter
  }

  function FindSeparator(s: string, delimiter: char): (i: nat)
    ensures i <= |s|
    ensures i < |s| ==> Separates(delimiter, s[i])
    ensures forall j | 0 <= j < i :: !Separates(delimiter, s[j])
  {
    if s == "" || Separates(delimiter, s[0]) then 0 else FindSeparator(s[1..], delimiter) + 1
  }

  // The first token of a trimmed, non-empty text, and what comes after it.
  function FirstToken(s: string, delimiter: char): (r: (string, string))
    requires s != ""
    ensures |r.1| < |s|
  {
    if IsQuote(s[0]) then
      var end := Closing(s, s[0], 1);
      var raw := s[1..end];
      (if s[0] in raw then Unescape(raw, s[0]) else raw, if end + 2 < |s| then s[end + 2..] else "")
    else
      var i := FindSeparator(s, delimiter);
      (s[..i], if i < |s| then s[i + 1..] else "")
  }

  function Tokens(s: string, delimiter: char): seq<string>
    decreases |s|
  {
    if s == "" then []
    else
      var (token, rest) := FirstToken(s, delimiter);
      [token] + Tokens(Trim(rest), delimiter)
  }

  // The first index at or after `from` that holds c, or |s| for npos.
  method FindFirst(s: string, c: char, from: nat) returns (i: nat)
    requires from <= |s|
    ensures from <= i <= |s| && c !in s[from..i]
    ensures i < |s| ==> s[i] == c
  {
    i := from;
    while i < |s| && s[i] != c
      invariant from <= i <= |s| && c !in s[from..i]
    {
      i := i + 1;
    }
  }

  lemma {:induction false} ClosingSkips(s: string, key: char, from: nat, end: nat)
    requires 1 <= from <= end <= |s|
    requires forall i | from <= i < end :: s[i] == key ==> s[i - 1] == BACKSLASH
    ensures Closing(s, key, from) == Closing(s, key, end)
    decreases |s| - from
  {
    if from < end {
      ClosingSkips(s, key, from + 1, end);
    }
  }

  // The closing quote of a quoted token, and whether an escaped one was passed over.
  method FindClosing(s: string, key: char) returns (end: nat, embedded: bool)
    requires s != "" && s[0] == key && IsQuote(key)
    ensures end == Closing(s, key, 1)
    ensures embedded <==> key in s[1..end]
  {
    end := FindFirst(s, key, 1);
    embedded := false;
    assert forall i | 1 <= i < end :: s[i] == s[1..end][i - 1];
    while end < |s| && s[end - 1] == BACKSLASH
      invariant 1 <= end <= |s|
      invariant end < |s| ==> s[end] == key
      invariant embedded <==> key in s[1..end]
      invariant forall i | 1 <= i < end :: s[i] == key ==> s[i - 1] == BACKSLASH
    {
      var next := FindFirst(s, key, end + 1);
      assert forall i | end + 1 <= i < next :: s[i] == s[end + 1..next][i - (end + 1)];
      assert s[1..next][end - 1] == key;
      end := next;
      embedded := true;
    }
    ClosingSkips(s, key, 1, end);
  }

  // Unescape leaves text alone up to the first backslash and key at index p.
  lemma {:induction false} UnescapeSkips(s: string, key: char, p: nat)
    requires p <= |s|
    requires forall i | 0 <= i < p && i + 1 < |s| :: !(s[i] == BACKSLASH && s[i + 1] == key)
    ensures Unescape(s, key) == s[..p] + Unescape(s[p..], key)
  {
    hide Unescape;
    if p == 0 {
      assert s[0..] == s;
    } else if |s| < 2 {
      UnescapeShort(s, key);
      UnescapeShort("", key);
      assert s[..p] == s && s[p..] == "";
    } else {
      var t := s[1..];
      UnescapeSingle(s, key);
      UnescapeSkips(t, key, p - 1);
      assert t[p - 1..] == s[p..] && s[..p] == [s[0]] + t[..p - 1];
      Concat([], [s[0]], t[..p - 1], Unescape(s[p..], key));
    }
  }

  lemma UnescapeShort(s: string, key: char)
    requires |s| < 2
    ensures Unescape(s, key) == s
  {
  }

  lemma UnescapeSingle(s: string, key: char)
    requires |s| >= 2 && !(s[0] == BACKSLASH && s[1] == key)
    ensures Unescape(s, key) == [s[0]] + Unescape(s[1..], key)
  {
  }

  // A backslash in front of every key.
  function Escape(s: string, key: char): string {
    if s == "" then ""
    else if s[0] == key then [BACKSLASH, key] + Escape(s[1..], key)
    else [s[0]] + Escape(s[1..], key)
  }

  lemma {:induction false} UnescapeEscape(s: string, key: char)
    requires key != BACKSLASH
    ensures Unescape(Escape(s, key), key) == s
  {
    if s != "" {
      var rest := Escape(s[1..], key);
      UnescapeEscape(s[1..], key);
      if s[0] == key {
        assert Escape(s, key)[2..] == rest;
      } else {
        assert Escape(s, key)[1..] == rest;
      }
      assert s == [s[0]] + s[1..];
    }
  }

  // Every key in escaped text has its backslash, and the text ends as it did.
  lemma {:induction false} EscapedKeys(s: string, key: char)
    requires key != BACKSLASH
    ensures var e := Escape(s, key);
            && (forall i | 0 <= i < |e| && e[i] == key :: i > 0 && e[i - 1] == BACKSLASH)
            && (if s == "" then e == "" else e != "" && e[|e| - 1] == s[|s| - 1])
            && (key in e <==> key in s)
  {
    if s != "" {
      EscapedKeys(s[1..], key);
      var e, rest := Escape(s, key), Escape(s[1..], key);
      var skip := if s[0] == key then 2 else 1;
      assert forall i | skip <= i < |e| :: e[i] == rest[i - skip];
      if |s| == 1 {
        assert rest == "";
      }
      if s[0] == key {
        assert e[1] == key;
      }
      if key in s[1..] {
        var i :| 0 <= i < |rest| && rest[i] == key;
        assert e[i + skip] == key;
      }
    }
  }

  // Quoted text whose quotes are escaped is read as the text.
  lemma EscapedIsRead(arg: string, q: char, tail: string, delimiter: char)
    requires IsQuote(q) && (arg != "" ==> arg[|arg| - 1] != BACKSLASH)
    ensures var s := [q] + Escape(arg, q) + [q] + tail;
            FirstToken(s, delimiter) == (arg, if tail == "" then "" else tail[1..])
  {
    hide Unescape, Escape, Closing, FirstToken;
    var e := Escape(arg, q);
    var s := [q] + e + [q] + tail;
    assert FirstToken(s, delimiter) == (if q in e then Unescape(e, q) else e, if tail == "" then "" else tail[1..]) by {
      EscapedKeys(arg, q);
      AfterToken(e, q, tail, s);
      ClosingAfter(e, q, tail, s);
      QuotedToken(s, delimiter, e);
    }
    assert (if q in e then Unescape(e, q) else e) == arg by {
      EscapedKeys(arg, q);
      UnescapeEscape(arg, q);
      NothingEscaped(arg, q);
    }
  }

  lemma QuotedToken(s: string, delimiter: char, e: string)
    requires s != "" && IsQuote(s[0]) && Closing(s, s[0], 1) == |e| + 1 <= |s| && s[1..|e| + 1] == e
    ensures FirstToken(s, delimiter)
         == (if s[0] in e then Unescape(e, s[0]) else e, if |e| + 3 < |s| then s[|e| + 3..] else "")
  {
    hide Unescape, Closing, FindSeparator;
  }

  lemma AfterToken(e: string, q: char, tail: string, s: string)
    requires s == [q] + e + [q] + tail
    ensures s != "" && s[0] == q
    ensures (if |e| + 3 < |s| then s[|e| + 3..] else "") == if tail == "" then "" else tail[1..]
  {
    if tail != "" {
      assert s[|e| + 2..] == tail;
    }
  }

  // The closing quote, when every quote before it has a backslash.
  lemma ClosingAfter(e: string, q: char, tail: string, s: string)
    requires s == [q] + e + [q] + tail && q != BACKSLASH
    requires forall i | 0 <= i < |e| && e[i] == q :: i > 0 && e[i - 1] == BACKSLASH
    requires e != "" ==> e[|e| - 1] != BACKSLASH
    ensures Closing(s, q, 1) == |e| + 1 && s[1..|e| + 1] == e
  {
    assert s[1..|e| + 1] == e;
    assert forall i | 1 <= i <= |e| :: s[i] == e[i - 1];
    assert s[|e| + 1] == q && s[|e|] != BACKSLASH;
    forall i | 1 <= i < |e| + 1 && s[i] == q
      ensures s[i - 1] == BACKSLASH
    {
      assert e[i - 1] == q;
    }
    ClosingSkips(s, q, 1, |e| + 1);
  }

  lemma {:induction false} NothingEscaped(s: string, key: char)
    ensures key !in s ==> Escape(s, key) == s
    ensures Escape("", key) == ""
  {
    if s != "" {
      NothingEscaped(s[1..], key);
      assert s == [s[0]] + s[1..];
    }
  }

  // No backslash and key in s[from..p], counting pairs that begin there.
  predicate NoEscape(s: string, key: char, from: nat, p: nat) {
    forall i | from <= i < p && i + 1 < |s| :: !(s[i] == BACKSLASH && s[i + 1] == key)
  }

  // The next backslash and key at or after `from`, or |s| for npos.
  method FindEscape(s: string, key: char, from: nat) returns (p: nat)
    requires from <= |s|
    ensures from <= p <= |s| && NoEscape(s, key, from, p)
    ensures p < |s| ==> p + 1 < |s| && s[p] == BACKSLASH && s[p + 1] == key
  {
    p := from;
    while p < |s| && !(p + 1 < |s| && s[p] == BACKSLASH && s[p + 1] == key)
      invariant from <= p <= |s| && NoEscape(s, key, from, p)
    {
      p := p + 1;
    }
  }

  lemma UnescapeTail(s: string, key: char, from: nat, p: nat)
    requires from <= p <= |s| && NoEscape(s, key, from, p)
    ensures Unescape(s[from..], key) == s[from..p] + Unescape(s[p..], key)
  {
    var tail := s[from..];
    assert tail[..p - from] == s[from..p] && tail[p - from..] == s[p..];
    UnescapeSkips(tail, key, p - from);
  }

  lemma ReplaceStep(str: string, key: char, from: nat, p: nat, replaced: string)
    requires from <= p && p + 1 < |str| && NoEscape(str, key, from, p)
    requires str[p] == BACKSLASH && str[p + 1] == key
    requires replaced == str[..p] + [key] + str[p + 2..]
    ensures str[..from] + Unescape(str[from..], key) == replaced[..p + 1] + Unescape(replaced[p + 1..], key)
  {
    UnescapeTail(str, key, from, p);
    UnescapePair(str[p..], key);
    hide Unescape;
    assert str[p..][2..] == str[p + 2..] == replaced[p + 1..];
    assert replaced[..p + 1] == str[..p] + [key];
    assert str[..p] == str[..from] + str[from..p];
    Concat(str[..from], str[from..p], [key], Unescape(replaced[p + 1..], key));
  }

  lemma UnescapePair(s: string, key: char)
    requires |s| >= 2 && s[0] == BACKSLASH && s[1] == key
    ensures Unescape(s, key) == [key] + Unescape(s[2..], key)
  {
  }

  lemma Concat(a: string, b: string, c: string, d: string)
    ensures a + (b + (c + d)) == a + b + c + d
  {
  }

  // find_and_replace of backslash and key by key, in place.
  method ReplaceEscapes(text: string, key: char) returns (str: string)
    ensures str == Unescape(text, key)
  {
    hide Unescape;
    str := text;
    assert str[0..] == str;
    var start := 0;
    var p := FindEscape(str, key, start);
    while p < |str|
      invariant 0 <= start <= p <= |str| && NoEscape(str, key, start, p)
      invariant p < |str| ==> p + 1 < |str| && str[p] == BACKSLASH && str[p + 1] == key
      invariant Unescape(text, key) == str[..start] + Unescape(str[start..], key)
      decreases |str| - start
    {
      var replaced := str[..p] + [key] + str[p + 2..];
      ReplaceStep(str, key, start, p, replaced);
      str, start := replaced, p + 1;
      p := FindEscape(str, key, start);
    }
    UnescapeTail(str, key, start, |str|);
    UnescapeEmpty(key);
    assert str[|str|..] == "" && str[..start] + (str[start..] + "") == str;
  }

  lemma UnescapeEmpty(key: char)
    ensures Unescape("", key) == ""
  {
  }

  // One turn of split_up's loop, the last trim aside.
  method NextToken(str: string, delimiter: char) returns (token: string, rest: string)
    requires str != ""
    ensures (token, rest) == FirstToken(str, delimiter)
  {
    hide Unescape;
    if IsQuote(str[0]) {
      var keyChar := str[0];
      var end, embeddedQuote := FindClosing(str, keyChar);
      token := str[1..end];
      rest := if end + 2 < |str| then str[end + 2..] else "";
      if embeddedQuote {
        token := ReplaceEscapes(token, keyChar);
      }
    } else {
      var it := FindSeparator(str, delimiter);
      token := str[..it];
      rest := if it < |str| then str[it + 1..] else "";
    }
  }

  method SplitUp(text: string, delimiter: char) returns (output: seq<string>)
    ensures output == Tokens(Trim(text), delimiter)
  {
    hide FirstToken, Trim;
    var str := Trim(text);
    output := [];
    while str != ""
      invariant output + Tokens(str, delimiter) == Tokens(Trim(text), delimiter)
      decreases |str|
    {
      ghost var done := output;
      var token, rest := NextToken(str, delimiter);
      assert Tokens(str, delimiter) == [token] + Tokens(Trim(rest), delimiter);
      output := output + [token];
      str := Trim(rest);
      assert done + ([token] + Tokens(str, delimiter)) == output + Tokens(str, delimiter);
    }
  }

  // ---- printing and splitting ----

  // The exact condition under which a printed argument is read back: printed as it is, it must
  // not begin with a blank; quoted, it must not contain the quote nor end in a backslash.
  predicate Readable(isNumber: string -> bool, arg: string) {
    if Bare(isNumber, arg) then !IsSpace(arg[0])
    else QuoteFor(arg) !in arg && (arg == "" || arg[|arg| - 1] != BACKSLASH)
  }

  // What `std::strtold` accepts as a whole: never empty, no separator, backslash or quote, no
  // blank at the end.
  predicate NumberText(s: string) {
    && s != "" && SEP !in s && BACKSLASH !in s && (forall i | 0 <= i < |s| :: !IsQuote(s[i]))
    && !IsSpace(s[|s| - 1])
  }

  ghost predicate NumberTest(isNumber: string -> bool) {
    forall s | isNumber(s) :: NumberText(s)
  }

  lemma UnescapeFirst(raw: string, key: char, j: nat)
    requires 1 <= j < |raw| && raw[j] == key && raw[j - 1] == BACKSLASH
    requires forall i | 0 <= i < j :: raw[i] != key
    ensures |Unescape(raw, key)| >= j && Unescape(raw, key)[j - 1] == key
  {
    UnescapeSkips(raw, key, j - 1);
    assert raw[j - 1..][0] == BACKSLASH && raw[j - 1..][1] == key;
  }

  // What follows one printed argument: nothing, or a separator, a blank and the next.
  predicate Follows(tail: string) {
    tail == "" || (|tail| >= 2 && tail[0] == SEP && tail[1] == ' ')
  }

  lemma QuotedHead(arg: string, q: char, tail: string, s: string)
    requires IsQuote(q) && s == [q] + arg + [q] + tail
    requires q !in arg && (arg == "" || arg[|arg| - 1] != BACKSLASH)
    ensures FirstToken(s, SEP) == (arg, if tail == "" then "" else tail[1..])
  {
    hide FirstToken, Escape;
    NothingEscaped(arg, q);
    EscapedIsRead(arg, q, tail, SEP);
  }

  // Text in which the first quote is an escaped one, at index j, is not what was printed.
  lemma EscapedToken(arg: string, raw: string, q: char, j: nat)
    requires IsQuote(q) && 1 <= j < |raw| && j <= |arg| <= |raw| && raw[..|arg|] == arg
    requires raw[j] == q && raw[j - 1] == BACKSLASH && forall i | 0 <= i < j :: raw[i] != q
    ensures Unescape(raw, q) != arg
  {
    UnescapeFirst(raw, q, j);
    assert arg[j - 1] == raw[..|arg|][j - 1] == BACKSLASH;
  }

  // What a token that does not end before arg does begins with.
  lemma RawText(arg: string, q: char, tail: string, s: string, end: nat)
    requires s == [q] + arg + [q] + tail && |arg| < end <= |s|
    ensures var raw := s[1..end];
            && raw[..|arg|] == arg
            && (|raw| > |arg| ==> raw[|arg|] == q)
            && (|raw| > |arg| + 1 && Follows(tail) ==> raw[|arg| + 1] == SEP)
  {
    assert s[1..|arg| + 1] == arg;
  }

  // The first quote in the token is an escaped one.
  lemma FirstQuote(arg: string, q: char, raw: string)
    requires |arg| <= |raw| && raw[..|arg|] == arg && (|raw| > |arg| ==> raw[|arg|] == q)
    requires q in arg || |raw| > |arg|
    requires forall i | 0 <= i < |raw| && raw[i] == q :: i > 0 && raw[i - 1] == BACKSLASH
    ensures var j := Find(raw, q); 1 <= j < |raw| && j <= |arg| && raw[j] == q && raw[j - 1] == BACKSLASH
  {
    if q in arg {
      var i :| 0 <= i < |arg| && arg[i] == q;
      assert raw[i] == raw[..|arg|][i] == q;
    }
  }

  lemma QuotedHeadFails(arg: string, q: char, tail: string, s: string)
    requires IsQuote(q) && s == [q] + arg + [q] + tail
    requires q in arg || (arg != "" && arg[|arg| - 1] == BACKSLASH)
    ensures FirstToken(s, SEP).0 != arg
  {
    hide Unescape, Closing, FindSeparator;
    var end := Closing(s, q, 1);
    var raw := s[1..end];
    if end > |arg| {
      RawText(arg, q, tail, s, end);
      assert end == |arg| + 1 ==> raw == arg && s[end] == q;
      assert |raw| > |arg| || q in arg;
      FirstQuote(arg, q, raw);
      EscapedToken(arg, raw, q, Find(raw, q));
    }
  }

  lemma {:induction false} UnescapeKeeps(raw: string, key: char, i: nat)
    requires i < |raw| && raw[i] == SEP && key != SEP
    ensures exists k | 0 <= k <= i && k < |Unescape(raw, key)| :: Unescape(raw, key)[k] == SEP
  {
    if |raw| < 2 || i == 0 {
      assert Unescape(raw, key)[i] == SEP;
    } else {
      var skip := if raw[0] == BACKSLASH && raw[1] == key then 2 else 1;
      if i >= skip {
        UnescapeKeeps(raw[skip..], key, i - skip);
        var k :| 0 <= k <= i - skip && k < |Unescape(raw[skip..], key)| && Unescape(raw[skip..], key)[k] == SEP;
        assert Unescape(raw, key)[k + 1] == SEP;
      } else {
        assert false;
      }
    }
  }

  // Unescaped text has every separator at or before its place in the raw text, so a token that
  // is arg in quotes would put one at an ever smaller index of arg.
  lemma {:induction false} NoSeparatorInside(arg: string, raw: string, q: char, c: char, i: nat)
    requires q != SEP && c != SEP && Unescape(raw, q) == [c] + arg + [c]
    requires |arg| < |raw| && raw[..|arg|] == arg && i < |raw| && i <= |arg| + 1
    requires raw[i] == SEP
    ensures false
  {
    UnescapeKeeps(raw, q, i);
    var token := Unescape(raw, q);
    var k :| 0 <= k <= i && k < |token| && token[k] == SEP;
    assert 1 <= k <= |arg|;
    assert arg[k - 1] == raw[..|arg|][k - 1];
    NoSeparatorInside(arg, raw, q, c, k - 1);
  }

  // Nor does taking quotes off the first token bring back an unreadable argument.
  lemma UnquotedHeadFails(arg: string, q: char, tail: string, s: string)
    requires IsQuote(q) && Follows(tail) && s == [q] + arg + [q] + tail
    requires q in arg || (arg != "" && arg[|arg| - 1] == BACKSLASH)
    ensures RemoveQuotes(FirstToken(s, SEP).0) != arg
  {
    hide Unescape, Closing, FindSeparator;
    QuotedHeadFails(arg, q, tail, s);
    var token := FirstToken(s, SEP).0;
    if Enclosed(token) && RemoveQuotes(token) == arg {
      var c, end := token[0], Closing(s, q, 1);
      var raw := s[1..end];
      assert token == [c] + arg + [c];
      assert |raw| >= |arg| + 2;
      RawText(arg, q, tail, s, end);
      NoSeparatorInside(arg, raw, q, c, |arg| + 1);
    }
  }

  lemma BareHead(arg: string, tail: string)
    requires arg != "" && SEP !in arg && !IsQuote(arg[0]) && Follows(tail)
    ensures FirstToken(arg + tail, SEP) == (arg, if tail == "" then "" else tail[1..])
  {
    var s := arg + tail;
    var i := FindSeparator(s, SEP);
    assert forall j | 0 <= j < |arg| :: s[j] == arg[j];
    if tail != "" {
      assert s[|arg|] == SEP;
      assert s[|arg| + 1..] == tail[1..];
    }
    assert i == |arg| && s[..i] == arg;
  }

  lemma BareText(isNumber: string -> bool, arg: string)
    requires NumberTest(isNumber) && Bare(isNumber, arg)
    ensures NumberText(arg)
  {
    if IsPrefixed(arg) {
      assert forall i | 2 <= i < |arg| :: arg[i] == arg[2..][i - 2];
    }
  }

  lemma {:induction false} BodyEnds(isNumber: string -> bool, args: seq<string>)
    requires NumberTest(isNumber) && args != []
    ensures var b := Body(isNumber, args); b != "" && !IsSpace(b[|b| - 1])
  {
    if Bare(isNumber, args[0]) {
      BareText(isNumber, args[0]);
    }
    if |args| > 1 {
      BodyEnds(isNumber, args[1..]);
    }
  }

  lemma {:induction false} TrimLeftInside(arg: string, tail: string)
    requires arg != "" && !IsSpace(arg[|arg| - 1])
    ensures TrimLeft(arg + tail) == TrimLeft(arg) + tail
    ensures TrimLeft(arg) != "" && TrimLeft(arg)[0] in arg
  {
    if IsSpace(arg[0]) {
      assert (arg + tail)[1..] == arg[1..] + tail;
      TrimLeftInside(arg[1..], tail);
    }
  }

  // A printed argument that begins with a blank loses it.
  lemma BlankHead(arg: string, tail: string)
    requires NumberText(arg) && IsSpace(arg[0])
    ensures var s := TrimLeft(arg + tail);
            s != "" && FirstToken(s, SEP).0 != arg && RemoveQuotes(FirstToken(s, SEP).0) != arg
  {
    TrimLeftInside(arg, tail);
    var s := TrimLeft(arg + tail);
    var token := FirstToken(s, SEP).0;
    assert s[0] == TrimLeft(arg)[0];
    assert token == "" || token[0] == s[0];
  }

  // The first token of printed arguments is the first argument just if that one is readable;
  // taking quotes off does not make up for it if it is not.
  lemma FirstArgument(isNumber: string -> bool, arg: string, tail: string)
    requires NumberTest(isNumber) && Follows(tail)
    ensures var s := TrimLeft(Printed(isNumber, arg) + tail);
            && s != ""
            && if Readable(isNumber, arg) then FirstToken(s, SEP) == (arg, if tail == "" then "" else tail[1..])
               else FirstToken(s, SEP).0 != arg && RemoveQuotes(FirstToken(s, SEP).0) != arg
  {
    hide FirstToken;
    if Bare(isNumber, arg) {
      BareText(isNumber, arg);
      if IsSpace(arg[0]) {
        BlankHead(arg, tail);
      } else {
        BareHead(arg, tail);
      }
    } else {
      var q := QuoteFor(arg);
      var s := [q] + arg + [q] + tail;
      if Readable(isNumber, arg) {
        QuotedHead(arg, q, tail, s);
      } else {
        QuotedHeadFails(arg, q, tail, s);
        UnquotedHeadFails(arg, q, tail, s);
      }
    }
  }

  lemma TokensStep(text: string)
    requires text != ""
    ensures Tokens(text, SEP) == [FirstToken(text, SEP).0] + Tokens(Trim(FirstToken(text, SEP).1), SEP)
  {
  }

  lemma TokensOfNothing()
    ensures Trim("") == "" && Tokens("", SEP) == [] && Unquoted([]) == []
  {
  }

  // The same, said of the argument's characters alone: no backslash at its end, not the single
  // character `'`, not quotes of both kinds, no number with a leading blank.
  predicate Recoverable(isNumber: string -> bool, arg: string) {
    && (arg != "" ==> arg[|arg| - 1] != '\\')
    && arg != "'"
    && !('"' in arg && '\'' in arg)
    && !(arg != "" && IsSpace(arg[0]) && isNumber(arg))
  }

  lemma ReadableWhen(isNumber: string -> bool, arg: string)
    requires NumberTest(isNumber)
    ensures Readable(isNumber, arg) <==> Recoverable(isNumber, arg)
  {
    if Bare(isNumber, arg) {
      BareText(isNumber, arg);
      BareBlank(isNumber, arg);
      assert arg[|arg| - 1] in arg;
    } else if arg != "" && IsSpace(arg[0]) {
      assert arg[..if |arg| < 2 then |arg| else 2][0] == arg[0];
    }
  }

  lemma BareBlank(isNumber: string -> bool, arg: string)
    requires Bare(isNumber, arg)
    ensures IsSpace(arg[0]) ==> isNumber(arg)
  {
  }

  predicate AllReadable(isNumber: string -> bool, args: seq<string>) {
    forall i | 0 <= i < |args| :: Recoverable(isNumber, args[i])
  }

  // Does the argument stand in quotes of its own?
  predicate OwnQuotes(arg: string) {
    |arg| > 1 && ((arg[0] == '"' && arg[|arg| - 1] == '"') || (arg[0] == '\'' && arg[|arg| - 1] == '\''))
  }

  predicate AllKept(isNumber: string -> bool, args: seq<string>) {
    forall i | 0 <= i < |args| :: Recoverable(isNumber, args[i]) && !OwnQuotes(args[i])
  }

  lemma AllFirst(isNumber: string -> bool, args: seq<string>)
    requires args != []
    requires NumberTest(isNumber)
    ensures AllReadable(isNumber, args) <==> Readable(isNumber, args[0]) && AllReadable(isNumber, args[1..])
    ensures AllKept(isNumber, args)
       <==> Readable(isNumber, args[0]) && !Enclosed(args[0]) && AllKept(isNumber, args[1..])
  {
    ReadableWhen(isNumber, args[0]);
    assert forall i | 0 < i < |args| :: args[i] == args[1..][i - 1];
  }

  lemma SameFirst(a: string, s: seq<string>, b: string, t: seq<string>)
    ensures [a] + s == [b] + t <==> a == b && s == t
  {
    assert ([a] + s)[0] == a && ([a] + s)[1..] == s;
    assert ([b] + t)[0] == b && ([b] + t)[1..] == t;
  }

  // Printed and split up again, a list of arguments comes back exactly when each is readable;
  // with quotes then taken off each token, when also none stands in quotes of its own.
  lemma {:induction false} RoundTrip(isNumber: string -> bool, args: seq<string>)
    requires NumberTest(isNumber) && args != []
    ensures Tokens(Trim(Body(isNumber, args)), SEP) == args <==> AllReadable(isNumber, args)
    ensures Unquoted(Tokens(Trim(Body(isNumber, args)), SEP)) == args <==> AllKept(isNumber, args)
  {
    hide FirstToken, Readable, Printed, Tokens, Enclosed, RemoveQuotes, Unquoted, AllReadable, AllKept;
    var arg, more, body := args[0], args[1..], Body(isNumber, args);
    var tail := if more == [] then "" else [SEP, ' '] + Body(isNumber, more);
    assert body == Printed(isNumber, arg) + tail;
    BodyEnds(isNumber, args);
    hide Body;
    FirstArgument(isNumber, arg, tail);
    var text := Trim(body);
    assert text == TrimLeft(body);
    hide Trim;
    var (token, rest) := FirstToken(text, SEP);
    var others := Tokens(Trim(rest), SEP);
    TokensStep(text);
    UnquotedFirst(token, others);
    KeptByQuotes(arg);
    AllFirst(isNumber, args);
    assert args == [arg] + more;
    SameFirst(token, others, arg, more);
    SameFirst(RemoveQuotes(token), Unquoted(others), arg, more);
    if Readable(isNumber, arg) {
      if more == [] {
        TokensOfNothing();
        NoneToRead(isNumber);
      } else {
        RoundTrip(isNumber, more);
        BodyEnds(isNumber, more);
        assert rest == [' '] + Body(isNumber, more);
        TrimBlank(Body(isNumber, more));
      }
    }
  }

  lemma NoneToRead(isNumber: string -> bool)
    ensures AllReadable(isNumber, []) && AllKept(isNumber, [])
  {
  }

  lemma UnquotedFirst(token: string, others: seq<string>)
    ensures Unquoted([token] + others) == [RemoveQuotes(token)] + Unquoted(others)
  {
  }

  lemma KeptByQuotes(arg: string)
    ensures RemoveQuotes(arg) == arg <==> !Enclosed(arg)
  {
  }

  lemma TrimBlank(s: string)
    requires s != "" && !IsSpace(s[|s| - 1])
    ensures Trim([' '] + s) == Trim(s)
  {
    assert ([' '] + s)[1..] == s;
  }

  // ---- reading ----

  const OPEN_LIST: char := '['
  const CLOSE_LIST: char := ']'
  const LINE_BREAK: char := '\n'

  // What `std::getline` takes from the input, and what it leaves.
  function GetLine(input: string): (r: (string, string))
    ensures input != "" ==> |r.1| < |input|
  {
    var i := Find(input, LINE_BREAK);
    (input[..i], if i < |input| then input[i + 1..] else "")
  }

  predicate IsList(item: string) {
    |item| > 1 && item[0] == OPEN_LIST
  }

  // Further lines, trimmed, until the list is closed or the input ends.
  function Joined(item: string, input: string): (string, string)
    requires item != ""
    decreases |input|
  {
    if item[|item| - 1] == CLOSE_LIST || input == "" then (item, input)
    else
      var (line, rest) := GetLine(input);
      Joined(item + Trim(line), rest)
  }

  // The text of an item from the input behind its delimiter, and the input left.
  function ItemText(input: string): (string, string) {
    var (line, rest) := GetLine(input);
    var item := Trim(line);
    if IsList(item) then Joined(item, rest) else (item, rest)
  }

  // The values in the text of an item: a list without its brackets and any text with a comma is
  // split at commas, other text at blanks; quotes are taken off.
  function Values(item: string): seq<string> {
    Unquoted(
      if IsList(item) then Tokens(Trim(item[1..|item| - 1]), SEP)
      else if SEP in item then Tokens(Trim(item), SEP)
      else if ' ' in item then Tokens(Trim(item), '\0')
      else [item])
  }

  method ReadValues(item: string) returns (items: seq<string>)
    ensures items == Values(item)
  {
    if IsList(item) {
      items := SplitUp(item[1..|item| - 1], SEP);
    } else if SEP in item {
      items := SplitUp(item, SEP);
    } else if ' ' in item {
      items := SplitUp(item, '\0');
    } else {
      items := [item];
    }
    ghost var tokens := items;
    for i := 0 to |items|
      invariant |items| == |tokens|
      invariant forall k | 0 <= k < |items| :: items[k] == if k < i then RemoveQuotes(tokens[k]) else tokens[k]
    {
      items := items[i := RemoveQuotes(items[i])];
    }
  }

  // From the input behind the delimiter of an item, as the config reader does.
  method ReadItem(input: string) returns (items: seq<string>, left: string)
    ensures items == Values(ItemText(input).0) && left == ItemText(input).1
  {
    hide Values, Trim, GetLine;
    var (line, rest) := GetLine(input);
    var item := Trim(line);
    left := rest;
    if IsList(item) {
      while item[|item| - 1] != CLOSE_LIST && left != ""
        invariant item != "" && Joined(Trim(line), rest) == Joined(item, left)
        decreases |left|
      {
        var (multiline, after) := GetLine(left);
        GetLineShrinks(left);
        item := item + Trim(multiline);
        left := after;
      }
    }
    items := ReadValues(item);
  }

  lemma GetLineShrinks(input: string)
    requires input != ""
    ensures |GetLine(input).1| < |input|
  {
  }

  // No value that is read holds a line break.
  predicate OneLine(s: string) {
    LINE_BREAK !in s
  }

  lemma {:induction false} TrimOneLine(s: string)
    requires OneLine(s)
    ensures OneLine(Trim(s))
  {
    TrimRightPart(s);
    TrimLeftPart(TrimRight(s));
  }

  lemma {:induction false} TrimRightPart(s: string)
    requires OneLine(s)
    ensures OneLine(TrimRight(s))
  {
    if s != "" && IsSpace(s[|s| - 1]) {
      TrimRightPart(s[..|s| - 1]);
    }
  }

  lemma {:induction false} TrimLeftPart(s: string)
    requires OneLine(s)
    ensures OneLine(TrimLeft(s))
  {
    if s != "" && IsSpace(s[0]) {
      TrimLeftPart(s[1..]);
    }
  }

  lemma {:induction false} UnescapeOneLine(s: string, key: char)
    requires OneLine(s) && key != LINE_BREAK
    ensures OneLine(Unescape(s, key))
  {
    if |s| >= 2 {
      if s[0] == BACKSLASH && s[1] == key {
        UnescapeOneLine(s[2..], key);
      } else {
        UnescapeOneLine(s[1..], key);
      }
    }
  }

  lemma FirstTokenOneLine(s: string, delimiter: char)
    requires s != "" && OneLine(s)
    ensures OneLine(FirstToken(s, delimiter).0) && OneLine(FirstToken(s, delimiter).1)
  {
    hide Unescape, Closing, FindSeparator;
    if IsQuote(s[0]) {
      UnescapeOneLine(s[1..Closing(s, s[0], 1)], s[0]);
    }
  }

  lemma {:induction false} TokensOneLine(s: string, delimiter: char)
    requires OneLine(s)
    ensures forall t | t in Tokens(s, delimiter) :: OneLine(t)
    decreases |s|
  {
    hide FirstToken, Trim;
    if s != "" {
      FirstTokenOneLine(s, delimiter);
      FirstTokenShrinks(s, delimiter);
      var rest := FirstToken(s, delimiter).1;
      TrimOneLine(rest);
      TokensOneLine(Trim(rest), delimiter);
    }
  }

  lemma FirstTokenShrinks(s: string, delimiter: char)
    requires s != ""
    ensures |Trim(FirstToken(s, delimiter).1)| < |s|
  {
  }

  lemma ValuesOneLine(item: string)
    requires OneLine(item)
    ensures forall i | 0 <= i < |Values(item)| :: OneLine(Values(item)[i])
  {
    hide Tokens, Trim;
    var inside := if IsList(item) then item[1..|item| - 1] else item;
    TrimOneLine(inside);
    TokensOneLine(Trim(inside), SEP);
    TokensOneLine(Trim(inside), '\0');
    UnquotedOneLine(Tokens(Trim(inside), SEP));
    UnquotedOneLine(Tokens(Trim(inside), '\0'));
    UnquotedOneLine([item]);
  }

  lemma UnquotedOneLine(tokens: seq<string>)
    requires forall t | t in tokens :: OneLine(t)
    ensures forall i | 0 <= i < |tokens| :: OneLine(Unquoted(tokens)[i])
  {
    forall i | 0 <= i < |tokens|
      ensures OneLine(Unquoted(tokens)[i])
    {
      assert tokens[i] in tokens;
    }
  }

  lemma {:induction false} JoinedOneLine(item: string, input: string)
    requires item != "" && OneLine(item)
    ensures OneLine(Joined(item, input).0)
    decreases |input|
  {
    if item[|item| - 1] != CLOSE_LIST && input != "" {
      var (line, rest) := GetLine(input);
      TrimOneLine(line);
      JoinedOneLine(item + Trim(line), rest);
    }
  }

  lemma ItemOneLine(input: string)
    ensures OneLine(ItemText(input).0)
  {
    var (line, rest) := GetLine(input);
    TrimOneLine(line);
    if IsList(Trim(line)) {
      JoinedOneLine(Trim(line), rest);
    }
  }

  // ---- values that are no list ----

  // A word that splitting at the delimiter leaves whole.
  predicate IsWord(w: string, delimiter: char) {
    && w != "" && !IsQuote(w[0]) && !IsSpace(w[0]) && !IsSpace(w[|w| - 1])
    && forall i | 0 <= i < |w| :: !Separates(delimiter, w[i])
  }

  predicate AreWords(words: seq<string>, delimiter: char) {
    forall i | 0 <= i < |words| :: IsWord(words[i], delimiter)
  }

  lemma FirstWordToken(w: string, c: char, rest: string, delimiter: char)
    requires IsWord(w, delimiter) && Separates(delimiter, c)
    ensures FirstToken(w + [c] + rest, delimiter) == (w, rest) && FirstToken(w, delimiter) == (w, "")
  {
    var s := w + [c] + rest;
    assert s[|w|] == c && forall j | 0 <= j < |w| :: s[j] == w[j];
    assert FindSeparator(s, delimiter) == |w| && FindSeparator(w, delimiter) == |w|;
    assert s[..|w|] == w && s[|w| + 1..] == rest && w[..|w|] == w;
  }

  lemma {:induction false} JoinedEnds(words: seq<string>, c: char, delimiter: char)
    requires words != [] && AreWords(words, delimiter)
    ensures var s := Join(words, c); s != "" && s[0] == words[0][0] && !IsSpace(s[|s| - 1])
  {
    if |words| > 1 {
      JoinedEnds(words[1..], c, delimiter);
    }
  }

  lemma {:induction false} TokensOfWords(words: seq<string>, c: char, delimiter: char)
    requires words != [] && AreWords(words, delimiter) && Separates(delimiter, c)
    ensures Tokens(Join(words, c), delimiter) == words && Trim(Join(words, c)) == Join(words, c)
  {
    hide FirstToken, Trim, IsWord;
    var w, s := words[0], Join(words, c);
    EndsOfWord(w, delimiter);
    JoinedEnds(words, c, delimiter);
    NothingToTrim(s);
    if |words| == 1 {
      FirstWordToken(w, c, "", delimiter);
      TokensOfNothing();
      assert words == [w];
    } else {
      var more := Join(words[1..], c);
      FirstWordToken(w, c, more, delimiter);
      TokensOfWords(words[1..], c, delimiter);
      assert words == [w] + words[1..];
    }
  }

  lemma EndsOfWord(w: string, delimiter: char)
    requires IsWord(w, delimiter)
    ensures w != "" && !IsSpace(w[0]) && !IsQuote(w[0]) && RemoveQuotes(w) == w
  {
  }

  // Words with blanks between them come back as the words, and so does text without blanks.
  lemma BlankValues(words: seq<string>)
    requires words != [] && AreWords(words, '\0') && words[0][0] != OPEN_LIST
    requires SEP !in Join(words, ' ')
    ensures Values(Join(words, ' ')) == words
  {
    hide Tokens, Trim;
    var item := Join(words, ' ');
    TokensOfWords(words, ' ', '\0');
    JoinedEnds(words, ' ', '\0');
    WordsStay(words, '\0');
    if |words| > 1 {
      assert item[|words[0]|] == ' ';
    } else {
      assert ' ' !in item by { assert IsWord(item, '\0'); }
      assert words == [item];
    }
  }

  // So do words with commas between them.
  lemma CommaValues(words: seq<string>)
    requires |words| > 1 && AreWords(words, SEP) && words[0][0] != OPEN_LIST
    ensures Values(Join(words, SEP)) == words
  {
    hide Tokens, Trim;
    var item := Join(words, SEP);
    TokensOfWords(words, SEP, SEP);
    JoinedEnds(words, SEP, SEP);
    WordsStay(words, SEP);
    assert item[|words[0]|] == SEP;
  }

  lemma WordsStay(words: seq<string>, delimiter: char)
    requires AreWords(words, delimiter)
    ensures Unquoted(words) == words
  {
  }

  // An argument without quotes and backslashes is readable, unless it is a number with a blank
  // in front.
  lemma PlainIsReadable(isNumber: string -> bool, arg: string)
    requires BACKSLASH !in arg && forall i | 0 <= i < |arg| :: !IsQuote(arg[i])
    requires arg != "" && IsSpace(arg[0]) ==> !isNumber(arg)
    ensures Recoverable(isNumber, arg) && !OwnQuotes(arg)
  {
  }

  // ... which does get lost: the config file then holds the number without its blank.
  lemma BlankNumberIsLost(isNumber: string -> bool)
    requires NumberTest(isNumber) && isNumber(" 1")
    ensures Tokens(Trim(Body(isNumber, [" 1", "x"])), SEP) != [" 1", "x"]
  {
    var args := [" 1", "x"];
    assert args[0] == " 1";
    assert !Recoverable(isNumber, args[0]);
    RoundTrip(isNumber, args);
  }

  // An argument that stands in quotes comes back from the splitter, but the reader takes its
  // quotes off.
  lemma QuotesAreLost(isNumber: string -> bool)
    requires NumberTest(isNumber)
    ensures var tokens := Tokens(Trim(Body(isNumber, ["'x'", "y"])), SEP);
            tokens == ["'x'", "y"] && Unquoted(tokens)[0] == "x"
  {
    hide Tokens, Trim, Body, Recoverable;
    var args := ["'x'", "y"];
    QuotedText(isNumber);
    RoundTrip(isNumber, args);
    assert args[0] == "'x'" && args[1] == "y";
  }

  lemma QuotedText(isNumber: string -> bool)
    requires NumberTest(isNumber)
    ensures Recoverable(isNumber, "'x'") && Recoverable(isNumber, "y") && RemoveQuotes("'x'") == "x"
  {
    var arg := "'x'";
    assert IsQuote(arg[0]);
    assert '"' !in arg && arg[2] == '\'';
    assert arg[1..2] == "x";
  }

  // The config file's text for some arguments, behind the option's name and delimiter.
  function Written(isNumber: string -> bool, args: seq<string>): string {
    [OPEN_LIST] + Body(isNumber, args) + [CLOSE_LIST]
  }

  lemma {:induction false} BodyOneLine(isNumber: string -> bool, args: seq<string>)
    requires forall i | 0 <= i < |args| :: OneLine(args[i])
    ensures OneLine(Body(isNumber, args))
  {
    if |args| > 1 {
      assert OneLine(args[0]);
      BodyOneLine(isNumber, args[1..]);
    }
  }

  // A list without line breaks is read as it was written, and nothing after it.
  lemma WholeLine(isNumber: string -> bool, args: seq<string>, following: string)
    requires forall i | 0 <= i < |args| :: OneLine(args[i])
    ensures ItemText(Written(isNumber, args) + [LINE_BREAK] + following) == (Written(isNumber, args), following)
  {
    hide Body, Trim;
    var text := Written(isNumber, args);
    var input := text + [LINE_BREAK] + following;
    BodyOneLine(isNumber, args);
    assert OneLine(text);
    assert Find(input, LINE_BREAK) == |text| by {
      assert forall j | 0 <= j < |text| :: input[j] == text[j];
      assert input[|text|] == LINE_BREAK;
    }
    assert input[..|text|] == text && input[|text| + 1..] == following;
    assert Trim(text) == text by {
      NothingToTrim(text);
    }
  }

  lemma NothingToTrim(text: string)
    requires text != "" && !IsSpace(text[0]) && !IsSpace(text[|text| - 1])
    ensures Trim(text) == text
  {
  }

  // A list may go on over a line break, the next line's blanks left out.
  lemma ContinuedList(first: string, blanks: string, more: string, following: string)
    requires IsList(first) && OneLine(first) && !IsSpace(first[|first| - 1]) && first[|first| - 1] != CLOSE_LIST
    requires AllBlank(blanks) && OneLine(blanks)
    requires more != "" && OneLine(more) && !IsSpace(more[0]) && more[|more| - 1] == CLOSE_LIST
    ensures ItemText(first + [LINE_BREAK] + (blanks + more + [LINE_BREAK] + following)) == (first + more, following)
  {
    hide Trim, GetLine, Joined;
    var rest := blanks + more + [LINE_BREAK] + following;
    assert GetLine(first + [LINE_BREAK] + rest) == (first, rest) by { FirstLine(first, rest); }
    assert GetLine(rest) == (blanks + more, following) by { FirstLine(blanks + more, following); }
    assert Trim(first) == first by {
      TrimWhen("", first, "");
      assert "" + first + "" == first;
    }
    assert Trim(blanks + more) == more by {
      TrimWhen(blanks, more, "");
      assert blanks + more + "" == blanks + more;
    }
    JoinsOne(first, rest);
    assert (first + more)[|first + more| - 1] == CLOSE_LIST;
    JoinsOne(first + more, following);
  }

  lemma JoinsOne(item: string, input: string)
    requires item != ""
    ensures Joined(item, input)
         == if item[|item| - 1] == CLOSE_LIST || input == "" then (item, input)
            else Joined(item + Trim(GetLine(input).0), GetLine(input).1)
  {
  }

  lemma FirstLine(line: string, rest: string)
    requires OneLine(line)
    ensures GetLine(line + [LINE_BREAK] + rest) == (line, rest)
  {
    var input := line + [LINE_BREAK] + rest;
    assert forall j | 0 <= j < |line| :: input[j] == line[j];
    assert input[|line|] == LINE_BREAK;
    assert Find(input, LINE_BREAK) == |line|;
    assert input[..|line|] == line && input[|line| + 1..] == rest;
  }

  // An argument with a line break does not come back: the reader joins the trimmed lines.
  lemma LineBreakIsLost(isNumber: string -> bool, following: string)
    requires NumberTest(isNumber)
    ensures var args := ["a\nb", "c"];
            && Recoverable(isNumber, args[0]) && Recoverable(isNumber, args[1])
            && Values(ItemText(Written(isNumber, args) + [LINE_BREAK] + following).0) != args
  {
    var args := ["a\nb", "c"];
    PlainIsReadable(isNumber, args[0]);
    PlainIsReadable(isNumber, args[1]);
    var input := Written(isNumber, args) + [LINE_BREAK] + following;
    ItemOneLine(input);
    ValuesOneLine(ItemText(input).0);
    assert args[0][1] == LINE_BREAK;
  }

  // Printing a list of two or more into a file and reading it back, whatever follows it there.
  method PrintAndRead(isNumber: string -> bool, args: seq<string>, following: string)
    returns (items: seq<string>, left: string)
    requires NumberTest(isNumber) && |args| > 1
    ensures items == args
       <==> AllKept(isNumber, args) && forall i | 0 <= i < |args| :: OneLine(args[i])
    ensures items == args ==> left == following
  {
    hide AllKept, AllReadable, Tokens, Trim, ItemText, OneLine, Body;
    var item := IniJoin(isNumber, args);
    assert item == Written(isNumber, args);
    var input := item + [LINE_BREAK] + following;
    items, left := ReadItem(input);
    ItemOneLine(input);
    ValuesOneLine(ItemText(input).0);
    RoundTrip(isNumber, args);
    if forall i | 0 <= i < |args| :: OneLine(args[i]) {
      WholeLine(isNumber, args, following);
      assert item[1..|item| - 1] == Body(isNumber, args);
    }
  }
}
