// The argument loop of a top-level App without subcommands.
module CommandLine {
  import opened Arithmetic
  import opened Wrappers
  import CheckedMultiply
  import OptionNames
  import Text

  datatype Classifier = NONE | POSITIONAL_MARK | SHORT | LONG | WINDOWS_STYLE

  // What the loop reads of an option. Names may be empty for a purely positional one.
  datatype Spec = Spec(names: OptionNames.Names, positional: bool, required: bool,
                       typeSizeMin: int, typeSizeMax: int, expectedMin: int, expectedMax: int,
                       allowExtraArgs: bool, injectSeparator: bool)
  {
    predicate WellFormed() {
      0 <= typeSizeMin <= typeSizeMax && 0 <= expectedMin <= expectedMax
    }

    function ItemsExpectedMin(): int {
      typeSizeMin * expectedMin
    }

    function MinNum(): int {
      if typeSizeMin < ItemsExpectedMin() then typeSizeMin else ItemsExpectedMin()
    }

    function MaxNum(): int {
      var t := Product(typeSizeMax, expectedMax);
      if t >= EXPECTED_MAX_VECTOR_SIZE / 16 && !allowExtraArgs then Product(typeSizeMax, expectedMin) else t
    }
  }

  const EXPECTED_MAX_VECTOR_SIZE: int := 0x2000_0000

  // a*b when checked_multiply stores it in an int, else the largest vector size.
  function Product(a: int, b: int): int {
    if CheckedMultiply.Signed(0x7fff_ffff).Represents(a * b) then a * b else EXPECTED_MAX_VECTOR_SIZE
  }

  predicate ValidFirstChar(c: char) {
    'a' <= c <= 'z' || 'A' <= c <= 'Z' || '0' <= c <= '9' || c == '_' || c == '?' || c == '@'
  }

  predicate IsShort(w: string) {
    |w| > 1 && w[0] == '-' && ValidFirstChar(w[1])
  }

  predicate IsLong(w: string) {
    |w| > 2 && w[..2] == "--" && ValidFirstChar(w[2])
  }

  predicate IsWindowsStyle(w: string) {
    |w| > 1 && w[0] == '/' && ValidFirstChar(w[1])
  }

  // Name, attached value and rest of an option word.
  datatype Parts = Parts(name: string, value: string, rest: string)

  function SplitAt(w: string, from: nat, sep: char): (r: Parts)
    requires from <= |w| && forall i | 0 <= i < from :: w[i] != sep
    ensures r.rest == ""
    ensures w == w[..from] + r.name || w == w[..from] + r.name + [sep] + r.value
  {
    var loc := Text.Find(w, sep);
    if loc < |w| then Parts(w[from..loc], w[loc + 1..], "") else Parts(w[from..], "", "")
  }

  function SplitWord(w: string, kind: Classifier): Parts
    requires kind.LONG? ==> IsLong(w)
    requires kind.SHORT? ==> IsShort(w)
    requires kind.WINDOWS_STYLE? ==> IsWindowsStyle(w)
  {
    match kind
    case LONG => assert w[..2][0] == w[0] && w[..2][1] == w[1]; SplitAt(w, 2, '=')
    case SHORT => Parts(w[1..2], "", w[2..])
    case WINDOWS_STYLE => SplitAt(w, 1, ':')
    case _ => Parts("", "", "")
  }

  // ---- the record of a run ----

  // One turn of the loop: an option word with what it took along, a word for a positional, or
  // a word without use. `pre` and `post` are results that are no whole words: separators,
  // flag values, attached text, padding. With a non-empty `rest`, "-rest" was left in place.
  datatype Step =
    | Named(opt: nat, word: string, rest: string, pre: seq<string>, eaten: seq<string>, mark: bool, post: seq<string>)
    | Positional(opt: nat, word: string)
    | Unused(kind: Classifier, word: string)

  // The argument stack with words put back, the first of them on top.
  function PushBack(stack: seq<string>, words: seq<string>): seq<string> {
    if words == [] then stack else PushBack(stack, words[1..]) + [words[0]]
  }

  // The argument stack after a step without the "-rest" that it put on.
  function Free(step: Step, stack: seq<string>): seq<string>
    requires step.Named?
  {
    if step.rest != "" && stack != [] then stack[..|stack| - 1] else stack
  }

  // The argument stack before a step, from the stack after it.
  function Undo(step: Step, stack: seq<string>): seq<string> {
    match step
    case Positional(_, word) => stack + [word]
    case Unused(_, word) => stack + [word]
    case Named(_, word, _, _, eaten, mark, _) =>
      var free := Free(step, stack);
      PushBack(if mark then free + ["--"] else free, eaten) + [word]
  }

  function UndoAll(steps: seq<Step>, stack: seq<string>): seq<string> {
    if steps == [] then stack else UndoAll(steps[..|steps| - 1], Undo(steps[|steps| - 1], stack))
  }

  // Was the word treated as one that names no option?
  predicate AsPositional(step: Step) {
    step.Positional? || (step.Unused? && step.kind.NONE?)
  }

  predicate IsMark(step: Step) {
    step.Unused? && step.kind.POSITIONAL_MARK?
  }

  ghost predicate Dropped(steps: seq<Step>) {
    exists j | 0 <= j < |steps| :: steps[j].Unused? && steps[j].kind.NONE?
  }

  ghost predicate MarkSeen(steps: seq<Step>) {
    exists j | 0 <= j < |steps| :: IsMark(steps[j])
  }

  // Does the step use up its word?
  predicate Whole(step: Step) {
    step.Named? ==> step.rest == ""
  }

  // The words from a step on, given the words after it. A cluster of short flags is one word:
  // what the step left of it comes first in `after`.
  function Before(step: Step, after: seq<string>): seq<string> {
    match step
    case Positional(_, word) => [word] + after
    case Unused(_, word) => [word] + after
    case Named(_, word, rest, _, eaten, mark, _) =>
      if rest != "" && after != [] then [word] + after[1..]
      else [word] + (eaten + ((if mark then ["--"] else []) + after))
  }

  function CommandLineOf(steps: seq<Step>, after: seq<string>): seq<string> {
    if steps == [] then after else CommandLineOf(steps[..|steps| - 1], Before(steps[|steps| - 1], after))
  }

  // A step that leaves part of its word takes no further words.
  predicate Tidy(step: Step) {
    step.Named? && step.rest != "" ==> step.eaten == [] && !step.mark
  }

  lemma PushFirst(stack: seq<string>, w: string, words: seq<string>)
    ensures PushBack(stack, [w] + words) == PushBack(stack, words) + [w]
  {
    assert ([w] + words)[1..] == words;
  }

  lemma UndoBefore(step: Step, after: seq<string>)
    requires Tidy(step) && (after == [] ==> Whole(step))
    ensures Undo(step, PushBack([], after)) == PushBack([], Before(step, after))
    ensures Before(step, after) != []
  {
    var stack := PushBack([], after);
    match step
    case Positional(_, word) => PushFirst([], word, after);
    case Unused(_, word) => PushFirst([], word, after);
    case Named(_, word, rest, _, eaten, mark, _) =>
      if rest != "" {
        assert after == [after[0]] + after[1..];
        PushFirst([], after[0], after[1..]);
        PushFirst([], word, after[1..]);
      } else {
        var below := if mark then stack + ["--"] else stack;
        var words := (if mark then ["--"] else []) + after;
        if mark {
          PushFirst([], "--", after);
        } else {
          assert words == after;
        }
        assert below == PushBack([], words);
        PushBackConcat([], eaten, words);
        PushFirst([], word, eaten + words);
      }
  }

  lemma {:induction false} UndoIsCommandLine(steps: seq<Step>, after: seq<string>)
    requires forall i | 0 <= i < |steps| :: Tidy(steps[i])
    requires after == [] && steps != [] ==> Whole(steps[|steps| - 1])
    ensures UndoAll(steps, PushBack([], after)) == PushBack([], CommandLineOf(steps, after))
  {
    if steps != [] {
      UndoBefore(steps[|steps| - 1], after);
      UndoIsCommandLine(steps[..|steps| - 1], Before(steps[|steps| - 1], after));
    }
  }

  // The words that a step takes off the stack, and those it puts on it.
  function TakenBy(step: Step): multiset<string> {
    match step
    case Positional(_, word) => multiset{word}
    case Unused(_, word) => multiset{word}
    case Named(_, word, _, _, eaten, mark, _) =>
      multiset{word} + (multiset(eaten) + if mark then multiset{"--"} else multiset{})
  }

  function PutBackBy(step: Step): multiset<string> {
    if step.Named? && step.rest != "" then multiset{"-" + step.rest} else multiset{}
  }

  function Taken(steps: seq<Step>): multiset<string> {
    if steps == [] then multiset{} else Taken(steps[..|steps| - 1]) + TakenBy(steps[|steps| - 1])
  }

  function PutBack(steps: seq<Step>): multiset<string> {
    if steps == [] then multiset{} else PutBack(steps[..|steps| - 1]) + PutBackBy(steps[|steps| - 1])
  }

  lemma OneMoreWord(stack: seq<string>, w: string)
    ensures multiset(stack + [w]) == multiset(stack) + multiset{w}
  {
  }

  lemma {:induction false} PushedWords(stack: seq<string>, words: seq<string>)
    ensures multiset(PushBack(stack, words)) == multiset(stack) + multiset(words)
  {
    if words != [] {
      PushedWords(stack, words[1..]);
      OneMoreWord(PushBack(stack, words[1..]), words[0]);
      assert words == [words[0]] + words[1..];
    }
  }

  lemma UndoneWords(step: Step, stack: seq<string>)
    requires step.Named? && step.rest != "" ==> stack != [] && stack[|stack| - 1] == "-" + step.rest
    ensures multiset(Undo(step, stack)) + PutBackBy(step) == multiset(stack) + TakenBy(step)
  {
    match step
    case Positional(_, word) => OneMoreWord(stack, word);
    case Unused(_, word) => OneMoreWord(stack, word);
    case Named(_, word, rest, _, eaten, mark, _) =>
      var below := if rest != "" then stack[..|stack| - 1] else stack;
      BelowRest(stack, below, rest);
      hide PushBack, PutBackBy;
      var words := if mark then below + ["--"] else below;
      OneMoreWord(below, "--");
      PushedWords(words, eaten);
      OneMoreWord(PushBack(words, eaten), word);
      Gather(multiset(below), if mark then multiset{"--"} else multiset{}, multiset(eaten), multiset{word},
             PutBackBy(step));
  }

  lemma BelowRest(stack: seq<string>, below: seq<string>, rest: string)
    requires rest != "" ==> stack != [] && stack[|stack| - 1] == "-" + rest
    requires below == if rest != "" then stack[..|stack| - 1] else stack
    ensures multiset(stack) == multiset(below) + if rest != "" then multiset{"-" + rest} else multiset{}
  {
    if rest != "" {
      assert stack == below + ["-" + rest];
      OneMoreWord(below, "-" + rest);
    }
  }

  lemma Gather<T>(b: multiset<T>, m: multiset<T>, e: multiset<T>, w: multiset<T>, r: multiset<T>)
    ensures b + m + e + w + r == b + r + (w + (e + m))
  {
  }

  lemma Exchange<T>(a: multiset<T>, b: multiset<T>, m: multiset<T>, t: multiset<T>, u: multiset<T>, s: multiset<T>,
        v: multiset<T>)
    requires a + b == m + t && m + u == s + v
    ensures a + (b + u) == s + (t + v)
  {
    calc {
      a + (b + u);
      (a + b) + u;
      (m + u) + t;
      (s + v) + t;
      s + (t + v);
    }
  }

  lemma {:induction false} PushBackLength(stack: seq<string>, words: seq<string>)
    ensures |PushBack(stack, words)| == |stack| + |words|
  {
    if words != [] {
      PushBackLength(stack, words[1..]);
    }
  }

  // Of two ways to take words off the same stack, the longer one begins with the shorter one.
  lemma {:induction false} ShorterFirst(a: seq<string>, e: seq<string>, b: seq<string>, f: seq<string>)
    requires PushBack(a, e) == PushBack(b, f) && |e| <= |f|
    ensures f[..|e|] == e && PushBack(b, f[|e|..]) == a
  {
    if e != [] {
      var x, y := PushBack(a, e[1..]), PushBack(b, f[1..]);
      assert x + [e[0]] == y + [f[0]];
      assert (x + [e[0]])[..|x|] == x && (y + [f[0]])[..|y|] == y;
      assert |x| == |y| && (x + [e[0]])[|x|] == e[0] && (y + [f[0]])[|y|] == f[0];
      ShorterFirst(a, e[1..], b, f[1..]);
      assert f[1..][|e| - 1..] == f[|e|..];
      assert f[..|e|] == [f[0]] + f[1..][..|e| - 1] && e == [e[0]] + e[1..];
    } else {
      assert f[0..] == f;
    }
  }

  lemma {:induction false} UndoAllNonEmpty(steps: seq<Step>, stack: seq<string>)
    requires steps != [] || stack != []
    ensures UndoAll(steps, stack) != []
  {
    if steps != [] {
      UndoAllNonEmpty(steps[..|steps| - 1], Undo(steps[|steps| - 1], stack));
    }
  }

  // The results that a run gives to an option, in order.
  function ResultsOf(steps: seq<Step>, o: nat): seq<string> {
    if steps == [] then []
    else
      ResultsOf(steps[..|steps| - 1], o) + StepResults(steps[|steps| - 1], o)
  }

  function StepResults(step: Step, o: nat): seq<string> {
    match step
    case Positional(opt, word) => if opt == o then [word] else []
    case Unused(_, _) => []
    case Named(opt, _, _, pre, eaten, _, post) => if opt == o then pre + eaten + post else []
  }

  function StepUnused(step: Step): seq<(Classifier, string)> {
    match step
    case Unused(kind, word) => [(kind, word)]
    case _ => []
  }

  function UnusedOf(steps: seq<Step>): seq<(Classifier, string)> {
    if steps == [] then []
    else
      UnusedOf(steps[..|steps| - 1]) + StepUnused(steps[|steps| - 1])
  }

  lemma {:induction false} PushBackConcat(stack: seq<string>, a: seq<string>, b: seq<string>)
    ensures PushBack(PushBack(stack, b), a) == PushBack(stack, a + b)
  {
    if a == [] {
      assert [] + b == b;
    } else {
      PushBackConcat(stack, a[1..], b);
      assert (a + b)[1..] == a[1..] + b;
    }
  }

  lemma OneMoreStep(steps: seq<Step>, step: Step, stack: seq<string>)
    ensures UndoAll(steps + [step], stack) == UndoAll(steps, Undo(step, stack))
    ensures forall o :: ResultsOf(steps + [step], o) == ResultsOf(steps, o) + StepResults(step, o)
    ensures UnusedOf(steps + [step]) == UnusedOf(steps) + StepUnused(step)
  {
    assert (steps + [step])[..|steps|] == steps;
  }

  // Remaining text, with one for each word.
  function Size(stack: seq<string>): nat {
    if stack == [] then 0 else Size(stack[..|stack| - 1]) + |stack[|stack| - 1]| + 1
  }

  lemma SizeSnoc(stack: seq<string>, w: string)
    ensures Size(stack + [w]) == Size(stack) + |w| + 1
  {
    assert (stack + [w])[..|stack|] == stack;
  }

  lemma {:induction false} SizePushBack(stack: seq<string>, words: seq<string>)
    ensures Size(PushBack(stack, words)) >= Size(stack)
  {
    if words != [] {
      SizePushBack(stack, words[1..]);
      SizeSnoc(PushBack(stack, words[1..]), words[0]);
    }
  }

  lemma {:induction false} PushBackSnoc(stack: seq<string>, words: seq<string>, w: string)
    ensures PushBack(stack + [w], words) == PushBack(stack, words + [w])
  {
    if words == [] {
      assert PushBack(stack, [w]) == PushBack(stack, []) + [w];
    } else {
      PushBackSnoc(stack, words[1..], w);
      assert (words + [w])[1..] == words[1..] + [w];
    }
  }

  // The settings of an App, its options, and two functions that stand for code outside the
  // loop: get_flag_value (None when it throws) and the validators of positionals.
  datatype Setup = Setup(specs: seq<Spec>, positionalsAtEnd: bool, prefixCommand: bool, windowsStyle: bool,
                         validatePositionals: bool,
                         flagValue: (nat, string, string) -> Option<string>, accepts: (nat, string) -> bool)
  {
    predicate WellFormed() {
      forall o | 0 <= o < |specs| :: specs[o].WellFormed()
    }

    function Recognize(w: string): (kind: Classifier)
      ensures kind.LONG? <==> IsLong(w)
      ensures kind.SHORT? <==> IsShort(w) && ('0' <= w[1] <= '9' ==> HasShort(w[1..2]))
      ensures kind.WINDOWS_STYLE? <==> windowsStyle && IsWindowsStyle(w)
      ensures kind.POSITIONAL_MARK? <==> w == "--"
    {
      if w == "--" then POSITIONAL_MARK
      else if IsLong(w) then LONG
      else if IsShort(w) then
        if '0' <= w[1] <= '9' && !HasShort(w[1..2]) then NONE else SHORT
      else if windowsStyle && IsWindowsStyle(w) then WINDOWS_STYLE
      else NONE
    }

    predicate HasShort(name: string) {
      exists o | 0 <= o < |specs| :: OptionNames.CheckShort(specs[o].names, name)
    }

    predicate Answers(o: nat, name: string, kind: Classifier)
      requires o < |specs|
    {
      match kind
      case LONG => OptionNames.CheckLong(specs[o].names, name)
      case SHORT => OptionNames.CheckShort(specs[o].names, name)
      case _ => OptionNames.CheckAny(specs[o].names, name)
    }

    // The separator that goes in front of another occurrence of an option.
    function Separator(o: nat, had: seq<string>): seq<string>
      requires o < |specs|
    {
      if specs[o].injectSeparator && had != [] && had[|had| - 1] != "" then [""] else []
    }

    // What required positionals among the first o options still lack.
    function CountRemaining(results: seq<seq<string>>, o: nat): int
      requires |results| == |specs| && o <= |results|
    {
      if o == 0 then 0
      else
        var s, count := specs[o - 1], |results[o - 1]|;
        CountRemaining(results, o - 1) +
        if s.positional && s.required && s.ItemsExpectedMin() > 0 && count < s.ItemsExpectedMin()
        then s.ItemsExpectedMin() - count else 0
    }

    // The first positional that may take the word, or |specs|.
    function FirstTaking(results: seq<seq<string>>, word: string, o: nat): (r: nat)
      requires |results| == |specs| && o <= |results|
      ensures o <= r <= |results|
      ensures r < |results| ==> Takes(r, word, |results[r]|)
      ensures forall k | o <= k < r :: !Takes(k, word, |results[k]|)
      decreases |results| - o
    {
      if o == |results| || Takes(o, word, |results[o]|) then o else FirstTaking(results, word, o + 1)
    }

    predicate Lacks(o: nat, word: string, count: nat)
      requires o < |specs|
    {
      var s := specs[o];
      && s.positional && s.required && count < s.ItemsExpectedMin()
      && (validatePositionals ==> accepts(o, word))
    }

    // The first required positional that lacks words and may take this one, or |specs|.
    function FirstLacking(results: seq<seq<string>>, word: string, o: nat): (r: nat)
      requires |results| == |specs| && o <= |results|
      ensures o <= r <= |results|
      ensures r < |results| ==> Lacks(r, word, |results[r]|)
      ensures forall k | o <= k < r :: !Lacks(k, word, |results[k]|)
      decreases |results| - o
    {
      if o == |results| || Lacks(o, word, |results[o]|) then o else FirstLacking(results, word, o + 1)
    }

    // Where a word that names no option goes, so many words being left with it; None stands
    // for the ExtrasError exception.
    function PositionalStep(results: seq<seq<string>>, left: nat, word: string): (r: Option<Step>)
      requires |results| == |specs|
      ensures r.None? ==>
        positionalsAtEnd && forall o | 0 <= o < |specs| && specs[o].positional ::
          |results[o]| >= specs[o].typeSizeMin * specs[o].expectedMin || (validatePositionals && !accepts(o, word))
      ensures r.Some? && r.value.Positional? ==>
        && r.value.opt < |specs| && specs[r.value.opt].positional && r.value.word == word
        && (validatePositionals ==> accepts(r.value.opt, word))
        && (specs[r.value.opt].allowExtraArgs
            || |results[r.value.opt]| < specs[r.value.opt].typeSizeMin * specs[r.value.opt].expectedMin)
      ensures
        (positionalsAtEnd && left <= CountRemaining(results, |results|)
         && exists o :: 0 <= o < |specs| && Lacks(o, word, |results[o]|)) ==>
        r.Some? && r.value.Positional? && specs[r.value.opt].required
        && |results[r.value.opt]| < specs[r.value.opt].typeSizeMin * specs[r.value.opt].expectedMin
      ensures r.Some? && !r.value.Positional? ==>
        !positionalsAtEnd && r.value == Unused(NONE, word) && forall o | 0 <= o < |specs| && specs[o].positional ::
          |results[o]| >= specs[o].typeSizeMin * specs[o].expectedMin || (validatePositionals && !accepts(o, word))
    {
      var lacking, taking := FirstLacking(results, word, 0), FirstTaking(results, word, 0);
      if positionalsAtEnd && left <= CountRemaining(results, |results|) && lacking < |results|
      then Some(Positional(lacking, word))
      else if taking < |results| then Some(Positional(taking, word))
      else if positionalsAtEnd then None
      else Some(Unused(NONE, word))
    }

    // May the positional o take this word, with so many results already?
    predicate Takes(o: nat, word: string, count: nat)
      requires o < |specs|
    {
      && specs[o].positional
      && (count < specs[o].ItemsExpectedMin() || specs[o].allowExtraArgs)
      && (validatePositionals ==> accepts(o, word))
    }

    // The text that an option word itself gives to its option.
    function OwnText(o: nat, parts: Parts): Option<seq<string>>
      requires o < |specs|
    {
      if specs[o].MaxNum() == 0 then
        match flagValue(o, parts.name, parts.value)
        case None => None
        case Some(v) => Some([v])
      else if parts.value != "" then Some([parts.value])
      else if parts.rest != "" then Some([parts.rest])
      else Some([])
    }

    // How many words and attached texts count towards the option's minimum and maximum.
    function Collected(o: nat, own: seq<string>, eaten: nat): (n: int)
      requires o < |specs|
      ensures n >= eaten
    {
      (if specs[o].MaxNum() == 0 then 0 else |own|) + eaten
    }

    function Padding(o: nat, collected: int): seq<string>
      requires o < |specs| && specs[o].WellFormed()
    {
      var s := specs[o];
      if s.MinNum() > 0 && s.typeSizeMax != s.MinNum() && s.typeSizeMax > 0 && collected % s.typeSizeMax != 0
      then [""] else []
    }

    // An option word goes to the first option that answers to it, takes at least the words
    // missing to the minimum, beyond those only words that look like no option, and no more
    // than the maximum unless extra words are allowed. How it depends on results and words of
    // that time is for NamedDue to say.
    predicate NamedOk(step: Step)
      requires step.Named? && WellFormed()
    {
      var kind := Recognize(step.word);
      && (kind.LONG? || kind.SHORT? || kind.WINDOWS_STYLE?)
      && step.opt < |specs|
      && var parts := SplitWord(step.word, kind);
      && Answers(step.opt, parts.name, kind)
      && (forall o | 0 <= o < step.opt :: !Answers(o, parts.name, kind))
      && OwnText(step.opt, parts).Some?
      && var own := OwnText(step.opt, parts).value;
      && var s := specs[step.opt];
      && var collected := Collected(step.opt, own, |step.eaten|);
      && step.rest == (if s.MaxNum() == 0 then parts.rest else "")
      && collected >= s.MinNum()
      && (forall j | 0 <= j < |step.eaten| && Collected(step.opt, own, j) >= s.MinNum() ::
            Recognize(step.eaten[j]).NONE?)
      && (s.allowExtraArgs || collected <= s.MinNum() || collected <= s.MaxNum())
      && (s.MaxNum() == 0 && !s.allowExtraArgs ==> step.eaten == [] && !step.mark)
      && (if s.MinNum() == 0 && s.MaxNum() > 0 && collected == 0 then
            flagValue(step.opt, parts.name, "").Some?
            && step.post == [flagValue(step.opt, parts.name, "").value] + Padding(step.opt, collected)
          else step.post == Padding(step.opt, collected))
    }

    // The number of words that were missing to an option's minimum.
    function Owed(o: nat, own: seq<string>): nat
      requires o < |specs|
    {
      var owed := specs[o].MinNum() - Collected(o, own, 0);
      if owed > 0 then owed else 0
    }

    // Is there no further word for an option that has collected n, so many being reserved?
    predicate Stops(o: nat, n: int, stack: seq<string>, reserved: int)
      requires o < |specs|
    {
      || (n >= specs[o].MaxNum() && !specs[o].allowExtraArgs)
      || stack == [] || !Recognize(stack[|stack| - 1]).NONE? || reserved >= |stack|
    }

    // Beyond its minimum an option has taken every word it could, and a `--` behind them. It
    // had collected n before, `results` are those of that time, `stack` what was left.
    predicate TookRest(o: nat, results: seq<seq<string>>, n: int, eaten: seq<string>, mark: bool, stack: seq<string>)
      requires o < |specs| == |results|
    {
      var below, reserved := if mark then stack + ["--"] else stack, CountRemaining(results, |results|);
      if specs[o].MaxNum() > n || specs[o].allowExtraArgs then
        && Stops(o, n + |eaten|, below, reserved)
        && (mark || stack == [] || stack[|stack| - 1] != "--")
        && (eaten != [] ==> reserved <= |below|)
      else eaten == [] && !mark
    }

    // The text that the step's word itself brought.
    function OwnOf(step: Step): seq<string>
      requires step.Named? && WellFormed() && NamedOk(step)
    {
      OwnText(step.opt, SplitWord(step.word, Recognize(step.word))).value
    }

    // Does an optional value end up with none, so that its default is asked for?
    predicate NeedsDefault(o: nat, n: int, results: seq<seq<string>>, stack: seq<string>)
      requires o < |specs| == |results|
    {
      && specs[o].MinNum() == 0 && specs[o].MaxNum() > 0 && n == 0
      && Stops(o, 0, stack, CountRemaining(results, |results|))
    }

    // Can the option do with the words there are? If not, an exception comes.
    predicate Manages(o: nat, parts: Parts, results: seq<seq<string>>, stack: seq<string>)
      requires o < |specs| == |results|
    {
      && OwnText(o, parts).Some?
      && var own := OwnText(o, parts).value;
      && Owed(o, own) <= |stack|
      && (NeedsDefault(o, Collected(o, own, 0), Given(results, o, Separator(o, results[o]) + own), stack)
          ==> flagValue(o, parts.name, "").Some?)
    }

    // The first option that answers to the name, or |specs|.
    function FirstAnswering(name: string, kind: Classifier, o: nat): (r: nat)
      requires o <= |specs|
      ensures o <= r <= |specs|
      ensures r < |specs| ==> Answers(r, name, kind)
      ensures forall k | o <= k < r :: !Answers(k, name, kind)
      decreases |specs| - o
    {
      if o == |specs| || Answers(o, name, kind) then o else FirstAnswering(name, kind, o + 1)
    }

    // Can an option word be dealt with, `stack` being the words after it?
    predicate ArgProceeds(word: string, results: seq<seq<string>>, stack: seq<string>)
      requires |results| == |specs|
    {
      var kind := Recognize(word);
      var parts := SplitWord(word, kind);
      var o := FirstAnswering(parts.name, kind, 0);
      o == |specs| || Manages(o, parts, results, stack)
    }

    // Can the next word be dealt with? If not, an exception comes.
    predicate Proceeds(results: seq<seq<string>>, stack: seq<string>, positionalOnly: bool)
      requires stack != [] && |results| == |specs|
    {
      var word := stack[|stack| - 1];
      match if positionalOnly then NONE else Recognize(word)
      case POSITIONAL_MARK => true
      case NONE => PositionalStep(results, |stack|, word).Some?
      case _ => ArgProceeds(word, results, stack[..|stack| - 1])
    }

    // After these steps and with these words left an exception comes.
    ghost predicate Stuck(steps: seq<Step>, left: seq<string>) {
      left != [] && !Dumping(steps) && !Proceeds(ResultsAfter(steps), left, OnlyPositionals(steps))
    }

    // What such a step owes to the results before it and to the words left after it.
    predicate NamedDue(step: Step, results: seq<seq<string>>, stack: seq<string>)
      requires step.Named? && WellFormed() && NamedOk(step) && |results| == |specs|
    {
      var own := OwnOf(step);
      var owed := Owed(step.opt, own);
      && step.pre == Separator(step.opt, results[step.opt]) + own
      && owed <= |step.eaten|
      && (step.rest != "" ==> stack != [] && stack[|stack| - 1] == "-" + step.rest)
      && TookRest(step.opt, Given(results, step.opt, step.pre + step.eaten[..owed]), Collected(step.opt, own, owed),
                  step.eaten[owed..], step.mark, Free(step, stack))
    }

    function ResultsAfter(steps: seq<Step>): (r: seq<seq<string>>)
      ensures |r| == |specs|
    {
      seq(|specs|, o requires 0 <= o < |specs| => ResultsOf(steps, o))
    }

    // A step that the results and steps before it and the words left after it call for.
    ghost predicate DueStep(step: Step, results: seq<seq<string>>, was: seq<Step>, stack: seq<string>)
      requires WellFormed() && StepOk(step) && |results| == |specs|
    {
      var only := OnlyPositionals(was);
      if Dumping(was) then step.Unused? && step.kind.NONE?
      else if AsPositional(step) then
        && (only || Recognize(step.word).NONE?)
        && PositionalStep(results, |stack| + 1, step.word) == Some(step)
      else !only && (step.Named? ==> NamedDue(step, results, stack))
    }

    // Has a prefix command come, so that all further words are left over?
    ghost predicate Dumping(steps: seq<Step>) {
      prefixCommand && Dropped(steps)
    }

    ghost predicate Due(steps: seq<Step>, stack: seq<string>)
      requires WellFormed()
    {
      steps == [] ||
      var was, step := steps[..|steps| - 1], steps[|steps| - 1];
      StepOk(step) && DueStep(step, ResultsAfter(was), was, stack) && Due(was, Undo(step, stack))
    }

    lemma DueSnoc(was: seq<Step>, step: Step, results: seq<seq<string>>, stack: seq<string>)
      requires WellFormed() && StepOk(step) && |results| == |specs|
      requires forall o | 0 <= o < |results| :: results[o] == ResultsOf(was, o)
      requires DueStep(step, results, was, stack) && Due(was, Undo(step, stack))
      ensures Due(was + [step], stack)
    {
      assert results == ResultsAfter(was);
      assert (was + [step])[..|was|] == was;
    }

    // The words taken are those that were there and those put back on the way.
    lemma {:induction false} DueWords(steps: seq<Step>, stack: seq<string>)
      requires WellFormed() && Due(steps, stack)
      ensures multiset(UndoAll(steps, stack)) + PutBack(steps) == multiset(stack) + Taken(steps)
    {
      hide NamedOk, TookRest, PositionalStep, Undo, TakenBy, PutBackBy, OwnOf;
      if steps != [] {
        var was, step := steps[..|steps| - 1], steps[|steps| - 1];
        var before := Undo(step, stack);
        UndoneWords(step, stack);
        DueWords(was, before);
        Exchange(multiset(UndoAll(was, before)), PutBack(was), multiset(before), Taken(was), PutBackBy(step),
                 multiset(stack), TakenBy(step));
      }
    }

    // After such a step words may be positional whatever they look like.
    predicate Frees(step: Step) {
      match step
      case Unused(kind, _) => kind.POSITIONAL_MARK? || (kind.NONE? && prefixCommand)
      case Positional(_, _) => positionalsAtEnd
      case Named(_, _, _, _, _, _, _) => false
    }

    // A word that looks like an option or a `--` is treated as one unless an earlier step
    // frees it; after a `--` no word is treated as an option.
    ghost predicate InOrder(steps: seq<Step>) {
      && (forall i | 0 <= i < |steps| && AsPositional(steps[i]) ::
            Recognize(steps[i].word).NONE? || Freed(steps[..i]))
      && (forall i, j | 0 <= j < i < |steps| && IsMark(steps[j]) :: AsPositional(steps[i]))
    }

    ghost predicate Freed(steps: seq<Step>) {
      exists j | 0 <= j < |steps| :: Frees(steps[j])
    }

    // From such a step on, every word is treated as one that names no option.
    predicate Closes(step: Step) {
      IsMark(step) || (positionalsAtEnd && step.Positional?)
    }

    ghost predicate OnlyPositionals(steps: seq<Step>) {
      exists j | 0 <= j < |steps| :: Closes(steps[j])
    }

    lemma ClosingFrees(steps: seq<Step>)
      ensures MarkSeen(steps) ==> OnlyPositionals(steps)
      ensures OnlyPositionals(steps) ==> Freed(steps)
    {
      if MarkSeen(steps) {
        var j :| 0 <= j < |steps| && IsMark(steps[j]);
        assert Closes(steps[j]);
      }
      if OnlyPositionals(steps) {
        var j :| 0 <= j < |steps| && Closes(steps[j]);
        assert Frees(steps[j]);
      }
    }

    lemma DumpingFrees(steps: seq<Step>)
      ensures Dumping(steps) ==> Freed(steps)
    {
      if Dumping(steps) {
        var j :| 0 <= j < |steps| && steps[j].Unused? && steps[j].kind.NONE?;
        assert Frees(steps[j]);
      }
    }

    lemma DumpingSnoc(steps: seq<Step>, step: Step)
      ensures Dumping(steps + [step]) <==> Dumping(steps) || (prefixCommand && step.Unused? && step.kind.NONE?)
    {
      var all := steps + [step];
      assert all[|steps|] == step && forall j | 0 <= j < |steps| :: all[j] == steps[j];
    }

    lemma ClosesSnoc(steps: seq<Step>, step: Step)
      ensures OnlyPositionals(steps + [step]) <==> OnlyPositionals(steps) || Closes(step)
    {
      var all := steps + [step];
      assert all[|steps|] == step && forall j | 0 <= j < |steps| :: all[j] == steps[j];
    }

    lemma InOrderSnoc(steps: seq<Step>, step: Step)
      requires InOrder(steps)
      requires AsPositional(step) ==> Recognize(step.word).NONE? || Freed(steps)
      requires AsPositional(step) || !MarkSeen(steps)
      ensures InOrder(steps + [step])
      ensures Freed(steps + [step]) <==> Freed(steps) || Frees(step)
      ensures MarkSeen(steps + [step]) <==> MarkSeen(steps) || IsMark(step)
    {
      var all := steps + [step];
      assert forall i | 0 <= i < |steps| :: all[i] == steps[i] && all[..i] == steps[..i];
      assert all[|steps|] == step && all[..|steps|] == steps;
    }

    predicate StepOk(step: Step)
      requires WellFormed()
    {
      match step
      case Named(_, _, _, _, _, _, _) => NamedOk(step)
      case Positional(opt, word) => opt < |specs| && specs[opt].positional
      case Unused(kind, word) =>
        match kind
        case NONE => true
        case POSITIONAL_MARK => word == "--"
        case _ =>
          Recognize(word) == kind && forall o | 0 <= o < |specs| :: !Answers(o, SplitWord(word, kind).name, kind)
    }
  }

  // ---- what the numbers and predicates come to ----

  lemma FirstChars(c: char)
    ensures ValidFirstChar(c)
       <==> c in Text.CAPITALS || c in Text.SMALL || c in Text.DIGITS || c in "_?@"
  {
    Text.Alphabet(c);
    Text.SmallLetter(c);
    Text.Digit(c);
    hide Text.CAPITALS, Text.SMALL, Text.DIGITS;
  }

  // Words that do not begin with a dash or, if that counts, a slash name no option.
  lemma PlainWords(setup: Setup, w: string)
    requires w == "" || w == "-" || (w[0] != '-' && (setup.windowsStyle ==> w[0] != '/'))
    ensures setup.Recognize(w).NONE?
  {
  }

  // An option with values at all needs one of its types at least, whatever it is expected to get.
  lemma MinNumWhen(s: Spec)
    requires s.WellFormed()
    ensures s.MinNum() == if s.expectedMin == 0 then 0 else s.typeSizeMin
  {
    if s.expectedMin >= 1 {
      MulMono(1, s.expectedMin, s.typeSizeMin);
      assert s.expectedMin * s.typeSizeMin == s.typeSizeMin * s.expectedMin;
    }
  }

  // The maximum is the product, unless that is so large that it stands for no limit.
  lemma MaxNumWhen(s: Spec)
    requires s.WellFormed()
    ensures s.typeSizeMax * s.expectedMax < 0x200_0000 ==> s.MaxNum() == s.typeSizeMax * s.expectedMax
    ensures s.allowExtraArgs ==>
      s.MaxNum() == if s.typeSizeMax * s.expectedMax <= 0x7fff_ffff then s.typeSizeMax * s.expectedMax else 0x2000_0000
    ensures !s.allowExtraArgs && 0x200_0000 <= s.typeSizeMax * s.expectedMax ==>
      s.typeSizeMax * s.expectedMin <= 0x7fff_ffff ==> s.MaxNum() == s.typeSizeMax * s.expectedMin
  {
    MulMono(0, s.typeSizeMax, s.expectedMax);
    MulMono(0, s.typeSizeMax, s.expectedMin);
    assert s.typeSizeMax * s.expectedMax >= 0 && s.typeSizeMax * s.expectedMin >= 0;
  }

  // A separator comes between occurrences that have values, when asked for.
  lemma SeparatorWhen(setup: Setup, o: nat, had: seq<string>, w: string)
    requires o < |setup.specs|
    ensures setup.Separator(o, []) == [] && setup.Separator(o, had + [""]) == []
    ensures w != "" ==> setup.Separator(o, had + [w]) == if setup.specs[o].injectSeparator then [""] else []
  {
  }

  // A type of which only a part was given is filled up.
  lemma PaddingWhen(setup: Setup, o: nat, whole: nat, part: nat)
    requires o < |setup.specs| && setup.specs[o].WellFormed()
    requires 0 < setup.specs[o].MinNum() < setup.specs[o].typeSizeMax && part < setup.specs[o].typeSizeMax
    ensures setup.Padding(o, whole * setup.specs[o].typeSizeMax + part) == if part == 0 then [] else [""]
  {
    var t := setup.specs[o].typeSizeMax;
    DivModUnique(whole * t + part, t, whole, part);
  }

  // Does a required positional still lack words?
  predicate StillLacks(setup: Setup, results: seq<seq<string>>, k: nat)
    requires k < |setup.specs| == |results|
  {
    setup.specs[k].positional && setup.specs[k].required && |results[k]| < setup.specs[k].ItemsExpectedMin()
  }

  // Nothing is reserved just if no required positional lacks words.
  lemma {:induction false} NothingLacking(setup: Setup, results: seq<seq<string>>, o: nat)
    requires |results| == |setup.specs| && o <= |results|
    ensures setup.CountRemaining(results, o) >= 0
    ensures setup.CountRemaining(results, o) == 0 <==> forall k | 0 <= k < o :: !StillLacks(setup, results, k)
  {
    if o > 0 {
      NothingLacking(setup, results, o - 1);
      if setup.CountRemaining(results, o) == 0 {
        assert !StillLacks(setup, results, o - 1);
      } else if setup.CountRemaining(results, o - 1) == 0 {
        assert StillLacks(setup, results, o - 1);
      }
    }
  }

  // A word for a required positional that lacks some is one less to reserve.
  lemma {:induction false} OneLessLacking(setup: Setup, results: seq<seq<string>>, p: nat, w: string, o: nat)
    requires p < |results| == |setup.specs| && o <= |results|
    ensures setup.CountRemaining(Given(results, p, [w]), o)
         == setup.CountRemaining(results, o) - if p < o && StillLacks(setup, results, p) then 1 else 0
  {
    if o > 0 {
      OneLessLacking(setup, results, p, w, o - 1);
      assert |Given(results, p, [w])[o - 1]| == |results[o - 1]| + if p == o - 1 then 1 else 0;
    }
  }

  // ---- a run is determined by the command line ----

  // Where an option stopped taking words it does not go on.
  lemma StopsThere(setup: Setup, o: nat, results: seq<seq<string>>, n: int, e: seq<string>, m: bool, s: seq<string>,
        f: seq<string>, l: bool, t: seq<string>)
    requires o < |setup.specs| == |results|
    requires setup.TookRest(o, results, n, e, m, s) && setup.TookRest(o, results, n, f, l, t)
    requires |e| < |f| ==>
      && (if m then s + ["--"] else s) == PushBack(if l then t + ["--"] else t, f[|e|..])
      && setup.Recognize(f[|e|]).NONE?
      && (setup.specs[o].allowExtraArgs || n + |e| < setup.specs[o].MaxNum())
    ensures |f| <= |e|
  {
    hide Setup.Recognize, Spec.MaxNum, Setup.CountRemaining, PushBack;
    if |e| < |f| {
      PushBackLength(if l then t + ["--"] else t, f[|e|..]);
      PushBackTop(if l then t + ["--"] else t, f[|e|..]);
    }
  }

  // Of two ways for an option to take words from the same stack, neither goes on where the other
  // one stopped.
  lemma NotLonger(setup: Setup, o: nat, results: seq<seq<string>>, pre: seq<string>, n: int, owed: nat,
        e: seq<string>, m: bool, s: seq<string>, f: seq<string>, l: bool, t: seq<string>)
    requires o < |setup.specs| == |results| && owed <= |e| && owed <= |f|
    requires setup.TookRest(o, Given(results, o, pre + e[..owed]), n, e[owed..], m, s)
    requires setup.TookRest(o, Given(results, o, pre + f[..owed]), n, f[owed..], l, t)
    requires PushBack(if m then s + ["--"] else s, e) == PushBack(if l then t + ["--"] else t, f)
    requires |e| < |f| ==>
      && setup.Recognize(f[|e|]).NONE?
      && (setup.specs[o].allowExtraArgs || n + |e| - owed < setup.specs[o].MaxNum())
    ensures |f| <= |e|
  {
    hide Setup.Recognize, Setup.TookRest, Spec.MaxNum, Given, PushBack;
    if |e| < |f| {
      ShorterFirst(if m then s + ["--"] else s, e, if l then t + ["--"] else t, f);
      assert e[..owed] == f[..owed];
      assert f[owed..][|e| - owed..] == f[|e|..];
      StopsThere(setup, o, Given(results, o, pre + e[..owed]), n, e[owed..], m, s, f[owed..], l, t);
    }
  }

  lemma PushBackTop(stack: seq<string>, words: seq<string>)
    requires words != []
    ensures var all := PushBack(stack, words); all != [] && all[|all| - 1] == words[0]
  {
  }

  // A word that an option took beyond its minimum looked like no option and did not exceed
  // the maximum.
  lemma EatsMore(setup: Setup, b: Step, j: nat)
    requires setup.WellFormed() && b.Named? && setup.NamedOk(b) && j < |b.eaten|
    requires setup.Owed(b.opt, setup.OwnOf(b)) <= j
    ensures setup.Recognize(b.eaten[j]).NONE?
    ensures setup.specs[b.opt].allowExtraArgs
         || setup.Collected(b.opt, setup.OwnOf(b), j) < setup.specs[b.opt].MaxNum()
  {
    hide Setup.Recognize, Setup.Answers, SplitWord, Setup.OwnText, Spec.MinNum, Spec.MaxNum, Setup.Padding;
  }

  // What an option word alone decides.
  lemma NamedByWord(setup: Setup, a: Step, b: Step)
    requires setup.WellFormed() && a.Named? && b.Named? && setup.NamedOk(a) && setup.NamedOk(b)
    requires a.word == b.word
    ensures a.opt == b.opt && a.rest == b.rest && setup.OwnOf(a) == setup.OwnOf(b)
    ensures |a.eaten| == |b.eaten| ==> a.post == b.post
  {
    hide Setup.Recognize, Setup.Answers, SplitWord, Setup.OwnText, Spec.MinNum, Spec.MaxNum, Setup.Padding,
      Setup.Collected;
    if a.opt < b.opt {
      assert false;
    } else if b.opt < a.opt {
      assert false;
    }
  }

  // The words above what an option word left, and the `--` that it took, decide the rest.
  lemma NamedByWords(setup: Setup, o: nat, results: seq<seq<string>>, pre: seq<string>, n: int, owed: nat,
        e: seq<string>, m: bool, s: seq<string>, f: seq<string>, l: bool, t: seq<string>)
    requires o < |setup.specs| == |results| && owed <= |e| == |f|
    requires setup.TookRest(o, Given(results, o, pre + e[..owed]), n, e[owed..], m, s)
    requires setup.TookRest(o, Given(results, o, pre + f[..owed]), n, f[owed..], l, t)
    requires PushBack(if m then s + ["--"] else s, e) == PushBack(if l then t + ["--"] else t, f)
    ensures e == f && m == l && s == t
  {
    hide Setup.Recognize, Spec.MaxNum, Given, Setup.CountRemaining, Setup.Stops;
    var a, b := if m then s + ["--"] else s, if l then t + ["--"] else t;
    ShorterFirst(a, e, b, f);
    assert f[|e|..] == [] && f[..|e|] == f;
    assert a == b;
    if m {
      assert s == a[..|a| - 1] && a[|a| - 1] == "--";
    }
    if l {
      assert t == b[..|b| - 1] && b[|b| - 1] == "--";
    }
  }

  lemma LastWord(x: seq<string>, w: string, y: seq<string>, v: string)
    requires x + [w] == y + [v]
    ensures x == y && w == v
  {
    assert |x| == |y|;
    assert (x + [w])[..|x|] == x && (y + [v])[..|y|] == y;
    assert (x + [w])[|x|] == w && (y + [v])[|y|] == v;
  }

  lemma NamedIsDetermined(setup: Setup, results: seq<seq<string>>, a: Step, s: seq<string>, b: Step, t: seq<string>)
    requires setup.WellFormed() && |results| == |setup.specs| && a.Named? && b.Named?
    requires setup.NamedOk(a) && setup.NamedDue(a, results, s) && setup.NamedOk(b) && setup.NamedDue(b, results, t)
    requires Undo(a, s) == Undo(b, t)
    ensures a == b && s == t
  {
    hide Setup.Recognize, Setup.Answers, SplitWord, Setup.OwnText, Setup.TookRest, Setup.Separator, Setup.Padding,
      Spec.MinNum, Spec.MaxNum, Given, PushBack;
    var fa, fb := Free(a, s), Free(b, t);
    LastWord(PushBack(if a.mark then fa + ["--"] else fa, a.eaten), a.word,
             PushBack(if b.mark then fb + ["--"] else fb, b.eaten), b.word);
    NamedByWord(setup, a, b);
    hide Setup.NamedOk, Setup.OwnOf, Setup.WellFormed, Undo;
    var o, own := a.opt, setup.OwnOf(a);
    var owed := setup.Owed(o, own);
    var n := setup.Collected(o, own, owed);
    if |a.eaten| < |b.eaten| {
      EatsMore(setup, b, |a.eaten|);
    } else if |b.eaten| < |a.eaten| {
      EatsMore(setup, a, |b.eaten|);
    }
    NotLonger(setup, o, results, a.pre, n, owed, a.eaten, a.mark, fa, b.eaten, b.mark, fb);
    NotLonger(setup, o, results, a.pre, n, owed, b.eaten, b.mark, fb, a.eaten, a.mark, fa);
    NamedByWords(setup, o, results, a.pre, n, owed, a.eaten, a.mark, fa, b.eaten, b.mark, fb);
    assert a.rest != "" ==> s == fa + ["-" + a.rest] && t == fb + ["-" + a.rest];
  }

  // The steps before a step and the words they left allow for no other step.
  lemma StepIsDetermined(setup: Setup, was: seq<Step>, a: Step, s: seq<string>, b: Step, t: seq<string>)
    requires setup.WellFormed() && setup.StepOk(a) && setup.StepOk(b)
    requires setup.DueStep(a, setup.ResultsAfter(was), was, s) && setup.DueStep(b, setup.ResultsAfter(was), was, t)
    requires Undo(a, s) == Undo(b, t)
    ensures a == b && s == t
  {
    if a.Named? && b.Named? {
      hide Undo, Setup.NamedOk, Setup.NamedDue, Setup.OnlyPositionals, Setup.Dumping;
      NamedIsDetermined(setup, setup.ResultsAfter(was), a, s, b, t);
    } else {
      var x, y := UnderWord(a, s), UnderWord(b, t);
      LastWord(x, a.word, y, b.word);
      hide Undo, Setup.PositionalStep, Setup.NamedDue, Setup.OnlyPositionals, Setup.Dumping, Setup.Answers, SplitWord,
        Setup.ResultsAfter;
      WordKind(setup, a);
      WordKind(setup, b);
    }
  }

  // The stack before a step without the step's word.
  function UnderWord(step: Step, stack: seq<string>): (r: seq<string>)
    ensures Undo(step, stack) == r + [step.word]
    ensures !step.Named? ==> r == stack
  {
    if step.Named? then
      PushBack(if step.mark then Free(step, stack) + ["--"] else Free(step, stack), step.eaten)
    else stack
  }

  // A step that does not treat its word as positional is of the word's own kind.
  lemma WordKind(setup: Setup, step: Step)
    requires setup.WellFormed() && setup.StepOk(step)
    ensures !AsPositional(step) ==> !setup.Recognize(step.word).NONE?
    ensures !AsPositional(step) && step.Unused? ==> step.kind == setup.Recognize(step.word)
    ensures step.Named? ==> !setup.Recognize(step.word).POSITIONAL_MARK?
  {
  }

  // Part of a run is a run.
  lemma {:induction false} DuePrefix(setup: Setup, steps: seq<Step>, stack: seq<string>, k: nat)
    requires setup.WellFormed() && setup.Due(steps, stack) && k <= |steps|
    ensures setup.Due(steps[..k], UndoAll(steps[k..], stack))
    ensures UndoAll(steps[..k], UndoAll(steps[k..], stack)) == UndoAll(steps, stack)
  {
    hide Undo, Setup.DueStep, Setup.StepOk;
    if k == |steps| {
      assert steps[..k] == steps && steps[k..] == [];
    } else {
      var was, last := steps[..|steps| - 1], steps[|steps| - 1];
      DuePrefix(setup, was, Undo(last, stack), k);
      assert steps[k..][..|steps| - k - 1] == was[k..] && was[..k] == steps[..k];
    }
  }

  // Runs of equally many steps from the same command line are the same.
  lemma {:induction false} RunIsDetermined(setup: Setup, a: seq<Step>, s: seq<string>, b: seq<Step>, t: seq<string>)
    requires setup.WellFormed() && setup.Due(a, s) && setup.Due(b, t) && |a| == |b|
    requires UndoAll(a, s) == UndoAll(b, t)
    ensures a == b && s == t
  {
    hide Undo, Setup.DueStep, Setup.StepOk;
    if a != [] {
      var k := |a| - 1;
      RunIsDetermined(setup, a[..k], Undo(a[k], s), b[..k], Undo(b[k], t));
      StepIsDetermined(setup, a[..k], a[k], s, b[k], t);
      assert a == a[..k] + [a[k]] && b == b[..k] + [b[k]];
    }
  }

  // The longer of two runs goes on where the shorter one ends.
  lemma LongerRun(setup: Setup, a: seq<Step>, s: seq<string>, b: seq<Step>, t: seq<string>)
    requires setup.WellFormed() && setup.Due(a, s) && setup.Due(b, t) && |a| <= |b|
    requires UndoAll(a, s) == UndoAll(b, t)
    ensures b[..|a|] == a && UndoAll(b[|a|..], t) == s
  {
    hide UndoAll, Setup.Due;
    DuePrefix(setup, b, t, |a|);
    RunIsDetermined(setup, a, s, b[..|a|], UndoAll(b[|a|..], t));
  }

  // A step is only ever due for a word that can be dealt with.
  lemma DueProceeds(setup: Setup, was: seq<Step>, step: Step, stack: seq<string>)
    requires setup.WellFormed() && setup.StepOk(step) && !setup.Dumping(was)
    requires setup.DueStep(step, setup.ResultsAfter(was), was, stack)
    ensures Undo(step, stack) != []
    ensures setup.Proceeds(setup.ResultsAfter(was), Undo(step, stack), setup.OnlyPositionals(was))
  {
    var before, under := Undo(step, stack), UnderWord(step, stack);
    assert before[|before| - 1] == step.word && before[..|before| - 1] == under;
    WordKind(setup, step);
    if step.Named? {
      hide Undo, Setup.Recognize;
      NamedProceeds(setup, setup.ResultsAfter(was), step, stack);
    } else if !AsPositional(step) && !step.kind.POSITIONAL_MARK? {
      hide Undo, Setup.Recognize, Setup.Answers, SplitWord;
    }
  }

  lemma NamedProceeds(setup: Setup, results: seq<seq<string>>, step: Step, stack: seq<string>)
    requires setup.WellFormed() && |results| == |setup.specs| && step.Named?
    requires setup.NamedOk(step) && setup.NamedDue(step, results, stack)
    ensures setup.ArgProceeds(step.word, results, UnderWord(step, stack))
  {
    hide Setup.Recognize, Setup.Answers, SplitWord, Setup.OwnText, Setup.Padding, Spec.MinNum, Spec.MaxNum, Given,
      PushBack, Setup.CountRemaining;
    var o, own := step.opt, setup.OwnOf(step);
    var parts := SplitWord(step.word, setup.Recognize(step.word));
    assert setup.FirstAnswering(parts.name, setup.Recognize(step.word), 0) == o;
    PushBackLength(if step.mark then Free(step, stack) + ["--"] else Free(step, stack), step.eaten);
    if setup.NeedsDefault(o, setup.Collected(o, own, 0), Given(results, o, step.pre), UnderWord(step, stack)) {
      NothingTaken(setup, results, step, stack);
    }
  }

  // An option whose default is asked for took no words.
  lemma NothingTaken(setup: Setup, results: seq<seq<string>>, step: Step, stack: seq<string>)
    requires setup.WellFormed() && step.Named? && step.opt < |setup.specs| == |results|
    requires setup.NamedOk(step) && setup.NamedDue(step, results, stack)
    requires setup.NeedsDefault(step.opt, setup.Collected(step.opt, setup.OwnOf(step), 0),
                                Given(results, step.opt, step.pre), UnderWord(step, stack))
    ensures step.eaten == []
  {
    hide Setup.NamedOk, Setup.Recognize, Setup.OwnOf, Spec.MinNum, Spec.MaxNum, Given, PushBack, Setup.CountRemaining,
      Setup.Separator;
    if step.eaten != [] {
      assert setup.Owed(step.opt, setup.OwnOf(step)) == 0;
      assert step.pre + step.eaten[..0] == step.pre && step.eaten[0..] == step.eaten;
      EatsMore(setup, step, 0);
      var below := if step.mark then Free(step, stack) + ["--"] else Free(step, stack);
      PushBackLength(below, step.eaten);
      PushBackTop(below, step.eaten);
    }
  }

  // Whether a parse ends in an exception is settled by the command line: a run that gets stuck
  // and one that uses it up do not go together.
  lemma OutcomeIsDetermined(setup: Setup, a: seq<Step>, left: seq<string>, b: seq<Step>)
    requires setup.WellFormed() && setup.Due(a, left) && setup.Due(b, [])
    requires UndoAll(a, left) == UndoAll(b, [])
    ensures !setup.Stuck(a, left)
  {
    hide Setup.Due, Setup.Proceeds, Setup.Dumping, Setup.OnlyPositionals, Setup.StepOk, Setup.DueStep, Undo, UndoAll;
    if setup.Stuck(a, left) {
      if |b| < |a| {
        LongerRun(setup, b, [], a, left);
        UndoAllNonEmpty(a[|b|..], left);
        assert false;
      } else {
        LongerRun(setup, a, left, b, []);
        NextStep(setup, a, left, b);
      }
    }
  }

  lemma NextStep(setup: Setup, a: seq<Step>, left: seq<string>, b: seq<Step>)
    requires setup.WellFormed() && setup.Due(b, []) && |a| <= |b| && b[..|a|] == a && UndoAll(b[|a|..], []) == left
    requires left != [] && !setup.Dumping(a)
    ensures setup.Proceeds(setup.ResultsAfter(a), left, setup.OnlyPositionals(a))
  {
    hide Setup.Proceeds, Setup.Dumping, Setup.OnlyPositionals, Setup.StepOk, Setup.DueStep, Undo;
    var k := |a|;
    assert b[|b|..] == [];
    assert k < |b|;
    var after := UndoAll(b[k + 1..], []);
    DuePrefix(setup, b, [], k + 1);
    assert b[..k + 1][..k] == a && b[..k + 1][k] == b[k];
    UndoFirst(b[k..], []);
    assert b[k..][1..] == b[k + 1..] && b[k..][0] == b[k];
    DueProceeds(setup, a, b[k], after);
  }

  lemma {:induction false} UndoFirst(steps: seq<Step>, stack: seq<string>)
    requires steps != []
    ensures UndoAll(steps, stack) == Undo(steps[0], UndoAll(steps[1..], stack))
  {
    hide Undo;
    if |steps| == 1 {
      assert steps[..0] == [] && steps[1..] == [];
    } else {
      var was, last := steps[..|steps| - 1], steps[|steps| - 1];
      UndoFirst(was, Undo(last, stack));
      assert steps[1..][..|steps| - 2] == was[1..];
    }
  }

  // With windows-style words, `/a` answers to an option `-a` and to an option `--a`.
  lemma SlashAnswersBoth(setup: Setup, o: nat, p: nat)
    requires setup.windowsStyle && o < |setup.specs| && p < |setup.specs|
    requires setup.specs[o].names == OptionNames.Names(["a"], [], false, false)
    requires setup.specs[p].names == OptionNames.Names([], ["a"], false, false)
    ensures setup.Recognize("/a") == WINDOWS_STYLE && SplitWord("/a", WINDOWS_STYLE).name == "a"
    ensures setup.Answers(o, "a", WINDOWS_STYLE) && setup.Answers(p, "a", WINDOWS_STYLE)
  {
    var w := "/a";
    assert w[0] == '/' && w[1] == 'a' && w[1..] == "a";
    OptionNames.CrossedExample();
  }

  // The results after giving an option some more.
  function Given(results: seq<seq<string>>, o: nat, more: seq<string>): (r: seq<seq<string>>)
    requires o < |results|
    ensures |r| == |results|
  {
    results[o := results[o] + more]
  }

  lemma GivenNothing(results: seq<seq<string>>, o: nat)
    requires o < |results|
    ensures Given(results, o, []) == results
  {
    assert results[o] + [] == results[o];
  }

  // The results after a step.
  function Give(results: seq<seq<string>>, step: Step): seq<seq<string>>
    requires step.Unused? || step.opt < |results|
  {
    match step
    case Unused(_, _) => results
    case Positional(opt, word) => Given(results, opt, [word])
    case Named(opt, _, _, pre, eaten, _, post) => Given(results, opt, pre + eaten + post)
  }

  lemma GiveIsPointwise(results: seq<seq<string>>, step: Step)
    requires step.Unused? || step.opt < |results|
    ensures |Give(results, step)| == |results|
    ensures forall o | 0 <= o < |results| :: Give(results, step)[o] == results[o] + StepResults(step, o)
  {
    forall o | 0 <= o < |results|
      ensures Give(results, step)[o] == results[o] + StepResults(step, o)
    {
      assert results[o] + [] == results[o];
    }
  }

  lemma GivenMore(results: seq<seq<string>>, o: nat, a: seq<string>, b: seq<string>)
    requires o < |results|
    ensures Given(Given(results, o, a), o, b) == Given(results, o, a + b)
  {
    assert results[o] + a + b == results[o] + (a + b);
  }

  class App {
    const setup: Setup
    var args: seq<string>                          // the next word is the last
    var results: seq<seq<string>>                  // of each option
    var missing: seq<(Classifier, string)>
    ghost var start: seq<string>
    ghost var steps: seq<Step>

    constructor (setup: Setup, args: seq<string>)
      requires setup.WellFormed()
      ensures this.setup == setup && this.args == args && start == args && steps == []
      ensures results == seq(|setup.specs|, _ => []) && missing == []
      ensures Valid()
    {
      this.setup, this.args := setup, args;
      results, missing := seq(|setup.specs|, _ => []), [];
      start, steps := args, [];
    }

    // What was done so far, undone, gives the command line back; results and missing words
    // are exactly what the steps gave out.
    ghost predicate Valid()
      reads this
    {
      && setup.WellFormed() && |results| == |setup.specs|
      && UndoAll(steps, args) == start
      && (forall o | 0 <= o < |results| :: results[o] == ResultsOf(steps, o))
      && missing == UnusedOf(steps)
      && (forall i | 0 <= i < |steps| :: setup.StepOk(steps[i]))
      && (steps != [] && args == [] ==> Whole(steps[|steps| - 1]))
      && setup.InOrder(steps)
      && setup.Due(steps, args)
    }

    method AddResult(o: nat, s: string)
      requires o < |results|
      modifies this`results
      ensures results == Given(old(results), o, [s])
    {
      results := results[o := results[o] + [s]];
    }

    method Pop() returns (w: string)
      requires args != []
      modifies this`args
      ensures old(args) == args + [w]
    {
      w := args[|args| - 1];
      args := args[..|args| - 1];
    }

    method FindOption(name: string, kind: Classifier) returns (o: nat)
      ensures o == setup.FirstAnswering(name, kind, 0)
    {
      o := 0;
      while o < |setup.specs| && !setup.Answers(o, name, kind)
        invariant o <= |setup.specs|
        invariant forall k | 0 <= k < o :: !setup.Answers(k, name, kind)
      {
        o := o + 1;
      }
    }

    // Gathers words until the minimum is met or none are left.
    method EatRequired(o: nat, minNum: int, have: int) returns (collected: int, ghost eaten: seq<string>)
      requires o < |results|
      modifies this`args, this`results
      ensures PushBack(args, eaten) == old(args)
      ensures results == Given(old(results), o, eaten)
      ensures collected == have + |eaten|
      ensures collected >= minNum <==> minNum - have <= |old(args)|
      ensures collected >= minNum || args == []
      ensures eaten == [] || collected <= minNum
      ensures minNum <= have ==> eaten == [] && args == old(args) && results == old(results)
    {
      collected, eaten := have, [];
      GivenNothing(results, o);
      while minNum > collected && args != []
        invariant PushBack(args, eaten) == old(args)
        invariant results == Given(old(results), o, eaten)
        invariant collected == have + |eaten| && |args| + |eaten| == |old(args)|
        invariant eaten == [] || collected <= minNum
        invariant minNum <= have ==> eaten == [] && args == old(args) && results == old(results)
        decreases |args|
      {
        var w := Pop();
        AddResult(o, w);
        PushBackSnoc(args, eaten, w);
        GivenMore(old(results), o, eaten, [w]);
        eaten := eaten + [w];
        collected := collected + 1;
      }
    }

    // Gathers words that look like no option, up to the maximum and leaving enough for the
    // required positionals.
    method EatOptional(o: nat, maxNum: int, have: int, reserved: int) returns (collected: int, ghost eaten: seq<string>)
      requires o < |results| && o < |setup.specs|
      modifies this`args, this`results
      ensures PushBack(args, eaten) == old(args)
      ensures results == Given(old(results), o, eaten)
      ensures collected == have + |eaten|
      ensures forall j | 0 <= j < |eaten| :: setup.Recognize(eaten[j]).NONE?
      ensures setup.specs[o].allowExtraArgs || eaten == [] || collected <= maxNum
      ensures || (collected >= maxNum && !setup.specs[o].allowExtraArgs) || args == []
              || !setup.Recognize(args[|args| - 1]).NONE? || reserved >= |args|
      ensures eaten != [] ==> reserved <= |args|
      ensures maxNum == setup.specs[o].MaxNum() ==> (eaten == [] <==> setup.Stops(o, have, old(args), reserved))
    {
      collected, eaten := have, [];
      GivenNothing(results, o);
      while (collected < maxNum || setup.specs[o].allowExtraArgs) && args != []
            && setup.Recognize(args[|args| - 1]).NONE?
        invariant PushBack(args, eaten) == old(args)
        invariant results == Given(old(results), o, eaten)
        invariant collected == have + |eaten|
        invariant forall j | 0 <= j < |eaten| :: setup.Recognize(eaten[j]).NONE?
        invariant setup.specs[o].allowExtraArgs || eaten == [] || collected <= maxNum
        invariant eaten != [] ==> reserved <= |args|
        invariant eaten == [] ==> args == old(args)
        invariant eaten != [] ==>
          && (have < maxNum || setup.specs[o].allowExtraArgs) && old(args) != []
          && setup.Recognize(old(args)[|old(args)| - 1]).NONE? && reserved < |old(args)|
        decreases |args|
      {
        if reserved >= |args| {
          break;
        }
        AddResult(o, args[|args| - 1]);
        var w := Pop();
        PushBackSnoc(args, eaten, w);
        GivenMore(old(results), o, eaten, [w]);
        eaten := eaten + [w];
        collected := collected + 1;
      }
    }

    // The tail of _parse_arg once the option's minimum is met: optional words, a `--` that
    // ends them, and the default of an optional value that got none.
    method EatRest(o: nat, name: string, minNum: int, maxNum: int, have: int)
      returns (ok: bool, collected: int, ghost eaten: seq<string>, ghost mark: bool, ghost extra: seq<string>)
      requires o < |results| == |setup.specs|
      requires have >= 0 && maxNum == setup.specs[o].MaxNum()
      modifies this`args, this`results
      ensures ok ==> PushBack(if mark then args + ["--"] else args, eaten) == old(args)
      ensures ok ==> results == Given(old(results), o, eaten + extra)
      ensures collected == have + |eaten|
      ensures forall j | 0 <= j < |eaten| :: setup.Recognize(eaten[j]).NONE?
      ensures setup.specs[o].allowExtraArgs || eaten == [] || collected <= maxNum
      ensures ok ==> setup.TookRest(o, old(results), have, eaten, mark, args)
      ensures minNum == setup.specs[o].MinNum() ==>
        (ok <==> (setup.NeedsDefault(o, have, old(results), old(args)) ==> setup.flagValue(o, name, "").Some?))
      ensures ok ==> if minNum == 0 && maxNum > 0 && collected == 0
                     then setup.flagValue(o, name, "").Some? && extra == [setup.flagValue(o, name, "").value]
                     else extra == []
    {
      collected, eaten, mark, extra := have, [], false, [];
      ok := true;
      GivenNothing(results, o);
      if maxNum > collected || setup.specs[o].allowExtraArgs {
        var reserved := setup.CountRemaining(results, |results|);
        collected, eaten := EatOptional(o, maxNum, have, reserved);
        if args != [] && setup.Recognize(args[|args| - 1]).POSITIONAL_MARK? {
          var _ := Pop();
          mark := true;
        }
        if minNum == 0 && maxNum > 0 && collected == 0 {
          match setup.flagValue(o, name, "") {
            case None => ok := false;
            case Some(v) =>
              AddResult(o, v);
              GivenMore(old(results), o, eaten, [v]);
              extra := [v];
          }
        }
      }
      assert extra == [] ==> eaten + extra == eaten;
    }

    // What every turn of the loop keeps, given what it took and gave.
    lemma StepDone(was: seq<Step>, step: Step, args0: seq<string>, results0: seq<seq<string>>,
          missing0: seq<(Classifier, string)>)
      requires setup.WellFormed() && |results0| == |setup.specs|
      requires step.Unused? || step.opt < |results0|
      requires UndoAll(was, args0) == start && Undo(step, args) == args0
      requires forall o | 0 <= o < |results0| :: results0[o] == ResultsOf(was, o)
      requires results == Give(results0, step)
      requires missing0 == UnusedOf(was) && missing == missing0 + StepUnused(step)
      requires forall i | 0 <= i < |was| :: setup.StepOk(was[i])
      requires setup.StepOk(step) && (args == [] ==> Whole(step))
      requires setup.InOrder(was)
      requires setup.Due(was, args0) && setup.DueStep(step, results0, was, args)
      requires AsPositional(step) ==> setup.Recognize(step.word).NONE? || setup.Freed(was)
      requires AsPositional(step) || !MarkSeen(was)
      requires steps == was + [step]
      ensures Valid()
      ensures setup.Freed(steps) <==> setup.Freed(was) || setup.Frees(step)
      ensures MarkSeen(steps) <==> MarkSeen(was) || IsMark(step)
      ensures setup.OnlyPositionals(steps) <==> setup.OnlyPositionals(was) || setup.Closes(step)
      ensures setup.Dumping(steps)
         <==> setup.Dumping(was) || (setup.prefixCommand && step.Unused? && step.kind.NONE?)
    {
      hide Setup.InOrder, Setup.Freed, Setup.StepOk, Setup.Due, Setup.DueStep, MarkSeen, Give, StepResults,
        StepUnused, ResultsOf, UnusedOf, UndoAll, Undo;
      OneMoreStep(was, step, args);
      setup.DueSnoc(was, step, results0, args);
      setup.InOrderSnoc(was, step);
      setup.ClosesSnoc(was, step);
      setup.DumpingSnoc(was, step);
      GiveIsPointwise(results0, step);
    }

    method MoveToMissing(kind: Classifier, word: string)
      modifies this`missing
      ensures missing == old(missing) + [(kind, word)]
    {
      missing := missing + [(kind, word)];
    }

    // The whole of _parse_arg; false stands for an exception.
    method ParseArg(kind: Classifier) returns (ok: bool)
      requires Valid() && args != [] && setup.Recognize(args[|args| - 1]) == kind
      requires (kind.LONG? || kind.SHORT? || kind.WINDOWS_STYLE?) && !MarkSeen(steps)
      requires !setup.OnlyPositionals(steps) && !setup.Dumping(steps)
      modifies this
      ensures start == old(start)
      ensures ok <==> old(setup.ArgProceeds(args[|args| - 1], results, args[..|args| - 1]))
      ensures ok ==> !setup.OnlyPositionals(steps) && !setup.Dumping(steps)
      ensures ok ==> Valid() && Size(args) < Size(old(args))
      ensures ok ==> |steps| == |old(steps)| + 1 && old(steps) < steps
      ensures ok ==> !AsPositional(steps[|old(steps)|]) && steps[|old(steps)|].word == old(args)[|old(args)| - 1]
      ensures ok ==> !MarkSeen(steps) && setup.Freed(steps) == old(setup.Freed(steps))
    {
      hide Setup.InOrder, Setup.Freed, Setup.NamedOk, Setup.NamedDue, Setup.Due, Setup.Answers, Setup.Recognize,
        Setup.WellFormed, Setup.OnlyPositionals, Setup.Dumping, Setup.Manages, MarkSeen, SplitWord, Size, UndoAll,
        ResultsOf, UnusedOf, PushBack, Given;
      ghost var was, args0, results0, missing0 := steps, args, results, missing;
      var current := Pop();
      SizeSnoc(args, current);
      var parts := SplitWord(current, kind);
      var o := FindOption(parts.name, kind);
      if o == |setup.specs| {
        MoveToMissing(kind, current);
        steps := steps + [Unused(kind, current)];
        StepDone(was, Unused(kind, current), args0, results0, missing0);
        return true;
      }
      ghost var step;
      ok, step := TakeOption(o, kind, current, parts);
      if ok {
        steps := steps + [step];
        StepDone(was, step, args0, results0, missing0);
      }
    }

    // A separator when asked for, then the text that the word itself brings.
    method GiveOwn(o: nat, parts: Parts) returns (ok: bool, rest: string, collected: int, ghost pre: seq<string>)
      requires o < |results| == |setup.specs| && (parts.value != "" ==> parts.rest == "")
      modifies this`results
      ensures |results| == |old(results)|
      ensures ok <==> setup.OwnText(o, parts).Some?
      ensures ok ==> pre == setup.Separator(o, old(results)[o]) + setup.OwnText(o, parts).value
      ensures ok ==> results == Given(old(results), o, pre)
      ensures ok ==> rest == if setup.specs[o].MaxNum() == 0 then parts.rest else ""
      ensures ok ==> collected == setup.Collected(o, setup.OwnText(o, parts).value, 0)
    {
      ok, rest, collected, pre := true, parts.rest, 0, [];
      GivenNothing(results, o);
      if setup.specs[o].injectSeparator && results[o] != [] && results[o][|results[o]| - 1] != "" {
        AddResult(o, "");
        pre := [""];
      }
      ghost var separator := pre;
      ghost var own: seq<string> := [];
      if setup.specs[o].MaxNum() == 0 {
        match setup.flagValue(o, parts.name, parts.value) {
          case None => return false, rest, collected, pre;
          case Some(v) =>
            AddResult(o, v);
            own := [v];
        }
      } else if parts.value != "" {
        AddResult(o, parts.value);
        own, collected := [parts.value], 1;
      } else if rest != "" {
        AddResult(o, rest);
        own, collected := [rest], 1;
        rest := "";
      }
      GivenMore(old(results), o, separator, own);
      GivenNothing(Given(old(results), o, separator), o);
      pre := separator + own;
    }

    // All the words that an option takes along.
    method Eat(o: nat, name: string, have: int)
      returns (ok: bool, reached: int, ghost e1: seq<string>, ghost e2: seq<string>, ghost mark: bool,
            ghost extra: seq<string>)
      requires o < |results| == |setup.specs| && have >= 0
      modifies this`args, this`results
      ensures ok <==>
        && setup.specs[o].MinNum() - have <= |old(args)|
        && (setup.NeedsDefault(o, have, old(results), old(args)) ==> setup.flagValue(o, name, "").Some?)
      ensures ok ==> PushBack(if mark then args + ["--"] else args, e1 + e2) == old(args)
      ensures ok ==> results == Given(old(results), o, e1 + e2 + extra)
      ensures ok ==> reached == have + |e1| + |e2|
      ensures ok ==> have + |e1| >= setup.specs[o].MinNum()
      ensures ok ==> e1 == [] || have + |e1| <= setup.specs[o].MinNum()
      ensures ok ==> forall j | 0 <= j < |e2| :: setup.Recognize(e2[j]).NONE?
      ensures ok ==> setup.specs[o].allowExtraArgs || e2 == [] || reached <= setup.specs[o].MaxNum()
      ensures ok ==> setup.TookRest(o, Given(old(results), o, e1), have + |e1|, e2, mark, args)
      ensures ok ==> if setup.specs[o].MinNum() == 0 && setup.specs[o].MaxNum() > 0 && reached == 0
                     then setup.flagValue(o, name, "").Some? && extra == [setup.flagValue(o, name, "").value]
                     else extra == []
    {
      hide Given, PushBack, Setup.Recognize, Spec.MinNum, Spec.MaxNum;
      e2, mark, extra := [], false, [];
      reached, e1 := EatRequired(o, setup.specs[o].MinNum(), have);
      if setup.specs[o].MinNum() > reached {
        return false, reached, e1, e2, mark, extra;
      }
      ok, reached, e2, mark, extra := EatRest(o, name, setup.specs[o].MinNum(), setup.specs[o].MaxNum(), reached);
      PushBackConcat(if mark then args + ["--"] else args, e1, e2);
      GivenMore(old(results), o, e1, e2 + extra);
      assert e1 + (e2 + extra) == e1 + e2 + extra;
    }

    method TakeOption(o: nat, kind: Classifier, current: string, parts: Parts) returns (ok: bool, ghost step: Step)
      requires setup.WellFormed() && o < |results| == |setup.specs|
      requires setup.Recognize(current) == kind && (kind.LONG? || kind.SHORT? || kind.WINDOWS_STYLE?)
      requires parts == SplitWord(current, kind)
      requires setup.Answers(o, parts.name, kind) && forall k | 0 <= k < o :: !setup.Answers(k, parts.name, kind)
      modifies this`args, this`results
      ensures ok <==> setup.Manages(o, parts, old(results), old(args))
      ensures ok ==> step.Named? && step.opt == o && step.word == current
      ensures ok ==> setup.NamedOk(step) && setup.NamedDue(step, old(results), args)
      ensures ok ==> Undo(step, args) == old(args) + [current]
      ensures ok ==> args == [] ==> Whole(step)
      ensures ok ==> results == Given(old(results), o, step.pre + step.eaten + step.post)
      ensures ok ==> Size(args) < Size(old(args)) + |current| + 1
    {
      hide Given, PushBack, Size, SplitWord, Setup.NamedOk, Setup.Answers, Setup.Recognize, Setup.OwnText,
        Setup.Collected, Spec.MinNum, Spec.MaxNum, Setup.WellFormed, Setup.Padding;
      step := Unused(NONE, "");
      PartsOf(current, kind);
      var rest, collected, reached;
      ghost var pre, e1, e2, mark, extra;
      ok, rest, collected, pre := GiveOwn(o, parts);
      if !ok { return; }
      ok, reached, e1, e2, mark, extra := Eat(o, parts.name, collected);
      if !ok { return; }
      var padding := Pad(o, reached);
      ghost var below, free := if mark then args + ["--"] else args, args;
      if rest != "" {
        args := args + ["-" + rest];
      }
      step := Named(o, current, rest, pre, e1 + e2, mark, extra + padding);
      NamedStepOk(step, parts, kind, collected, e1, e2, extra, reached);
      GivenMore(old(results), o, pre, e1);
      NamedStepDue(step, setup.OwnText(o, parts).value, collected, e1, e2, old(results), args, free);
      GivenInTurn(old(results), o, pre, e1 + e2 + extra, padding);
      Reassociate(pre, e1 + e2, extra, padding);
      SizeTaken(free, below, e1 + e2, old(args), current, rest, args);
    }

    // An empty string when a type was only partially completed.
    method Pad(o: nat, collected: int) returns (padding: seq<string>)
      requires setup.WellFormed() && o < |results| == |setup.specs|
      modifies this`results
      ensures padding == setup.Padding(o, collected)
      ensures results == Given(old(results), o, padding)
    {
      padding := setup.Padding(o, collected);
      GivenNothing(results, o);
      if padding != [] {
        AddResult(o, "");
      }
    }

    lemma Reassociate(a: seq<string>, b: seq<string>, c: seq<string>, d: seq<string>)
      ensures a + (b + c) + d == a + b + (c + d)
    {
    }

    lemma GivenInTurn(r: seq<seq<string>>, o: nat, a: seq<string>, b: seq<string>, c: seq<string>)
      requires o < |r|
      ensures Given(Given(Given(r, o, a), o, b), o, c) == Given(r, o, a + b + c)
    {
      GivenMore(r, o, a, b);
      GivenMore(r, o, a + b, c);
    }

    lemma NamedStepOk(step: Step, parts: Parts, kind: Classifier, have: int, e1: seq<string>, e2: seq<string>,
          extra: seq<string>, reached: int)
      requires setup.WellFormed() && step.Named? && step.opt < |setup.specs|
      requires setup.Recognize(step.word) == kind && (kind.LONG? || kind.SHORT? || kind.WINDOWS_STYLE?)
      requires parts == SplitWord(step.word, kind)
      requires setup.Answers(step.opt, parts.name, kind)
      requires forall k | 0 <= k < step.opt :: !setup.Answers(k, parts.name, kind)
      requires setup.OwnText(step.opt, parts).Some?
      requires step.rest == if setup.specs[step.opt].MaxNum() == 0 then parts.rest else ""
      requires have == setup.Collected(step.opt, setup.OwnText(step.opt, parts).value, 0)
      requires step.eaten == e1 + e2 && reached == have + |e1| + |e2|
      requires have + |e1| >= setup.specs[step.opt].MinNum()
      requires e1 == [] || have + |e1| <= setup.specs[step.opt].MinNum()
      requires forall j | 0 <= j < |e2| :: setup.Recognize(e2[j]).NONE?
      requires setup.specs[step.opt].allowExtraArgs || e2 == [] || reached <= setup.specs[step.opt].MaxNum()
      requires setup.specs[step.opt].MaxNum() == 0 && !setup.specs[step.opt].allowExtraArgs ==> e2 == [] && !step.mark
      requires if setup.specs[step.opt].MinNum() == 0 && setup.specs[step.opt].MaxNum() > 0 && reached == 0
               then setup.flagValue(step.opt, parts.name, "").Some?
                    && extra == [setup.flagValue(step.opt, parts.name, "").value]
               else extra == []
      requires step.post == extra + setup.Padding(step.opt, reached)
      ensures setup.NamedOk(step)
    {
      hide Setup.Answers, Setup.Recognize, SplitWord, Spec.MinNum, Spec.MaxNum, Setup.Padding;
      MaxNumNonNegative(setup.specs[step.opt]);
      var own := setup.OwnText(step.opt, parts).value;
      forall j | 0 <= j < |step.eaten| && setup.Collected(step.opt, own, j) >= setup.specs[step.opt].MinNum()
        ensures setup.Recognize(step.eaten[j]).NONE?
      {
        assert j >= |e1|;
        assert step.eaten[j] == e2[j - |e1|];
      }
    }

    lemma NamedStepDue(step: Step, own: seq<string>, have: int, e1: seq<string>, e2: seq<string>,
          results0: seq<seq<string>>, stack: seq<string>, free: seq<string>)
      requires setup.WellFormed() && step.Named? && step.opt < |setup.specs| == |results0| && setup.NamedOk(step)
      requires own == setup.OwnOf(step) && have == setup.Collected(step.opt, own, 0)
      requires step.pre == setup.Separator(step.opt, results0[step.opt]) + own
      requires step.eaten == e1 + e2
      requires have + |e1| >= setup.specs[step.opt].MinNum()
      requires e1 == [] || have + |e1| <= setup.specs[step.opt].MinNum()
      requires stack == if step.rest != "" then free + ["-" + step.rest] else free
      requires setup.TookRest(step.opt, Given(results0, step.opt, step.pre + e1), have + |e1|, e2, step.mark, free)
      ensures setup.NamedDue(step, results0, stack)
    {
      hide Setup.NamedOk, Setup.OwnOf, Spec.MinNum, Setup.TookRest, Given,
        Setup.Separator, Setup.WellFormed;
      assert setup.Owed(step.opt, own) == |e1| && setup.Collected(step.opt, own, |e1|) == have + |e1|;
      hide Setup.Collected, Setup.Owed;
      assert step.eaten[..|e1|] == e1 && step.eaten[|e1|..] == e2;
      assert (if step.rest != "" then stack[..|stack| - 1] else stack) == free;
    }

    // One word for a positional: it leaves the stack as that option's next result.
    method GivePositional(o: nat)
      requires Valid() && args != [] && o < |results| && setup.specs[o].positional
      requires setup.PositionalStep(results, |args|, args[|args| - 1]) == Some(Positional(o, args[|args| - 1]))
      requires (setup.Recognize(args[|args| - 1]).NONE? || setup.OnlyPositionals(steps)) && !setup.Dumping(steps)
      modifies this
      ensures Valid() && start == old(start) && !setup.Dumping(steps)
      ensures setup.Freed(steps) <==> old(setup.Freed(steps)) || setup.positionalsAtEnd
      ensures MarkSeen(steps) <==> old(MarkSeen(steps))
      ensures setup.OnlyPositionals(steps) <==> old(setup.OnlyPositionals(steps)) || setup.positionalsAtEnd
      ensures steps == old(steps) + [Positional(o, old(args)[|old(args)| - 1])]
      ensures Size(args) < Size(old(args))
    {
      hide Setup.PositionalStep, Setup.Due, Setup.Recognize, Setup.WellFormed, Setup.InOrder, Setup.Freed,
        Size, UndoAll, ResultsOf, UnusedOf, MarkSeen;
      ghost var was, args0, results0, missing0 := steps, args, results, missing;
      setup.ClosingFrees(steps);
      AddResult(o, args[|args| - 1]);
      var w := Pop();
      SizeSnoc(args, w);
      steps := steps + [Positional(o, w)];
      StepDone(was, Positional(o, w), args0, results0, missing0);
    }

    // One word without use.
    method Dismiss(kind: Classifier)
      requires Valid() && args != []
      requires kind.NONE? ==>
        setup.Dumping(steps)
        || ((setup.Recognize(args[|args| - 1]).NONE? || setup.OnlyPositionals(steps))
            && setup.PositionalStep(results, |args|, args[|args| - 1]) == Some(Unused(NONE, args[|args| - 1])))
      requires !kind.NONE? ==>
        && kind.POSITIONAL_MARK? && args[|args| - 1] == "--"
        && !setup.OnlyPositionals(steps) && !setup.Dumping(steps)
      modifies this
      ensures Valid() && start == old(start) && results == old(results)
      ensures setup.Freed(steps) <==> old(setup.Freed(steps)) || kind.POSITIONAL_MARK? || setup.prefixCommand
      ensures MarkSeen(steps) <==> old(MarkSeen(steps)) || kind.POSITIONAL_MARK?
      ensures setup.OnlyPositionals(steps) <==> old(setup.OnlyPositionals(steps)) || kind.POSITIONAL_MARK?
      ensures setup.Dumping(steps) <==> old(setup.Dumping(steps)) || (kind.NONE? && setup.prefixCommand)
      ensures steps == old(steps) + [Unused(kind, old(args)[|old(args)| - 1])]
      ensures Size(args) < Size(old(args))
    {
      hide Setup.PositionalStep, Setup.Due, Setup.Recognize, Setup.WellFormed, Setup.InOrder, Setup.Freed,
        Size, UndoAll, ResultsOf, UnusedOf, MarkSeen;
      ghost var was, args0, results0, missing0 := steps, args, results, missing;
      setup.ClosingFrees(steps);
      setup.DumpingFrees(steps);
      MoveToMissing(kind, args[|args| - 1]);
      var w := Pop();
      SizeSnoc(args, w);
      steps := steps + [Unused(kind, w)];
      StepDone(was, Unused(kind, w), args0, results0, missing0);
    }

    // All the words after a prefix command.
    method DismissAll()
      requires Valid() && setup.Dumping(steps)
      modifies this
      ensures Valid() && start == old(start) && args == [] && old(steps) <= steps
      ensures Size(args) <= Size(old(args))
      ensures old(setup.Freed(steps)) ==> setup.Freed(steps)
      ensures MarkSeen(steps) <==> old(MarkSeen(steps))
      ensures setup.OnlyPositionals(steps) <==> old(setup.OnlyPositionals(steps))
    {
      hide Size, MarkSeen, Setup.Freed, Setup.OnlyPositionals, Setup.Dumping, Setup.PositionalStep, Setup.Recognize,
        Valid;
      while args != []
        invariant Valid() && start == old(start) && setup.Dumping(steps) && old(steps) <= steps
        invariant Size(args) <= Size(old(args))
        invariant old(setup.Freed(steps)) ==> setup.Freed(steps)
        invariant MarkSeen(steps) <==> old(MarkSeen(steps))
        invariant setup.OnlyPositionals(steps) <==> old(setup.OnlyPositionals(steps))
        decreases Size(args)
      {
        Dismiss(NONE);
      }
    }

    // The whole of _parse_positional; false stands for the exception.
    method ParsePositional() returns (ok: bool)
      requires Valid() && args != []
      requires (setup.Recognize(args[|args| - 1]).NONE? || setup.OnlyPositionals(steps)) && !setup.Dumping(steps)
      modifies this
      ensures Valid() && start == old(start)
      ensures args == [] || !setup.Dumping(steps)
      ensures ok <==> old(setup.PositionalStep(results, |args|, args[|args| - 1])).Some?
      ensures ok ==> Size(args) < Size(old(args)) && old(steps) < steps
      ensures ok ==> steps[|old(steps)|] == old(setup.PositionalStep(results, |args|, args[|args| - 1])).value
      ensures ok ==> (setup.OnlyPositionals(steps) <==> old(setup.OnlyPositionals(steps)) || setup.positionalsAtEnd)
      ensures old(setup.Freed(steps)) ==> setup.Freed(steps)
      ensures MarkSeen(steps) <==> old(MarkSeen(steps))
    {
      hide Size, UndoAll, ResultsOf, UnusedOf, MarkSeen, Setup.StepOk, Setup.InOrder, Setup.Freed, Setup.Due,
        Setup.Recognize, Setup.WellFormed, Setup.OnlyPositionals, Setup.Dumping, Setup.CountRemaining,
        Setup.FirstLacking, Setup.FirstTaking;
      var positional := args[|args| - 1];
      if setup.positionalsAtEnd {
        var remreq := setup.CountRemaining(results, |results|);
        if |args| <= remreq {
          var o := setup.FirstLacking(results, positional, 0);
          if o < |results| {
            GivePositional(o);
            return true;
          }
        }
      }
      var o := setup.FirstTaking(results, positional, 0);
      if o < |results| {
        GivePositional(o);
        return true;
      }
      if setup.positionalsAtEnd {
        return false;
      }
      Dismiss(NONE);
      if setup.prefixCommand {
        DismissAll();
      }
      ok := true;
    }

    // One turn of the loop; after the word `--` everything is positional.
    method ParseSingle(positionalOnly0: bool) returns (ok: bool, positionalOnly: bool)
      requires Valid() && args != []
      requires (positionalOnly0 <==> setup.OnlyPositionals(steps)) && !setup.Dumping(steps)
      modifies this
      ensures start == old(start)
      ensures ok <==> old(setup.Proceeds(results, args, positionalOnly0))
      ensures ok ==> Valid() && Size(args) < Size(old(args))
      ensures ok ==> (positionalOnly <==> setup.OnlyPositionals(steps)) && (args == [] || !setup.Dumping(steps))
    {
      hide Size, UndoAll, ResultsOf, UnusedOf, MarkSeen, Setup.StepOk, Setup.InOrder, Setup.Freed,
        Setup.OnlyPositionals, Setup.Dumping, Setup.ArgProceeds, Setup.PositionalStep;
      setup.ClosingFrees(steps);
      positionalOnly := positionalOnly0;
      var classifier := if positionalOnly then NONE else setup.Recognize(args[|args| - 1]);
      match classifier {
        case POSITIONAL_MARK =>
          positionalOnly := true;
          Dismiss(POSITIONAL_MARK);
          ok := true;
        case NONE =>
          ok := ParsePositional();
          if ok && setup.positionalsAtEnd {
            positionalOnly := true;
          }
        case LONG => ok := ParseArg(classifier);
        case SHORT => ok := ParseArg(classifier);
        case WINDOWS_STYLE => ok := ParseArg(classifier);
      }
    }

    // What is known of a run that took these steps and left these words.
    ghost predicate Ran(taken: seq<Step>, left: seq<string>)
      reads this
    {
      setup.WellFormed() && UndoAll(taken, left) == start && setup.Due(taken, left) && setup.InOrder(taken)
    }

    // The loop of _parse. It ends, either with the whole command line used up, or with an
    // exception at the first word that cannot be dealt with, and then there is no way to use
    // it up.
    method Parse() returns (ok: bool, ghost taken: seq<Step>, ghost left: seq<string>)
      requires Valid() && steps == []
      modifies this
      ensures start == old(start)
      ensures Ran(taken, left)
      ensures ok ==> left == [] && Valid() && args == [] && steps == taken
      ensures !ok ==> setup.Stuck(taken, left)
      ensures ok <==> exists all: seq<Step> :: Ran(all, [])
    {
      hide Setup.InOrder, Setup.Due, Setup.Proceeds, Size, UndoAll, UnusedOf;
      var positionalOnly := false;
      while args != []
        invariant Valid() && start == old(start)
        invariant (positionalOnly <==> setup.OnlyPositionals(steps)) && (args == [] || !setup.Dumping(steps))
        decreases Size(args)
      {
        taken, left := steps, args;
        assert results == setup.ResultsAfter(steps);
        ok, positionalOnly := ParseSingle(positionalOnly);
        if !ok {
          forall all: seq<Step> | Ran(all, [])
            ensures false
          {
            OutcomeIsDetermined(setup, taken, left, all);
          }
          return;
        }
      }
      ok, taken, left := true, steps, [];
    }

    // Every word of the command line is consumed exactly once: the words of the steps are those
    // of the command line and the "-rest" words that clusters of flags left behind.
    lemma EveryWordOnce()
      requires Valid() && args == []
      ensures Taken(steps) == multiset(start) + PutBack(steps)
    {
      setup.DueWords(steps, args);
    }

    // They are consumed in order, with the clusters glued, provided no flag is allowed extra
    // arguments.
    lemma WordsInOrder()
      requires Valid() && args == []
      requires forall o | 0 <= o < |setup.specs| && setup.specs[o].MaxNum() == 0 :: !setup.specs[o].allowExtraArgs
      ensures start == PushBack([], CommandLineOf(steps, []))
    {
      forall i | 0 <= i < |steps|
        ensures Tidy(steps[i])
      {
        assert setup.StepOk(steps[i]);
        if steps[i].Named? && steps[i].rest != "" {
          assert setup.NamedOk(steps[i]);
        }
      }
      UndoIsCommandLine(steps, []);
    }

    lemma SizeTaken(free: seq<string>, below: seq<string>, eaten: seq<string>, stack: seq<string>, word: string,
          rest: string, now: seq<string>)
      requires PushBack(below, eaten) == stack
      requires below == free || below == free + ["--"]
      requires now == (if rest != "" then free + ["-" + rest] else free)
      requires rest != "" ==> |word| == |rest| + 2
      ensures Size(now) < Size(stack) + |word| + 1
    {
      SizePushBack(below, eaten);
      if below != free { SizeSnoc(free, "--"); }
      if rest != "" { SizeSnoc(free, "-" + rest); }
    }
  }

  lemma MaxNumNonNegative(s: Spec)
    requires s.WellFormed()
    ensures s.MaxNum() >= 0
    ensures s.MaxNum() == 0 ==> s.MinNum() <= 0
  {
    MulMono(0, s.typeSizeMax, s.expectedMax);
    MulMono(0, s.typeSizeMax, s.expectedMin);
    if s.typeSizeMin > 0 && s.expectedMin > 0 {
      MulMono(1, s.typeSizeMax, s.expectedMax);
      MulMono(1, s.typeSizeMax, s.expectedMin);
    }
  }

  // An option word with a rest is a dash, one name character and the rest.
  lemma PartsOf(w: string, kind: Classifier)
    requires kind.LONG? ==> IsLong(w)
    requires kind.SHORT? ==> IsShort(w)
    requires kind.WINDOWS_STYLE? ==> IsWindowsStyle(w)
    ensures var parts := SplitWord(w, kind);
            && (parts.value != "" ==> parts.rest == "")
            && (parts.rest != "" ==> |w| == |parts.rest| + 2)
  {
    if kind.LONG? {
      assert w[..2][0] == w[0] && w[..2][1] == w[1];
    }
  }
}
