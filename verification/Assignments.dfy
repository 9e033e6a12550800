// Command lines that are written from values, and what the argument loop makes of them.
module Assignments {
  import opened CommandLine
  import opened Sequences
  import opened Wrappers
  import OptionNames
  import Text

  datatype Form = Long | Short | Windows

  // Values for an option, the first of them perhaps attached to its name; such values with a
  // `--` that says that no more will come; an option's name
  // alone, which stands for its default; a cluster of one-character flags; a word for a
  // positional; or a word or a name that nothing answers to.
  datatype Assignment =
    | Values(opt: nat, form: Form, name: string, attached: bool, values: seq<string>)
    | Ended(opt: nat, form: Form, name: string, values: seq<string>)
    | Default(opt: nat, form: Form, name: string, value: string)
    | Flags(names: string, opts: seq<nat>, values: seq<string>)
    | Plain(opt: nat, word: string)
    | Extra(word: string)
    | Unknown(form: Form, name: string)

  // ---- how they are written ----

  function OptionWord(form: Form, name: string): string {
    match form
    case Long => "--" + name
    case Short => "-" + name
    case Windows => "/" + name
  }

  function AttachedWord(form: Form, name: string, value: string): string {
    match form
    case Long => "--" + name + "=" + value
    case Short => "-" + name + value
    case Windows => "/" + name + ":" + value
  }

  function Words(a: Assignment): seq<string> {
    match a
    case Values(_, form, name, attached, values) =>
      if attached && values != [] then [AttachedWord(form, name, values[0])] + values[1..]
      else [OptionWord(form, name)] + values
    case Ended(_, form, name, values) => [OptionWord(form, name)] + values + ["--"]
    case Default(_, form, name, _) => [OptionWord(form, name)]
    case Flags(names, _, _) => ["-" + names]
    case Plain(_, word) => [word]
    case Extra(word) => [word]
    case Unknown(form, name) => [OptionWord(form, name)]
  }

  // ---- which of them an App takes ----

  function KindOf(form: Form): Classifier {
    match form
    case Long => LONG
    case Short => SHORT
    case Windows => WINDOWS_STYLE
  }

  predicate Spelled(setup: Setup, form: Form, name: string) {
    && name != "" && ValidFirstChar(name[0])
    && match form
       case Long => '=' !in name
       case Short => |name| == 1
       case Windows => setup.windowsStyle && ':' !in name
  }

  // The option is the first one that answers to the name.
  predicate Answering(setup: Setup, o: nat, form: Form, name: string) {
    && o < |setup.specs| && Spelled(setup, form, name)
    && setup.Answers(o, name, KindOf(form))
    && forall k | 0 <= k < o :: !setup.Answers(k, name, KindOf(form))
  }

  // The option takes at least one value and at most n.
  predicate TakesUpTo(s: Spec, n: int) {
    && s.typeSizeMin == s.typeSizeMax == 1 && 1 <= s.expectedMin <= s.expectedMax == n < 0x200_0000
    && !s.allowExtraArgs && !s.injectSeparator
  }

  // The option takes a value or none.
  predicate TakesPerhaps(s: Spec, n: int) {
    && s.typeSizeMin == s.typeSizeMax == 1 && 0 == s.expectedMin < s.expectedMax == n < 0x200_0000
    && !s.allowExtraArgs && !s.injectSeparator
  }

  // No positional has a claim on words.
  predicate NoneRequired(setup: Setup) {
    forall k | 0 <= k < |setup.specs| :: !setup.specs[k].positional || !setup.specs[k].required
  }

  // Values that an option may take or not must not look like options.
  predicate PlainFrom(setup: Setup, values: seq<string>, i: nat) {
    forall j | i <= j < |values| :: setup.Recognize(values[j]).NONE?
  }

  // The option takes exactly n values, once.
  predicate Takes(s: Spec, n: nat) {
    && 1 <= n <= 0x7fff_ffff && s.typeSizeMin == s.typeSizeMax == n && s.expectedMin == s.expectedMax == 1
    && !s.allowExtraArgs && !s.injectSeparator
  }

  predicate IsFlag(s: Spec) {
    s.typeSizeMin == s.typeSizeMax == 0 && !s.allowExtraArgs && !s.injectSeparator
  }

  predicate IsFlagName(setup: Setup, name: char, o: nat, value: string) {
    Answering(setup, o, Short, [name]) && IsFlag(setup.specs[o]) && setup.flagValue(o, [name], "") == Some(value)
  }

  predicate Proper(setup: Setup, a: Assignment) {
    match a
    case Values(opt, form, name, attached, values) =>
      && Answering(setup, opt, form, name) && values != [] && (attached ==> values[0] != "")
      && var s := setup.specs[opt];
      && (|| Takes(s, |values|)
          || (TakesUpTo(s, s.expectedMax) && |values| <= s.expectedMax && NoneRequired(setup)
              && PlainFrom(setup, values, 1)))
    case Ended(opt, form, name, values) =>
      && Answering(setup, opt, form, name) && values != [] && PlainFrom(setup, values, 1) && NoneRequired(setup)
      && TakesUpTo(setup.specs[opt], setup.specs[opt].expectedMax)
      && 1 < setup.specs[opt].expectedMax && |values| <= setup.specs[opt].expectedMax
    case Default(opt, form, name, value) =>
      && Answering(setup, opt, form, name) && NoneRequired(setup)
      && TakesPerhaps(setup.specs[opt], setup.specs[opt].expectedMax)
      && setup.flagValue(opt, name, "") == Some(value)
    case Flags(names, opts, values) =>
      && |names| == |opts| == |values| >= 1
      && forall i | 0 <= i < |names| :: IsFlagName(setup, names[i], opts[i], values[i])
    case Plain(opt, word) =>
      && opt < |setup.specs| && setup.specs[opt].positional && setup.specs[opt].allowExtraArgs
      && (forall k | 0 <= k < opt :: !setup.specs[k].positional)
      && !setup.validatePositionals && !setup.positionalsAtEnd && setup.Recognize(word).NONE?
    case Extra(word) => !setup.prefixCommand && NoPositionals(setup) && setup.Recognize(word).NONE?
    case Unknown(form, name) =>
      && Spelled(setup, form, name) && (form.Short? ==> !('0' <= name[0] <= '9'))
      && forall k | 0 <= k < |setup.specs| :: !setup.Answers(k, name, KindOf(form))
  }

  predicate NoPositionals(setup: Setup) {
    !setup.positionalsAtEnd && forall k | 0 <= k < |setup.specs| :: !setup.specs[k].positional
  }

  // What an assignment gives to option o.
  function ValuesFor(a: Assignment, o: nat): seq<string> {
    match a
    case Values(opt, _, _, _, values) => if opt == o then values else []
    case Ended(opt, _, _, values) => if opt == o then values else []
    case Default(opt, _, _, value) => if opt == o then [value] else []
    case Flags(_, opts, values) => FlagValuesFor(opts, values, o)
    case Plain(opt, word) => if opt == o then [word] else []
    case Extra(_) => []
    case Unknown(_, _) => []
  }

  // What it leaves over.
  function ExtrasOf(a: Assignment): seq<(Classifier, string)> {
    match a
    case Extra(word) => [(NONE, word)]
    case Unknown(form, name) => [(KindOf(form), OptionWord(form, name))]
    case _ => []
  }

  function FlagValuesFor(opts: seq<nat>, values: seq<string>, o: nat): seq<string> {
    if opts == [] || values == [] then []
    else (if opts[0] == o then [values[0]] else []) + FlagValuesFor(opts[1..], values[1..], o)
  }

  // ---- words are taken apart as they were put together ----

  lemma SplitAtSeparator(prefix: string, name: string, sep: char, value: string)
    requires sep !in prefix && sep !in name
    ensures var w := prefix + name + [sep] + value;
            && (forall i | 0 <= i < |prefix| :: w[i] != sep)
            && SplitAt(w, |prefix|, sep) == Parts(name, value, "")
  {
    var w := prefix + name + [sep] + value;
    var n := |prefix + name|;
    assert forall i | 0 <= i < n :: w[i] == (prefix + name)[i];
    assert w[n] == sep;
    assert Text.Find(w, sep) == n;
    assert w[|prefix|..n] == name && w[n + 1..] == value;
  }

  lemma SplitAtNothing(prefix: string, name: string, sep: char)
    requires sep !in prefix && sep !in name
    ensures var w := prefix + name;
            && (forall i | 0 <= i < |prefix| :: w[i] != sep)
            && SplitAt(w, |prefix|, sep) == Parts(name, "", "")
  {
    var w := prefix + name;
    assert Text.Find(w, sep) == |w|;
    assert w[|prefix|..] == name;
  }

  lemma OptionWordParts(setup: Setup, form: Form, name: string)
    requires Spelled(setup, form, name) && (form.Short? ==> setup.HasShort(name) || !('0' <= name[0] <= '9'))
    ensures var w := OptionWord(form, name);
            setup.Recognize(w) == KindOf(form) && SplitWord(w, KindOf(form)) == Parts(name, "", "")
  {
    hide SplitAt;
    var w := OptionWord(form, name);
    match form
    case Long =>
      assert w[..2] == "--" && w[2] == name[0];
      SplitAtNothing("--", name, '=');
    case Short =>
      assert w[1..2] == name && w[2..] == "";
    case Windows =>
      SplitAtNothing("/", name, ':');
  }

  lemma AttachedWordParts(setup: Setup, form: Form, name: string, value: string)
    requires Spelled(setup, form, name) && (form.Short? ==> setup.HasShort(name))
    ensures var w := AttachedWord(form, name, value);
            && setup.Recognize(w) == KindOf(form)
            && SplitWord(w, KindOf(form)) == if form.Short? then Parts(name, "", value) else Parts(name, value, "")
  {
    hide SplitAt;
    var w := AttachedWord(form, name, value);
    match form
    case Long =>
      assert w[..2] == "--" && w[2] == name[0];
      SplitAtSeparator("--", name, '=', value);
      assert w == "--" + name + ['='] + value;
    case Short =>
      assert w[1..2] == name && w[2..] == value;
    case Windows =>
      assert w[1] == name[0];
      SplitAtSeparator("/", name, ':', value);
      assert w == "/" + name + [':'] + value;
  }

  lemma ShortIsKnown(setup: Setup, o: nat, form: Form, name: string)
    requires Answering(setup, o, form, name) && form.Short?
    ensures setup.HasShort(name)
  {
    assert OptionNames.CheckShort(setup.specs[o].names, name);
  }

  // ---- the steps of the argument loop ----

  // A step that does not keep the ones after it from being options.
  predicate Neutral(setup: Setup, step: Step) {
    !IsMark(step) && !setup.Closes(step) && !(setup.prefixCommand && step.Unused? && step.kind.NONE?)
  }

  // A step that is due with these words left, whatever the results are.
  ghost predicate Simple(setup: Setup, step: Step, stack: seq<string>)
    requires setup.WellFormed()
  {
    && Neutral(setup, step) && setup.StepOk(step)
    && (AsPositional(step) ==> setup.Recognize(step.word).NONE?)
    && forall results: seq<seq<string>> | |results| == |setup.specs| ::
         if step.Named? then setup.NamedDue(step, results, stack)
         else AsPositional(step) ==> setup.PositionalStep(results, |stack| + 1, step.word) == Some(step)
  }

  ghost predicate SimpleRun(setup: Setup, steps: seq<Step>, stack: seq<string>)
    requires setup.WellFormed()
  {
    steps == [] ||
    var was, step := steps[..|steps| - 1], steps[|steps| - 1];
    Simple(setup, step, stack) && SimpleRun(setup, was, Undo(step, stack))
  }

  lemma {:induction false} UndoConcat(a: seq<Step>, b: seq<Step>, stack: seq<string>)
    ensures UndoAll(a + b, stack) == UndoAll(a, UndoAll(b, stack))
  {
    hide Undo;
    if b == [] {
      assert a + b == a;
    } else {
      UndoConcat(a, b[..|b| - 1], Undo(b[|b| - 1], stack));
      assert (a + b)[..|a + b| - 1] == a + b[..|b| - 1];
    }
  }

  lemma {:induction false} SimpleConcat(setup: Setup, a: seq<Step>, b: seq<Step>, stack: seq<string>)
    requires setup.WellFormed() && SimpleRun(setup, b, stack) && SimpleRun(setup, a, UndoAll(b, stack))
    ensures SimpleRun(setup, a + b, stack)
    ensures UndoAll(a + b, stack) == UndoAll(a, UndoAll(b, stack))
  {
    hide Simple, Undo;
    UndoConcat(a, b, stack);
    if b == [] {
      assert a + b == a;
    } else {
      var was, step := b[..|b| - 1], b[|b| - 1];
      SimpleConcat(setup, a, was, Undo(step, stack));
      assert (a + b)[..|a + b| - 1] == a + was;
    }
  }

  // A run that can go on with any step: due, in order, nothing closed or left over.
  ghost predicate Open(setup: Setup, steps: seq<Step>, stack: seq<string>)
    requires setup.WellFormed()
  {
    && setup.Due(steps, stack) && setup.InOrder(steps)
    && !setup.OnlyPositionals(steps) && !setup.Dumping(steps) && !MarkSeen(steps)
  }

  lemma {:induction false} SimpleRunIsOpen(setup: Setup, steps: seq<Step>, stack: seq<string>)
    requires setup.WellFormed() && SimpleRun(setup, steps, stack)
    ensures Open(setup, steps, stack)
  {
    hide Simple, Undo, Open;
    if steps == [] {
      NoSteps(setup, stack);
    } else {
      var was, step := steps[..|steps| - 1], steps[|steps| - 1];
      SimpleRunIsOpen(setup, was, Undo(step, stack));
      OneMoreSimple(setup, was, step, stack);
      assert steps == was + [step];
    }
  }

  lemma OneMoreSimple(setup: Setup, was: seq<Step>, step: Step, stack: seq<string>)
    requires setup.WellFormed() && Simple(setup, step, stack) && Open(setup, was, Undo(step, stack))
    ensures Open(setup, was + [step], stack)
  {
    hide Simple, Undo, UnusedOf, Setup.StepOk, Setup.Due, Setup.DueStep, Setup.InOrder, Setup.OnlyPositionals,
      Setup.Dumping, Setup.Freed, Setup.WellFormed, MarkSeen;
    SimpleIsDue(setup, was, step, stack);
    setup.DueSnoc(was, step, setup.ResultsAfter(was), stack);
    setup.InOrderSnoc(was, step);
    setup.ClosesSnoc(was, step);
    setup.DumpingSnoc(was, step);
    OneMoreStep(was, step, stack);
  }

  lemma NoSteps(setup: Setup, stack: seq<string>)
    requires setup.WellFormed()
    ensures Open(setup, [], stack)
  {
  }

  lemma SimpleIsDue(setup: Setup, was: seq<Step>, step: Step, stack: seq<string>)
    requires setup.WellFormed() && Simple(setup, step, stack)
    requires !setup.OnlyPositionals(was) && !setup.Dumping(was)
    ensures setup.StepOk(step) && setup.DueStep(step, setup.ResultsAfter(was), was, stack)
    ensures Neutral(setup, step)
    ensures AsPositional(step) ==> setup.Recognize(step.word).NONE?
  {
    hide Setup.StepOk, Setup.NamedDue, Setup.PositionalStep, Setup.OnlyPositionals, Setup.Dumping;
  }

  function Steps(a: Assignment): seq<Step> {
    match a
    case Values(opt, form, name, attached, values) =>
      if attached && values != []
      then [Step.Named(opt, AttachedWord(form, name, values[0]), "", values[..1], values[1..], false, [])]
      else [Step.Named(opt, OptionWord(form, name), "", [], values, false, [])]
    case Ended(opt, form, name, values) => [Step.Named(opt, OptionWord(form, name), "", [], values, true, [])]
    case Default(opt, form, name, value) => [Step.Named(opt, OptionWord(form, name), "", [], [], false, [value])]
    case Flags(names, opts, values) => FlagSteps(names, opts, values)
    case Plain(opt, word) => [Positional(opt, word)]
    case Extra(word) => [Unused(NONE, word)]
    case Unknown(form, name) => [Unused(KindOf(form), OptionWord(form, name))]
  }

  // One step for each flag of a cluster; the rest of the word is left for the next one.
  function FlagSteps(names: string, opts: seq<nat>, values: seq<string>): seq<Step> {
    if names == [] || opts == [] || values == [] then []
    else
      [Step.Named(opts[0], "-" + names, names[1..], [values[0]], [], false, [])]
      + FlagSteps(names[1..], opts[1..], values[1..])
  }

  lemma TakesNum(s: Spec, n: int)
    ensures n >= 0 && Takes(s, n) ==> s.WellFormed() && s.MinNum() == n && s.MaxNum() == n
    ensures TakesUpTo(s, n) ==> s.WellFormed() && s.MinNum() == 1 && s.MaxNum() == n
    ensures TakesPerhaps(s, n) ==> s.WellFormed() && s.MinNum() == 0 && s.MaxNum() == n
    ensures IsFlag(s) && s.WellFormed() ==> s.MinNum() == 0 && s.MaxNum() == 0
  {
  }

  lemma {:induction false} NothingReserved(setup: Setup, results: seq<seq<string>>, o: nat)
    requires NoneRequired(setup) && |results| == |setup.specs| && o <= |results|
    ensures setup.CountRemaining(results, o) == 0
  {
    if o > 0 {
      NothingReserved(setup, results, o - 1);
    }
  }

  // May an option that has n words and texts, and could take more, stop before these?
  predicate Halts(setup: Setup, o: nat, n: int, stack: seq<string>)
    requires o < |setup.specs|
  {
    || stack == []
    || (stack[|stack| - 1] != "--"
        && (n >= setup.specs[o].MaxNum() || !setup.Recognize(stack[|stack| - 1]).NONE?))
  }

  // The option takes just these words along, whatever the results are.
  predicate EatsJust(setup: Setup, o: nat, own: seq<string>, eaten: seq<string>, mark: bool, stack: seq<string>)
    requires o < |setup.specs|
  {
    var s, n, owed := setup.specs[o], setup.Collected(o, own, |eaten|), setup.Owed(o, own);
    && !s.allowExtraArgs && !s.injectSeparator && s.MinNum() <= n <= s.MaxNum()
    && (forall j | owed <= j < |eaten| :: setup.Recognize(eaten[j]).NONE?)
    && if s.MaxNum() <= setup.Collected(o, own, owed) then |eaten| == owed && !mark
       else NoneRequired(setup) && (mark || Halts(setup, o, n, stack))
  }

  // A step for an option word, from its parts.
  predicate FromParts(setup: Setup, step: Step, form: Form, parts: Parts, own: seq<string>, free: seq<string>) {
    && setup.WellFormed() && step.Named? && Answering(setup, step.opt, form, parts.name)
    && setup.Recognize(step.word) == KindOf(form) && SplitWord(step.word, KindOf(form)) == parts
    && setup.OwnText(step.opt, parts) == Some(own) && step.pre == own
    && step.rest == (if setup.specs[step.opt].MaxNum() == 0 then parts.rest else "")
    && EatsJust(setup, step.opt, own, step.eaten, step.mark, free)
    && GivesAfter(setup, step, parts.name, setup.Collected(step.opt, own, |step.eaten|))
  }

  lemma NamedIsSimple(setup: Setup, step: Step, form: Form, parts: Parts, own: seq<string>, stack: seq<string>)
    requires step.Named? && FromParts(setup, step, form, parts, own, Free(step, stack))
    requires step.rest != "" ==> stack != [] && stack[|stack| - 1] == "-" + step.rest
    ensures setup.WellFormed() && Simple(setup, step, stack)
  {
    hide FromParts, Setup.NamedOk, Setup.OwnOf, EatsJust, Setup.NamedDue, Setup.WellFormed, Setup.Recognize, Free;
    NamedIsOk(setup, step, form, parts, own, Free(step, stack));
    forall results: seq<seq<string>> | |results| == |setup.specs|
      ensures setup.NamedDue(step, results, stack)
    {
      NamedIsDue(setup, step, own, results, stack);
    }
  }

  // After the words comes a default when there were none and none was needed; no padding.
  predicate GivesAfter(setup: Setup, step: Step, name: string, n: int)
    requires setup.WellFormed() && step.Named? && step.opt < |setup.specs|
  {
    var s := setup.specs[step.opt];
    && setup.Padding(step.opt, n) == []
    && if s.MinNum() == 0 && s.MaxNum() > 0 && n == 0
       then setup.flagValue(step.opt, name, "").Some? && step.post == [setup.flagValue(step.opt, name, "").value]
       else step.post == []
  }

  lemma NamedIsOk(setup: Setup, step: Step, form: Form, parts: Parts, own: seq<string>, free: seq<string>)
    requires FromParts(setup, step, form, parts, own, free)
    ensures setup.WellFormed() && step.opt < |setup.specs|
    ensures setup.NamedOk(step) && setup.OwnOf(step) == own && step.pre == own
    ensures EatsJust(setup, step.opt, own, step.eaten, step.mark, free)
  {
    hide Setup.Recognize, Setup.Answers, SplitWord, Setup.OwnText, Spec.MinNum, Spec.MaxNum, Spelled, Setup.Padding,
      Setup.WellFormed;
  }

  lemma NamedIsDue(setup: Setup, step: Step, own: seq<string>, results: seq<seq<string>>, stack: seq<string>)
    requires setup.WellFormed() && step.Named? && setup.NamedOk(step) && |results| == |setup.specs|
    requires step.opt < |setup.specs| && setup.OwnOf(step) == own && step.pre == own
    requires step.rest != "" ==> stack != [] && stack[|stack| - 1] == "-" + step.rest
    requires EatsJust(setup, step.opt, own, step.eaten, step.mark, Free(step, stack))
    ensures setup.NamedDue(step, results, stack)
  {
    var owed := setup.Owed(step.opt, own);
    NothingTakenBeyond(setup, step.opt, Given(results, step.opt, step.pre + step.eaten[..owed]), own, step.eaten,
                       step.mark, Free(step, stack));
    hide Setup.NamedOk, Setup.OwnOf, Setup.Owed, Setup.Collected, Setup.WellFormed, Setup.TookRest, Given, Spec.MinNum,
      Spec.MaxNum, Setup.Recognize, Free;
    assert setup.Separator(step.opt, results[step.opt]) + own == own;
  }

  lemma NothingTakenBeyond(setup: Setup, o: nat, results: seq<seq<string>>, own: seq<string>, eaten: seq<string>,
        mark: bool, stack: seq<string>)
    requires o < |setup.specs| == |results| && EatsJust(setup, o, own, eaten, mark, stack)
    ensures var owed := setup.Owed(o, own);
            && owed <= |eaten|
            && setup.TookRest(o, results, setup.Collected(o, own, owed), eaten[owed..], mark, stack)
  {
    hide Spec.MinNum, Spec.MaxNum;
    assert setup.Recognize("--").POSITIONAL_MARK?;
    hide Setup.Recognize;
    if NoneRequired(setup) {
      NothingReserved(setup, results, |results|);
    }
  }

  // An option that takes exactly n values takes no words beyond them; one that may take more
  // stops where its values do.
  predicate OpenEnded(setup: Setup, a: Assignment) {
    match a
    case Values(opt, _, _, _, values) => opt < |setup.specs| && !Takes(setup.specs[opt], |values|)
    case Default(_, _, _, _) => true
    case _ => false
  }

  predicate MayPrecede(setup: Setup, a: Assignment, stack: seq<string>) {
    OpenEnded(setup, a) ==>
      || stack == []
      || (stack[|stack| - 1] != "--"
          && ((a.Values? && a.opt < |setup.specs| && |a.values| == setup.specs[a.opt].expectedMax)
              || !setup.Recognize(stack[|stack| - 1]).NONE?))
  }

  // The words of an option with values, those of them that are eaten aside.
  lemma ValuesEaten(setup: Setup, a: Assignment, own: seq<string>, eaten: seq<string>, stack: seq<string>)
    requires setup.WellFormed() && a.Values? && Proper(setup, a) && MayPrecede(setup, a, stack)
    requires own + eaten == a.values && |own| <= 1
    ensures EatsJust(setup, a.opt, own, eaten, false, stack)
    ensures var s, n := setup.specs[a.opt], setup.Collected(a.opt, own, |eaten|);
            n > 0 && s.MinNum() > 0 && s.MaxNum() > 0 && setup.Padding(a.opt, n) == []
  {
    hide Setup.Recognize, Setup.Answers, Spec.MinNum, Spec.MaxNum, Spelled;
    TakesNum(setup.specs[a.opt], |a.values|);
    TakesNum(setup.specs[a.opt], setup.specs[a.opt].expectedMax);
    assert forall j | 0 <= j < |eaten| :: eaten[j] == a.values[|own| + j];
  }

  lemma ValuesStep(setup: Setup, a: Assignment, stack: seq<string>)
    requires setup.WellFormed() && a.Values? && Proper(setup, a) && MayPrecede(setup, a, stack)
    ensures Simple(setup, Steps(a)[0], stack)
  {
    if a.form.Short? {
      ShortIsKnown(setup, a.opt, a.form, a.name);
    }
    var first := if a.attached then a.values[..1] else [];
    ValuesEaten(setup, a, first, a.values[|first|..], stack);
    hide Setup.Recognize, Setup.Answers, SplitWord, AttachedWord, OptionWord, Spec.MinNum, Spec.MaxNum, Spelled,
      EatsJust, Takes, TakesUpTo, MayPrecede, Setup.Padding, Setup.Collected, Simple;
    var step := Steps(a)[0];
    if a.attached {
      AttachedWordParts(setup, a.form, a.name, a.values[0]);
      assert a.values[..1] == [a.values[0]];
      NamedIsSimple(setup, step, a.form, SplitWord(step.word, KindOf(a.form)), a.values[..1], stack);
    } else {
      OptionWordParts(setup, a.form, a.name);
      NamedIsSimple(setup, step, a.form, Parts(a.name, "", ""), [], stack);
    }
  }

  lemma EndedStep(setup: Setup, a: Assignment, stack: seq<string>)
    requires setup.WellFormed() && a.Ended? && Proper(setup, a)
    ensures Simple(setup, Steps(a)[0], stack)
  {
    hide Setup.Recognize, Setup.Answers, SplitWord, OptionWord, Spec.MinNum, Spec.MaxNum, Spelled;
    TakesNum(setup.specs[a.opt], setup.specs[a.opt].expectedMax);
    if a.form.Short? {
      ShortIsKnown(setup, a.opt, a.form, a.name);
    }
    OptionWordParts(setup, a.form, a.name);
    NamedIsSimple(setup, Steps(a)[0], a.form, Parts(a.name, "", ""), [], stack);
  }

  lemma EndedUndone(opt: nat, word: string, values: seq<string>, stack: seq<string>)
    ensures Undo(Step.Named(opt, word, "", [], values, true, []), stack) == PushBack(stack, [word] + values + ["--"])
  {
    PushBackSnoc(stack, values, "--");
    PushFirst(stack, word, values + ["--"]);
    assert [word] + values + ["--"] == [word] + (values + ["--"]);
  }

  lemma DefaultStep(setup: Setup, a: Assignment, stack: seq<string>)
    requires setup.WellFormed() && a.Default? && Proper(setup, a) && MayPrecede(setup, a, stack)
    ensures Simple(setup, Steps(a)[0], stack)
  {
    hide Setup.Recognize, Setup.Answers, SplitWord, OptionWord, Spec.MinNum, Spec.MaxNum, Spelled;
    TakesNum(setup.specs[a.opt], setup.specs[a.opt].expectedMax);
    if a.form.Short? {
      ShortIsKnown(setup, a.opt, a.form, a.name);
    }
    OptionWordParts(setup, a.form, a.name);
    NamedIsSimple(setup, Steps(a)[0], a.form, Parts(a.name, "", ""), [], stack);
  }

  // A flag of a cluster takes nothing and leaves the rest of its word.
  lemma FlagStep(setup: Setup, names: string, o: nat, value: string, stack: seq<string>)
    requires setup.WellFormed() && names != "" && IsFlagName(setup, names[0], o, value)
    requires names[1..] != "" ==> stack != [] && stack[|stack| - 1] == "-" + names[1..]
    ensures Simple(setup, Step.Named(o, "-" + names, names[1..], [value], [], false, []), stack)
  {
    var step := Step.Named(o, "-" + names, names[1..], [value], [], false, []);
    var name, rest := [names[0]], names[1..];
    FlagTakesNothing(setup, o, Parts(name, "", rest), value, Free(step, stack));
    hide Setup.Recognize, Setup.Answers, SplitWord, Setup.OwnText, Setup.Padding, Setup.Collected, Spec.MinNum,
      Spec.MaxNum, Spelled, EatsJust, Setup.WellFormed, Simple;
    ShortIsKnown(setup, o, Short, name);
    AttachedWordParts(setup, Short, name, rest);
    ClusterWord(names);
    NamedIsSimple(setup, step, Short, Parts(name, "", rest), [value], stack);
  }

  lemma FlagTakesNothing(setup: Setup, o: nat, parts: Parts, value: string, stack: seq<string>)
    requires setup.WellFormed() && o < |setup.specs| && IsFlag(setup.specs[o])
    requires parts.value == "" && setup.flagValue(o, parts.name, "") == Some(value)
    ensures setup.OwnText(o, parts) == Some([value]) && EatsJust(setup, o, [value], [], false, stack)
    ensures setup.specs[o].MinNum() == setup.specs[o].MaxNum() == 0
    ensures setup.Padding(o, setup.Collected(o, [value], 0)) == []
  {
    TakesNum(setup.specs[o], 0);
    hide Spec.MinNum, Spec.MaxNum;
  }

  lemma {:induction false} FlagStepsRun(setup: Setup, names: string, opts: seq<nat>, values: seq<string>,
        stack: seq<string>)
    requires setup.WellFormed() && |names| == |opts| == |values| >= 1
    requires forall i | 0 <= i < |names| :: IsFlagName(setup, names[i], opts[i], values[i])
    ensures SimpleRun(setup, FlagSteps(names, opts, values), stack)
    ensures UndoAll(FlagSteps(names, opts, values), stack) == stack + ["-" + names]
  {
    hide Simple, IsFlagName;
    var step := Step.Named(opts[0], "-" + names, names[1..], [values[0]], [], false, []);
    var more := FlagSteps(names[1..], opts[1..], values[1..]);
    var after := if |names| == 1 then stack else stack + ["-" + names[1..]];
    if |names| > 1 {
      FlagStepsRun(setup, names[1..], opts[1..], values[1..], stack);
    }
    FlagStep(setup, names, opts[0], values[0], after);
    OneStep(setup, step, after);
    SimpleConcat(setup, [step], more, stack);
  }

  lemma OneStep(setup: Setup, step: Step, stack: seq<string>)
    requires setup.WellFormed() && Simple(setup, step, stack)
    ensures SimpleRun(setup, [step], stack) && UndoAll([step], stack) == Undo(step, stack)
  {
    hide Simple, Undo;
    assert [step][..0] == [];
  }

  lemma PlainStep(setup: Setup, a: Assignment, stack: seq<string>)
    requires setup.WellFormed() && a.Plain? && Proper(setup, a)
    ensures Simple(setup, Positional(a.opt, a.word), stack)
  {
    forall results: seq<seq<string>> | |results| == |setup.specs|
      ensures setup.PositionalStep(results, |stack| + 1, a.word) == Some(Positional(a.opt, a.word))
    {
      assert setup.Takes(a.opt, a.word, |results[a.opt]|);
      assert setup.FirstTaking(results, a.word, 0) == a.opt;
    }
  }

  lemma ExtraStep(setup: Setup, word: string, stack: seq<string>)
    requires setup.WellFormed() && Proper(setup, Extra(word))
    ensures Simple(setup, Unused(NONE, word), stack)
  {
  }

  lemma UnknownStep(setup: Setup, form: Form, name: string, stack: seq<string>)
    requires setup.WellFormed() && Proper(setup, Unknown(form, name))
    ensures Simple(setup, Unused(KindOf(form), OptionWord(form, name)), stack)
  {
    hide Setup.Recognize, Setup.Answers, SplitWord, OptionWord;
    OptionWordParts(setup, form, name);
  }

  lemma StepsRun(setup: Setup, a: Assignment, stack: seq<string>)
    requires setup.WellFormed() && Proper(setup, a) && MayPrecede(setup, a, stack)
    ensures SimpleRun(setup, Steps(a), stack) && UndoAll(Steps(a), stack) == PushBack(stack, Words(a))
  {
    hide Simple;
    match a
    case Values(_, form, name, attached, values) =>
      ValuesStep(setup, a, stack);
      OneStep(setup, Steps(a)[0], stack);
    case Ended(opt, form, name, values) =>
      EndedStep(setup, a, stack);
      OneStep(setup, Steps(a)[0], stack);
      EndedUndone(opt, OptionWord(form, name), values, stack);
    case Default(_, _, _, _) =>
      DefaultStep(setup, a, stack);
      OneStep(setup, Steps(a)[0], stack);
    case Flags(names, opts, values) =>
      FlagStepsRun(setup, names, opts, values, stack);
    case Plain(_, word) =>
      PlainStep(setup, a, stack);
      OneStep(setup, Steps(a)[0], stack);
    case Extra(word) =>
      ExtraStep(setup, word, stack);
      OneStep(setup, Steps(a)[0], stack);
    case Unknown(form, name) =>
      UnknownStep(setup, form, name, stack);
      OneStep(setup, Steps(a)[0], stack);
  }

  // ---- whole command lines ----

  predicate AllProper(setup: Setup, line: seq<Assignment>) {
    forall i | 0 <= i < |line| :: Proper(setup, line[i])
  }

  function AllWords(line: seq<Assignment>): seq<string> {
    if line == [] then [] else AllWords(line[..|line| - 1]) + Words(line[|line| - 1])
  }

  function AllSteps(line: seq<Assignment>): seq<Step> {
    if line == [] then [] else AllSteps(line[..|line| - 1]) + Steps(line[|line| - 1])
  }

  // Everything that a command line gives to option o, in order.
  function AllValues(line: seq<Assignment>, o: nat): seq<string> {
    if line == [] then [] else AllValues(line[..|line| - 1], o) + ValuesFor(line[|line| - 1], o)
  }

  predicate IsWord(a: Assignment) {
    a.Plain? || a.Extra?
  }

  // An option that could take more words is not followed by a word that it would take.
  predicate Separated(setup: Setup, line: seq<Assignment>) {
    forall i | 0 < i < |line| && IsWord(line[i]) :: MayPrecede(setup, line[i - 1], [line[i].word])
  }

  // Words of options look like options, words for positionals do not.
  lemma FirstWord(setup: Setup, a: Assignment)
    requires Proper(setup, a)
    ensures Words(a) != [] && Words(a)[0] != "--"
    ensures setup.Recognize(Words(a)[0]).NONE? <==> IsWord(a)
  {
    hide Setup.Answers, AttachedWord, OptionWord, SplitWord, Spelled;
    match a
    case Values(opt, form, name, attached, values) =>
      if form.Short? { ShortIsKnown(setup, opt, form, name); }
      if attached {
        AttachedWordParts(setup, form, name, values[0]);
      } else {
        OptionWordParts(setup, form, name);
      }
    case Ended(opt, form, name, _) =>
      if form.Short? { ShortIsKnown(setup, opt, form, name); }
      OptionWordParts(setup, form, name);
    case Default(opt, form, name, _) =>
      if form.Short? { ShortIsKnown(setup, opt, form, name); }
      OptionWordParts(setup, form, name);
    case Flags(names, opts, values) =>
      ShortIsKnown(setup, opts[0], Short, [names[0]]);
      AttachedWordParts(setup, Short, [names[0]], names[1..]);
      ClusterWord(names);
    case Plain(_, _) =>
    case Extra(_) =>
    case Unknown(form, name) => OptionWordParts(setup, form, name);
  }

  lemma ClusterWord(names: string)
    requires names != ""
    ensures "-" + names == AttachedWord(Short, [names[0]], names[1..])
  {
    assert names == [names[0]] + names[1..];
  }

  // Whether an assignment may stand before others depends on their first word.
  lemma PrecedesNext(setup: Setup, b: Assignment, a: Assignment, stack: seq<string>)
    requires Proper(setup, a) && (IsWord(a) ==> MayPrecede(setup, b, [a.word]))
    ensures MayPrecede(setup, b, PushBack(stack, Words(a)))
  {
    hide Proper, AttachedWord, OptionWord, PushBack;
    FirstWord(setup, a);
    PushBackTop(stack, Words(a));
  }

  lemma {:induction false} LineRuns(setup: Setup, line: seq<Assignment>, stack: seq<string>)
    requires setup.WellFormed() && AllProper(setup, line) && Separated(setup, line)
    requires line != [] ==> MayPrecede(setup, line[|line| - 1], stack)
    ensures SimpleRun(setup, AllSteps(line), stack)
    ensures UndoAll(AllSteps(line), stack) == PushBack(stack, AllWords(line))
  {
    hide SimpleRun, Proper, Steps, Words, MayPrecede;
    if line == [] {
      NothingRuns(setup, stack);
    } else {
      var before, a := line[..|line| - 1], line[|line| - 1];
      StepsRun(setup, a, stack);
      if before != [] {
        PrecedesNext(setup, before[|before| - 1], a, stack);
      }
      LineRuns(setup, before, PushBack(stack, Words(a)));
      SimpleConcat(setup, AllSteps(before), Steps(a), stack);
      PushBackConcat(stack, AllWords(before), Words(a));
    }
  }

  lemma NothingRuns(setup: Setup, stack: seq<string>)
    requires setup.WellFormed()
    ensures SimpleRun(setup, [], stack)
  {
  }

  lemma {:induction false} ResultsConcat(a: seq<Step>, b: seq<Step>, o: nat)
    ensures ResultsOf(a + b, o) == ResultsOf(a, o) + ResultsOf(b, o)
  {
    hide StepResults;
    if b == [] {
      assert a + b == a;
    } else {
      ResultsConcat(a, b[..|b| - 1], o);
      assert (a + b)[..|a + b| - 1] == a + b[..|b| - 1];
      Associative(ResultsOf(a, o), ResultsOf(b[..|b| - 1], o), StepResults(b[|b| - 1], o));
    }
  }

  lemma {:induction false} FlagResults(names: string, opts: seq<nat>, values: seq<string>, o: nat)
    requires |names| == |opts| == |values|
    ensures ResultsOf(FlagSteps(names, opts, values), o) == FlagValuesFor(opts, values, o)
  {
    if names != [] {
      var step := Step.Named(opts[0], "-" + names, names[1..], [values[0]], [], false, []);
      FlagResults(names[1..], opts[1..], values[1..], o);
      ResultsConcat([step], FlagSteps(names[1..], opts[1..], values[1..]), o);
      OneResult(step, o);
      assert [values[0]] + [] + [] == [values[0]];
    }
  }

  lemma OneResult(step: Step, o: nat)
    ensures ResultsOf([step], o) == StepResults(step, o)
  {
    assert [step][..0] == [];
    assert [] + StepResults(step, o) == StepResults(step, o);
  }

  lemma NamedGives(opt: nat, word: string, pre: seq<string>, eaten: seq<string>, post: seq<string>, o: nat)
    ensures ResultsOf([Step.Named(opt, word, "", pre, eaten, false, post)], o)
         == ResultsOf([Step.Named(opt, word, "", pre, eaten, true, post)], o)
         == if opt == o then pre + eaten + post else []
  {
    hide ResultsOf;
    OneResult(Step.Named(opt, word, "", pre, eaten, false, post), o);
    OneResult(Step.Named(opt, word, "", pre, eaten, true, post), o);
  }

  lemma StepsGive(setup: Setup, a: Assignment, o: nat)
    requires Proper(setup, a)
    ensures ResultsOf(Steps(a), o) == ValuesFor(a, o)
  {
    hide ResultsOf;
    match a
    case Values(opt, form, name, attached, values) =>
      hide AttachedWord, OptionWord, Answering, Takes, TakesUpTo, PlainFrom;
      if attached {
        NamedGives(opt, AttachedWord(form, name, values[0]), values[..1], values[1..], [], o);
        assert values[..1] + values[1..] + [] == values;
      } else {
        NamedGives(opt, OptionWord(form, name), [], values, [], o);
        assert [] + values + [] == values;
      }
    case Ended(opt, form, name, values) =>
      NamedGives(opt, OptionWord(form, name), [], values, [], o);
      assert [] + values + [] == values;
    case Default(opt, form, name, value) =>
      NamedGives(opt, OptionWord(form, name), [], [], [value], o);
      assert [] + [] + [value] == [value];
    case Flags(names, opts, values) => FlagResults(names, opts, values, o);
    case _ => OneResult(Steps(a)[0], o);
  }

  lemma {:induction false} LineGives(setup: Setup, line: seq<Assignment>, o: nat)
    requires AllProper(setup, line)
    ensures ResultsOf(AllSteps(line), o) == AllValues(line, o)
  {
    hide Proper, Steps, ValuesFor;
    if line != [] {
      var before, a := line[..|line| - 1], line[|line| - 1];
      StepsGive(setup, a, o);
      LineGives(setup, before, o);
      ResultsConcat(AllSteps(before), Steps(a), o);
    }
  }

  function AllExtras(line: seq<Assignment>): seq<(Classifier, string)> {
    if line == [] then [] else AllExtras(line[..|line| - 1]) + ExtrasOf(line[|line| - 1])
  }

  lemma {:induction false} UnusedConcat(a: seq<Step>, b: seq<Step>)
    ensures UnusedOf(a + b) == UnusedOf(a) + UnusedOf(b)
  {
    hide StepUnused;
    if b == [] {
      assert a + b == a;
    } else {
      UnusedConcat(a, b[..|b| - 1]);
      assert (a + b)[..|a + b| - 1] == a + b[..|b| - 1];
      Associative(UnusedOf(a), UnusedOf(b[..|b| - 1]), StepUnused(b[|b| - 1]));
    }
  }

  lemma OneUnused(step: Step)
    ensures UnusedOf([step]) == StepUnused(step)
  {
    assert [step][..0] == [];
    assert [] + StepUnused(step) == StepUnused(step);
  }

  lemma {:induction false} FlagsLeaveNothing(names: string, opts: seq<nat>, values: seq<string>)
    ensures UnusedOf(FlagSteps(names, opts, values)) == []
  {
    if names != [] && opts != [] && values != [] {
      var step := Step.Named(opts[0], "-" + names, names[1..], [values[0]], [], false, []);
      FlagsLeaveNothing(names[1..], opts[1..], values[1..]);
      UnusedConcat([step], FlagSteps(names[1..], opts[1..], values[1..]));
      OneUnused(step);
    }
  }

  lemma {:induction false} LineLeaves(line: seq<Assignment>)
    ensures UnusedOf(AllSteps(line)) == AllExtras(line)
  {
    hide UnusedOf;
    if line == [] {
      NothingUnused();
    } else {
      var before, a := line[..|line| - 1], line[|line| - 1];
      LineLeaves(before);
      UnusedConcat(AllSteps(before), Steps(a));
      StepsLeave(a);
    }
  }

  lemma NothingUnused()
    ensures UnusedOf([]) == []
  {
  }

  lemma StepsLeave(a: Assignment)
    ensures UnusedOf(Steps(a)) == ExtrasOf(a)
  {
    hide UnusedOf, AttachedWord, OptionWord;
    if a.Flags? {
      FlagsLeaveNothing(a.names, a.opts, a.values);
    } else {
      OneUnused(Steps(a)[0]);
    }
  }

  // Two runs that use up the same command line are the same.
  lemma SameRun(setup: Setup, a: seq<Step>, b: seq<Step>)
    requires setup.WellFormed() && setup.Due(a, []) && setup.Due(b, []) && UndoAll(a, []) == UndoAll(b, [])
    ensures a == b
  {
    hide Setup.Due, UndoAll;
    if |a| <= |b| {
      LongerRun(setup, a, [], b, []);
      UsesUp(b[|a|..]);
    } else {
      LongerRun(setup, b, [], a, []);
      UsesUp(a[|b|..]);
    }
  }

  lemma UsesUp(steps: seq<Step>)
    ensures UndoAll(steps, []) == [] ==> steps == []
  {
    if steps != [] {
      UndoAllNonEmpty(steps, []);
    }
  }

  // Whatever is written on a command line in these forms is parsed back: each option gets just
  // its values, in order, and just the words and names that nothing answers to are left over.
  method ParseAssignments(setup: Setup, line: seq<Assignment>)
    returns (ok: bool, results: seq<seq<string>>, missing: seq<(Classifier, string)>)
    requires setup.WellFormed() && AllProper(setup, line) && Separated(setup, line)
    ensures ok && missing == AllExtras(line) && |results| == |setup.specs|
    ensures forall o | 0 <= o < |setup.specs| :: results[o] == AllValues(line, o)
  {
    hide Proper, SimpleRun, Setup.Due, Setup.InOrder, UndoAll, Setup.StepOk;
    LineRuns(setup, line, []);
    SimpleRunIsOpen(setup, AllSteps(line), []);
    var app := new App(setup, PushBack([], AllWords(line)));
    ghost var taken, left;
    ok, taken, left := app.Parse();
    assert app.Ran(AllSteps(line), []);
    SameRun(setup, AllSteps(line), taken);
    LineLeaves(line);
    results, missing := app.results, app.missing;
    forall o | 0 <= o < |setup.specs|
      ensures results[o] == AllValues(line, o)
    {
      LineGives(setup, line, o);
    }
  }

  // ---- after a `--` ----

  function PlainSteps(o: nat, words: seq<string>): seq<Step> {
    if words == [] then [] else PlainSteps(o, words[..|words| - 1]) + [Positional(o, words[|words| - 1])]
  }

  predicate TakesAll(setup: Setup, o: nat) {
    && o < |setup.specs| && setup.specs[o].positional && setup.specs[o].allowExtraArgs
    && (forall k | 0 <= k < o :: !setup.specs[k].positional)
    && !setup.validatePositionals && !setup.positionalsAtEnd
  }

  // Once a `--` has been seen, a positional gets every word, whatever it looks like.
  lemma {:induction false} PlainStepsDue(setup: Setup, base: seq<Step>, o: nat, words: seq<string>, stack: seq<string>)
    requires setup.WellFormed() && TakesAll(setup, o)
    requires setup.Due(base, PushBack(stack, words)) && setup.InOrder(base)
    requires setup.OnlyPositionals(base) && !setup.Dumping(base)
    ensures var all := base + PlainSteps(o, words);
            && setup.Due(all, stack) && setup.InOrder(all) && setup.OnlyPositionals(all) && !setup.Dumping(all)
            && UnusedOf(all) == UnusedOf(base)
            && forall p: nat :: ResultsOf(all, p) == ResultsOf(base, p) + if p == o then words else []
  {
    hide Setup.Due, Setup.InOrder, Setup.OnlyPositionals, Setup.Dumping, Setup.Freed, ResultsOf, UnusedOf;
    if words == [] {
      assert base + [] == base;
      assert forall p: nat :: ResultsOf(base, p) + [] == ResultsOf(base, p);
    } else {
      var before, w := words[..|words| - 1], words[|words| - 1];
      assert words == before + [w];
      PushBackSnoc(stack, before, w);
      PlainStepsDue(setup, base, o, before, stack + [w]);
      var was, step := base + PlainSteps(o, before), Positional(o, w);
      OneMorePlain(setup, was, o, w, stack);
      assert base + PlainSteps(o, words) == was + [step];
      forall p: nat
        ensures ResultsOf(was + [step], p) == ResultsOf(base, p) + if p == o then words else []
      {
        OneMoreStep(was, step, stack);
      }
    }
  }

  lemma OneMorePlain(setup: Setup, was: seq<Step>, o: nat, w: string, stack: seq<string>)
    requires setup.WellFormed() && TakesAll(setup, o)
    requires setup.Due(was, stack + [w]) && setup.InOrder(was) && setup.OnlyPositionals(was) && !setup.Dumping(was)
    ensures var all := was + [Positional(o, w)];
            && setup.Due(all, stack) && setup.InOrder(all) && setup.OnlyPositionals(all) && !setup.Dumping(all)
            && UnusedOf(all) == UnusedOf(was)
  {
    hide Setup.Due, Setup.InOrder, Setup.OnlyPositionals, Setup.Dumping, Setup.Freed, UnusedOf;
    var step, results := Positional(o, w), setup.ResultsAfter(was);
    assert setup.Takes(o, w, |results[o]|);
    assert setup.FirstTaking(results, w, 0) == o;
    setup.ClosingFrees(was);
    setup.DueSnoc(was, step, results, stack);
    setup.InOrderSnoc(was, step);
    setup.ClosesSnoc(was, step);
    setup.DumpingSnoc(was, step);
    OneMoreStep(was, step, stack);
  }

  lemma MarkDue(setup: Setup, was: seq<Step>, stack: seq<string>)
    requires setup.WellFormed() && Open(setup, was, stack + ["--"])
    ensures var all := was + [Unused(POSITIONAL_MARK, "--")];
            && setup.Due(all, stack) && setup.InOrder(all) && setup.OnlyPositionals(all) && !setup.Dumping(all)
            && UnusedOf(all) == UnusedOf(was) + [(POSITIONAL_MARK, "--")]
            && forall p: nat :: ResultsOf(all, p) == ResultsOf(was, p)
  {
    hide Setup.Due, Setup.InOrder, Setup.OnlyPositionals, Setup.Dumping, Setup.Freed, UnusedOf, ResultsOf, MarkSeen;
    var step := Unused(POSITIONAL_MARK, "--");
    setup.DueSnoc(was, step, setup.ResultsAfter(was), stack);
    setup.InOrderSnoc(was, step);
    setup.ClosesSnoc(was, step);
    setup.DumpingSnoc(was, step);
    OneMoreStep(was, step, stack);
    assert forall p: nat :: ResultsOf(was, p) + [] == ResultsOf(was, p);
  }

  // A command line with a `--`: the words behind it all go to the positional.
  method ParseWithMark(setup: Setup, line: seq<Assignment>, o: nat, rest: seq<string>)
    returns (ok: bool, results: seq<seq<string>>, missing: seq<(Classifier, string)>)
    requires setup.WellFormed() && AllProper(setup, line) && Separated(setup, line) && TakesAll(setup, o)
    requires line != [] ==> !OpenEnded(setup, line[|line| - 1])
    ensures ok && missing == AllExtras(line) + [(POSITIONAL_MARK, "--")] && |results| == |setup.specs|
    ensures forall p | 0 <= p < |setup.specs| ::
      results[p] == AllValues(line, p) + if p == o then rest else []
  {
    hide Proper, SimpleRun, Open, Setup.Due, Setup.InOrder, UndoAll, Setup.StepOk, TakesAll, PushBack, Separated,
      Setup.OnlyPositionals, Setup.Dumping, ResultsOf, UnusedOf;
    var words := AllWords(line) + (["--"] + rest);
    ghost var tail, stack := PushBack([], rest), PushBack([], ["--"] + rest);
    PushFirst([], "--", rest);
    LineRuns(setup, line, stack);
    SimpleRunIsOpen(setup, AllSteps(line), stack);
    MarkDue(setup, AllSteps(line), tail);
    ghost var marked := AllSteps(line) + [Unused(POSITIONAL_MARK, "--")];
    PlainStepsDue(setup, marked, o, rest, []);
    ghost var all := marked + PlainSteps(o, rest);
    WholeLine(setup, line, o, rest);
    var app := new App(setup, PushBack([], words));
    ghost var taken, left;
    ok, taken, left := app.Parse();
    assert app.Ran(all, []);
    SameRun(setup, all, taken);
    LineLeaves(line);
    results, missing := app.results, app.missing;
    forall p | 0 <= p < |setup.specs|
      ensures results[p] == AllValues(line, p) + if p == o then rest else []
    {
      LineGives(setup, line, p);
    }
  }

  lemma {:induction false} PlainStepsUndo(o: nat, words: seq<string>, stack: seq<string>)
    ensures UndoAll(PlainSteps(o, words), stack) == PushBack(stack, words)
  {
    if words != [] {
      var before, w := words[..|words| - 1], words[|words| - 1];
      PlainStepsUndo(o, before, stack + [w]);
      PushBackSnoc(stack, before, w);
      assert words == before + [w];
    }
  }

  lemma WholeLine(setup: Setup, line: seq<Assignment>, o: nat, rest: seq<string>)
    requires setup.WellFormed() && AllProper(setup, line) && Separated(setup, line)
    requires line != [] ==> !OpenEnded(setup, line[|line| - 1])
    ensures UndoAll(AllSteps(line) + [Unused(POSITIONAL_MARK, "--")] + PlainSteps(o, rest), [])
         == PushBack([], AllWords(line) + (["--"] + rest))
  {
    hide Proper, SimpleRun, PushBack, UndoAll, Separated;
    var mark: seq<Step> := [Unused(POSITIONAL_MARK, "--")];
    PlainStepsUndo(o, rest, []);
    UndoConcat(AllSteps(line) + mark, PlainSteps(o, rest), []);
    UndoConcat(AllSteps(line), mark, PushBack([], rest));
    UndoMark(PushBack([], rest));
    PushFirst([], "--", rest);
    LineRuns(setup, line, PushBack([], ["--"] + rest));
    PushBackConcat([], AllWords(line), ["--"] + rest);
  }

  lemma UndoMark(stack: seq<string>)
    ensures UndoAll([Unused(POSITIONAL_MARK, "--")], stack) == stack + ["--"]
  {
    var mark: seq<Step> := [Unused(POSITIONAL_MARK, "--")];
    assert mark[..0] == [];
  }

  // ---- after a prefix command ----

  function DroppedSteps(words: seq<string>): seq<Step> {
    if words == [] then [] else DroppedSteps(words[..|words| - 1]) + [Unused(NONE, words[|words| - 1])]
  }

  function AsExtras(words: seq<string>): seq<(Classifier, string)> {
    if words == [] then [] else AsExtras(words[..|words| - 1]) + [(NONE, words[|words| - 1])]
  }

  lemma OneMoreDropped(setup: Setup, was: seq<Step>, w: string, stack: seq<string>)
    requires setup.WellFormed() && setup.prefixCommand && setup.Due(was, stack + [w]) && setup.InOrder(was)
    requires setup.Dumping(was) || (NoPositionals(setup) && setup.Recognize(w).NONE? && !setup.OnlyPositionals(was))
    ensures var all := was + [Unused(NONE, w)];
            && setup.Due(all, stack) && setup.InOrder(all) && setup.Dumping(all)
            && UnusedOf(all) == UnusedOf(was) + [(NONE, w)]
            && forall p: nat :: ResultsOf(all, p) == ResultsOf(was, p)
  {
    hide Setup.Due, Setup.InOrder, Setup.OnlyPositionals, Setup.Dumping, Setup.Freed, UnusedOf, ResultsOf;
    var step := Unused(NONE, w);
    setup.DumpingFrees(was);
    setup.DueSnoc(was, step, setup.ResultsAfter(was), stack);
    setup.InOrderSnoc(was, step);
    setup.DumpingSnoc(was, step);
    OneMoreStep(was, step, stack);
    assert forall p: nat :: ResultsOf(was, p) + [] == ResultsOf(was, p);
  }

  lemma {:induction false} DroppedStepsDue(setup: Setup, base: seq<Step>, words: seq<string>, stack: seq<string>)
    requires setup.WellFormed() && setup.prefixCommand && setup.Dumping(base)
    requires setup.Due(base, PushBack(stack, words)) && setup.InOrder(base)
    ensures var all := base + DroppedSteps(words);
            && setup.Due(all, stack) && setup.InOrder(all) && setup.Dumping(all)
            && UnusedOf(all) == UnusedOf(base) + AsExtras(words)
            && forall p: nat :: ResultsOf(all, p) == ResultsOf(base, p)
  {
    hide Setup.Due, Setup.InOrder, Setup.OnlyPositionals, Setup.Dumping, Setup.Freed, ResultsOf, UnusedOf;
    if words == [] {
      assert base + [] == base;
      assert UnusedOf(base) + [] == UnusedOf(base);
    } else {
      var before, w := words[..|words| - 1], words[|words| - 1];
      assert words == before + [w];
      PushBackSnoc(stack, before, w);
      DroppedStepsDue(setup, base, before, stack + [w]);
      var was := base + DroppedSteps(before);
      OneMoreDropped(setup, was, w, stack);
      assert base + DroppedSteps(words) == was + [Unused(NONE, w)];
      Associative(UnusedOf(base), AsExtras(before), [(NONE, w)]);
    }
  }

  lemma {:induction false} DroppedStepsUndo(words: seq<string>, stack: seq<string>)
    ensures UndoAll(DroppedSteps(words), stack) == PushBack(stack, words)
  {
    if words != [] {
      var before, w := words[..|words| - 1], words[|words| - 1];
      DroppedStepsUndo(before, stack + [w]);
      PushBackSnoc(stack, before, w);
      assert words == before + [w];
    }
  }

  // A prefix command: from the first word that nothing answers to, all is left over.
  method ParseWithPrefix(setup: Setup, line: seq<Assignment>, command: string, rest: seq<string>)
    returns (ok: bool, results: seq<seq<string>>, missing: seq<(Classifier, string)>)
    requires setup.WellFormed() && AllProper(setup, line) && Separated(setup, line)
    requires setup.prefixCommand && NoPositionals(setup) && setup.Recognize(command).NONE?
    requires line != [] ==> MayPrecede(setup, line[|line| - 1], PushBack([], [command] + rest))
    ensures ok && missing == AllExtras(line) + AsExtras([command] + rest) && |results| == |setup.specs|
    ensures forall p | 0 <= p < |setup.specs| :: results[p] == AllValues(line, p)
  {
    hide Proper, SimpleRun, Open, Setup.Due, Setup.InOrder, UndoAll, Setup.StepOk, PushBack, Separated,
      Setup.OnlyPositionals, Setup.Dumping, ResultsOf, UnusedOf, NoPositionals, Setup.Recognize, MayPrecede;
    var words := AllWords(line) + ([command] + rest);
    ghost var tail, stack := PushBack([], rest), PushBack([], [command] + rest);
    PushFirst([], command, rest);
    LineRuns(setup, line, stack);
    SimpleRunIsOpen(setup, AllSteps(line), stack);
    OpenFacts(setup, AllSteps(line), stack);
    OneMoreDropped(setup, AllSteps(line), command, tail);
    ghost var base := AllSteps(line) + [Unused(NONE, command)];
    DroppedStepsDue(setup, base, rest, []);
    ghost var all := base + DroppedSteps(rest);
    PrefixLine(setup, line, command, rest);
    var app := new App(setup, PushBack([], words));
    ghost var taken, left;
    ok, taken, left := app.Parse();
    assert app.Ran(all, []);
    SameRun(setup, all, taken);
    LineLeaves(line);
    AsExtrasFirst(command, rest);
    Associative(AllExtras(line), [(NONE, command)], AsExtras(rest));
    results, missing := app.results, app.missing;
    forall p | 0 <= p < |setup.specs|
      ensures results[p] == AllValues(line, p)
    {
      LineGives(setup, line, p);
    }
  }

  lemma OpenFacts(setup: Setup, steps: seq<Step>, stack: seq<string>)
    requires setup.WellFormed() && Open(setup, steps, stack)
    ensures setup.Due(steps, stack) && setup.InOrder(steps)
    ensures !setup.OnlyPositionals(steps) && !setup.Dumping(steps)
  {
  }

  lemma {:induction false} AsExtrasFirst(w: string, words: seq<string>)
    ensures AsExtras([w] + words) == [(NONE, w)] + AsExtras(words)
  {
    if words == [] {
      assert [w] + words == [w] && [w][..0] == [];
      assert [(NONE, w)] + [] == [(NONE, w)];
    } else {
      var before := words[..|words| - 1];
      AsExtrasFirst(w, before);
      assert ([w] + words)[..|words|] == [w] + before;
      assert ([w] + words)[|words|] == words[|words| - 1];
      Associative([(NONE, w)], AsExtras(before), [(NONE, words[|words| - 1])]);
    }
  }

  lemma PrefixLine(setup: Setup, line: seq<Assignment>, command: string, rest: seq<string>)
    requires setup.WellFormed() && AllProper(setup, line) && Separated(setup, line)
    requires line != [] ==> MayPrecede(setup, line[|line| - 1], PushBack([], [command] + rest))
    ensures UndoAll(AllSteps(line) + [Unused(NONE, command)] + DroppedSteps(rest), [])
         == PushBack([], AllWords(line) + ([command] + rest))
  {
    hide Proper, SimpleRun, PushBack, UndoAll, Separated, MayPrecede;
    var first: seq<Step> := [Unused(NONE, command)];
    DroppedStepsUndo(rest, []);
    UndoConcat(AllSteps(line) + first, DroppedSteps(rest), []);
    UndoConcat(AllSteps(line), first, PushBack([], rest));
    UndoDropped(command, PushBack([], rest));
    PushFirst([], command, rest);
    LineRuns(setup, line, PushBack([], [command] + rest));
    PushBackConcat([], AllWords(line), [command] + rest);
  }

  lemma UndoDropped(command: string, stack: seq<string>)
    ensures UndoAll([Unused(NONE, command)], stack) == stack + [command]
  {
    var first: seq<Step> := [Unused(NONE, command)];
    assert first[..0] == [];
  }

  // ---- words reserved for a required positional ----

  // p is the only positional; it requires n words.
  predicate OnlyRequired(setup: Setup, p: nat, n: nat) {
    && p < |setup.specs| && !setup.positionalsAtEnd && !setup.validatePositionals
    && (forall k | 0 <= k < |setup.specs| && k != p :: !setup.specs[k].positional)
    && var s := setup.specs[p];
    && s.positional && s.required && s.typeSizeMin == 1 && s.expectedMin == n
  }

  lemma {:induction false} ReservedFor(setup: Setup, results: seq<seq<string>>, p: nat, n: nat, o: nat)
    requires OnlyRequired(setup, p, n) && |results| == |setup.specs| && o <= |results| && |results[p]| <= n
    ensures setup.CountRemaining(results, o) == if p < o then n - |results[p]| else 0
  {
    if o > 0 {
      ReservedFor(setup, results, p, n, o - 1);
    }
  }

  // An option that could take them all, before the words that the positional requires.
  predicate Reserving(setup: Setup, a: Assignment, p: nat, words: seq<string>) {
    && a.Values? && !a.attached && a.values != [] && words != []
    && OnlyRequired(setup, p, |words|) && Answering(setup, a.opt, a.form, a.name) && a.opt != p
    && TakesUpTo(setup.specs[a.opt], setup.specs[a.opt].expectedMax)
    && |a.values| <= setup.specs[a.opt].expectedMax
    && PlainFrom(setup, a.values, 1) && PlainFrom(setup, words, 0)
  }

  lemma ReservingOk(setup: Setup, a: Assignment, p: nat, words: seq<string>)
    requires setup.WellFormed() && Reserving(setup, a, p, words)
    ensures var step := Steps(a)[0];
            && step == Step.Named(a.opt, OptionWord(a.form, a.name), "", [], a.values, false, [])
            && setup.NamedOk(step) && setup.OwnOf(step) == [] && setup.Owed(a.opt, []) == 1
  {
    hide Setup.Recognize, Setup.Answers, SplitWord, OptionWord, Spec.MinNum, Spec.MaxNum, Spelled;
    TakesNum(setup.specs[a.opt], setup.specs[a.opt].expectedMax);
    if a.form.Short? {
      ShortIsKnown(setup, a.opt, a.form, a.name);
    }
    OptionWordParts(setup, a.form, a.name);
  }

  // It leaves just these.
  lemma StopsForReserved(setup: Setup, o: nat, results: seq<seq<string>>, more: seq<string>, words: seq<string>,
        p: nat)
    requires OnlyRequired(setup, p, |words|) && words != [] && PlainFrom(setup, words, 0)
    requires o < |setup.specs| == |results| && results[p] == [] && |more| < setup.specs[o].MaxNum()
    ensures setup.TookRest(o, results, 1, more, false, PushBack([], words))
  {
    hide Setup.Recognize, Spec.MaxNum, PushBack;
    PushBackLength([], words);
    PushBackTop([], words);
    ReservedFor(setup, results, p, |words|, |results|);
    assert setup.Recognize(words[0]).NONE?;
  }

  lemma ReservingStep(setup: Setup, a: Assignment, p: nat, words: seq<string>)
    requires setup.WellFormed() && Reserving(setup, a, p, words)
    ensures var step, stack := Steps(a)[0], PushBack([], words);
            && setup.StepOk(step) && setup.DueStep(step, setup.ResultsAfter([]), [], stack)
            && Undo(step, stack) == PushBack(stack, Words(a))
  {
    var step, stack, results := Steps(a)[0], PushBack([], words), setup.ResultsAfter([]);
    ReservingOk(setup, a, p, words);
    TakesNum(setup.specs[a.opt], setup.specs[a.opt].expectedMax);
    assert setup.Separator(a.opt, results[a.opt]) + [] == [];
    hide Setup.Recognize, Setup.Answers, OptionWord, Spec.MinNum, Spec.MaxNum, Setup.NamedOk, Setup.OwnOf, Setup.Owed,
      Setup.Separator, Setup.TookRest, OnlyRequired, PlainFrom, Answering;
    var given := Given(results, a.opt, step.pre + step.eaten[..1]);
    StopsForReserved(setup, a.opt, given, a.values[1..], words, p);
    assert setup.NamedDue(step, results, stack);
    hide Setup.NamedDue;
    PushedName(stack, a);
  }

  lemma PushedName(stack: seq<string>, a: Assignment)
    requires a.Values? && !a.attached
    ensures Undo(Steps(a)[0], stack) == PushBack(stack, Words(a))
  {
    hide OptionWord;
    PushFirst(stack, OptionWord(a.form, a.name), a.values);
  }

  // Words for a positional that has room for them.
  lemma {:induction false} FillingStepsDue(setup: Setup, base: seq<Step>, p: nat, n: nat, words: seq<string>,
        stack: seq<string>)
    requires setup.WellFormed() && OnlyRequired(setup, p, n) && PlainFrom(setup, words, 0)
    requires |ResultsOf(base, p)| + |words| <= n
    requires Open(setup, base, PushBack(stack, words))
    ensures var all := base + PlainSteps(p, words);
            && Open(setup, all, stack) && UnusedOf(all) == UnusedOf(base)
            && forall q: nat :: ResultsOf(all, q) == ResultsOf(base, q) + if q == p then words else []
  {
    hide Open, ResultsOf, UnusedOf, Setup.Recognize;
    if words == [] {
      assert base + [] == base;
      assert forall q: nat :: ResultsOf(base, q) + [] == ResultsOf(base, q);
    } else {
      var before, w := words[..|words| - 1], words[|words| - 1];
      assert words == before + [w];
      PushBackSnoc(stack, before, w);
      FillingStepsDue(setup, base, p, n, before, stack + [w]);
      var was, step := base + PlainSteps(p, before), Positional(p, w);
      OneMoreFilling(setup, was, p, n, w, stack);
      assert base + PlainSteps(p, words) == was + [step];
      forall q: nat
        ensures ResultsOf(was + [step], q) == ResultsOf(base, q) + if q == p then words else []
      {
        OneMoreStep(was, step, stack);
      }
    }
  }

  lemma OneMoreFilling(setup: Setup, was: seq<Step>, p: nat, n: nat, w: string, stack: seq<string>)
    requires setup.WellFormed() && OnlyRequired(setup, p, n) && setup.Recognize(w).NONE?
    requires |ResultsOf(was, p)| < n && Open(setup, was, stack + [w])
    ensures var all := was + [Positional(p, w)]; Open(setup, all, stack) && UnusedOf(all) == UnusedOf(was)
  {
    hide Setup.Due, Setup.InOrder, Setup.OnlyPositionals, Setup.Dumping, Setup.Freed, UnusedOf, MarkSeen, ResultsOf,
      Setup.Recognize;
    var step, results := Positional(p, w), setup.ResultsAfter(was);
    assert setup.Takes(p, w, |results[p]|);
    assert setup.FirstTaking(results, w, 0) == p;
    setup.DueSnoc(was, step, results, stack);
    setup.InOrderSnoc(was, step);
    setup.ClosesSnoc(was, step);
    setup.DumpingSnoc(was, step);
    OneMoreStep(was, step, stack);
  }

  // The steps of such a command line.
  lemma ReservingRun(setup: Setup, a: Assignment, p: nat, words: seq<string>)
    requires setup.WellFormed() && Reserving(setup, a, p, words)
    ensures var all := Steps(a) + PlainSteps(p, words);
            && Open(setup, all, []) && UndoAll(all, []) == PushBack([], Words(a) + words)
            && UnusedOf(all) == [] && ResultsOf(all, a.opt) == a.values && ResultsOf(all, p) == words
  {
    hide Open, UndoAll, Setup.StepOk, Setup.DueStep, PushBack, ResultsOf, UnusedOf, Undo, OptionWord;
    var stack, first := PushBack([], words), Steps(a);
    assert first == [first[0]];
    ReservingStep(setup, a, p, words);
    FirstIsOpen(setup, a, first[0], stack);
    NamedGives(a.opt, first[0].word, [], a.values, [], p);
    NamedGives(a.opt, first[0].word, [], a.values, [], a.opt);
    assert [] + a.values + [] == a.values;
    FillingStepsDue(setup, first, p, |words|, words, []);
    PlainStepsUndo(p, words, []);
    UndoConcat(first, PlainSteps(p, words), []);
    PushBackConcat([], Words(a), words);
    assert a.values + [] == a.values && [] + words == words;
  }

  // An option with as many values as there are, then the words of a required positional: each
  // gets its own.
  method ParseReserving(setup: Setup, a: Assignment, p: nat, words: seq<string>)
    returns (ok: bool, results: seq<seq<string>>, missing: seq<(Classifier, string)>)
    requires setup.WellFormed() && Reserving(setup, a, p, words)
    ensures ok && missing == [] && |results| == |setup.specs| && results[a.opt] == a.values && results[p] == words
  {
    hide Open, Setup.Due, Setup.InOrder, UndoAll, Setup.StepOk, PushBack, ResultsOf, UnusedOf;
    ghost var all := Steps(a) + PlainSteps(p, words);
    ReservingRun(setup, a, p, words);
    OpenFacts(setup, all, []);
    var app := new App(setup, PushBack([], Words(a) + words));
    ghost var taken, left;
    ok, taken, left := app.Parse();
    assert app.Ran(all, []);
    SameRun(setup, all, taken);
    results, missing := app.results, app.missing;
  }

  lemma FirstIsOpen(setup: Setup, a: Assignment, step: Step, stack: seq<string>)
    requires setup.WellFormed() && a.Values? && step.Named? && setup.StepOk(step)
    requires setup.DueStep(step, setup.ResultsAfter([]), [], stack)
    ensures Open(setup, [step], stack) && UnusedOf([step]) == [] && UndoAll([step], stack) == Undo(step, stack)
  {
    hide Undo, Setup.StepOk, Setup.DueStep, Setup.Due, Setup.InOrder, Setup.OnlyPositionals, Setup.Dumping,
      Setup.Freed, MarkSeen;
    NoSteps(setup, Undo(step, stack));
    setup.DueSnoc([], step, setup.ResultsAfter([]), stack);
    setup.InOrderSnoc([], step);
    setup.ClosesSnoc([], step);
    setup.DumpingSnoc([], step);
    OneMoreStep([], step, stack);
    OneUnused(step);
    assert [] + [step] == [step] && [step][..0] == [];
  }

  // The simplest case: one option, one value.
  method ParseOneValue(setup: Setup, o: nat, form: Form, name: string, attached: bool, value: string)
    returns (ok: bool, results: seq<seq<string>>, missing: seq<(Classifier, string)>)
    requires setup.WellFormed() && Answering(setup, o, form, name) && Takes(setup.specs[o], 1)
    requires attached ==> value != ""
    ensures ok && missing == [] && |results| == |setup.specs|
    ensures forall p | 0 <= p < |results| :: results[p] == if p == o then [value] else []
  {
    var a := Values(o, form, name, attached, [value]);
    ok, results, missing := ParseAssignments(setup, [a]);
    assert [a][..0] == [];
    assert forall p: nat :: AllValues([a], p) == [] + ValuesFor(a, p);
    assert AllExtras([a]) == [] + ExtrasOf(a);
  }
}
