// How CLI11's config reader turns section headers into open and close events.
module ConfigSections {
  import opened Text
  import opened Wrappers

  type Path = seq<string>

  // A line that the reader acts on: a header with its brackets off, or an item with its
  // values split up.
  datatype Line = Header(section: string) | Item(name: string, inputs: seq<string>)

  datatype ConfigItem = ConfigItem(parents: Path, name: string, inputs: seq<string>)

  const OPEN := "++"
  const CLOSE := "--"

  predicate IsDefault(section: string) {
    ToLower(section) == "default"
  }

  function SectionPath(section: string): (p: Path)
    ensures IsDefault(section) <==> p == []
  {
    if IsDefault(section) then []
    else Unquoted(if '.' in section then Split(section, '.') else [section])
  }

  // An item's own name, and the path that dots in front of it stand for.
  function ItemName(name: string): string {
    if '.' in name then
      var l := Split(name, '.');
      RemoveQuotes(l[|l| - 1])
    else RemoveQuotes(name)
  }

  function ItemPath(name: string): Path {
    if '.' in name then
      var l := Split(name, '.');
      Unquoted(l[..|l| - 1])
    else []
  }

  // `[default]` in any case.
  lemma DefaultSection(section: string)
    ensures IsDefault(section) <==> SameLetters(section, "default")
  {
    ToLowerChars("default");
    SameInLowerCase(section, "default");
  }

  // A dotted name is the path of its pieces, without their quotes.
  lemma JoinedSection(pieces: seq<string>)
    requires pieces != [] && Undivided(pieces, '.') && pieces[|pieces| - 1] != ""
    requires !IsDefault(Join(pieces, '.'))
    ensures SectionPath(Join(pieces, '.')) == Unquoted(pieces)
  {
    SplitJoined(pieces, '.');
    JoinedHas(pieces, '.');
  }

  // In an item's name the last piece is its own name.
  lemma JoinedItem(pieces: seq<string>)
    requires pieces != [] && Undivided(pieces, '.') && pieces[|pieces| - 1] != ""
    ensures ItemPath(Join(pieces, '.')) == Unquoted(pieces[..|pieces| - 1])
    ensures ItemName(Join(pieces, '.')) == RemoveQuotes(pieces[|pieces| - 1])
  {
    SplitJoined(pieces, '.');
    JoinedHas(pieces, '.');
  }

  // ---- replaying the events ----

  // A value together with the section that was on top when it came.
  datatype Placed = Placed(section: Path, parents: Path, name: string, input: string)

  datatype Replayed = Replayed(open: seq<Path>, placed: seq<Placed>)

  function Top(open: seq<Path>): Path {
    if open == [] then [] else open[|open| - 1]
  }

  function Each(section: Path, parents: Path, name: string, inputs: seq<string>): (r: seq<Placed>)
    ensures |r| == |inputs|
  {
    seq(|inputs|, i requires 0 <= i < |inputs| => Placed(section, parents, name, inputs[i]))
  }

  // An open event must add one segment to the section on top, a close event must name it.
  function Step(st: Replayed, ev: ConfigItem): Option<Replayed> {
    if ev.name == OPEN then
      if ev.parents != [] && ev.parents[..|ev.parents| - 1] == Top(st.open)
      then Some(st.(open := st.open + [ev.parents])) else None
    else if ev.name == CLOSE then
      if st.open != [] && ev.parents == Top(st.open)
      then Some(st.(open := st.open[..|st.open| - 1])) else None
    else
      Some(st.(placed := st.placed + Each(Top(st.open), ev.parents, ev.name, ev.inputs)))
  }

  // What the events are called: `++` goes one section further, `--` leaves the one on top; any
  // other event is out of place, and any other item leaves the sections as they are.
  lemma EventNames(st: Replayed, parents: Path, name: string, inputs: seq<string>)
    ensures Step(st, ConfigItem(parents, "++", inputs)).Some?
       <==> parents != [] && parents[..|parents| - 1] == Top(st.open)
    ensures Step(st, ConfigItem(parents, "--", inputs)).Some? <==> st.open != [] && parents == Top(st.open)
    ensures parents != [] && parents[..|parents| - 1] == Top(st.open) ==>
      Step(st, ConfigItem(parents, "++", inputs)).value == Replayed(st.open + [parents], st.placed)
    ensures Step(Replayed(st.open + [parents], st.placed), ConfigItem(parents, "--", inputs)) == Some(st)
    ensures name != "++" && name != "--" ==>
      && Step(st, ConfigItem(parents, name, inputs)).Some?
      && Step(st, ConfigItem(parents, name, inputs)).value.open == st.open
  {
  }

  function Replay(evs: seq<ConfigItem>): Option<Replayed> {
    if evs == [] then Some(Replayed([], []))
    else
      match Replay(evs[..|evs| - 1])
      case None => None
      case Some(st) => Step(st, evs[|evs| - 1])
  }

  // ---- what a file means ----

  // The section in force after some lines.
  function SectionAt(lines: seq<Line>): string {
    if lines == [] then "default"
    else
      match lines[|lines| - 1]
      case Item(_, _) => SectionAt(lines[..|lines| - 1])
      case Header(s) => if IsDefault(s) then "default" else s
  }

  // Every value in file order, under the section it was written in.
  function Expected(lines: seq<Line>): seq<Placed> {
    if lines == [] then []
    else
      var before := lines[..|lines| - 1];
      match lines[|lines| - 1]
      case Header(_) => Expected(before)
      case Item(name, inputs) =>
        var section := SectionPath(SectionAt(before));
        Expected(before) + Each(section, section + ItemPath(name), ItemName(name), inputs)
  }

  // The section that a `[default]` header has just left, if no other line came since.
  function Left(lines: seq<Line>): Path {
    if lines == [] then []
    else
      var before := lines[..|lines| - 1];
      match lines[|lines| - 1]
      case Item(_, _) => []
      case Header(s) =>
        if !IsDefault(s) then []
        else if SectionAt(before) == "default" then Left(before)
        else SectionPath(SectionAt(before))
  }

  // An item follows a `[default]` header that left a section of two or more segments.
  ghost predicate Stranded(lines: seq<Line>) {
    exists i | 0 <= i < |lines| :: lines[i].Item? && |Left(lines[..i])| > 1
  }

  predicate IsMarker(name: string) {
    name == OPEN || name == CLOSE
  }

  // No item is itself named like an event.
  predicate NoMarkers(lines: seq<Line>) {
    forall i | 0 <= i < |lines| :: lines[i].Item? ==> !IsMarker(ItemName(lines[i].name))
  }

  // An item that is has some value.
  predicate MarkersHaveValues(lines: seq<Line>) {
    forall i | 0 <= i < |lines| :: lines[i].Item? && IsMarker(ItemName(lines[i].name)) ==> lines[i].inputs != []
  }

  lemma {:induction false} NoMarkerPlaced(evs: seq<ConfigItem>)
    ensures Replay(evs).Some? ==>
      forall i | 0 <= i < |Replay(evs).value.placed| :: !IsMarker(Replay(evs).value.placed[i].name)
  {
    if evs != [] {
      NoMarkerPlaced(evs[..|evs| - 1]);
    }
  }

  lemma {:induction false} MarkerExpected(lines: seq<Line>)
    requires !NoMarkers(lines) && MarkersHaveValues(lines)
    ensures exists i :: 0 <= i < |Expected(lines)| && IsMarker(Expected(lines)[i].name)
  {
    var before, last := lines[..|lines| - 1], lines[|lines| - 1];
    if NoMarkers(before) {
      assert last.Item? && IsMarker(ItemName(last.name)) && last.inputs != [];
      assert IsMarker(Expected(lines)[|Expected(before)|].name);
    } else {
      MarkerExpected(before);
      var i :| 0 <= i < |Expected(before)| && IsMarker(Expected(before)[i].name);
      assert Expected(lines)[i] == Expected(before)[i];
    }
  }

  // The values of an item that is replayed as an event are found nowhere.
  lemma MarkersAreLost(lines: seq<Line>, evs: seq<ConfigItem>)
    requires !NoMarkers(lines) && MarkersHaveValues(lines)
    ensures Replay(evs) != Some(Replayed([], Expected(lines)))
  {
    NoMarkerPlaced(evs);
    MarkerExpected(lines);
  }

  lemma NoMarkersSnoc(lines: seq<Line>, line: Line)
    ensures NoMarkers(lines + [line]) <==> NoMarkers(lines) && (line.Item? ==> !IsMarker(ItemName(line.name)))
  {
    var all := lines + [line];
    assert all[|lines|] == line && forall i | 0 <= i < |lines| :: all[i] == lines[i];
  }

  // ---- stacks of nested sections ----

  function Prefixes(p: Path): seq<Path> {
    if p == [] then [] else Prefixes(p[..|p| - 1]) + [p]
  }

  predicate EndsClosed(evs: seq<ConfigItem>) {
    evs != [] && evs[|evs| - 1].name == CLOSE
  }

  // The events without a close event at the end, which the next header may take back.
  function Base(evs: seq<ConfigItem>): seq<ConfigItem> {
    if EndsClosed(evs) then evs[..|evs| - 1] else evs
  }

  lemma {:induction false} NoneStays(a: seq<ConfigItem>, b: seq<ConfigItem>)
    requires a <= b && Replay(a) == None
    ensures Replay(b) == None
  {
    if |a| < |b| {
      assert a <= b[..|b| - 1];
      NoneStays(a, b[..|b| - 1]);
    } else {
      assert a == b;
    }
  }

  lemma ReplaySnoc(evs: seq<ConfigItem>, ev: ConfigItem)
    ensures Replay(evs + [ev]) == match Replay(evs) case None => None case Some(st) => Step(st, ev)
  {
    assert (evs + [ev])[..|evs|] == evs;
  }

  // Closing q segments deep in P: the last event closes P[..q], still open before it.
  ghost predicate Closing(evs: seq<ConfigItem>, p: Path, q: nat, placed: seq<Placed>) {
    && 1 <= q <= |p| && evs != []
    && evs[|evs| - 1].name == CLOSE && evs[|evs| - 1].parents == p[..q]
    && Replay(evs[..|evs| - 1]) == Some(Replayed(Prefixes(p[..q]), placed))
  }

  lemma ClosingReplay(evs: seq<ConfigItem>, p: Path, q: nat, placed: seq<Placed>)
    requires Closing(evs, p, q, placed)
    ensures Replay(evs) == Some(Replayed(Prefixes(p[..q - 1]), placed))
  {
    assert p[..q][..q - 1] == p[..q - 1];
    assert Prefixes(p[..q]) == Prefixes(p[..q - 1]) + [p[..q]];
  }

  // Repeats the last close event one segment up until it has fewer than `size` segments.
  method CloseDownTo(evs: seq<ConfigItem>, size: nat, ghost p: Path, ghost placed: seq<Placed>)
    returns (out: seq<ConfigItem>)
    requires EndsClosed(evs) && size >= 2
    ensures EndsClosed(out) && Base(evs) <= Base(out)
    ensures |out[|out| - 1].parents| < size
    ensures |evs[|evs| - 1].parents| < size ==> out == evs
    ensures Closing(evs, p, |evs[|evs| - 1].parents|, placed) ==> Closing(out, p, |out[|out| - 1].parents|, placed)
    ensures out[|out| - 1].parents <= evs[|evs| - 1].parents
    ensures |evs[|evs| - 1].parents| >= size ==> |out[|out| - 1].parents| == size - 1
  {
    out := evs;
    while |out[|out| - 1].parents| >= size
      invariant EndsClosed(out) && Base(evs) <= Base(out)
      invariant out[|out| - 1].parents <= evs[|evs| - 1].parents
      invariant |evs[|evs| - 1].parents| < size ==> out == evs
      invariant |evs[|evs| - 1].parents| >= size ==> |out[|out| - 1].parents| >= size - 1
      invariant Closing(evs, p, |evs[|evs| - 1].parents|, placed) ==> Closing(out, p, |out[|out| - 1].parents|, placed)
      decreases |out[|out| - 1].parents|
    {
      var back := out[|out| - 1];
      var q := |back.parents|;
      if Closing(out, p, q, placed) {
        ClosingReplay(out, p, q, placed);
        assert p[..q][..q - 1] == p[..q - 1];
      }
      out := out + [back.(parents := back.parents[..q - 1])];
    }
  }

  // Opens parents[..from+1], .., parents[..|parents|-1].
  method OpenParents(evs: seq<ConfigItem>, parents: Path, from: nat, ghost placed: seq<Placed>)
    returns (out: seq<ConfigItem>)
    requires from < |parents|
    ensures evs <= out
    ensures Replay(evs) == Some(Replayed(Prefixes(parents[..from]), placed))
        ==> Replay(out) == Some(Replayed(Prefixes(parents[..|parents| - 1]), placed))
    ensures from == 0 && Misplaced(evs) ==> Replay(out) == None || (Misplaced(out) && |parents| == 1)
  {
    out := evs;
    for ii := from to |parents| - 1
      invariant evs <= out
      invariant Replay(evs) == Some(Replayed(Prefixes(parents[..from]), placed))
            ==> Replay(out) == Some(Replayed(Prefixes(parents[..ii]), placed))
      invariant from == 0 && Misplaced(evs) ==> Replay(out) == None || (Misplaced(out) && ii == 0)
    {
      ReplaySnoc(out, ConfigItem(parents[..ii + 1], OPEN, []));
      assert parents[..ii + 1][..ii] == parents[..ii];
      TopOfPrefixes(parents[..ii]);
      out := out + [ConfigItem(parents[..ii + 1], OPEN, [])];
    }
  }

  lemma TopOfPrefixes(p: Path)
    ensures Top(Prefixes(p)) == p
  {
  }

  // Replaying leaves a section open below which no new header can be placed.
  ghost predicate Misplaced(evs: seq<ConfigItem>) {
    && Replay(evs).Some?
    && Top(Replay(evs).value.open) != []
  }

  // The number of leading segments that a shares with b, the last of b aside.
  method CountCommon(a: Path, b: Path) returns (common: nat, mpair: nat)
    requires |b| >= 1
    ensures mpair == if |a| < |b| - 1 then |a| else |b| - 1
    ensures common <= mpair && a[..common] == b[..common]
    ensures common < mpair ==> a[common] != b[common]
  {
    common := 0;
    mpair := if |a| < |b| - 1 then |a| else |b| - 1;
    while common < mpair && a[common] == b[common]
      invariant common <= mpair
      invariant a[..common] == b[..common]
    {
      common := common + 1;
    }
  }

  // From the section just closed to the parents of the next one.
  method SwitchParents(evs: seq<ConfigItem>, parents: Path, ghost p: Path, ghost placed: seq<Placed>)
    returns (out: seq<ConfigItem>)
    requires EndsClosed(evs) && |parents| > 1
    ensures Base(evs) <= out
    ensures Closing(evs, p, |p|, placed)
        ==> Replay(out) == Some(Replayed(Prefixes(parents[..|parents| - 1]), placed))
  {
    hide Replay;
    ghost var closing := Closing(evs, p, |p|, placed);
    out := CloseDownTo(evs, |parents|, p, placed);
    var back := out[|out| - 1].parents;
    assert closing ==> Closing(out, p, |back|, placed);
    assert p[..|p|] == p;
    var common, mpair := CountCommon(back, parents);
    if common == mpair {
      out := out[..|out| - 1];
    } else {
      out := CloseDownTo(out, common + 2, p, placed);
      if closing {
        ClosingReplay(out, p, common + 1, placed);
      }
    }
    if closing {
      assert p[..common] == back[..common] == parents[..common];
    }
    out := OpenParents(out, parents, common, placed);
  }

  // What a new section's header adds: closes what it does not share with the section just
  // closed, and opens the rest, parents first.
  method CheckParentSegments(evs: seq<ConfigItem>, currentSection: string, ghost p: Path, ghost placed: seq<Placed>)
    returns (out: seq<ConfigItem>)
    requires !IsDefault(currentSection)
    ensures out != [] && out[|out| - 1] == ConfigItem(SectionPath(currentSection), OPEN, [])
    ensures Base(evs) <= out
    ensures Closing(evs, p, |p|, placed)
         || (!EndsClosed(evs) && Replay(evs) == Some(Replayed([], placed)))
        ==> Replay(out) == Some(Replayed(Prefixes(SectionPath(currentSection)), placed))
    ensures !EndsClosed(evs) && Misplaced(evs) ==> Replay(out) == None
  {
    hide Replay, SectionPath, IsDefault;
    var parents := SectionPath(currentSection);
    out := evs;
    if EndsClosed(evs) {
      if |parents| > 1 {
        out := SwitchParents(evs, parents, p, placed);
      } else {
        out := CloseDownTo(evs, 2, p, placed);
        if Closing(evs, p, |p|, placed) {
          assert p[..|p|] == p;
          ClosingReplay(out, p, 1, placed);
        }
      }
    } else if |parents| > 1 {
      out := OpenParents(evs, parents, 0, placed);
    }
    ReplaySnoc(out, ConfigItem(parents, OPEN, []));
    TopOfPrefixes(parents[..|parents| - 1]);
    out := out + [ConfigItem(parents, OPEN, [])];
  }

  method RemoveAllQuotes(p: Path) returns (r: Path)
    ensures r == Unquoted(p)
  {
    r := p;
    for i := 0 to |r|
      invariant |r| == |p|
      invariant forall k | 0 <= k < |p| :: r[k] == if k < i then RemoveQuotes(p[k]) else p[k]
    {
      r := r[i := RemoveQuotes(r[i])];
    }
  }

  // The source's generate_parents: the full path of an item, and its name without the path.
  method GenerateParents(section: string, name: string) returns (parents: Path, rest: string)
    ensures parents == SectionPath(section) + ItemPath(name)
    ensures rest == if '.' in name then ItemName(name) else name
  {
    hide Split, RemoveQuotes, Unquoted;
    parents, rest := [], name;
    if !IsDefault(section) {
      parents := if '.' in section then Split(section, '.') else [section];
    }
    ghost var own := parents;
    if '.' in name {
      var plist := Split(name, '.');
      rest := RemoveQuotes(plist[|plist| - 1]);
      parents := parents + plist[..|plist| - 1];
      UnquotedConcat(own, plist[..|plist| - 1]);
    } else {
      UnquotedConcat(own, []);
      assert own + [] == own;
    }
    parents := RemoveAllQuotes(parents);
  }

  // ---- the reader's state after some lines ----

  ghost predicate OnTrack(evs: seq<ConfigItem>, lines: seq<Line>) {
    var section, left := SectionAt(lines), Left(lines);
    if section != "default" then
      !EndsClosed(evs) && Replay(evs) == Some(Replayed(Prefixes(SectionPath(section)), Expected(lines)))
    else if left != [] then
      Closing(evs, left, |left|, Expected(lines))
    else
      !EndsClosed(evs) && Replay(evs) == Some(Replayed([], Expected(lines)))
  }

  ghost predicate OffTrack(evs: seq<ConfigItem>, lines: seq<Line>) {
    && (SectionAt(lines) != "default" ==> !EndsClosed(evs))
    && (|| Replay(Base(evs)) == None
        || (SectionAt(lines) == "default" && Left(lines) == [] && !EndsClosed(evs) && Misplaced(evs)))
  }

  ghost predicate Tracks(evs: seq<ConfigItem>, lines: seq<Line>) {
    NoMarkers(lines) ==> if Stranded(lines) then OffTrack(evs, lines) else OnTrack(evs, lines)
  }

  lemma StrandedStep(lines: seq<Line>, line: Line)
    ensures Stranded(lines + [line]) <==> Stranded(lines) || (line.Item? && |Left(lines)| > 1)
  {
    var all := lines + [line];
    assert forall i | 0 <= i <= |lines| :: all[..i] == lines[..i];
    assert lines[..|lines|] == lines;
    if Stranded(lines) {
      var i :| 0 <= i < |lines| && lines[i].Item? && |Left(lines[..i])| > 1;
      assert all[i].Item? && |Left(all[..i])| > 1;
    }
    if line.Item? && |Left(lines)| > 1 {
      assert all[|lines|].Item? && |Left(all[..|lines|])| > 1;
    }
  }

  lemma SectionIsCanonical(lines: seq<Line>)
    ensures SectionAt(lines) == "default" || !IsDefault(SectionAt(lines))
    ensures SectionAt(lines) != "default" ==> Left(lines) == []
  {
  }

  lemma ItemLine(lines: seq<Line>, name: string, inputs: seq<string>)
    ensures var all, section := lines + [Item(name, inputs)], SectionPath(SectionAt(lines));
            && SectionAt(all) == SectionAt(lines)
            && Left(all) == []
            && Expected(all) == Expected(lines) + Each(section, section + ItemPath(name), ItemName(name), inputs)
  {
    assert (lines + [Item(name, inputs)])[..|lines|] == lines;
  }

  lemma HeaderLine(lines: seq<Line>, section: string)
    ensures var all, before := lines + [Header(section)], SectionAt(lines);
            && SectionAt(all) == (if IsDefault(section) then "default" else section)
            && Left(all) == (if !IsDefault(section) then []
                             else if before == "default" then Left(lines) else SectionPath(before))
            && Expected(all) == Expected(lines)
  {
    assert (lines + [Header(section)])[..|lines|] == lines;
  }

  lemma EachConcat(section: Path, parents: Path, name: string, a: seq<string>, b: seq<string>)
    ensures Each(section, parents, name, a + b) == Each(section, parents, name, a) + Each(section, parents, name, b)
  {
  }

  lemma ItemStep(st: Replayed, ev: ConfigItem)
    requires !IsMarker(ev.name)
    ensures Step(st, ev) == Some(Replayed(st.open, st.placed + Each(Top(st.open), ev.parents, ev.name, ev.inputs)))
  {
  }

  // An item with the values of two is replayed like the two.
  lemma MergedStep(st: Replayed, back: ConfigItem, inputs: seq<string>)
    requires !IsMarker(back.name)
    ensures var one, top := Step(st, back), Top(st.open);
            && one.Some? && one.value.open == st.open
            && Step(st, back.(inputs := back.inputs + inputs))
               == Some(Replayed(st.open, one.value.placed + Each(top, back.parents, back.name, inputs)))
  {
    hide Step, Each, Top;
    var top := Top(st.open);
    ItemStep(st, back);
    ItemStep(st, back.(inputs := back.inputs + inputs));
    EachConcat(top, back.parents, back.name, back.inputs, inputs);
    var a, b := Each(top, back.parents, back.name, back.inputs), Each(top, back.parents, back.name, inputs);
    assert st.placed + (a + b) == st.placed + a + b;
  }

  // Adds an item, or its values to the item before when that has the same path and name.
  method AddItem(evs: seq<ConfigItem>, parents: Path, name: string, inputs: seq<string>) returns (out: seq<ConfigItem>)
    ensures !IsMarker(name) ==> !EndsClosed(out)
    ensures !IsMarker(name) && Replay(Base(evs)) == None ==> Replay(out) == None
    ensures !IsMarker(name) && Replay(evs).Some? ==>
      var st := Replay(evs).value;
      Replay(out) == Some(st.(placed := st.placed + Each(Top(st.open), parents, name, inputs)))
  {
    hide Replay, Each, Top, Step;
    if evs != [] && name == evs[|evs| - 1].name && parents == evs[|evs| - 1].parents {
      var rest, back := evs[..|evs| - 1], evs[|evs| - 1];
      assert evs == rest + [back];
      var merged := back.(inputs := back.inputs + inputs);
      ReplaySnoc(rest, back);
      ReplaySnoc(rest, merged);
      if !IsMarker(name) && Replay(rest).Some? {
        MergedStep(Replay(rest).value, back, inputs);
      }
      out := rest + [merged];
    } else {
      out := evs + [ConfigItem(parents, name, inputs)];
      ReplaySnoc(evs, ConfigItem(parents, name, inputs));
      if !IsMarker(name) && Replay(evs).Some? {
        ItemStep(Replay(evs).value, ConfigItem(parents, name, inputs));
      }
      if Replay(Base(evs)) == None {
        NoneStays(Base(evs), evs);
      }
    }
  }

  method ReadItem(evs: seq<ConfigItem>, section: string, name: string, inputs: seq<string>, ghost lines: seq<Line>)
    returns (out: seq<ConfigItem>)
    requires Tracks(evs, lines) && section == SectionAt(lines)
    ensures Tracks(out, lines + [Item(name, inputs)])
    ensures SectionAt(lines + [Item(name, inputs)]) == section
  {
    var bare := if '.' in name then name else RemoveQuotes(name);
    var parents, rest := GenerateParents(section, bare);
    BareName(name);
    out := AddItem(evs, parents, rest, inputs);
    ItemLine(lines, name, inputs);
    ItemTracked(evs, out, section, name, inputs, lines);
  }

  lemma BareName(name: string)
    ensures var bare := if '.' in name then name else RemoveQuotes(name);
            && ItemPath(bare) == ItemPath(name)
            && (if '.' in bare then ItemName(bare) else bare) == ItemName(name)
  {
  }

  lemma ItemTracked(evs: seq<ConfigItem>, out: seq<ConfigItem>, section: string, name: string, inputs: seq<string>,
        lines: seq<Line>)
    requires Tracks(evs, lines) && section == SectionAt(lines)
    requires !IsMarker(ItemName(name)) ==> !EndsClosed(out)
    requires !IsMarker(ItemName(name)) && Replay(Base(evs)) == None ==> Replay(out) == None
    requires !IsMarker(ItemName(name)) && Replay(evs).Some? ==>
      var st := Replay(evs).value;
      var more := Each(Top(st.open), SectionPath(section) + ItemPath(name), ItemName(name), inputs);
      Replay(out) == Some(st.(placed := st.placed + more))
    ensures Tracks(out, lines + [Item(name, inputs)])
  {
    hide Replay, SectionAt, Left, Expected, Stranded, Each, ItemPath, ItemName, SectionPath;
    ItemLine(lines, name, inputs);
    StrandedStep(lines, Item(name, inputs));
    NoMarkersSnoc(lines, Item(name, inputs));
    SectionIsCanonical(lines);
    TopOfPrefixes(SectionPath(section));
    var left := Left(lines);
    if NoMarkers(lines) && !Stranded(lines) && left != [] {
      assert left[..|left|] == left;
      ClosingReplay(evs, left, |left|, Expected(lines));
      TopOfPrefixes(left[..|left| - 1]);
    }
  }

  // Closing the section on top, as an event that the next header may still take back.
  lemma CloseEvent(evs: seq<ConfigItem>, path: Path, placed: seq<Placed>, out: seq<ConfigItem>)
    requires out == evs + [ConfigItem(path, CLOSE, [])] && path != []
    ensures EndsClosed(out) && Base(out) == evs
    ensures Replay(evs) == Some(Replayed(Prefixes(path), placed)) ==> Closing(out, path, |path|, placed)
  {
    hide Replay, Prefixes;
    assert out[..|out| - 1] == evs && path[..|path|] == path;
  }

  method ReadHeader(evs: seq<ConfigItem>, section: string, next: string, ghost lines: seq<Line>)
    returns (out: seq<ConfigItem>, section': string)
    requires Tracks(evs, lines) && section == SectionAt(lines)
    ensures Tracks(out, lines + [Header(next)]) && section' == SectionAt(lines + [Header(next)])
  {
    hide Replay, SectionAt, Left, Expected, Stranded, SectionPath, Prefixes;
    HeaderLine(lines, next);
    StrandedStep(lines, Header(next));
    NoMarkersSnoc(lines, Header(next));
    SectionIsCanonical(lines);
    ghost var path, placed := if section != "default" then SectionPath(section) else Left(lines), Expected(lines);
    out := evs;
    if section != "default" {
      var parents, _ := GenerateParents(section, "");
      out := out + [ConfigItem(parents, CLOSE, [])];
      assert ItemPath("") == [] && parents == path;
      CloseEvent(evs, path, placed, out);
    }
    section' := next;
    if IsDefault(section') {
      section' := "default";
    } else {
      ghost var before := out;
      out := CheckParentSegments(out, section', path, placed);
      if Replay(Base(before)) == None {
        NoneStays(Base(before), out);
      }
    }
  }

  // The whole reader. Replaying its events succeeds, ends with every section closed and finds
  // each value under its own section, in file order, exactly when no `[default]` header leaves
  // a section of two or more segments with an item or the end of the file coming next, and no
  // item is named `++` or `--`. (One without values is left open.)
  method FromConfig(lines: seq<Line>) returns (evs: seq<ConfigItem>)
    ensures MarkersHaveValues(lines) ==>
      (Replay(evs) == Some(Replayed([], Expected(lines)))
       <==> NoMarkers(lines) && !Stranded(lines) && |Left(lines)| <= 1)
  {
    hide Tracks, SectionAt, Replay, Expected, Stranded, Left;
    evs := [];
    var section := "default";
    NothingRead();
    assert lines[..0] == [];
    for i := 0 to |lines|
      invariant section == SectionAt(lines[..i])
      invariant Tracks(evs, lines[..i])
    {
      assert lines[..i + 1] == lines[..i] + [lines[i]];
      match lines[i]
      case Header(next) => evs, section := ReadHeader(evs, section, next, lines[..i]);
      case Item(name, inputs) => evs := ReadItem(evs, section, name, inputs, lines[..i]);
    }
    assert lines[..|lines|] == lines;
    evs := CloseFile(evs, section, lines);
    if !NoMarkers(lines) && MarkersHaveValues(lines) {
      MarkersAreLost(lines, evs);
    }
  }

  lemma NothingRead()
    ensures Tracks([], []) && SectionAt([]) == "default"
  {
  }

  method CloseFile(evs: seq<ConfigItem>, section: string, ghost lines: seq<Line>) returns (out: seq<ConfigItem>)
    requires Tracks(evs, lines) && section == SectionAt(lines)
    ensures NoMarkers(lines) ==>
      (Replay(out) == Some(Replayed([], Expected(lines))) <==> !Stranded(lines) && |Left(lines)| <= 1)
  {
    hide Replay, SectionAt, Left, Expected, Stranded, SectionPath;
    SectionIsCanonical(lines);
    ghost var left := Left(lines);
    out := evs;
    if section != "default" {
      ghost var path := SectionPath(section);
      var parents, _ := GenerateParents(section, "");
      out := out + [ConfigItem(parents, CLOSE, [])];
      assert ItemPath("") == [] && parents == path;
      CloseEvent(evs, path, Expected(lines), out);
      ghost var closed := out;
      out := CloseDownTo(out, 2, path, Expected(lines));
      if NoMarkers(lines) && Stranded(lines) {
        NoneStays(Base(closed), out);
      } else if NoMarkers(lines) {
        ClosingReplay(out, path, 1, Expected(lines));
      }
    } else if NoMarkers(lines) {
      if !Stranded(lines) && left != [] {
        assert left[..|left|] == left;
        ClosingReplay(evs, left, |left|, Expected(lines));
        TopOfPrefixes(left[..|left| - 1]);
      } else if Stranded(lines) && Replay(Base(evs)) == None {
        NoneStays(Base(evs), evs);
      }
    }
  }

  lemma DottedHeader()
    ensures Left([Header("a.b"), Header("default")]) == ["a", "b"]
  {
    var lines := [Header("a.b"), Header("default")];
    var name := "a.b";
    assert name[0] == 'a' && name[1] == '.';
    assert Find(name, '.') == 1;
    assert name[..1] == "a" && name[2..] == "b";
    assert Pieces("b", '.') == ["b"];
    assert Split(name, '.') == ["a", "b"];
    assert !IsDefault("a.b") && IsDefault("default");
    assert lines[..1] == [Header("a.b")];
    HeaderLine([], "a.b");
    assert SectionPath("a.b") == ["a", "b"];
  }

  // An item named `++` is replayed as an event.
  method MarkerExample() returns (evs: seq<ConfigItem>)
    ensures var lines := [Item("++", ["1"])];
            !Stranded(lines) && Left(lines) == [] && Replay(evs) != Some(Replayed([], Expected(lines)))
  {
    hide Replay, Expected;
    var lines := [Item("++", ["1"])];
    var name := "++";
    assert '.' !in name && ItemName(name) == OPEN;
    assert lines[0].Item? && lines[..0] == [];
    evs := FromConfig(lines);
  }

  // Two files that are not well nested: the section `a` is still open when `x` comes, or when
  // the file ends.
  method StrandedExample() returns (evs: seq<ConfigItem>)
    ensures var lines := [Header("a.b"), Header("default"), Item("x", ["1"])];
            NoMarkers(lines) && Replay(evs) != Some(Replayed([], Expected(lines)))
  {
    hide Replay, Expected, Left, Split;
    DottedHeader();
    var lines := [Header("a.b"), Header("default"), Item("x", ["1"])];
    assert lines[..2] == [Header("a.b"), Header("default")];
    assert lines[2].Item?;
    evs := FromConfig(lines);
  }

  method LeftOpenExample() returns (evs: seq<ConfigItem>)
    ensures var lines := [Header("a.b"), Header("default")];
            NoMarkers(lines) && Replay(evs) != Some(Replayed([], Expected(lines)))
  {
    hide Replay, Expected, Left;
    DottedHeader();
    evs := FromConfig([Header("a.b"), Header("default")]);
  }
}
