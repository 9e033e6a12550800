// Config files that are written from sections and items, and what the reader makes of them.
module SectionFiles {
  import opened ConfigSections
  import opened Sequences
  import opened Text
  import opened Wrappers

  // An item below some further path, and a section with its items.
  datatype Entry = Entry(path: Path, name: string, values: seq<string>)

  datatype Block = Block(section: Path, entries: seq<Entry>)

  // ---- how they are written ----

  function EntryLine(e: Entry): Line {
    Item(Join(e.path + [e.name], '.'), e.values)
  }

  function EntryLines(entries: seq<Entry>): seq<Line> {
    if entries == [] then [] else EntryLines(entries[..|entries| - 1]) + [EntryLine(entries[|entries| - 1])]
  }

  // Items outside any section come first.
  function FileLines(top: seq<Entry>, blocks: seq<Block>): seq<Line> {
    if blocks == [] then EntryLines(top)
    else
      var last := blocks[|blocks| - 1];
      FileLines(top, blocks[..|blocks| - 1]) + [Header(Join(last.section, '.'))] + EntryLines(last.entries)
  }

  predicate IsPiece(p: string) {
    '.' !in p && !Enclosed(p)
  }

  predicate ProperEntry(e: Entry) {
    (forall i | 0 <= i < |e.path| :: IsPiece(e.path[i])) && IsPiece(e.name) && e.name != "" && !IsMarker(e.name)
  }

  predicate ProperEntries(entries: seq<Entry>) {
    forall i | 0 <= i < |entries| :: ProperEntry(entries[i])
  }

  predicate ProperBlock(b: Block) {
    && (forall i | 0 <= i < |b.section| :: IsPiece(b.section[i]))
    && b.section != [] && b.section[|b.section| - 1] != "" && !IsDefault(Join(b.section, '.'))
    && ProperEntries(b.entries)
  }

  // ---- what they mean ----

  function ValuesAt(section: Path, e: Entry, n: nat): seq<Placed>
    requires n <= |e.values|
  {
    if n == 0 then []
    else ValuesAt(section, e, n - 1) + [Placed(section, section + e.path, e.name, e.values[n - 1])]
  }

  function EntriesAt(section: Path, entries: seq<Entry>): seq<Placed> {
    if entries == [] then []
    else
      var last := entries[|entries| - 1];
      EntriesAt(section, entries[..|entries| - 1]) + ValuesAt(section, last, |last.values|)
  }

  function BlocksAt(top: seq<Entry>, blocks: seq<Block>): seq<Placed> {
    if blocks == [] then EntriesAt([], top)
    else
      var last := blocks[|blocks| - 1];
      BlocksAt(top, blocks[..|blocks| - 1]) + EntriesAt(last.section, last.entries)
  }

  // ---- the two together ----

  lemma PiecesStay(p: Path)
    requires forall i | 0 <= i < |p| :: IsPiece(p[i])
    ensures Unquoted(p) == p && Undivided(p, '.')
  {
  }

  lemma {:induction false} ValuesAreEach(section: Path, e: Entry, n: nat)
    requires n <= |e.values|
    ensures ValuesAt(section, e, n) == Each(section, section + e.path, e.name, e.values[..n])
  {
    if n > 0 {
      ValuesAreEach(section, e, n - 1);
      assert e.values[..n] == e.values[..n - 1] + [e.values[n - 1]];
    }
  }

  lemma EntryNames(e: Entry)
    requires ProperEntry(e)
    ensures ItemPath(EntryLine(e).name) == e.path && ItemName(EntryLine(e).name) == e.name
  {
    var pieces := e.path + [e.name];
    PiecesStay(pieces);
    JoinedItem(pieces);
    PiecesStay(e.path);
    assert pieces[..|pieces| - 1] == e.path;
  }

  // No line that goes back to the top level.
  predicate NoDefault(lines: seq<Line>) {
    forall i | 0 <= i < |lines| :: lines[i].Header? ==> !IsDefault(lines[i].section)
  }

  lemma NothingStranded(lines: seq<Line>)
    requires NoDefault(lines)
    ensures Left(lines) == [] && !Stranded(lines)
  {
    forall i | 0 <= i <= |lines|
      ensures Left(lines[..i]) == []
    {
    }
    assert lines[..|lines|] == lines;
  }

  ghost predicate Means(lines: seq<Line>, section: Path, placed: seq<Placed>) {
    && NoDefault(lines) && NoMarkers(lines)
    && SectionPath(SectionAt(lines)) == section && Expected(lines) == placed
  }

  lemma EntryMeans(lines: seq<Line>, section: Path, placed: seq<Placed>, e: Entry)
    requires Means(lines, section, placed) && ProperEntry(e)
    ensures Means(lines + [EntryLine(e)], section, placed + ValuesAt(section, e, |e.values|))
  {
    hide SectionAt, Expected, Each, ItemPath, ItemName, SectionPath;
    EntryNames(e);
    ItemLine(lines, EntryLine(e).name, e.values);
    NoMarkersSnoc(lines, EntryLine(e));
    ValuesAreEach(section, e, |e.values|);
    assert e.values[..|e.values|] == e.values;
  }

  lemma {:induction false} EntriesMean(lines: seq<Line>, section: Path, placed: seq<Placed>, entries: seq<Entry>)
    requires Means(lines, section, placed) && ProperEntries(entries)
    ensures Means(lines + EntryLines(entries), section, placed + EntriesAt(section, entries))
  {
    hide Means, ProperEntry, ValuesAt, EntryLine;
    if entries == [] {
      assert lines + [] == lines && placed + [] == placed;
    } else {
      var before, e := entries[..|entries| - 1], entries[|entries| - 1];
      EntriesMean(lines, section, placed, before);
      EntryMeans(lines + EntryLines(before), section, placed + EntriesAt(section, before), e);
      Associative(lines, EntryLines(before), [EntryLine(e)]);
      Associative(placed, EntriesAt(section, before), ValuesAt(section, e, |e.values|));
    }
  }

  lemma HeaderMeans(lines: seq<Line>, was: Path, placed: seq<Placed>, b: Block)
    requires Means(lines, was, placed) && ProperBlock(b)
    ensures Means(lines + [Header(Join(b.section, '.'))], b.section, placed)
  {
    hide SectionAt, Expected, SectionPath, Join, IsDefault;
    var name := Join(b.section, '.');
    PiecesStay(b.section);
    JoinedSection(b.section);
    HeaderLine(lines, name);
    NoMarkersSnoc(lines, Header(name));
  }

  lemma {:induction false} FileMeans(top: seq<Entry>, blocks: seq<Block>)
    requires ProperEntries(top) && forall i | 0 <= i < |blocks| :: ProperBlock(blocks[i])
    ensures Means(FileLines(top, blocks),
                  if blocks == [] then [] else blocks[|blocks| - 1].section, BlocksAt(top, blocks))
  {
    hide Means, ProperEntry, EntryLines, EntriesAt;
    if blocks == [] {
      NoLines();
      EntriesMean([], [], [], top);
      assert [] + EntryLines(top) == EntryLines(top) && [] + EntriesAt([], top) == EntriesAt([], top);
    } else {
      var before, last := blocks[..|blocks| - 1], blocks[|blocks| - 1];
      var lines, placed := FileLines(top, before), BlocksAt(top, before);
      FileMeans(top, before);
      HeaderMeans(lines, if before == [] then [] else before[|before| - 1].section, placed, last);
      EntriesMean(lines + [Header(Join(last.section, '.'))], last.section, placed, last.entries);
    }
  }

  lemma NoLines()
    ensures Means([], [], [])
  {
    DefaultSection("default");
  }

  // A file written from sections and items is read back: the events nest, and every value is
  // found under its own section, path and name, in the order in which it was written.
  method ReadBlocks(top: seq<Entry>, blocks: seq<Block>) returns (evs: seq<ConfigItem>)
    requires ProperEntries(top) && forall i | 0 <= i < |blocks| :: ProperBlock(blocks[i])
    ensures Replay(evs) == Some(Replayed([], BlocksAt(top, blocks)))
  {
    hide Replay, Expected, SectionAt, Left, Stranded, ProperBlock, ProperEntry;
    var lines := FileLines(top, blocks);
    FileMeans(top, blocks);
    NothingStranded(lines);
    evs := FromConfig(lines);
  }
}
