/**
 * The report parser: turns the text printed by `info --detailed` into torrent
 * records. The dump is cut into blocks at every blank line and each block into
 * lines; labelled lines fill the fields of one record, and a record is kept
 * only when it has both a name and an id.
 *
 * The functions below state what the parser computes in three layers: each
 * line is read into an `Entry` (which field it sets and to what text), the
 * entries of a block are folded into the block's fields, and the blocks'
 * outcomes are collected into the list of records. `ParseTorrentInfo` is the
 * loop that computes it.
 */
module Report {
  import opened Wrappers
  import opened Text
  import opened Console

  const BlockSeparator: string := "\n\n"
  const LineSeparator: string := "\n"

  const NameLabel: string := "Name:"
  const IdLabel: string := "ID:"
  const StateLabel: string := "State:"
  const RatioLabel: string := "Share Ratio:"
  const TrackerLabel: string := "Tracker:"

  /** Conversion of the share-ratio text to a number; None where the conversion raises. */
  type RatioParser = string -> Option<real>

  /** A share ratio that does not convert aborts the whole parse. */
  datatype ParseError = BadRatio(text: string)

  /** Which field a line sets: the first label that matches, in this order. */
  datatype LineKind = NameLine | IdLine | StateLine | RatioLine | TrackerLine | OtherLine

  function LabelOf(k: LineKind): (tag: string)
    requires k != OtherLine
    ensures tag != []
  {
    match k
    case NameLine => NameLabel
    case IdLine => IdLabel
    case StateLine => StateLabel
    case RatioLine => RatioLabel
    case TrackerLine => TrackerLabel
  }

  /** The line starts with one of the labels tested before the share ratio. */
  predicate Leading(line: string) {
    StartsWith(line, NameLabel) || StartsWith(line, IdLabel) || StartsWith(line, StateLabel)
  }

  /**
   * The field a line sets. Name, id, state and tracker lines must start with
   * their label; the share ratio label may stand anywhere in the line. The
   * labels are tried in the order name, id, state, share ratio, tracker, and
   * the first one that matches decides; a line matching none sets nothing.
   */
  function KindOf(line: string): (k: LineKind)
    ensures k == NameLine <==> StartsWith(line, NameLabel)
    ensures k == IdLine <==> !StartsWith(line, NameLabel) && StartsWith(line, IdLabel)
    ensures k == StateLine <==>
      !StartsWith(line, NameLabel) && !StartsWith(line, IdLabel) && StartsWith(line, StateLabel)
    ensures k == RatioLine <==> !Leading(line) && Contains(line, RatioLabel)
    ensures k == TrackerLine <==>
      !Leading(line) && !Contains(line, RatioLabel) && StartsWith(line, TrackerLabel)
    ensures k == OtherLine <==>
      !Leading(line) && !Contains(line, RatioLabel) && !StartsWith(line, TrackerLabel)
    ensures k != OtherLine ==> Contains(line, LabelOf(k))
  {
    if StartsWith(line, NameLabel) then StartsWithContains(line, NameLabel); NameLine
    else if StartsWith(line, IdLabel) then StartsWithContains(line, IdLabel); IdLine
    else if StartsWith(line, StateLabel) then StartsWithContains(line, StateLabel); StateLine
    else if Contains(line, RatioLabel) then RatioLine
    else if StartsWith(line, TrackerLabel) then StartsWithContains(line, TrackerLabel); TrackerLine
    else OtherLine
  }

  /**
   * A tracker line that also mentions the share ratio is read as a share
   * ratio line: the ratio test comes before the tracker test.
   */
  lemma TrackerLineWithRatio(line: string)
    requires StartsWith(line, TrackerLabel) && Contains(line, RatioLabel)
    ensures KindOf(line) == RatioLine
  {
    assert line[0] == 'T';
  }

  /**
   * The share ratio need not open its line: a line such as
   * `Seed time: ... Share Ratio: 0.6` is a share ratio line.
   */
  lemma MidLineRatio(rest: string, v: string)
    ensures KindOf("Seed time: " + rest + RatioLabel + v) == RatioLine
  {
    var prefix := "Seed time: " + rest;
    var line := prefix + RatioLabel + v;
    assert line[..|prefix| + |RatioLabel|][|prefix|..] == RatioLabel;
    assert OccursAt(line, RatioLabel, |prefix|);
    assert line[1] == 'e';
  }

  /** The value a labelled line carries: the stripped text after the first label. */
  function FieldValue(line: string, tag: string): (v: string)
    requires tag != [] && Contains(line, tag)
    ensures Clean(v)
  {
    Strip(AfterLabel(line, tag))
  }

  /** A line that starts with its label, and holds it once, carries the stripped rest of the line. */
  lemma FieldValueOfLabelledLine(tag: string, rest: string)
    requires tag != [] && !Contains(rest, tag)
    ensures Contains(tag + rest, tag)
    ensures FieldValue(tag + rest, tag) == Strip(rest)
  {
    AfterLeadingMarker(tag, rest);
  }

  /** What one line says: the field it sets and the text it sets it to. */
  datatype Entry = Entry(kind: LineKind, value: string)

  function ReadLine(line: string): (e: Entry)
    ensures e.kind == KindOf(line)
    ensures e.kind == OtherLine ==> e.value == ""
    ensures e.kind != OtherLine ==> e.value == FieldValue(line, LabelOf(e.kind))
  {
    var k := KindOf(line);
    if k == OtherLine then Entry(k, "") else Entry(k, FieldValue(line, LabelOf(k)))
  }

  /**
   * A line made of a label and a rest that does not repeat the label reads as
   * that label's field set to the stripped rest. A tracker line must not also
   * mention the share ratio: such a line is a share ratio line
   * (`TrackerLineWithRatio`).
   */
  lemma ReadLabelledLine(k: LineKind, rest: string)
    requires k != OtherLine && !Contains(rest, LabelOf(k))
    requires k == TrackerLine ==> !Contains(TrackerLabel + rest, RatioLabel)
    ensures ReadLine(LabelOf(k) + rest) == Entry(k, Strip(rest))
  {
    var line := LabelOf(k) + rest;
    assert StartsWith(line, LabelOf(k));
    assert line[..|LabelOf(k)|] == LabelOf(k);
    StartsWithContains(line, LabelOf(k));
    if k == RatioLine {
      assert line[1] == 'h';
      assert !StartsWith(line, StateLabel) && !StartsWith(line, NameLabel) && !StartsWith(line, IdLabel);
    } else if k != NameLine {
      assert line[0] == LabelOf(k)[0];
      assert !StartsWith(line, NameLabel);
      if k != IdLine {
        assert !StartsWith(line, IdLabel);
        if k == TrackerLine {
          assert !StartsWith(line, StateLabel);
        }
      }
    }
    assert KindOf(line) == k;
    FieldValueOfLabelledLine(LabelOf(k), rest);
  }

  function ReadLines(lines: seq<string>): (entries: seq<Entry>)
    ensures |entries| == |lines|
    ensures forall j | 0 <= j < |lines| :: entries[j] == ReadLine(lines[j])
  {
    seq(|lines|, j requires 0 <= j < |lines| => ReadLine(lines[j]))
  }

  /** A record is kept only when it has a name and an id. */
  predicate IsValid(t: Torrent) {
    t.name != "" && t.id != ""
  }

  /** The fields every block starts from: empty texts and a ratio of 0. */
  const Blank: Torrent := Torrent("", "", "", 0.0, "")

  /** The effect of one line on the fields gathered so far. */
  function ApplyEntry(t: Torrent, e: Entry, parseRatio: RatioParser): Result<Torrent, ParseError> {
    match e.kind
    case NameLine => Ok(t.(name := e.value))
    case IdLine => Ok(t.(id := e.value))
    case StateLine => Ok(t.(state := e.value))
    case RatioLine =>
      (match parseRatio(e.value)
       case None => Err(BadRatio(e.value))
       case Some(x) => Ok(t.(ratio := x)))
    case TrackerLine => Ok(t.(tracker := e.value))
    case OtherLine => Ok(t)
  }

  /** The fields after the entries of one block, read in order from `Blank`. */
  function ScanEntries(entries: seq<Entry>, parseRatio: RatioParser): Result<Torrent, ParseError> {
    if entries == [] then Ok(Blank)
    else
      match ScanEntries(entries[..|entries| - 1], parseRatio)
      case Err(e) => Err(e)
      case Ok(t) => ApplyEntry(t, entries[|entries| - 1], parseRatio)
  }

  /** The fields after the lines of one block, each read as it comes. */
  function ScanLines(lines: seq<string>, parseRatio: RatioParser): Result<Torrent, ParseError> {
    if lines == [] then Ok(Blank)
    else
      match ScanLines(lines[..|lines| - 1], parseRatio)
      case Err(e) => Err(e)
      case Ok(t) => ApplyEntry(t, ReadLine(lines[|lines| - 1]), parseRatio)
  }

  /** Reading the lines one at a time is folding their entries. */
  lemma {:induction false} ScanLinesEntries(lines: seq<string>, parseRatio: RatioParser)
    ensures ScanLines(lines, parseRatio) == ScanEntries(ReadLines(lines), parseRatio)
  {
    if lines != [] {
      var n := |lines| - 1;
      ScanLinesEntries(lines[..n], parseRatio);
      assert ReadLines(lines)[..n] == ReadLines(lines[..n]);
    }
  }

  /** The fields of one block. */
  function ScanBlock(block: string, parseRatio: RatioParser): Result<Torrent, ParseError> {
    ScanLines(Split(block, LineSeparator), parseRatio)
  }

  function ScanBlocks(blocks: seq<string>, parseRatio: RatioParser): (results: seq<Result<Torrent, ParseError>>)
    ensures |results| == |blocks|
    ensures forall k | 0 <= k < |blocks| :: results[k] == ScanBlock(blocks[k], parseRatio)
  {
    seq(|blocks|, k requires 0 <= k < |blocks| => ScanBlock(blocks[k], parseRatio))
  }

  /** What one block contributes to the output. */
  function Keep(t: Torrent): seq<Torrent> {
    if IsValid(t) then [t] else []
  }

  /** The records of the blocks' outcomes, in block order; the first error aborts. */
  function Collect(results: seq<Result<Torrent, ParseError>>): Result<seq<Torrent>, ParseError> {
    if results == [] then Ok([])
    else
      match Collect(results[..|results| - 1])
      case Err(e) => Err(e)
      case Ok(ts) =>
        match results[|results| - 1]
        case Err(e) => Err(e)
        case Ok(t) => Ok(ts + Keep(t))
  }

  /** `parse_torrent_info`, as a function of the dump. */
  function Parse(dump: string, parseRatio: RatioParser): Result<seq<Torrent>, ParseError> {
    Collect(ScanBlocks(Split(dump, BlockSeparator), parseRatio))
  }

  // ---------------------------------------------------------------------------
  // One block

  /** An entry whose share ratio does not convert. */
  predicate RatioFails(e: Entry, parseRatio: RatioParser) {
    e.kind == RatioLine && parseRatio(e.value).None?
  }

  /**
   * Scanning a block fails exactly when one of its share ratios does not
   * convert, and it reports the first such text.
   */
  lemma ScanEntriesFails(entries: seq<Entry>, parseRatio: RatioParser)
    ensures ScanEntries(entries, parseRatio).Err? <==> exists j | 0 <= j < |entries| :: RatioFails(entries[j], parseRatio)
    ensures ScanEntries(entries, parseRatio).Err? ==>
      exists j | 0 <= j < |entries| ::
        RatioFails(entries[j], parseRatio)
        && (forall i | 0 <= i < j :: !RatioFails(entries[i], parseRatio))
        && ScanEntries(entries, parseRatio).error == BadRatio(entries[j].value)
  {
    ScanEntriesFirstBad(entries, parseRatio);
    ScanEntriesBadFails(entries, parseRatio);
  }

  /** A failing scan fails on its first bad share ratio. */
  lemma {:induction false} ScanEntriesFirstBad(entries: seq<Entry>, parseRatio: RatioParser)
    ensures ScanEntries(entries, parseRatio).Err? ==>
      exists j | 0 <= j < |entries| ::
        RatioFails(entries[j], parseRatio)
        && (forall i | 0 <= i < j :: !RatioFails(entries[i], parseRatio))
        && ScanEntries(entries, parseRatio).error == BadRatio(entries[j].value)
  {
    if entries != [] {
      var n := |entries| - 1;
      var init := entries[..n];
      ScanEntriesFirstBad(init, parseRatio);
      match ScanEntries(init, parseRatio)
      case Err(e) =>
        var j :| 0 <= j < n && RatioFails(init[j], parseRatio)
          && (forall i | 0 <= i < j :: !RatioFails(init[i], parseRatio))
          && e == BadRatio(init[j].value);
        assert forall i | 0 <= i <= j :: init[i] == entries[i];
      case Ok(t) =>
        ScanEntriesBadFails(init, parseRatio);
        assert forall i | 0 <= i < n :: init[i] == entries[i];
    }
  }

  /** A bad share ratio anywhere makes the scan fail. */
  lemma {:induction false} ScanEntriesBadFails(entries: seq<Entry>, parseRatio: RatioParser)
    ensures (exists j | 0 <= j < |entries| :: RatioFails(entries[j], parseRatio)) ==> ScanEntries(entries, parseRatio).Err?
  {
    if entries != [] {
      var n := |entries| - 1;
      var init := entries[..n];
      ScanEntriesBadFails(init, parseRatio);
      assert forall i | 0 <= i < n :: init[i] == entries[i];
    }
  }

  /** Reading one more line of a block. */
  lemma ScanLinesStep(lines: seq<string>, parseRatio: RatioParser, j: nat)
    requires j < |lines|
    ensures ScanLines(lines[..j + 1], parseRatio) ==
      match ScanLines(lines[..j], parseRatio)
      case Err(e) => Err(e)
      case Ok(t) => ApplyEntry(t, ReadLine(lines[j]), parseRatio)
  {
    assert lines[..j + 1][..j] == lines[..j];
  }

  /** Once a prefix of the lines fails, the whole block fails with the same error. */
  lemma {:induction false} ScanLinesPrefixError(lines: seq<string>, parseRatio: RatioParser, k: nat)
    requires k <= |lines| && ScanLines(lines[..k], parseRatio).Err?
    ensures ScanLines(lines, parseRatio) == ScanLines(lines[..k], parseRatio)
  {
    if k < |lines| {
      var init := lines[..|lines| - 1];
      assert init[..k] == lines[..k];
      ScanLinesPrefixError(init, parseRatio, k);
    } else {
      assert lines[..k] == lines;
    }
  }

  /** The index of the last entry of kind `k`, if there is one. */
  function LastOfKind(entries: seq<Entry>, k: LineKind): (r: Option<nat>)
    ensures r.Some? ==> r.value < |entries| && entries[r.value].kind == k
                        && forall j | r.value < j < |entries| :: entries[j].kind != k
    ensures r.None? ==> forall j | 0 <= j < |entries| :: entries[j].kind != k
  {
    if entries == [] then None
    else if entries[|entries| - 1].kind == k then Some(|entries| - 1)
    else
      var r := LastOfKind(entries[..|entries| - 1], k);
      assert forall j | 0 <= j < |entries| - 1 :: entries[..|entries| - 1][j] == entries[j];
      r
  }

  /** The text field that an entry of kind `k` sets. */
  function TextField(t: Torrent, k: LineKind): string
    requires k != RatioLine && k != OtherLine
  {
    match k
    case NameLine => t.name
    case IdLine => t.id
    case StateLine => t.state
    case TrackerLine => t.tracker
  }

  /**
   * Each text field holds the value of the last entry of its kind in the
   * block, and is empty when the block has none: later lines overwrite
   * earlier ones and nothing carries over from another block.
   */
  lemma {:induction false} ScanEntriesLastWins(entries: seq<Entry>, parseRatio: RatioParser, k: LineKind)
    requires k != RatioLine && k != OtherLine
    requires ScanEntries(entries, parseRatio).Ok?
    ensures TextField(ScanEntries(entries, parseRatio).value, k) ==
      match LastOfKind(entries, k)
      case None => ""
      case Some(j) => entries[j].value
  {
    if entries != [] {
      var n := |entries| - 1;
      var init := entries[..n];
      ScanEntriesLastWins(init, parseRatio, k);
      if entries[n].kind != k {
        match LastOfKind(init, k)
        case None =>
        case Some(j) => assert init[j] == entries[j];
      }
    }
  }

  /**
   * The ratio is the converted value of the last share-ratio entry of the
   * block, and 0 when the block has none.
   */
  lemma {:induction false} ScanEntriesRatio(entries: seq<Entry>, parseRatio: RatioParser)
    requires ScanEntries(entries, parseRatio).Ok?
    ensures var ratio := ScanEntries(entries, parseRatio).value.ratio;
      match LastOfKind(entries, RatioLine)
      case None => ratio == 0.0
      case Some(j) => parseRatio(entries[j].value) == Some(ratio)
  {
    if entries != [] {
      var n := |entries| - 1;
      var init := entries[..n];
      ScanEntriesRatio(init, parseRatio);
      if entries[n].kind != RatioLine {
        match LastOfKind(init, RatioLine)
        case None =>
        case Some(j) => assert init[j] == entries[j];
      }
    }
  }

  /**
   * In terms of the lines of a block: each text field is the stripped text
   * after the label on the last line of its kind, and empty when there is none.
   */
  lemma LinesLastWins(lines: seq<string>, parseRatio: RatioParser, k: LineKind)
    requires k != RatioLine && k != OtherLine
    ensures ScanLines(lines, parseRatio).Ok? ==>
      TextField(ScanLines(lines, parseRatio).value, k) ==
        match LastOfKind(ReadLines(lines), k)
        case None => ""
        case Some(j) => FieldValue(lines[j], LabelOf(k))
  {
    ScanLinesEntries(lines, parseRatio);
    if ScanLines(lines, parseRatio).Ok? {
      ScanEntriesLastWins(ReadLines(lines), parseRatio, k);
    }
  }

  /**
   * In terms of the lines of a block: the ratio is the conversion of the
   * stripped text after "Share Ratio:" on the last line that holds it, and 0
   * when no line does.
   */
  lemma LinesRatio(lines: seq<string>, parseRatio: RatioParser)
    ensures ScanLines(lines, parseRatio).Ok? ==>
      var ratio := ScanLines(lines, parseRatio).value.ratio;
      match LastOfKind(ReadLines(lines), RatioLine)
      case None => ratio == 0.0
      case Some(j) => parseRatio(FieldValue(lines[j], LabelOf(RatioLine))) == Some(ratio)
  {
    ScanLinesEntries(lines, parseRatio);
    if ScanLines(lines, parseRatio).Ok? {
      ScanEntriesRatio(ReadLines(lines), parseRatio);
    }
  }

  // ---------------------------------------------------------------------------
  // The whole dump

  /** Once a prefix of the blocks fails, the whole parse fails with the same error. */
  lemma {:induction false} CollectPrefixError(results: seq<Result<Torrent, ParseError>>, k: nat)
    requires k <= |results| && Collect(results[..k]).Err?
    ensures Collect(results) == Collect(results[..k])
  {
    if k < |results| {
      var init := results[..|results| - 1];
      assert init[..k] == results[..k];
      CollectPrefixError(init, k);
    } else {
      assert results[..k] == results;
    }
  }

  /**
   * Blocks are collected independently and in order: the records of `a + b`
   * are those of `a` followed by those of `b`, and the first error wins.
   */
  lemma {:induction false} CollectAppend(a: seq<Result<Torrent, ParseError>>, b: seq<Result<Torrent, ParseError>>)
    ensures Collect(a).Err? ==> Collect(a + b) == Collect(a)
    ensures Collect(a).Ok? && Collect(b).Err? ==> Collect(a + b) == Collect(b)
    ensures Collect(a).Ok? && Collect(b).Ok? ==> Collect(a + b) == Ok(Collect(a).value + Collect(b).value)
  {
    if b == [] {
      assert a + b == a;
      if Collect(a).Ok? {
        assert Collect(a).value + [] == Collect(a).value;
      }
    } else {
      var n := |b| - 1;
      assert (a + b)[..|a + b| - 1] == a + b[..n];
      assert (a + b)[|a + b| - 1] == b[n];
      CollectAppend(a, b[..n]);
      if Collect(a).Ok? && Collect(b).Ok? {
        var x, y := Collect(a).value, Collect(b[..n]).value;
        var t := b[n].value;
        assert Collect(b) == Ok(y + Keep(t));
        assert Collect(a + b) == Ok((x + y) + Keep(t));
        assert (x + y) + Keep(t) == x + (y + Keep(t));
      }
    }
  }

  /** A single block yields its record when that record has a name and an id, and nothing otherwise. */
  lemma CollectSingle(result: Result<Torrent, ParseError>)
    ensures Collect([result]) ==
      match result
      case Err(e) => Err(e)
      case Ok(t) => Ok(if t.name != "" && t.id != "" then [t] else [])
  {
    assert [result][..0] == [];
    if result.Ok? {
      assert [] + Keep(result.value) == Keep(result.value);
    }
  }

  /**
   * Every record comes from one block and has a name and an id, and every
   * block whose fields include both contributes its record; so there are
   * never more records than blocks.
   */
  lemma {:induction false} CollectShape(results: seq<Result<Torrent, ParseError>>)
    requires Collect(results).Ok?
    ensures var ts := Collect(results).value;
      |ts| <= |results|
      && (forall t | t in ts :: IsValid(t) && Ok(t) in results)
      && (forall t | Ok(t) in results && IsValid(t) :: t in ts)
  {
    if results != [] {
      var n := |results| - 1;
      var init := results[..n];
      CollectShape(init);
      assert results == init + [results[n]];
      forall t | Ok(t) in results && IsValid(t) ensures t in Collect(results).value {
        if Ok(t) in init { } else { assert results[n] == Ok(t); }
      }
    }
  }

  /** An entry list without a name entry, or without an id entry, makes no record. */
  lemma EntriesWithoutNameOrId(entries: seq<Entry>, parseRatio: RatioParser, k: LineKind)
    requires k == NameLine || k == IdLine
    requires forall j | 0 <= j < |entries| :: entries[j].kind != k
    ensures ScanEntries(entries, parseRatio).Ok? ==> Keep(ScanEntries(entries, parseRatio).value) == []
  {
    if ScanEntries(entries, parseRatio).Ok? {
      ScanEntriesLastWins(entries, parseRatio, k);
    }
  }

  /** Lines without a name line, or without an id line, make no record, whatever else they hold. */
  lemma LinesWithoutNameOrId(lines: seq<string>, parseRatio: RatioParser, k: LineKind)
    requires k == NameLine || k == IdLine
    requires forall line | line in lines :: KindOf(line) != k
    ensures ScanLines(lines, parseRatio).Ok? ==> Keep(ScanLines(lines, parseRatio).value) == []
  {
    var entries := ReadLines(lines);
    forall j | 0 <= j < |entries| ensures entries[j].kind != k {
      assert lines[j] in lines;
    }
    ScanLinesEntries(lines, parseRatio);
    EntriesWithoutNameOrId(entries, parseRatio, k);
  }

  /** A block without a name line, or without an id line, contributes no record. */
  lemma BlockWithoutNameOrId(block: string, parseRatio: RatioParser, k: LineKind)
    requires k == NameLine || k == IdLine
    requires forall line | line in Split(block, LineSeparator) :: KindOf(line) != k
    ensures Collect([ScanBlock(block, parseRatio)]).Ok? ==> Collect([ScanBlock(block, parseRatio)]).value == []
  {
    LinesWithoutNameOrId(Split(block, LineSeparator), parseRatio, k);
    CollectSingle(ScanBlock(block, parseRatio));
  }

  /**
   * A dump in which no block has both a name line and an id line yields no
   * record at all, whatever else it lists.
   */
  lemma ParseWithoutPairs(dump: string, parseRatio: RatioParser)
    requires forall block | block in Split(dump, BlockSeparator) ::
      (forall line | line in Split(block, LineSeparator) :: KindOf(line) != NameLine)
      || (forall line | line in Split(block, LineSeparator) :: KindOf(line) != IdLine)
    ensures Parse(dump, parseRatio).Ok? ==> Parse(dump, parseRatio).value == []
  {
    var blocks := Split(dump, BlockSeparator);
    var results := ScanBlocks(blocks, parseRatio);
    forall i | 0 <= i < |results| && results[i].Ok? ensures !IsValid(results[i].value) {
      var lines := Split(blocks[i], LineSeparator);
      assert blocks[i] in blocks;
      if forall line | line in lines :: KindOf(line) != NameLine {
        LinesWithoutNameOrId(lines, parseRatio, NameLine);
      } else {
        LinesWithoutNameOrId(lines, parseRatio, IdLine);
      }
    }
    CollectNoneKept(results);
  }

  /** Blocks none of which has both a name and an id yield no record. */
  lemma {:induction false} CollectNoneKept(results: seq<Result<Torrent, ParseError>>)
    requires forall i | 0 <= i < |results| && results[i].Ok? :: !IsValid(results[i].value)
    ensures Collect(results).Ok? ==> Collect(results).value == []
  {
    if results != [] {
      CollectNoneKept(results[..|results| - 1]);
    }
  }

  /** Lines without a share-ratio line always scan, and keep the default ratio of 0. */
  lemma LinesWithoutRatio(lines: seq<string>, parseRatio: RatioParser)
    requires forall line | line in lines :: KindOf(line) != RatioLine
    ensures ScanLines(lines, parseRatio).Ok? && ScanLines(lines, parseRatio).value.ratio == 0.0
  {
    var entries := ReadLines(lines);
    forall j | 0 <= j < |entries| ensures entries[j].kind != RatioLine {
      assert lines[j] in lines;
    }
    ScanLinesEntries(lines, parseRatio);
    ScanEntriesFails(entries, parseRatio);
    ScanEntriesRatio(entries, parseRatio);
  }

  /** A block without a share-ratio line keeps the default ratio of 0. */
  lemma BlockWithoutRatio(block: string, parseRatio: RatioParser)
    requires forall line | line in Split(block, LineSeparator) :: KindOf(line) != RatioLine
    ensures ScanBlock(block, parseRatio).Ok? && ScanBlock(block, parseRatio).value.ratio == 0.0
  {
    LinesWithoutRatio(Split(block, LineSeparator), parseRatio);
  }

  /** An empty dump has no records. */
  lemma ParseEmpty(parseRatio: RatioParser)
    ensures Parse("", parseRatio) == Ok([])
  {
    assert Split("", BlockSeparator) == [""];
    assert Split("", LineSeparator) == [""];
    assert KindOf("") == OtherLine;
    assert ReadLines([""]) == [Entry(OtherLine, "")];
    assert [Entry(OtherLine, "")][..0] == [];
    assert ScanBlock("", parseRatio) == Ok(Blank);
    CollectSingle(Ok(Blank));
  }

  // ---------------------------------------------------------------------------
  // Round trip: a report written in the format reads back as its torrents

  /** A field value a report line carries unchanged: no surrounding whitespace, no line break. */
  predicate PlainValue(v: string) {
    Clean(v) && forall j | 0 <= j < |v| :: v[j] != '\n'
  }

  /**
   * A value that does not cut its own line short: it does not repeat the
   * line's label, and a tracker does not mention the share ratio either.
   */
  predicate LabelFree(k: LineKind, v: string)
    requires k != OtherLine
  {
    !Contains(v, LabelOf(k)) && (k == TrackerLine ==> !Contains(v, RatioLabel))
  }

  /** A value without a colon. */
  predicate ColonFree(v: string) {
    forall j | 0 <= j < |v| :: v[j] != ':'
  }

  /** Every label ends in a colon, so a value without one is free of them all. */
  lemma ColonFreeValue(k: LineKind, v: string)
    requires k != OtherLine && ColonFree(v)
    ensures LabelFree(k, v)
  {
    AbsentLastChar(v, LabelOf(k));
    AbsentLastChar(v, RatioLabel);
  }

  /** A labelled line: the label, one space, the value. */
  function FieldLine(tag: string, value: string): string {
    tag + (" " + value)
  }

  /** The five lines listing one torrent, its share ratio written as `ratioText`. */
  function RenderLines(t: Torrent, ratioText: string): seq<string> {
    [FieldLine(NameLabel, t.name), FieldLine(IdLabel, t.id), FieldLine(StateLabel, t.state),
     FieldLine(RatioLabel, ratioText), FieldLine(TrackerLabel, t.tracker)]
  }

  function RenderBlock(t: Torrent, ratioText: string): string {
    Join(RenderLines(t, ratioText), LineSeparator)
  }

  /** The blocks listing `torrents`, one each, in order. */
  function RenderBlocks(torrents: seq<Torrent>, ratioTexts: seq<string>): (blocks: seq<string>)
    requires |ratioTexts| == |torrents|
    ensures |blocks| == |torrents|
    ensures forall i | 0 <= i < |torrents| :: blocks[i] == RenderBlock(torrents[i], ratioTexts[i])
  {
    seq(|torrents|, i requires 0 <= i < |torrents| => RenderBlock(torrents[i], ratioTexts[i]))
  }

  /** A report listing `torrents` in order, one block each. */
  function RenderReport(torrents: seq<Torrent>, ratioTexts: seq<string>): string
    requires |ratioTexts| == |torrents|
  {
    Join(RenderBlocks(torrents, ratioTexts), BlockSeparator)
  }

  /** A torrent a report can list so that it reads back as itself. */
  predicate Renderable(t: Torrent, ratioText: string, parseRatio: RatioParser) {
    IsValid(t) && PlainValue(t.name) && PlainValue(t.id) && PlainValue(t.state) && PlainValue(t.tracker)
    && PlainValue(ratioText) && parseRatio(ratioText) == Some(t.ratio)
    && LabelFree(NameLine, t.name) && LabelFree(IdLine, t.id) && LabelFree(StateLine, t.state)
    && LabelFree(RatioLine, ratioText) && LabelFree(TrackerLine, t.tracker)
  }

  /** A value after a space holds no label that the value itself does not hold. */
  lemma SpacedValueFree(tag: string, v: string)
    requires tag != [] && tag[0] != ' ' && !Contains(v, tag)
    ensures !Contains(" " + v, tag)
  {
    PrefixedFree(" ", v, tag);
  }

  /** A tracker line whose value does not mention the share ratio does not either. */
  lemma TrackerLineFree(v: string)
    requires !Contains(v, RatioLabel)
    ensures !Contains(FieldLine(TrackerLabel, v), RatioLabel)
  {
    SpacedValueFree(RatioLabel, v);
    PrefixedFree(TrackerLabel, " " + v, RatioLabel);
  }

  /** Stripping a space off a clean value gives the value. */
  lemma StripSpaced(v: string)
    requires Clean(v)
    ensures Strip(" " + v) == v
  {
    StripPadded(" ", v, []);
    assert " " + v + [] == " " + v;
  }

  /** A labelled line with a plain value free of the label reads as that field set to the value. */
  lemma ReadFieldLine(k: LineKind, v: string)
    requires k != OtherLine && PlainValue(v) && LabelFree(k, v)
    ensures ReadLine(FieldLine(LabelOf(k), v)) == Entry(k, v)
  {
    SpacedValueFree(LabelOf(k), v);
    if k == TrackerLine {
      TrackerLineFree(v);
    }
    ReadLabelledLine(k, " " + v);
    StripSpaced(v);
  }

  /** The entries of a listed torrent, one per field, in the order they are written. */
  function RenderedEntries(t: Torrent, ratioText: string): seq<Entry> {
    [Entry(NameLine, t.name), Entry(IdLine, t.id), Entry(StateLine, t.state),
     Entry(RatioLine, ratioText), Entry(TrackerLine, t.tracker)]
  }

  /** Folding those entries from the blank fields rebuilds the torrent. */
  lemma RenderedEntriesScan(t: Torrent, ratioText: string, parseRatio: RatioParser)
    requires parseRatio(ratioText) == Some(t.ratio)
    ensures ScanEntries(RenderedEntries(t, ratioText), parseRatio) == Ok(t)
  {
    var entries := RenderedEntries(t, ratioText);
    assert entries[..1][..0] == [];
    assert entries[..2][..1] == entries[..1];
    assert entries[..3][..2] == entries[..2];
    assert entries[..4][..3] == entries[..3];
    assert entries[..5][..4] == entries[..4];
    assert entries[..5] == entries;
    assert ScanEntries(entries[..1], parseRatio) == Ok(Blank.(name := t.name));
    assert ScanEntries(entries[..2], parseRatio) == Ok(Blank.(name := t.name, id := t.id));
    assert ScanEntries(entries[..3], parseRatio) == Ok(Blank.(name := t.name, id := t.id, state := t.state));
    assert ScanEntries(entries[..4], parseRatio) == Ok(t.(tracker := ""));
  }

  /** The kinds of the five lines of a listed torrent, in order. */
  const RenderedKinds: seq<LineKind> := [NameLine, IdLine, StateLine, RatioLine, TrackerLine]

  /** Line `j` of a listed torrent reads as the entry for its field. */
  lemma RenderedLineRead(t: Torrent, ratioText: string, parseRatio: RatioParser, j: nat)
    requires Renderable(t, ratioText, parseRatio) && j < 5
    ensures ReadLine(RenderLines(t, ratioText)[j]) == RenderedEntries(t, ratioText)[j]
  {
    var values := [t.name, t.id, t.state, ratioText, t.tracker];
    var k, v := RenderedKinds[j], values[j];
    assert PlainValue(v) && LabelFree(k, v);
    assert RenderLines(t, ratioText)[j] == FieldLine(LabelOf(k), v);
    assert RenderedEntries(t, ratioText)[j] == Entry(k, v);
    ReadFieldLine(k, v);
  }

  /** The lines of a listed torrent read as the entries for its fields. */
  lemma RenderedLinesRead(t: Torrent, ratioText: string, parseRatio: RatioParser)
    requires Renderable(t, ratioText, parseRatio)
    ensures ReadLines(RenderLines(t, ratioText)) == RenderedEntries(t, ratioText)
  {
    forall j | 0 <= j < 5 ensures ReadLine(RenderLines(t, ratioText)[j]) == RenderedEntries(t, ratioText)[j] {
      RenderedLineRead(t, ratioText, parseRatio, j);
    }
  }

  /** The five lines of a listed torrent read back as its fields. */
  lemma RenderedLinesScan(t: Torrent, ratioText: string, parseRatio: RatioParser)
    requires Renderable(t, ratioText, parseRatio)
    ensures ScanLines(RenderLines(t, ratioText), parseRatio) == Ok(t)
  {
    RenderedLinesRead(t, ratioText, parseRatio);
    ScanLinesEntries(RenderLines(t, ratioText), parseRatio);
    RenderedEntriesScan(t, ratioText, parseRatio);
  }

  /** No line of a listed torrent holds a line break, and none is empty. */
  lemma RenderedLinesPlain(t: Torrent, ratioText: string, parseRatio: RatioParser)
    requires Renderable(t, ratioText, parseRatio)
    ensures forall k | 0 <= k < 5 :: RenderLines(t, ratioText)[k] != [] && !Contains(RenderLines(t, ratioText)[k], LineSeparator)
  {
    var lines := RenderLines(t, ratioText);
    var values := [t.name, t.id, t.state, ratioText, t.tracker];
    forall k | 0 <= k < 5 ensures lines[k] != [] && !Contains(lines[k], LineSeparator) {
      assert PlainValue(values[k]) && lines[k] == FieldLine(LabelOf(RenderedKinds[k]), values[k]);
      FieldLinePlain(LabelOf(RenderedKinds[k]), values[k]);
    }
  }

  /** A labelled line with a plain value is not empty and holds no line break. */
  lemma FieldLinePlain(tag: string, v: string)
    requires tag != [] && forall j | 0 <= j < |tag| :: tag[j] != '\n'
    requires PlainValue(v)
    ensures FieldLine(tag, v) != [] && !Contains(FieldLine(tag, v), LineSeparator)
  {
    AbsentLastChar(FieldLine(tag, v), LineSeparator);
  }

  /** A listed torrent's block reads back as the torrent. */
  lemma RenderedBlockScans(t: Torrent, ratioText: string, parseRatio: RatioParser)
    requires Renderable(t, ratioText, parseRatio)
    ensures ScanBlock(RenderBlock(t, ratioText), parseRatio) == Ok(t)
  {
    var lines := RenderLines(t, ratioText);
    RenderedLinesPlain(t, ratioText, parseRatio);
    forall k | 0 <= k < 5 ensures !Contains(lines[k] + LineSeparator[..0], LineSeparator) {
      assert lines[k] + LineSeparator[..0] == lines[k];
    }
    JoinSplit(lines, LineSeparator);
    RenderedLinesScan(t, ratioText, parseRatio);
  }

  /** A block never holds a blank line, nor ends in a line break, so no block separator starts inside it. */
  lemma RenderedBlockSeparable(t: Torrent, ratioText: string, parseRatio: RatioParser)
    requires Renderable(t, ratioText, parseRatio)
    ensures !Contains(RenderBlock(t, ratioText) + BlockSeparator[..1], BlockSeparator)
  {
    var lines := RenderLines(t, ratioText);
    RenderedLinesPlain(t, ratioText, parseRatio);
    JoinEmptyLast(lines, LineSeparator);
    var padded := lines + [[]];
    assert forall k | 0 <= k < 5 :: padded[k] == lines[k];
    assert padded[5] == [];
    assert !Contains([], LineSeparator);
    JoinNoDoubleSeparator(padded, LineSeparator);
    assert BlockSeparator[..1] == LineSeparator && LineSeparator + LineSeparator == BlockSeparator;
  }

  /** The outcomes of blocks that each read without error as the given torrents. */
  function Scanned(torrents: seq<Torrent>): (results: seq<Result<Torrent, ParseError>>)
    ensures |results| == |torrents|
    ensures forall i | 0 <= i < |torrents| :: results[i] == Ok(torrents[i])
  {
    seq(|torrents|, i requires 0 <= i < |torrents| => Ok(torrents[i]))
  }

  /** Blocks that each yield a record are collected into exactly those records, in order. */
  lemma {:induction false} CollectAllKept(torrents: seq<Torrent>)
    requires forall i | 0 <= i < |torrents| :: IsValid(torrents[i])
    ensures Collect(Scanned(torrents)) == Ok(torrents)
  {
    if torrents != [] {
      var n := |torrents| - 1;
      CollectAllKept(torrents[..n]);
      assert Scanned(torrents)[..n] == Scanned(torrents[..n]);
      assert torrents[..n] + [torrents[n]] == torrents;
    }
  }

  /**
   * Parsing inverts rendering: a report listing torrents whose values are
   * plain and whose ratio texts convert back reads as exactly those torrents,
   * in order.
   */
  lemma ParseRenderedReport(torrents: seq<Torrent>, ratioTexts: seq<string>, parseRatio: RatioParser)
    requires |ratioTexts| == |torrents|
    requires forall i | 0 <= i < |torrents| :: Renderable(torrents[i], ratioTexts[i], parseRatio)
    ensures Parse(RenderReport(torrents, ratioTexts), parseRatio) == Ok(torrents)
  {
    if torrents == [] {
      ParseEmpty(parseRatio);
    } else {
      RenderedReportSplits(torrents, ratioTexts, parseRatio);
      RenderedBlocksScan(torrents, ratioTexts, parseRatio);
      CollectAllKept(torrents);
    }
  }

  /** A rendered report splits back into its blocks. */
  lemma RenderedReportSplits(torrents: seq<Torrent>, ratioTexts: seq<string>, parseRatio: RatioParser)
    requires |ratioTexts| == |torrents| && |torrents| >= 1
    requires forall i | 0 <= i < |torrents| :: Renderable(torrents[i], ratioTexts[i], parseRatio)
    ensures Split(RenderReport(torrents, ratioTexts), BlockSeparator) == RenderBlocks(torrents, ratioTexts)
  {
    var blocks := RenderBlocks(torrents, ratioTexts);
    forall i | 0 <= i < |blocks| ensures !Contains(blocks[i] + BlockSeparator[..|BlockSeparator| - 1], BlockSeparator) {
      RenderedBlockSeparable(torrents[i], ratioTexts[i], parseRatio);
    }
    JoinSplit(blocks, BlockSeparator);
  }

  /** Each rendered block reads back as its torrent. */
  lemma RenderedBlocksScan(torrents: seq<Torrent>, ratioTexts: seq<string>, parseRatio: RatioParser)
    requires |ratioTexts| == |torrents|
    requires forall i | 0 <= i < |torrents| :: Renderable(torrents[i], ratioTexts[i], parseRatio)
    ensures ScanBlocks(RenderBlocks(torrents, ratioTexts), parseRatio) == Scanned(torrents)
  {
    var results := ScanBlocks(RenderBlocks(torrents, ratioTexts), parseRatio);
    forall i | 0 <= i < |torrents| ensures results[i] == Ok(torrents[i]) {
      RenderedBlockScans(torrents[i], ratioTexts[i], parseRatio);
    }
  }

  /** A valid torrent whose plain values hold no colon, and whose ratio text converts, is renderable. */
  lemma ColonFreeRenderable(t: Torrent, ratioText: string, parseRatio: RatioParser)
    requires IsValid(t) && parseRatio(ratioText) == Some(t.ratio)
    requires PlainValue(t.name) && PlainValue(t.id) && PlainValue(t.state) && PlainValue(t.tracker) && PlainValue(ratioText)
    requires ColonFree(t.name) && ColonFree(t.id) && ColonFree(t.state) && ColonFree(t.tracker) && ColonFree(ratioText)
    ensures Renderable(t, ratioText, parseRatio)
  {
    ColonFreeValue(NameLine, t.name);
    ColonFreeValue(IdLine, t.id);
    ColonFreeValue(StateLine, t.state);
    ColonFreeValue(RatioLine, ratioText);
    ColonFreeValue(TrackerLine, t.tracker);
  }

  /** The sample torrent is renderable: none of its values holds a colon. */
  lemma SampleRenderable(parseRatio: RatioParser)
    requires parseRatio("0.6") == Some(0.6)
    ensures Renderable(Torrent("X", "1", "Seeding", 0.6, "t1"), "0.6", parseRatio)
  {
    ColonFreeRenderable(Torrent("X", "1", "Seeding", 0.6, "t1"), "0.6", parseRatio);
  }

  /**
   * The report "Name: X", "ID: 1", "State: Seeding", "Share Ratio: 0.6",
   * "Tracker: t1" (one line each) lists one seeding torrent.
   */
  lemma ParseSampleReport(parseRatio: RatioParser)
    requires parseRatio("0.6") == Some(0.6)
    ensures Parse(RenderReport([Torrent("X", "1", "Seeding", 0.6, "t1")], ["0.6"]), parseRatio)
      == Ok([Torrent("X", "1", "Seeding", 0.6, "t1")])
  {
    SampleRenderable(parseRatio);
    ParseRenderedReport([Torrent("X", "1", "Seeding", 0.6, "t1")], ["0.6"], parseRatio);
  }

  // ---------------------------------------------------------------------------
  // The parser

  /**
   * One pass of the loop over blocks in `parse_torrent_info`: the fields of
   * one block, read line by line from empty texts and a ratio of 0.
   */
  method ReadSection(section: string, parseRatio: RatioParser) returns (r: Result<Torrent, ParseError>)
    ensures r == ScanBlock(section, parseRatio)
  {
    var lines := Split(section, LineSeparator);
    var name, torrentId, state, ratio, tracker := "", "", "", 0.0, "";
    for j := 0 to |lines|
      invariant ScanLines(lines[..j], parseRatio) == Ok(Torrent(name, torrentId, state, ratio, tracker))
    {
      var line := lines[j];
      ScanLinesStep(lines, parseRatio, j);
      match KindOf(line)
      case NameLine =>
        name := FieldValue(line, NameLabel);
      case IdLine =>
        torrentId := FieldValue(line, IdLabel);
      case StateLine =>
        state := FieldValue(line, StateLabel);
      case RatioLine =>
        var text := FieldValue(line, RatioLabel);
        match parseRatio(text) {
          case None =>
            ScanLinesPrefixError(lines, parseRatio, j + 1);
            return Err(BadRatio(text));
          case Some(x) =>
            ratio := x;
        }
      case TrackerLine =>
        tracker := FieldValue(line, TrackerLabel);
      case OtherLine =>
    }
    assert lines[..|lines|] == lines;
    r := Ok(Torrent(name, torrentId, state, ratio, tracker));
  }

  /** Collecting one more block's outcome. */
  lemma CollectStep(results: seq<Result<Torrent, ParseError>>, i: nat)
    requires i < |results| && Collect(results[..i]).Ok?
    ensures Collect(results[..i + 1]) ==
      match results[i]
      case Err(e) => Err(e)
      case Ok(t) => Ok(Collect(results[..i]).value + Keep(t))
  {
    assert results[..i + 1][..i] == results[..i];
  }

  /**
   * `parse_torrent_info`: reads the dump block by block and keeps the records
   * that have a name and an id, in block order.
   */
  method ParseTorrentInfo(torrentInfo: string, parseRatio: RatioParser) returns (r: Result<seq<Torrent>, ParseError>)
    ensures r == Parse(torrentInfo, parseRatio)
    ensures r.Ok? ==> |r.value| <= |Split(torrentInfo, BlockSeparator)|
    ensures r.Ok? ==> forall t | t in r.value :: IsValid(t)
  {
    var torrents: seq<Torrent> := [];
    var sections := Split(torrentInfo, BlockSeparator);
    ghost var results := ScanBlocks(sections, parseRatio);
    for i := 0 to |sections|
      invariant Collect(results[..i]) == Ok(torrents)
    {
      var fields := ReadSection(sections[i], parseRatio);
      CollectStep(results, i);
      assert results[i] == fields;
      match fields
      case Err(e) =>
        CollectPrefixError(results, i + 1);
        return Err(e);
      case Ok(t) =>
        assert Collect(results[..i + 1]) == Ok(torrents + Keep(t));
        if t.name != "" && t.id != "" {
          torrents := torrents + [t];
        } else {
          assert torrents + Keep(t) == torrents;
        }
    }
    assert results[..|sections|] == results;
    CollectShape(results);
    r := Ok(torrents);
  }
}
