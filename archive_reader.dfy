/**
 * `read` and `read_directory`: the scan over one archive file that hands
 * every `PubmedArticle` record to the slicer and then to the schema
 * decoder, logging the records that fail to decode, and the walk over a
 * directory that picks the files to scan.
 *
 * A file is given by the events its decompressed contents yield; the
 * schema decoder is the parameter `decodes`, true when a record decodes.
 */
module ArchiveReader {
  import opened Wrappers
  import opened XmlEvents
  import opened ArticleSlicer
  import opened SliceProperties

  /** How a scan of one file ends. `Scanned` lists every record handed to
      the decoder and, in order, the ones that failed to decode and were
      logged. A slicer error is a panic: `ReaderPanic` for a reader error,
      `OverflowPanic` for the slicer's counter. `ScanDiverged` means the
      slicer never returned. */
  datatype ScanOutcome =
    | Scanned(records: seq<seq<Event>>, logged: seq<seq<Event>>)
    | ReaderPanic(message: string)
    | OverflowPanic
    | ScanDiverged

  /** The scan loop from position `i`, with `records` sliced and `logged`
      so far. The end of input (or of the events) ends the scan; a start tag
      whose full name is `PubmedArticle` calls the slicer on the events that
      follow; every other event, a reader error included, is skipped. */
  function ScanFrom(events: seq<Event>, i: nat, decodes: seq<Event> -> bool,
                    records: seq<seq<Event>>, logged: seq<seq<Event>>): (r: ScanOutcome)
    requires i <= |events|
    ensures r.Scanned? ==> |logged| <= |r.logged| && |r.logged| - |logged| <= |r.records| - |records|
    decreases |events| - i
  {
    if i == |events| then Scanned(records, logged)
    else match events[i]
      case Eof => Scanned(records, logged)
      case Start(name, _) =>
        if name == RecordName then
          match Slice(events, i + 1)
          case Sliced(rec, next) =>
            ScanFrom(events, next, decodes, records + [rec], if decodes(rec) then logged else logged + [rec])
          case ReadFailed(m) => ReaderPanic(m)
          case DepthOverflow => OverflowPanic
          case Diverged => ScanDiverged
        else ScanFrom(events, i + 1, decodes, records, logged)
      case _ => ScanFrom(events, i + 1, decodes, records, logged)
  }

  function Scan(events: seq<Event>, decodes: seq<Event> -> bool): (r: ScanOutcome)
    ensures r.Scanned? ==> |r.logged| <= |r.records|
  {
    ScanFrom(events, 0, decodes, [], [])
  }

  /** `read`: pulls events until the end of input, slicing each record. */
  method Read(events: seq<Event>, decodes: seq<Event> -> bool) returns (outcome: ScanOutcome)
    ensures outcome == Scan(events, decodes)
  {
    var records: seq<seq<Event>> := [];
    var logged: seq<seq<Event>> := [];
    var i := 0;
    while i < |events|
      invariant i <= |events|
      invariant ScanFrom(events, i, decodes, records, logged) == Scan(events, decodes)
      decreases |events| - i
    {
      var e := events[i];
      if e.Eof? {
        return Scanned(records, logged);
      } else if e.Start? && e.name == RecordName {
        var sliced := ReadArticle(events, i + 1);
        match sliced {
          case Sliced(rec, next) =>
            records := records + [rec];
            if !decodes(rec) {
              logged := logged + [rec];
            }
            i := next;
          case ReadFailed(m) =>
            return ReaderPanic(m);
          case DepthOverflow =>
            return OverflowPanic;
          case Diverged =>
            return ScanDiverged;
        }
      } else {
        i := i + 1;
      }
    }
    return Scanned(records, logged);
  }

  // ------------------------------------------------------------ scan properties

  /** One record of the scan: the slicer's result is appended, and logged
      when it fails to decode, and the scan goes on past its end tag. */
  lemma ScanFromRecord(events: seq<Event>, i: nat, decodes: seq<Event> -> bool,
                       records: seq<seq<Event>>, logged: seq<seq<Event>>)
    requires i < |events| && IsRecordStart(events[i]) && Slice(events, i + 1).Sliced?
    ensures var s := Slice(events, i + 1);
            ScanFrom(events, i, decodes, records, logged)
            == ScanFrom(events, s.next, decodes, records + [s.record],
                        if decodes(s.record) then logged else logged + [s.record])
  {
  }

  /** The records in `records` that fail to decode, in order. */
  function Undecodable(records: seq<seq<Event>>, decodes: seq<Event> -> bool): seq<seq<Event>> {
    if records == [] then []
    else
      var last := records[|records| - 1];
      Undecodable(records[..|records| - 1], decodes) + (if decodes(last) then [] else [last])
  }

  lemma UndecodableAppend(records: seq<seq<Event>>, rec: seq<Event>, decodes: seq<Event> -> bool)
    ensures Undecodable(records + [rec], decodes)
            == Undecodable(records, decodes) + (if decodes(rec) then [] else [rec])
  {
    assert (records + [rec])[..|records|] == records;
  }

  lemma {:induction false} ScanFromLogsFailures(events: seq<Event>, i: nat, decodes: seq<Event> -> bool,
                                                records: seq<seq<Event>>, logged: seq<seq<Event>>)
    requires i <= |events| && logged == Undecodable(records, decodes)
    ensures var r := ScanFrom(events, i, decodes, records, logged);
            r.Scanned? ==> r.logged == Undecodable(r.records, decodes)
    decreases |events| - i
  {
    if i < |events| && events[i].Start? {
      if events[i].name == RecordName {
        var s := Slice(events, i + 1);
        if s.Sliced? {
          ScanFromRecord(events, i, decodes, records, logged);
          UndecodableAppend(records, s.record, decodes);
          ScanFromLogsFailures(events, s.next, decodes, records + [s.record],
                               if decodes(s.record) then logged else logged + [s.record]);
        }
      } else {
        ScanFromLogsFailures(events, i + 1, decodes, records, logged);
      }
    } else if i < |events| && !events[i].Eof? {
      ScanFromLogsFailures(events, i + 1, decodes, records, logged);
    }
  }

  /** What is logged is exactly the records that fail to decode, in order;
      a decode failure never stops the scan. */
  lemma LoggedAreTheUndecodable(events: seq<Event>, decodes: seq<Event> -> bool)
    ensures var r := Scan(events, decodes); r.Scanned? ==> r.logged == Undecodable(r.records, decodes)
  {
    ScanFromLogsFailures(events, 0, decodes, [], []);
  }

  lemma {:induction false} ScanFromShapes(events: seq<Event>, i: nat, decodes: seq<Event> -> bool,
                                          records: seq<seq<Event>>, logged: seq<seq<Event>>)
    requires i <= |events| && forall k :: 0 <= k < |records| ==> RecordShape(records[k])
    ensures var r := ScanFrom(events, i, decodes, records, logged);
            r.Scanned? ==> forall k :: 0 <= k < |r.records| ==> RecordShape(r.records[k])
    decreases |events| - i
  {
    if i < |events| && events[i].Start? {
      if events[i].name == RecordName {
        var s := Slice(events, i + 1);
        if s.Sliced? {
          ScanFromRecord(events, i, decodes, records, logged);
          SlicedRecordShape(events, i + 1);
          var rs := records + [s.record];
          assert forall k :: 0 <= k < |rs| ==> RecordShape(rs[k]) by {
            forall k | 0 <= k < |rs| ensures RecordShape(rs[k]) {
              if k < |records| {
                assert rs[k] == records[k];
              }
            }
          }
          ScanFromShapes(events, s.next, decodes, rs, if decodes(s.record) then logged else logged + [s.record]);
        }
      } else {
        ScanFromShapes(events, i + 1, decodes, records, logged);
      }
    } else if i < |events| && !events[i].Eof? {
      ScanFromShapes(events, i + 1, decodes, records, logged);
    }
  }

  /** Every record handed to the decoder has the shape the slicer
      guarantees. */
  lemma ScannedRecordsHaveShape(events: seq<Event>, decodes: seq<Event> -> bool)
    ensures var r := Scan(events, decodes);
            r.Scanned? ==> forall k :: 0 <= k < |r.records| ==> RecordShape(r.records[k])
  {
    ScanFromShapes(events, 0, decodes, [], []);
  }

  predicate IsRecordStart(e: Event) {
    e.Start? && e.name == RecordName
  }

  lemma {:induction false} ScanFromWithoutRecords(events: seq<Event>, i: nat, decodes: seq<Event> -> bool,
                                                  records: seq<seq<Event>>, logged: seq<seq<Event>>)
    requires i <= |events| && forall j :: i <= j < |events| ==> !IsRecordStart(events[j])
    ensures ScanFrom(events, i, decodes, records, logged) == Scanned(records, logged)
    decreases |events| - i
  {
    if i < |events| && !events[i].Eof? {
      ScanFromWithoutRecords(events, i + 1, decodes, records, logged);
    }
  }

  /** A file without a start tag named exactly `PubmedArticle` (one holding
      only `PubmedBookArticle` or `DeleteCitation` elements, say) yields no
      record, and its scan always completes. */
  lemma NoRecordStartNoRecords(events: seq<Event>, decodes: seq<Event> -> bool)
    requires forall j :: 0 <= j < |events| ==> !IsRecordStart(events[j])
    ensures Scan(events, decodes) == Scanned([], [])
  {
    ScanFromWithoutRecords(events, 0, decodes, [], []);
  }

  /** A file holding one balanced record, followed by the end of input,
      yields that one record, balanced, and logs it exactly when it fails
      to decode. */
  lemma SingleBalancedRecord(attrs: seq<Attribute>, body: seq<Event>, decodes: seq<Event> -> bool)
    requires BalancedBody(body)
    ensures var events := [Start(RecordName, attrs)] + body + [End(RecordName), Eof];
            var r := Scan(events, decodes);
            && r.Scanned? && |r.records| == 1
            && Opens(r.records[0]) == 0 && RecordShape(r.records[0])
            && r.logged == (if decodes(r.records[0]) then [] else r.records)
  {
    var events := [Start(RecordName, attrs)] + body + [End(RecordName), Eof];
    var k := |body| + 1;
    assert events[1..k] == body;
    assert IsRecordStart(events[0]) && events[k] == End(RecordName) && events[k + 1] == Eof;
    BalancedRecordIsSlicedWhole(events, 1, k);
    SlicedRecordShape(events, 1);
    ScanFromRecord(events, 0, decodes, [], []);
  }

  /** One record in a file laid out record by record: the events before
      its start tag, the start tag's attributes, and its body. */
  datatype Filed = Filed(gap: seq<Event>, attrs: seq<Attribute>, body: seq<Event>)

  /** A file of records: each record's gap, start tag, body and end tag,
      then a last gap, the end of input, and whatever the reader would yield
      after it. */
  function Layout(items: seq<Filed>, tail: seq<Event>, after: seq<Event>): seq<Event>
    decreases |items|
  {
    if items == [] then tail + [Eof] + after
    else Chunk(items[0]) + Layout(items[1..], tail, after)
  }

  /** One record as it sits in the file: its gap, start tag, body and end
      tag. */
  function Chunk(it: Filed): seq<Event> {
    it.gap + [Start(RecordName, it.attrs)] + (it.body + [End(RecordName)])
  }

  /** A record whose gap holds no record start and no end of input, and
      whose body is balanced. */
  ghost predicate WellFiled(it: Filed) {
    IsGap(it.gap) && BalancedBody(it.body)
  }

  /** Input between records: anything but a record start tag or the end of
      input (`PubmedBookArticle` or `DeleteCitation` elements, say). */
  predicate IsGap(g: seq<Event>) {
    forall j :: 0 <= j < |g| ==> !IsRecordStart(g[j]) && !g[j].Eof?
  }

  /** The records the slicer makes of the items' bodies, in order. */
  function RecordsOf(items: seq<Filed>): seq<seq<Event>>
    decreases |items|
  {
    if items == [] then [] else [RecordOf(items[0].body)] + RecordsOf(items[1..])
  }

  /** The events from `i` up to `j` form a gap. */
  predicate GapBetween(events: seq<Event>, i: nat, j: nat)
    requires i <= j <= |events|
  {
    forall k :: i <= k < j ==> !IsRecordStart(events[k]) && !events[k].Eof?
  }

  /** The scan passes over a gap without handing anything on. */
  lemma {:induction false} ScanFromSkipsGap(events: seq<Event>, i: nat, n: nat, decodes: seq<Event> -> bool,
                                            records: seq<seq<Event>>, logged: seq<seq<Event>>)
    requires i + n <= |events| && GapBetween(events, i, i + n)
    ensures ScanFrom(events, i, decodes, records, logged) == ScanFrom(events, i + n, decodes, records, logged)
    decreases n
  {
    if n > 0 {
      ScanFromSkipsGap(events, i + 1, n - 1, decodes, records, logged);
    }
  }

  /** From position `i` on, `events` holds the items' records one after
      the other, each well filed, then the last gap and the end of input. */
  ghost predicate LaidOut(events: seq<Event>, i: nat, items: seq<Filed>, tail: seq<Event>)
    decreases |items|
  {
    if items == [] then
      i + |tail| < |events| && GapBetween(events, i, i + |tail|) && events[i + |tail|] == Eof
    else
      var next := i + |Chunk(items[0])|;
      && next <= |events| && events[i..next] == Chunk(items[0]) && WellFiled(items[0])
      && LaidOut(events, next, items[1..], tail)
  }

  /** Concatenation regroups. */
  lemma AppendAssoc<T>(a: seq<T>, b: seq<T>, c: seq<T>)
    ensures (a + b) + c == a + (b + c)
  {
  }

  /** A file built by `Layout` from well-filed items has them laid out from
      the position where it starts. */
  lemma {:induction false} LayoutIsLaidOut(pre: seq<Event>, items: seq<Filed>, tail: seq<Event>, after: seq<Event>)
    requires (forall k :: 0 <= k < |items| ==> WellFiled(items[k])) && IsGap(tail)
    ensures LaidOut(pre + Layout(items, tail, after), |pre|, items, tail)
    decreases |items|
  {
    var events := pre + Layout(items, tail, after);
    if items == [] {
      forall k | |pre| <= k < |pre| + |tail| ensures !IsRecordStart(events[k]) && !events[k].Eof? {
        assert events[k] == tail[k - |pre|];
      }
    } else {
      var c := Chunk(items[0]);
      var rest := Layout(items[1..], tail, after);
      AppendAssoc(pre, c, rest);
      assert events[|pre|..|pre| + |c|] == c;
      assert forall k :: 0 <= k < |items| - 1 ==> items[1..][k] == items[k + 1];
      LayoutIsLaidOut(pre + c, items[1..], tail, after);
    }
  }

  /** A well-filed record in place: its gap, its start tag, and the slicer
      returning `RecordOf` its body just past its end tag. */
  lemma FiledFacts(events: seq<Event>, i: nat, it: Filed)
    requires i + |Chunk(it)| <= |events| && events[i..i + |Chunk(it)|] == Chunk(it) && WellFiled(it)
    ensures var s := i + |it.gap|;
            && GapBetween(events, i, s) && IsRecordStart(events[s])
            && Slice(events, s + 1) == Sliced(RecordOf(it.body), i + |Chunk(it)|)
  {
    var s := i + |it.gap|;
    var w := it.body + [End(RecordName)];
    assert GapBetween(events, i, s) by {
      forall k | i <= k < s ensures !IsRecordStart(events[k]) && !events[k].Eof? {
        assert events[k] == events[i..i + |Chunk(it)|][k - i] == it.gap[k - i];
      }
    }
    assert events[s] == Start(RecordName, it.attrs);
    assert events[s + 1..s + 1 + |w|] == w;
    assert events == events[..s + 1] + w + events[s + 1 + |w|..];
    BalancedBodyIsSlicedInPlace(events[..s + 1], it.body, events[s + 1 + |w|..]);
  }

  /** A gap, then a record the slicer returns: the scan skips the gap,
      appends the record (and logs it when it fails to decode) and goes on
      past it. */
  lemma ScanFromGapThenRecord(events: seq<Event>, i: nat, s: nat, rec: seq<Event>, next: nat,
                              decodes: seq<Event> -> bool, records: seq<seq<Event>>, logged: seq<seq<Event>>)
    requires i <= s < |events| && GapBetween(events, i, s) && IsRecordStart(events[s])
    requires Slice(events, s + 1) == Sliced(rec, next)
    ensures ScanFrom(events, i, decodes, records, logged)
            == ScanFrom(events, next, decodes, records + [rec], if decodes(rec) then logged else logged + [rec])
  {
    ScanFromSkipsGap(events, i, s - i, decodes, records, logged);
    ScanFromRecord(events, s, decodes, records, logged);
  }

  /** One laid-out record: the scan skips its gap, slices its body to
      `RecordOf`, and goes on right after its end tag. */
  lemma ScanFromFiled(events: seq<Event>, i: nat, it: Filed, decodes: seq<Event> -> bool,
                      records: seq<seq<Event>>, logged: seq<seq<Event>>)
    requires i + |Chunk(it)| <= |events| && events[i..i + |Chunk(it)|] == Chunk(it) && WellFiled(it)
    ensures var rec := RecordOf(it.body);
            ScanFrom(events, i, decodes, records, logged)
            == ScanFrom(events, i + |Chunk(it)|, decodes, records + [rec], if decodes(rec) then logged else logged + [rec])
  {
    FiledFacts(events, i, it);
    ScanFromGapThenRecord(events, i, i + |it.gap|, RecordOf(it.body), i + |Chunk(it)|, decodes, records, logged);
  }

  /** Over laid-out records the scan completes and appends, in order, the
      record the slicer makes of each body. */
  lemma {:induction false} ScanFromLaidOut(events: seq<Event>, i: nat, items: seq<Filed>, tail: seq<Event>,
                                           decodes: seq<Event> -> bool,
                                           records: seq<seq<Event>>, logged: seq<seq<Event>>)
    requires i <= |events| && LaidOut(events, i, items, tail)
    ensures var r := ScanFrom(events, i, decodes, records, logged);
            r.Scanned? && r.records == records + RecordsOf(items)
    decreases |items|
  {
    if items == [] {
      ScanFromSkipsGap(events, i, |tail|, decodes, records, logged);
      assert records + RecordsOf(items) == records;
    } else {
      var next := i + |Chunk(items[0])|;
      var rec := RecordOf(items[0].body);
      var logged' := if decodes(rec) then logged else logged + [rec];
      ScanFromFiled(events, i, items[0], decodes, records, logged);
      ScanFromLaidOut(events, next, items[1..], tail, decodes, records + [rec], logged');
      AppendAssoc(records, [rec], RecordsOf(items[1..]));
    }
  }

  /** `read` hands the decoder exactly one record per `PubmedArticle`
      element, in file order, each what the slicer makes of that element's
      body; it logs exactly those that fail to decode, and reads nothing
      after the end of input. */
  lemma RecordPerArticle(items: seq<Filed>, tail: seq<Event>, after: seq<Event>, decodes: seq<Event> -> bool)
    requires (forall k :: 0 <= k < |items| ==> WellFiled(items[k])) && IsGap(tail)
    ensures var r := Scan(Layout(items, tail, after), decodes);
            && r.Scanned? && r.records == RecordsOf(items)
            && r.logged == Undecodable(RecordsOf(items), decodes)
  {
    assert [] + Layout(items, tail, after) == Layout(items, tail, after);
    LayoutIsLaidOut([], items, tail, after);
    ScanFromLaidOut(Layout(items, tail, after), 0, items, tail, decodes, [], []);
    LoggedAreTheUndecodable(Layout(items, tail, after), decodes);
  }

  /** A slicer failure on a record is not skipped: the scan stops there with
      a panic (a reader error, the counter) or never returns, whatever the
      rest of the file holds. */
  lemma FailedSliceStopsTheScan(events: seq<Event>, i: nat, decodes: seq<Event> -> bool)
    requires i < |events| && IsRecordStart(events[i]) && IsGap(events[..i])
    requires !Slice(events, i + 1).Sliced?
    ensures var r := Scan(events, decodes);
            match Slice(events, i + 1)
            case ReadFailed(m) => r == ReaderPanic(m)
            case DepthOverflow => r == OverflowPanic
            case Diverged => r == ScanDiverged
            case Sliced(_, _) => false
  {
    assert GapBetween(events, 0, i) by {
      forall k | 0 <= k < i ensures !IsRecordStart(events[k]) && !events[k].Eof? {
        assert events[..i][k] == events[k];
      }
    }
    ScanFromSkipsGap(events, 0, i, decodes, [], []);
  }

  // ------------------------------------------------------------ directory

  /** The text after the last '.' of a file name, as a path's extension is
      taken: a name without a '.', a name whose only '.' leads it, and `..`
      have none. */
  function LastDot(s: string): (k: int)
    ensures -1 <= k < |s|
    ensures k >= 0 ==> s[k] == '.'
    ensures forall j :: k < j < |s| ==> s[j] != '.'
  {
    if s == [] then -1
    else if s[|s| - 1] == '.' then |s| - 1
    else LastDot(s[..|s| - 1])
  }

  function Extension(fileName: string): (r: Option<string>)
    ensures r.Some? ==> '.' !in r.value && |r.value| + 2 <= |fileName|
    ensures r.Some? ==> fileName[|fileName| - |r.value| - 1] == '.' && fileName[|fileName| - |r.value|..] == r.value
    ensures '.' !in fileName ==> r.None?
  {
    if fileName == ".." then None
    else
      var k := LastDot(fileName);
      if k <= 0 then None else Some(fileName[k + 1..])
  }

  /** A file name made of a non-empty stem and an extension without '.' has
      that extension, whatever dots the stem holds (`..gz` has extension
      `gz`); only `..` itself, the stem `.` with an empty extension, has
      none. */
  lemma {:induction false} ExtensionOfName(stem: string, ext: string)
    requires stem != [] && (stem != "." || ext != "") && '.' !in ext
    ensures Extension(stem + "." + ext) == Some(ext)
  {
    var n := stem + "." + ext;
    assert n[|stem|] == '.';
    assert forall j | |stem| < j < |n| :: n[j] == ext[j - |stem| - 1];
    assert forall j | |stem| < j < |n| :: n[j] != '.';
    var k := LastDot(n);
    assert k == |stem|;
    assert n[k + 1..] == ext;
    assert n != ".." by {
      if |n| == 2 {
        assert |stem| == 1 && ext == [];
        assert stem == [n[0]];
      }
    }
  }

  /** A file name with no '.' after its first character has no
      extension. */
  lemma {:induction false} NoExtension(fileName: string)
    requires forall j :: 0 < j < |fileName| ==> fileName[j] != '.'
    ensures Extension(fileName) == None
  {
  }

  /** An archive's name has extension `gz`, and so has `..gz`; a hidden
      `.gz` file and a name without a dot have none. */
  lemma ArchiveNameExamples()
    ensures Extension("n0001.xml.gz") == Some("gz") && Extension("..gz") == Some("gz")
    ensures Extension(".gz") == None && Extension("README") == None
  {
    assert "n0001.xml.gz" == "n0001.xml" + "." + "gz";
    ExtensionOfName("n0001.xml", "gz");
    assert "..gz" == "." + "." + "gz";
    ExtensionOfName(".", "gz");
    NoExtension(".gz");
    NoExtension("README");
  }

  datatype FileKind = RegularFile | Directory | OtherKind

  /** A directory entry: its file name, what it is, and the events its
      decompressed contents yield. */
  datatype DirEntry = DirEntry(fileName: string, kind: FileKind, events: seq<Event>)

  /** What was read of one file: its name, the records handed to the
      decoder and the ones logged. */
  datatype FileReport = FileReport(fileName: string, records: seq<seq<Event>>, logged: seq<seq<Event>>)

  /** How a walk over a directory ends, with the reports of the files read
      before. `DirIoErr` is the `Err` returned for a failed listing or
      entry; `DirPanicked` is a panic, of the extension `unwrap` or of a
      scan; `DirDiverged` means a scan never returned. */
  datatype DirOutcome =
    | DirOk(reports: seq<FileReport>)
    | DirIoErr(error: string, reports: seq<FileReport>)
    | DirPanicked(reports: seq<FileReport>)
    | DirDiverged(reports: seq<FileReport>)

  function DirFrom(entries: seq<Result<DirEntry, string>>, i: nat, decodes: seq<Event> -> bool,
                   reports: seq<FileReport>): (r: DirOutcome)
    requires i <= |entries|
    ensures |reports| <= |r.reports| <= |reports| + |entries| - i
    decreases |entries| - i
  {
    if i == |entries| then DirOk(reports)
    else match entries[i]
      case Err(e) => DirIoErr(e, reports)
      case Ok(entry) =>
        if entry.kind != RegularFile then DirFrom(entries, i + 1, decodes, reports)
        else match Extension(entry.fileName)
          case None => DirPanicked(reports)
          case Some(x) =>
            if x != "gz" then DirFrom(entries, i + 1, decodes, reports)
            else match Scan(entry.events, decodes)
              case Scanned(records, logged) =>
                DirFrom(entries, i + 1, decodes, reports + [FileReport(entry.fileName, records, logged)])
              case ReaderPanic(_) => DirPanicked(reports)
              case OverflowPanic => DirPanicked(reports)
              case ScanDiverged => DirDiverged(reports)
  }

  /** `read_directory` on a path that is a directory or not, whose listing
      is `listing`. */
  function DirectoryRun(isDir: bool, listing: Result<seq<Result<DirEntry, string>>, string>,
                        decodes: seq<Event> -> bool): (r: DirOutcome)
    ensures |r.reports| <= (if isDir && listing.Ok? then |listing.value| else 0)
  {
    if !isDir then DirOk([])
    else match listing
      case Err(e) => DirIoErr(e, [])
      case Ok(entries) => DirFrom(entries, 0, decodes, [])
  }

  method ReadDirectory(isDir: bool, listing: Result<seq<Result<DirEntry, string>>, string>,
                       decodes: seq<Event> -> bool) returns (outcome: DirOutcome)
    ensures outcome == DirectoryRun(isDir, listing, decodes)
  {
    if !isDir {
      return DirOk([]);
    }
    if listing.Err? {
      return DirIoErr(listing.error, []);
    }
    var entries := listing.value;
    var reports: seq<FileReport> := [];
    for i := 0 to |entries|
      invariant DirFrom(entries, i, decodes, reports) == DirectoryRun(isDir, listing, decodes)
    {
      match entries[i] {
        case Err(e) =>
          return DirIoErr(e, reports);
        case Ok(entry) =>
          if entry.kind == RegularFile {
            var ext := Extension(entry.fileName);
            if ext.None? {
              return DirPanicked(reports);
            }
            if ext.value == "gz" {
              var scanned := Read(entry.events, decodes);
              match scanned {
                case Scanned(records, logged) =>
                  reports := reports + [FileReport(entry.fileName, records, logged)];
                case ReaderPanic(_) =>
                  return DirPanicked(reports);
                case OverflowPanic =>
                  return DirPanicked(reports);
                case ScanDiverged =>
                  return DirDiverged(reports);
              }
            }
          }
      }
    }
    return DirOk(reports);
  }

  // ------------------------------------------------------------ directory properties

  predicate IsGzFile(entry: DirEntry) {
    entry.kind == RegularFile && Extension(entry.fileName) == Some("gz")
  }

  /** One entry lets the walk finish with `Ok`: it lists without error, it
      has an extension if it is a regular file, and its scan reaches the end
      of input if it is a `gz` file. */
  ghost predicate EntryCompletes(entry: Result<DirEntry, string>, decodes: seq<Event> -> bool) {
    && entry.Ok?
    && (entry.value.kind == RegularFile ==> Extension(entry.value.fileName).Some?)
    && (IsGzFile(entry.value) ==> Scan(entry.value.events, decodes).Scanned?)
  }

  /** The reports of the walk over entries that all complete: one per
      regular file with extension `gz`, in listing order, holding that
      file's name and the records its scan handed to the decoder and
      logged. */
  ghost function GzReports(entries: seq<Result<DirEntry, string>>, decodes: seq<Event> -> bool): seq<FileReport>
    requires forall j :: 0 <= j < |entries| ==> EntryCompletes(entries[j], decodes)
    decreases |entries|
  {
    if entries == [] then []
    else
      assert EntryCompletes(entries[0], decodes);
      var e := entries[0].value;
      (if IsGzFile(e) then [FileReport(e.fileName, Scan(e.events, decodes).records, Scan(e.events, decodes).logged)]
       else [])
      + GzReports(entries[1..], decodes)
  }

  lemma {:induction false} DirFromAllComplete(entries: seq<Result<DirEntry, string>>, i: nat,
                                              decodes: seq<Event> -> bool, reports: seq<FileReport>)
    requires i <= |entries| && forall j :: i <= j < |entries| ==> EntryCompletes(entries[j], decodes)
    ensures DirFrom(entries, i, decodes, reports) == DirOk(reports + GzReports(entries[i..], decodes))
    decreases |entries| - i
  {
    if i == |entries| {
      assert entries[i..] == [];
    } else {
      var e := entries[i].value;
      assert entries[i..][0] == entries[i] && entries[i..][1..] == entries[i + 1..];
      var sc := Scan(e.events, decodes);
      if IsGzFile(e) {
        var rep := FileReport(e.fileName, sc.records, sc.logged);
        DirFromAllComplete(entries, i + 1, decodes, reports + [rep]);
        assert reports + [rep] + GzReports(entries[i + 1..], decodes) == reports + GzReports(entries[i..], decodes);
      } else {
        DirFromAllComplete(entries, i + 1, decodes, reports);
      }
    }
  }

  lemma {:induction false} DirFromStopsAt(entries: seq<Result<DirEntry, string>>, i: nat, f: nat,
                                          decodes: seq<Event> -> bool, reports: seq<FileReport>)
    requires i <= f < |entries| && forall j :: i <= j < f ==> EntryCompletes(entries[j], decodes)
    ensures DirFrom(entries, i, decodes, reports) == DirFrom(entries, f, decodes, reports + GzReports(entries[i..f], decodes))
    decreases f - i
  {
    if i == f {
      assert entries[i..f] == [];
      assert reports + GzReports(entries[i..f], decodes) == reports;
    } else {
      var e := entries[i].value;
      assert entries[i..f][0] == entries[i] && entries[i..f][1..] == entries[i + 1..f];
      var sc := Scan(e.events, decodes);
      if IsGzFile(e) {
        var rep := FileReport(e.fileName, sc.records, sc.logged);
        DirFromStopsAt(entries, i + 1, f, decodes, reports + [rep]);
        assert reports + [rep] + GzReports(entries[i + 1..f], decodes) == reports + GzReports(entries[i..f], decodes);
      } else {
        assert GzReports(entries[i..f], decodes) == GzReports(entries[i + 1..f], decodes);
        DirFromStopsAt(entries, i + 1, f, decodes, reports);
      }
    }
  }

  lemma {:induction false} DirFromIncomplete(entries: seq<Result<DirEntry, string>>, i: nat,
                                             decodes: seq<Event> -> bool, reports: seq<FileReport>)
    requires i <= |entries| && exists j :: i <= j < |entries| && !EntryCompletes(entries[j], decodes)
    ensures !DirFrom(entries, i, decodes, reports).DirOk?
    decreases |entries| - i
  {
    if EntryCompletes(entries[i], decodes) {
      var e := entries[i].value;
      var sc := Scan(e.events, decodes);
      if IsGzFile(e) {
        DirFromIncomplete(entries, i + 1, decodes, reports + [FileReport(e.fileName, sc.records, sc.logged)]);
      } else {
        DirFromIncomplete(entries, i + 1, decodes, reports);
      }
    }
  }

  /** The walk stops at the first entry that does not complete, having read
      the `gz` files before it: a failed entry is returned as `Err`; a
      regular file without an extension panics at the `unwrap`; a `gz` file
      whose scan panics panics, and one whose scan never returns never
      returns. */
  lemma WalkStopsAtFirstFailure(entries: seq<Result<DirEntry, string>>, f: nat, decodes: seq<Event> -> bool)
    requires f < |entries| && !EntryCompletes(entries[f], decodes)
    requires forall j :: 0 <= j < f ==> EntryCompletes(entries[j], decodes)
    ensures var r := DirectoryRun(true, Ok(entries), decodes);
            var done := GzReports(entries[..f], decodes);
            && (entries[f].Err? ==> r == DirIoErr(entries[f].error, done))
            && (entries[f].Ok? && Extension(entries[f].value.fileName).None? ==>
                  entries[f].value.kind == RegularFile && r == DirPanicked(done))
            && (entries[f].Ok? && Extension(entries[f].value.fileName).Some? ==>
                  && IsGzFile(entries[f].value) && !Scan(entries[f].value.events, decodes).Scanned?
                  && r == (if Scan(entries[f].value.events, decodes).ScanDiverged? then DirDiverged(done)
                           else DirPanicked(done)))
  {
    assert entries[0..f] == entries[..f];
    DirFromStopsAt(entries, 0, f, decodes, []);
  }

  /** `read_directory` on a path that is not a directory is `Ok` with
      nothing read; a failed listing is returned as `Err`; over a listing
      whose every entry completes it is `Ok` and has read exactly the regular
      files with extension `gz`, each to its scan's records and log; and if
      some entry does not complete, it is not `Ok`. */
  lemma ReadsExactlyTheGzFiles(isDir: bool, listing: Result<seq<Result<DirEntry, string>>, string>,
                               decodes: seq<Event> -> bool)
    ensures var r := DirectoryRun(isDir, listing, decodes);
            && (!isDir ==> r == DirOk([]))
            && (isDir && listing.Err? ==> r == DirIoErr(listing.error, []))
            && (isDir && listing.Ok? && (forall j :: 0 <= j < |listing.value| ==> EntryCompletes(listing.value[j], decodes))
                ==> r == DirOk(GzReports(listing.value, decodes)))
            && (isDir && listing.Ok? && (exists j :: 0 <= j < |listing.value| && !EntryCompletes(listing.value[j], decodes))
                ==> !r.DirOk?)
  {
    if isDir && listing.Ok? {
      var entries := listing.value;
      if forall j :: 0 <= j < |entries| ==> EntryCompletes(entries[j], decodes) {
        assert entries[0..] == entries;
        DirFromAllComplete(entries, 0, decodes, []);
      } else {
        DirFromIncomplete(entries, 0, decodes, []);
      }
    }
  }

  /** A regular file without an extension in the listing makes the walk
      panic before it reads anything. */
  lemma FileWithoutExtensionPanics(events: seq<Event>, decodes: seq<Event> -> bool)
    ensures DirectoryRun(true, Ok([Ok(DirEntry("README", RegularFile, events))]), decodes) == DirPanicked([])
  {
    NoExtension("README");
  }
}
