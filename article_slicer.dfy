/**
 * `read_article`: called by the file scanner right after it has read the
 * start tag of a `PubmedArticle`, it pulls events from the same reader and
 * builds a self-contained copy of that one record for the schema decoder.
 * It keeps a `u32` depth counter of the structural elements opened inside
 * the record, copies structural start and end tags, copies text only below
 * the record's own children, and turns a fixed table of inline tags into
 * literal text markers (the decoder maps text nodes to plain strings and
 * cannot hold elements inside them).
 *
 * The reader is the event sequence `events` read from a position; the output
 * buffer is the sequence of events written to it.
 */
module ArticleSlicer {
  import opened Wrappers
  import opened RustNum
  import opened XmlEvents

  /** The record element; the scanner's trigger and the slicer's terminator. */
  const RecordTag: string := "PubmedArticle"

  /** The record element's name as the reader hands it out. */
  const RecordName: QName := QName(None, RecordTag)

  /** Inline tags turned into markers `<x>` and `</x>` whatever their
      prefix, by local name. */
  const InlineTags: seq<string> := ["i", "b", "sup", "sub", "u"]

  /** The display-formula tag, also turned into markers by local name. */
  const FormulaTag: string := "DispFormula"

  /** Elements with this prefix are turned into markers below the record's
      top level. */
  const MathPrefix: string := "mml"

  /** The marker texts that do not depend on the element's name. */
  const FixedMarkers: set<string> :=
    {"<i>", "<b>", "<sup>", "<sub>", "<u>", "<DispFormula>",
     "</i>", "</b>", "</sup>", "</sub>", "</u>", "</DispFormula>"}

  predicate IsRewritten(local: string) {
    local in InlineTags || local == FormulaTag
  }

  /** The marker a start tag is rewritten to at the given depth, or `None`
      when the tag is structural. The order of the tests is that of the
      match arms: inline tags, then math elements below the top level, then
      the display formula. */
  function StartMarker(name: QName, depth: nat): (r: Option<string>)
    ensures r.None? <==> !IsRewritten(name.local) && (name.prefix != Some(MathPrefix) || depth == 0)
    ensures r.Some? && depth == 0 ==> r.value in FixedMarkers
  {
    var local := name.local;
    if local == "i" then Some("<i>")
    else if local == "b" then Some("<b>")
    else if local == "sup" then Some("<sup>")
    else if local == "sub" then Some("<sub>")
    else if local == "u" then Some("<u>")
    else if name.prefix == Some(MathPrefix) && depth > 0 then Some("<" + Render(name) + ">")
    else if local == FormulaTag then Some("<DispFormula>")
    else None
  }

  /** The marker an end tag is rewritten to at the given depth, or `None`.
      Note the math end marker opens with `&lt/`, not `</`. */
  function EndMarker(name: QName, depth: nat): (r: Option<string>)
    ensures r.None? <==> !IsRewritten(name.local) && (name.prefix != Some(MathPrefix) || depth == 0)
    ensures r.Some? && depth == 0 ==> r.value in FixedMarkers
  {
    var local := name.local;
    if local == "i" then Some("</i>")
    else if local == "b" then Some("</b>")
    else if local == "sup" then Some("</sup>")
    else if local == "sub" then Some("</sub>")
    else if local == "u" then Some("</u>")
    else if name.prefix == Some(MathPrefix) && depth > 0 then Some("&lt/" + Render(name) + ">")
    else if local == FormulaTag then Some("</DispFormula>")
    else None
  }

  /** How a call of the slicer ends. `Sliced` is the `Ok` return, with the
      position just past the record's end tag; `ReadFailed` is the reader
      error returned as `Err`; `DepthOverflow` is the arithmetic panic of
      incrementing the counter past `u32::MAX` or decrementing it below zero;
      `Diverged` means the loop never returns, which is what happens once the
      reader is at the end of its input. */
  datatype SliceOutcome =
    | Sliced(record: seq<Event>, next: nat)
    | ReadFailed(message: string)
    | DepthOverflow
    | Diverged

  /** What one event does to the slicer: go on with a new counter and
      buffer, return the finished record, return a reader error, panic on
      the counter, or spin forever on the end of input. */
  datatype Progress =
    | Continue(depth: nat, out: seq<Event>)
    | Finish(record: seq<Event>)
    | Fail(message: string)
    | Overflow
    | Spin

  /** The record end test compares the end tag's full name, as written,
      with `PubmedArticle`; because that text holds no ':', the names that
      pass it are exactly the unprefixed `PubmedArticle`. */
  lemma RecordNameMatch(q: QName)
    ensures Render(q) == RecordTag <==> q == RecordName
  {
    assert forall j | 0 <= j < |RecordTag| :: RecordTag[j] != ':';
    RenderMatchesPlain(q, RecordTag);
  }

  /** One pass of the loop body: the match arms in their order. */
  function Step(e: Event, depth: nat, out: seq<Event>): (p: Progress)
    requires depth <= U32_MAX
    ensures p.Continue? ==> p.depth <= U32_MAX
  {
    match e
    case Start(name, attrs) =>
      (match StartMarker(name, depth)
       case Some(t) => Continue(depth, out + [Text(t)])
       case None =>
         if depth == U32_MAX then Overflow
         else Continue(depth + 1, out + [Start(name, attrs)]))
    case End(name) =>
      (match EndMarker(name, depth)
       case Some(t) => Continue(depth, out + [Text(t)])
       case None =>
         if name == RecordName then Finish(out + [End(name)])
         else if depth == 0 then Overflow
         else Continue(depth - 1, out + [End(name)]))
    case Text(s) => Continue(depth, if depth > 0 then out + [Text(s)] else out)
    case Empty(_, _) => Continue(depth, out)
    case Other => Continue(depth, out)
    case Eof => Spin
    case ReadErr(m) => Fail(m)
  }

  /** The slicer's loop from position `i`, with the counter at `depth` and
      `out` written so far. A record always ends past where the loop stands. */
  function SliceFrom(events: seq<Event>, i: nat, depth: nat, out: seq<Event>): (r: SliceOutcome)
    requires i <= |events| && depth <= U32_MAX
    ensures r.Sliced? ==> i < r.next <= |events|
    decreases |events| - i
  {
    if i == |events| then Diverged
    else
      match Step(events[i], depth, out)
      case Continue(d, o) =>
        SliceFrom(events, i + 1, d, o)
      case Finish(record) => Sliced(record, i + 1)
      case Fail(m) => ReadFailed(m)
      case Overflow => DepthOverflow
      case Spin => Diverged
  }

  /** One turn of the loop. */
  lemma SliceFromUnfold(events: seq<Event>, i: nat, depth: nat, out: seq<Event>)
    requires i < |events| && depth <= U32_MAX
    ensures SliceFrom(events, i, depth, out)
            == match Step(events[i], depth, out)
               case Continue(d, o) => SliceFrom(events, i + 1, d, o)
               case Finish(record) => Sliced(record, i + 1)
               case Fail(m) => ReadFailed(m)
               case Overflow => DepthOverflow
               case Spin => Diverged
  {
  }

  /** A call of the slicer with the reader at `start`: a fresh buffer that
      opens with a bare record start tag, and the counter at zero. */
  function Slice(events: seq<Event>, start: nat): (r: SliceOutcome)
    requires start <= |events|
    ensures r.Sliced? ==> start < r.next <= |events|
  {
    SliceFrom(events, start, 0, [Start(RecordName, [])])
  }

  /** `read_article`: the loop pulls one event per turn and runs the match
      arms of `Step` on it, until an arm returns. */
  method ReadArticle(events: seq<Event>, start: nat) returns (outcome: SliceOutcome)
    requires start <= |events|
    ensures outcome == Slice(events, start)
  {
    var depth: nat := 0;
    var output: seq<Event> := [Start(RecordName, [])];
    var i := start;
    while i < |events|
      invariant start <= i <= |events| && depth <= U32_MAX
      invariant SliceFrom(events, i, depth, output) == Slice(events, start)
      decreases |events| - i
    {
      var progress := Step(events[i], depth, output);
      SliceFromUnfold(events, i, depth, output);
      match progress {
        case Continue(d, o) =>
          depth, output := d, o;
        case Finish(record) =>
          return Sliced(record, i + 1);
        case Fail(m) =>
          return ReadFailed(m);
        case Overflow =>
          return DepthOverflow;
        case Spin =>
          return Diverged;
      }
      i := i + 1;
    }
    return Diverged;
  }
}
