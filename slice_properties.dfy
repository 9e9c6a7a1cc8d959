/**
 * What `read_article` guarantees about the record it returns, stated over
 * the slicer's specification `Slice`, which `ArticleSlicer.ReadArticle` is
 * proved to compute.
 */
module SliceProperties {
  import opened Wrappers
  import opened RustNum
  import opened XmlEvents
  import opened ArticleSlicer

  /** The record tag has no prefix and is not in the rewrite table, so its
      end tag is never a marker. */
  lemma RecordTagIsStructural()
    ensures !IsRewritten(RecordTag)
    ensures forall d: nat :: EndMarker(RecordName, d) == None
  {
  }

  // ------------------------------------------------------------ rewrite table

  /** An inline tag is written as the text `<x>` or `</x>` at any depth
      and whatever its prefix, and the counter stays. So is the display
      formula, except for `mml:DispFormula` below the top level, which the
      earlier `mml` arm catches. */
  lemma RewrittenTagsKeepDepth(name: QName, attrs: seq<Attribute>, depth: nat, out: seq<Event>)
    requires depth <= U32_MAX
    requires name.local in InlineTags || (name.local == FormulaTag && (name.prefix != Some(MathPrefix) || depth == 0))
    ensures Step(Start(name, attrs), depth, out) == Continue(depth, out + [Text("<" + name.local + ">")])
    ensures Step(End(name), depth, out) == Continue(depth, out + [Text("</" + name.local + ">")])
  {
    var l := name.local;
    if l == "i" {
      assert "<" + l + ">" == "<i>" && "</" + l + ">" == "</i>";
    } else if l == "b" {
      assert "<" + l + ">" == "<b>" && "</" + l + ">" == "</b>";
    } else if l == "sup" {
      assert "<" + l + ">" == "<sup>" && "</" + l + ">" == "</sup>";
    } else if l == "sub" {
      assert "<" + l + ">" == "<sub>" && "</" + l + ">" == "</sub>";
    } else if l == "u" {
      assert "<" + l + ">" == "<u>" && "</" + l + ">" == "</u>";
    } else if l == "DispFormula" {
      assert "<" + l + ">" == "<DispFormula>" && "</" + l + ">" == "</DispFormula>";
    }
  }

  /** Below the record's top level a `mml` element that is not an inline
      tag (`mml:DispFormula` included) is written as text, its start as
      `<mml:x>` and its end as `&lt/mml:x>`; the counter stays. */
  lemma MathTagsBelowTopLevel(name: QName, attrs: seq<Attribute>, depth: nat, out: seq<Event>)
    requires 0 < depth <= U32_MAX && name.prefix == Some(MathPrefix) && name.local !in InlineTags
    ensures Step(Start(name, attrs), depth, out) == Continue(depth, out + [Text("<" + Render(name) + ">")])
    ensures Step(End(name), depth, out) == Continue(depth, out + [Text("&lt/" + Render(name) + ">")])
  {
  }

  /** Any other tag is structural: a start is copied with its attributes and
      opens one more level, panicking at `u32::MAX`; an end other than the
      record's is copied and closes one level, panicking at zero; the
      record's end finishes the record at any depth. At the top level this
      includes `mml` elements. */
  lemma StructuralTagsMoveDepth(name: QName, attrs: seq<Attribute>, depth: nat, out: seq<Event>)
    requires depth <= U32_MAX && !IsRewritten(name.local)
    requires name.prefix != Some(MathPrefix) || depth == 0
    ensures Step(Start(name, attrs), depth, out)
            == if depth == U32_MAX then Overflow else Continue(depth + 1, out + [Start(name, attrs)])
    ensures Step(End(name), depth, out)
            == if name == RecordName then Finish(out + [End(name)])
               else if depth == 0 then Overflow
               else Continue(depth - 1, out + [End(name)])
  {
  }

  /** Character data is kept only inside an element of the record; empty
      elements and every other kind of event are dropped. */
  lemma OnlyNestedTextIsCopied(e: Event, depth: nat, out: seq<Event>)
    requires depth <= U32_MAX && !e.Start? && !e.End? && !e.Eof? && !e.ReadErr?
    ensures Step(e, depth, out) == Continue(depth, if e.Text? && depth > 0 then out + [e] else out)
  {
  }

  // ------------------------------------------------------------ termination

  /** The events on which the slicer stops reading: the record's end tag, the
      end of input, and a reader error. */
  predicate IsStop(e: Event) {
    e == End(RecordName) || e.Eof? || e.ReadErr?
  }

  /** The position of the first stop event from `i` on, or `|events|`. */
  function FirstStop(events: seq<Event>, i: nat): (k: nat)
    requires i <= |events|
    ensures i <= k <= |events|
    ensures forall j :: i <= j < k ==> !IsStop(events[j])
    ensures k < |events| ==> IsStop(events[k])
    decreases |events| - i
  {
    if i == |events| || IsStop(events[i]) then i else FirstStop(events, i + 1)
  }

  lemma {:induction false} SliceFromUntilStop(events: seq<Event>, i: nat, depth: nat, out: seq<Event>)
    requires i <= |events| && depth <= U32_MAX
    ensures var k := FirstStop(events, i);
            var r := SliceFrom(events, i, depth, out);
            r.DepthOverflow?
            || (if k == |events| || events[k].Eof? then r.Diverged?
                else if events[k].ReadErr? then r == ReadFailed(events[k].message)
                else r.Sliced? && r.next == k + 1)
    decreases |events| - i
  {
    RecordTagIsStructural();
    if i < |events| && !IsStop(events[i]) {
      var p := Step(events[i], depth, out);
      if p.Continue? {
        SliceFromUntilStop(events, i + 1, p.depth, p.out);
      }
    }
  }

  /** The slicer returns `Ok` exactly at the first end tag named
      `PubmedArticle`, whatever the depth; a reader error before it is
      returned as `Err`; an end of input before it makes the loop spin. The
      only other way out is the counter's overflow panic. */
  lemma SliceEndsAtFirstStop(events: seq<Event>, start: nat)
    requires start <= |events|
    ensures var k := FirstStop(events, start);
            var r := Slice(events, start);
            r.DepthOverflow?
            || (if k == |events| || events[k].Eof? then r.Diverged?
                else if events[k].ReadErr? then r == ReadFailed(events[k].message)
                else r.Sliced? && r.next == k + 1)
  {
    SliceFromUntilStop(events, start, 0, [Start(RecordName, [])]);
  }

  /** The consumed input of a sliced record: it ends with the record's end
      tag and holds no earlier end tag of it, no end of input and no error. */
  lemma SlicedConsumesUpToRecordEnd(events: seq<Event>, start: nat)
    requires start <= |events| && Slice(events, start).Sliced?
    ensures var n := Slice(events, start).next;
            events[n - 1] == End(RecordName)
            && forall j :: start <= j < n - 1 ==> events[j] != End(RecordName) && !events[j].Eof? && !events[j].ReadErr?
  {
    SliceEndsAtFirstStop(events, start);
  }

  // ------------------------------------------------------------ record shape

  function Delta(e: Event): int {
    if e.Start? then 1 else if e.End? then -1 else 0
  }

  /** Start tags minus end tags written. */
  function Opens(s: seq<Event>): int {
    if s == [] then 0 else Opens(s[..|s| - 1]) + Delta(s[|s| - 1])
  }

  predicate IsTag(e: Event) {
    e.Start? || e.End?
  }

  /** What every record the slicer returns looks like: it opens with a bare
      `PubmedArticle` start and closes with the only `PubmedArticle` end;
      it holds only start tags, end tags and text; no tag in it is one of the
      rewritten inline or formula tags; before its last event it never closes
      more elements than it opened inside the record; and text written while
      no element inside the record was open is always one of the fixed
      markers, never copied character data. */
  ghost predicate RecordShape(rec: seq<Event>) {
    && |rec| >= 2
    && rec[0] == Start(RecordName, []) && rec[|rec| - 1] == End(RecordName)
    && (forall k :: 0 <= k < |rec| - 1 ==> rec[k] != End(RecordName))
    && (forall k :: 0 <= k < |rec| ==> IsTag(rec[k]) || rec[k].Text?)
    && (forall k :: 0 <= k < |rec| && IsTag(rec[k]) ==> !IsRewritten(rec[k].name.local))
    && (forall k :: 1 <= k < |rec| ==> Opens(rec[..k]) >= 1)
    && (forall k :: 1 <= k < |rec| && rec[k].Text? && Opens(rec[..k]) == 1 ==> rec[k].content in FixedMarkers)
  }

  /** The loop invariant behind `RecordShape`: the counter is the number of
      elements opened inside the record and not yet closed. */
  ghost predicate Framed(out: seq<Event>, depth: nat) {
    && |out| >= 1 && out[0] == Start(RecordName, [])
    && Opens(out) == depth + 1
    && (forall k :: 0 <= k < |out| ==> out[k] != End(RecordName))
    && (forall k :: 0 <= k < |out| ==> IsTag(out[k]) || out[k].Text?)
    && (forall k :: 0 <= k < |out| && IsTag(out[k]) ==> !IsRewritten(out[k].name.local))
    && (forall k :: 1 <= k <= |out| ==> Opens(out[..k]) >= 1)
    && (forall k :: 1 <= k < |out| && out[k].Text? && Opens(out[..k]) == 1 ==> out[k].content in FixedMarkers)
  }

  lemma OpensAppend(s: seq<Event>, x: Event)
    ensures Opens(s + [x]) == Opens(s) + Delta(x)
  {
    assert (s + [x])[..|s|] == s;
  }

  lemma AppendFramed(out: seq<Event>, depth: nat, x: Event, depth': nat)
    requires Framed(out, depth)
    requires IsTag(x) || x.Text?
    requires x != End(RecordName)
    requires IsTag(x) ==> !IsRewritten(x.name.local)
    requires depth' == depth + Delta(x)
    requires x.Text? && depth == 0 ==> x.content in FixedMarkers
    ensures Framed(out + [x], depth')
  {
    var o := out + [x];
    OpensAppend(out, x);
    forall k | 1 <= k <= |o| ensures Opens(o[..k]) >= 1 {
      if k <= |out| {
        assert o[..k] == out[..k];
      } else {
        assert o[..k] == o;
      }
    }
    forall k | 1 <= k < |o| && o[k].Text? && Opens(o[..k]) == 1 ensures o[k].content in FixedMarkers {
      if k < |out| {
        assert o[..k] == out[..k];
      } else {
        assert o[..k] == out;
      }
    }
  }

  /** Closing the record keeps every fact of the frame: the result is a
      record of the right shape. */
  lemma FinishShape(out: seq<Event>, depth: nat)
    requires Framed(out, depth)
    ensures RecordShape(out + [End(RecordName)])
  {
    var rec := out + [End(RecordName)];
    forall k | 1 <= k < |rec| ensures Opens(rec[..k]) >= 1 {
      assert rec[..k] == out[..k];
    }
    forall k | 1 <= k < |rec| && rec[k].Text? && Opens(rec[..k]) == 1 ensures rec[k].content in FixedMarkers {
      assert rec[..k] == out[..k];
    }
  }

  lemma StartFramed(name: QName, attrs: seq<Attribute>, depth: nat, out: seq<Event>)
    requires depth <= U32_MAX && Framed(out, depth)
    ensures var p := Step(Start(name, attrs), depth, out); p.Continue? ==> Framed(p.out, p.depth)
  {
    match StartMarker(name, depth) {
      case Some(t) => AppendFramed(out, depth, Text(t), depth);
      case None =>
        if depth < U32_MAX {
          AppendFramed(out, depth, Start(name, attrs), depth + 1);
        }
    }
  }

  lemma EndFramed(name: QName, depth: nat, out: seq<Event>)
    requires depth <= U32_MAX && Framed(out, depth)
    ensures var p := Step(End(name), depth, out);
            (p.Continue? ==> Framed(p.out, p.depth)) && (p.Finish? ==> RecordShape(p.record))
  {
    match EndMarker(name, depth) {
      case Some(t) => AppendFramed(out, depth, Text(t), depth);
      case None =>
        if name == RecordName {
          FinishShape(out, depth);
        } else if depth > 0 {
          AppendFramed(out, depth, End(name), depth - 1);
        }
    }
  }

  lemma StepFramed(e: Event, depth: nat, out: seq<Event>)
    requires depth <= U32_MAX && Framed(out, depth)
    ensures var p := Step(e, depth, out);
            (p.Continue? ==> Framed(p.out, p.depth)) && (p.Finish? ==> RecordShape(p.record))
  {
    match e {
      case Start(name, attrs) => StartFramed(name, attrs, depth, out);
      case End(name) => EndFramed(name, depth, out);
      case Text(s) =>
        if depth > 0 {
          AppendFramed(out, depth, Text(s), depth);
        }
      case Empty(_, _) =>
      case Other =>
      case Eof =>
      case ReadErr(_) =>
    }
  }

  lemma {:induction false} SliceFromShape(events: seq<Event>, i: nat, depth: nat, out: seq<Event>)
    requires i <= |events| && depth <= U32_MAX && Framed(out, depth)
    ensures var r := SliceFrom(events, i, depth, out); r.Sliced? ==> RecordShape(r.record)
    decreases |events| - i
  {
    if i < |events| {
      StepFramed(events[i], depth, out);
      var p := Step(events[i], depth, out);
      if p.Continue? {
        SliceFromShape(events, i + 1, p.depth, p.out);
      }
    }
  }

  /** Every record the slicer returns has `RecordShape`. */
  lemma SlicedRecordShape(events: seq<Event>, start: nat)
    requires start <= |events|
    ensures var r := Slice(events, start); r.Sliced? ==> RecordShape(r.record)
  {
    var first := [Start(RecordName, [])];
    RecordTagIsStructural();
    assert first[..1] == first;
    assert Opens(first) == Opens(first[..0]) + 1;
    SliceFromShape(events, start, 0, first);
  }

  // ------------------------------------------------------------ balanced input

  /** A tag the slicer treats as structural at every depth: its local name
      is not rewritten and it has no `mml` prefix. */
  predicate IsPlain(name: QName) {
    !IsRewritten(name.local) && name.prefix != Some(MathPrefix)
  }

  function PlainDelta(e: Event): int {
    if e.Start? && IsPlain(e.name) then 1
    else if e.End? && IsPlain(e.name) then -1
    else 0
  }

  /** Plain start tags minus plain end tags in the input. */
  function PlainOpens(s: seq<Event>): int {
    if s == [] then 0 else PlainOpens(s[..|s| - 1]) + PlainDelta(s[|s| - 1])
  }

  /** The input between a record's start tag and its end tag is balanced:
      it holds no stop event; plain elements are never closed before they
      are opened and are all closed at the end; an `mml` element that is
      not rewritten by its local name sits inside some plain element; and
      plain elements nest fewer than `u32::MAX` deep, so the counter never
      overflows. */
  ghost predicate BalancedBody(b: seq<Event>) {
    && (forall j :: 0 <= j < |b| ==> !IsStop(b[j]))
    && (forall j {:trigger PlainOpens(b[..j])} :: 0 <= j <= |b| ==> 0 <= PlainOpens(b[..j]) < U32_MAX)
    && PlainOpens(b) == 0
    && (forall j {:trigger PlainOpens(b[..j])} :: 0 <= j < |b| && IsTag(b[j]) && b[j].name.prefix == Some(MathPrefix) && !IsRewritten(b[j].name.local)
          ==> PlainOpens(b[..j]) > 0)
  }

  lemma PlainOpensAppend(s: seq<Event>, x: Event)
    ensures PlainOpens(s + [x]) == PlainOpens(s) + PlainDelta(x)
  {
    assert (s + [x])[..|s|] == s;
  }

  /** One event of a balanced body: the slicer goes on, and its counter
      moves exactly as the plain tags do. */
  lemma StepBalanced(e: Event, depth: nat, out: seq<Event>)
    requires depth < U32_MAX && Opens(out) == depth + 1
    requires !IsStop(e) && depth + PlainDelta(e) >= 0
    requires IsTag(e) && e.name.prefix == Some(MathPrefix) && !IsRewritten(e.name.local) ==> depth > 0
    ensures var p := Step(e, depth, out);
            p.Continue? && p.depth == depth + PlainDelta(e) && Opens(p.out) == p.depth + 1
  {
    var p := Step(e, depth, out);
    match e {
      case Start(name, attrs) =>
        if StartMarker(name, depth).Some? {
          OpensAppend(out, Text(StartMarker(name, depth).value));
        } else {
          OpensAppend(out, e);
        }
      case End(name) =>
        if EndMarker(name, depth).Some? {
          OpensAppend(out, Text(EndMarker(name, depth).value));
        } else {
          OpensAppend(out, e);
        }
      case Text(s) =>
        if depth > 0 {
          OpensAppend(out, e);
        }
      case Empty(_, _) =>
      case Other =>
    }
  }

  /** What a balanced body says about its event at position `i`, in terms
      of the input read before it. */
  lemma BalancedBodyAt(events: seq<Event>, start: nat, k: nat, i: nat)
    requires start <= i < k <= |events| && BalancedBody(events[start..k])
    ensures var e := events[i];
            var before := PlainOpens(events[start..i]);
            && !IsStop(e)
            && PlainOpens(events[start..i + 1]) == before + PlainDelta(e)
            && before + PlainDelta(e) >= 0
            && before < U32_MAX
            && (IsTag(e) && e.name.prefix == Some(MathPrefix) && !IsRewritten(e.name.local) ==> before > 0)
  {
    var b := events[start..k];
    var e := events[i];
    assert b[i - start] == e;
    assert b[..i - start] == events[start..i];
    assert events[start..i + 1] == events[start..i] + [e];
    assert b[..i + 1 - start] == events[start..i + 1];
    PlainOpensAppend(events[start..i], e);
  }

  lemma {:induction false} SliceFromBalanced(events: seq<Event>, start: nat, k: nat, i: nat, depth: nat, out: seq<Event>)
    requires start <= i <= k < |events| && events[k] == End(RecordName)
    requires BalancedBody(events[start..k])
    requires depth <= U32_MAX && depth == PlainOpens(events[start..i]) && Opens(out) == depth + 1
    ensures var r := SliceFrom(events, i, depth, out);
            r.Sliced? && r.next == k + 1 && Opens(r.record) == 0
    decreases k - i
  {
    if i == k {
      assert events[start..k][..k - start] == events[start..k];
      RecordTagIsStructural();
      OpensAppend(out, End(RecordName));
    } else {
      BalancedBodyAt(events, start, k, i);
      StepBalanced(events[i], depth, out);
      var p := Step(events[i], depth, out);
      SliceFromBalanced(events, start, k, i + 1, p.depth, p.out);
    }
  }

  /** For a balanced record the slicer returns at the record's end tag, and
      the record it returns is balanced: the counter is back at zero when
      the end tag arrives. */
  lemma BalancedRecordIsSlicedWhole(events: seq<Event>, start: nat, k: nat)
    requires start <= k < |events| && events[k] == End(RecordName)
    requires BalancedBody(events[start..k])
    ensures var r := Slice(events, start); r.Sliced? && r.next == k + 1 && Opens(r.record) == 0
  {
    var first := [Start(RecordName, [])];
    assert first[..0] == [];
    assert events[start..start] == [];
    SliceFromBalanced(events, start, k, start, 0, first);
  }

  // ------------------------------------------------------------ one record on its own

  /** The slicer reads nothing before its start position and nothing after
      the record's end tag: on a stretch of input that ends with that tag it
      does the same wherever the stretch sits in the file. */
  lemma {:induction false} SliceFromShift(pre: seq<Event>, w: seq<Event>, post: seq<Event>,
                                          j: nat, depth: nat, out: seq<Event>)
    requires j < |w| && w[|w| - 1] == End(RecordName) && depth <= U32_MAX
    ensures var r := SliceFrom(w, j, depth, out);
            SliceFrom(pre + w + post, |pre| + j, depth, out)
            == (if r.Sliced? then Sliced(r.record, |pre| + r.next) else r)
    decreases |w| - j
  {
    var e := pre + w + post;
    assert e[|pre| + j] == w[j];
    SliceFromUnfold(e, |pre| + j, depth, out);
    SliceFromUnfold(w, j, depth, out);
    if j + 1 == |w| {
      RecordTagIsStructural();
    } else {
      match Step(w[j], depth, out) {
        case Continue(d, o) => SliceFromShift(pre, w, post, j + 1, d, o);
        case _ =>
      }
    }
  }

  /** The record the slicer makes of a record body on its own: the body and
      the record's end tag, read from the start. */
  function RecordOf(body: seq<Event>): seq<Event> {
    match Slice(body + [End(RecordName)], 0)
    case Sliced(rec, _) => rec
    case _ => []
  }

  /** A balanced body is sliced to `RecordOf` wherever it sits: whatever
      input comes before and after it, the slicer started on the body's
      first event returns that record and resumes just past the record's
      end tag. */
  lemma BalancedBodyIsSlicedInPlace(pre: seq<Event>, body: seq<Event>, post: seq<Event>)
    requires BalancedBody(body)
    ensures var events := pre + (body + [End(RecordName)]) + post;
            Slice(events, |pre|) == Sliced(RecordOf(body), |pre| + |body| + 1)
  {
    var w := body + [End(RecordName)];
    assert w[0..|body|] == body;
    BalancedRecordIsSlicedWhole(w, 0, |body|);
    SliceFromShift(pre, w, post, 0, 0, [Start(RecordName, [])]);
  }

  /** A body the slicer copies as it stands: balanced, made only of plain
      tags and of text inside some plain element. */
  ghost predicate VerbatimBody(b: seq<Event>) {
    && BalancedBody(b)
    && forall j :: 0 <= j < |b| ==>
         (IsTag(b[j]) && IsPlain(b[j].name)) || (b[j].Text? && PlainOpens(b[..j]) > 0)
  }

  /** One event of a verbatim body is copied and moves the counter as the
      plain tags do. */
  lemma StepVerbatim(e: Event, depth: nat, out: seq<Event>)
    requires depth < U32_MAX && !IsStop(e) && depth + PlainDelta(e) >= 0
    requires (IsTag(e) && IsPlain(e.name)) || (e.Text? && depth > 0)
    ensures Step(e, depth, out) == Continue(depth + PlainDelta(e), out + [e])
  {
  }

  /** What a verbatim body says about its event at position `i`. */
  lemma VerbatimAt(b: seq<Event>, i: nat)
    requires i < |b| && VerbatimBody(b)
    ensures var before := PlainOpens(b[..i]);
            && !IsStop(b[i]) && before < U32_MAX
            && before + PlainDelta(b[i]) == PlainOpens(b[..i + 1]) >= 0
            && ((IsTag(b[i]) && IsPlain(b[i].name)) || (b[i].Text? && before > 0))
  {
    assert b[..i + 1] == b[..i] + [b[i]];
    PlainOpensAppend(b[..i], b[i]);
  }

  lemma {:induction false} SliceFromVerbatim(b: seq<Event>, i: nat, depth: nat, out: seq<Event>)
    requires i <= |b| && VerbatimBody(b)
    requires depth == PlainOpens(b[..i]) && depth < U32_MAX
    requires out == [Start(RecordName, [])] + b[..i]
    ensures SliceFrom(b + [End(RecordName)], i, depth, out)
            == Sliced([Start(RecordName, [])] + b + [End(RecordName)], |b| + 1)
    decreases |b| - i
  {
    var w := b + [End(RecordName)];
    SliceFromUnfold(w, i, depth, out);
    if i == |b| {
      assert b[..i] == b;
      RecordTagIsStructural();
    } else {
      assert w[i] == b[i];
      VerbatimAt(b, i);
      StepVerbatim(b[i], depth, out);
      assert out + [b[i]] == [Start(RecordName, [])] + b[..i + 1];
      SliceFromVerbatim(b, i + 1, depth + PlainDelta(b[i]), out + [b[i]]);
    }
  }

  /** A body of plain tags and nested text comes out unchanged, between a
      bare record start tag and the record's end tag. */
  lemma VerbatimRecord(b: seq<Event>)
    requires VerbatimBody(b)
    ensures RecordOf(b) == [Start(RecordName, [])] + b + [End(RecordName)]
  {
    assert b[..0] == [];
    SliceFromVerbatim(b, 0, 0, [Start(RecordName, [])]);
  }
}
