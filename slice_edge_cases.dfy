/**
 * The slicer's edge cases, each on a short input: the reader positioned
 * just after a `PubmedArticle` start tag, and what `read_article` makes of
 * what follows.
 */
module SliceEdgeCases {
  import opened Wrappers
  import opened XmlEvents
  import opened ArticleSlicer
  import opened SliceProperties

  /** Inside a structural element a math element's start becomes the text
      `<mml:x>` and its end `&lt/mml:x>`: the two markers are not
      symmetric, and the record stays balanced. */
  lemma MathMarkersAreAsymmetric(outer: QName, m: QName)
    requires IsPlain(outer) && outer != RecordName
    requires m.prefix == Some(MathPrefix) && m.local !in InlineTags
    ensures Slice([Start(outer, []), Start(m, []), End(m), End(outer), End(RecordName)], 0)
            == Sliced([Start(RecordName, []), Start(outer, []), Text("<" + Render(m) + ">"),
                       Text("&lt/" + Render(m) + ">"), End(outer), End(RecordName)], 5)
  {
    var ev := [Start(outer, []), Start(m, []), End(m), End(outer), End(RecordName)];
    var o0 := [Start(RecordName, [])];
    var o1 := o0 + [Start(outer, [])];
    var o2 := o1 + [Text("<" + Render(m) + ">")];
    var o3 := o2 + [Text("&lt/" + Render(m) + ">")];
    var o4 := o3 + [End(outer)];
    RecordTagIsStructural();
    SliceFromUnfold(ev, 0, 0, o0);
    StructuralTagsMoveDepth(outer, [], 0, o0);
    SliceFromUnfold(ev, 1, 1, o1);
    MathTagsBelowTopLevel(m, [], 1, o1);
    SliceFromUnfold(ev, 2, 1, o2);
    MathTagsBelowTopLevel(m, [], 1, o2);
    SliceFromUnfold(ev, 3, 1, o3);
    StructuralTagsMoveDepth(outer, [], 1, o3);
    SliceFromUnfold(ev, 4, 0, o4);
    StructuralTagsMoveDepth(RecordName, [], 0, o4);
  }

  /** Directly under the record a math start is copied as a structural tag,
      which raises the counter, so its end is turned into text: the record
      comes out with one element never closed. */
  lemma TopLevelMathLeavesRecordUnbalanced(m: QName)
    requires m.prefix == Some(MathPrefix) && !IsRewritten(m.local)
    ensures var r := Slice([Start(m, []), End(m), End(RecordName)], 0);
            && r == Sliced([Start(RecordName, []), Start(m, []), Text("&lt/" + Render(m) + ">"), End(RecordName)], 3)
            && Opens(r.record) == 1
  {
    var ev := [Start(m, []), End(m), End(RecordName)];
    var o0 := [Start(RecordName, [])];
    var o1 := o0 + [Start(m, [])];
    var o2 := o1 + [Text("&lt/" + Render(m) + ">")];
    RecordTagIsStructural();
    SliceFromUnfold(ev, 0, 0, o0);
    StructuralTagsMoveDepth(m, [], 0, o0);
    SliceFromUnfold(ev, 1, 1, o1);
    MathTagsBelowTopLevel(m, [], 1, o1);
    SliceFromUnfold(ev, 2, 1, o2);
    StructuralTagsMoveDepth(RecordName, [], 1, o2);
    assert o0 == [] + [Start(RecordName, [])];
    OpensAppend([], Start(RecordName, []));
    OpensAppend(o0, Start(m, []));
    OpensAppend(o1, Text("&lt/" + Render(m) + ">"));
    OpensAppend(o2, End(RecordName));
  }

  /** Character data directly under the record element is dropped, and so
      are empty elements and other events. */
  lemma TopLevelTextIsDropped(s: string, name: QName, attrs: seq<Attribute>)
    ensures Slice([Text(s), Empty(name, attrs), Other, End(RecordName)], 0)
            == Sliced([Start(RecordName, []), End(RecordName)], 4)
  {
    var ev := [Text(s), Empty(name, attrs), Other, End(RecordName)];
    var o0 := [Start(RecordName, [])];
    RecordTagIsStructural();
    SliceFromUnfold(ev, 0, 0, o0);
    SliceFromUnfold(ev, 1, 0, o0);
    SliceFromUnfold(ev, 2, 0, o0);
    SliceFromUnfold(ev, 3, 0, o0);
    StructuralTagsMoveDepth(RecordName, [], 0, o0);
  }

  /** The end of input inside a record is never turned into a result. */
  lemma EndOfInputSpins(outer: QName, s: string)
    requires IsPlain(outer)
    ensures Slice([Start(outer, []), Text(s), Eof], 0) == Diverged
  {
    var ev := [Start(outer, []), Text(s), Eof];
    var o0 := [Start(RecordName, [])];
    var o1 := o0 + [Start(outer, [])];
    SliceFromUnfold(ev, 0, 0, o0);
    StructuralTagsMoveDepth(outer, [], 0, o0);
    SliceFromUnfold(ev, 1, 1, o1);
    SliceFromUnfold(ev, 2, 1, o1 + [Text(s)]);
  }

  /** A stray end tag directly under the record takes the counter below
      zero. */
  lemma StrayEndUnderflows(name: QName)
    requires IsPlain(name) && name != RecordName
    ensures Slice([End(name), End(RecordName)], 0) == DepthOverflow
  {
    SliceFromUnfold([End(name), End(RecordName)], 0, 0, [Start(RecordName, [])]);
    StructuralTagsMoveDepth(name, [], 0, [Start(RecordName, [])]);
  }
}
