/**
 * The pull events an XML reader yields, as the record slicer sees them, and
 * the qualified names of elements: the reader splits a name as written at
 * its first ':' into a namespace prefix and a local part.
 */
module XmlEvents {
  import opened Wrappers

  /** A qualified element name as the reader hands it out: the prefix (the
      text before the first ':', if there is one) and the local part (the
      rest). */
  datatype QName = QName(prefix: Option<string>, local: string)

  datatype Attribute = Attribute(key: string, value: string)

  /** One pull event. `Text` carries the unescaped character data. `Other`
      stands for CDATA sections, comments, the XML declaration, processing
      instructions and the doctype. A reader failure is the event `ReadErr`;
      the reader keeps yielding `Eof` once the input is used up. */
  datatype Event =
    | Start(name: QName, attrs: seq<Attribute>)
    | End(name: QName)
    | Empty(name: QName, attrs: seq<Attribute>)
    | Text(content: string)
    | Other
    | Eof
    | ReadErr(message: string)

  /** The index of the first ':' in `s`, or `|s|` when there is none. */
  function ColonAt(s: string): (k: nat)
    ensures k <= |s|
    ensures forall j :: 0 <= j < k ==> s[j] != ':'
    ensures k < |s| ==> s[k] == ':'
  {
    if s == [] || s[0] == ':' then 0 else 1 + ColonAt(s[1..])
  }

  /** The split the reader makes of a name as written. */
  function Split(s: string): (q: QName)
    ensures q.prefix.Some? <==> ':' in s
    ensures q.prefix.Some? ==> ':' !in q.prefix.value
    ensures q.prefix.None? ==> q.local == s
  {
    var k := ColonAt(s);
    if k < |s| then QName(Some(s[..k]), s[k + 1..]) else QName(None, s)
  }

  /** A name as written: the full name the reader compares against. */
  function Render(q: QName): string {
    match q.prefix
    case Some(p) => p + ":" + q.local
    case None => q.local
  }

  /** The names the reader can hand out: the prefix, when present, holds no
      ':', and a name without a prefix holds none at all. */
  predicate WellFormed(q: QName) {
    match q.prefix
    case Some(p) => ':' !in p
    case None => ':' !in q.local
  }

  /** Splitting a name and writing it back gives the name again. */
  lemma RenderSplit(s: string)
    ensures WellFormed(Split(s)) && Render(Split(s)) == s
  {
    var k := ColonAt(s);
    if k < |s| {
      assert s == s[..k] + ":" + s[k + 1..];
    }
  }

  /** Writing a well-formed name and splitting it gives the name again. */
  lemma SplitRender(q: QName)
    requires WellFormed(q)
    ensures Split(Render(q)) == q
  {
    match q.prefix {
      case Some(p) =>
        var s := Render(q);
        assert s[|p|] == ':';
        assert s[..|p|] == p;
        assert s[|p| + 1..] == q.local;
        assert ColonAt(s) == |p| by {
          ColonAtIs(s, |p|);
        }
      case None =>
    }
  }

  lemma ColonAtIs(s: string, k: nat)
    requires k < |s| && s[k] == ':' && forall j :: 0 <= j < k ==> s[j] != ':'
    ensures ColonAt(s) == k
  {
  }

  /** A name with no ':' in it is matched, as written, exactly by the
      unprefixed name with that local part. */
  lemma RenderMatchesPlain(q: QName, s: string)
    requires ':' !in s
    ensures Render(q) == s <==> q == QName(None, s)
  {
    if q.prefix.Some? {
      var p := q.prefix.value;
      assert Render(q)[|p|] == ':';
    }
  }
}
