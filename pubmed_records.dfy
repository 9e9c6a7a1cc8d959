/**
 * The record shapes that the year and identifier derivations read, and the
 * derivations themselves. The library crate and the main binary carry
 * identical copies of these types and methods; both are modelled by this one
 * module. The structs are built once by the decoder and never mutated, so
 * they are datatypes and the methods are functions.
 */
module PubmedRecords {
  import opened Wrappers
  import opened RustNum

  /** `<PMID Version="1">28895354</PMID>` */
  datatype Pmid = Pmid(version: string, value: string)

  /** A free-text date such as `1998 Mar-Apr`. */
  datatype MedlineDate = MedlineDate(value: string)

  datatype PubDate = PubDate(yearOp: Option<string>, medlineDateOp: Option<MedlineDate>)

  datatype Issn = Issn(issnType: string, value: string)

  datatype JournalIssue = JournalIssue(citedMedium: string, volume: Option<string>, issue: Option<string>, pubDate: PubDate)

  datatype Journal = Journal(issn: Option<Issn>, journalIssue: JournalIssue, title: Option<string>, abbreviation: Option<string>)

  /** `PMID::id`: the identifier text parsed as a `u32`. */
  function PmidId(p: Pmid): (r: Result<u32, IntErrorKind>)
    ensures r.Ok? <==> IsU32Literal(p.value)
    ensures r.Ok? ==> r.value as int == DigitsValue(UnsignedDigits(p.value))
    ensures r == Err(Empty) <==> p.value == []
  {
    ParseU32Characterization(p.value);
    ParseU32(p.value)
  }

  /** Where the first ASCII digit of `s` is, or `|s|` when there is none. */
  function FirstDigitAt(s: string): (i: nat)
    ensures i <= |s|
    ensures forall k :: 0 <= k < i ==> !IsAsciiDigit(s[k])
    ensures i < |s| ==> IsAsciiDigit(s[i])
  {
    if s == [] || IsAsciiDigit(s[0]) then 0 else 1 + FirstDigitAt(s[1..])
  }

  /** `skip_while(|c| !c.is_ascii_digit())`: the text from its first digit on. */
  function SkipNonDigits(s: string): (r: string)
    ensures r == s[FirstDigitAt(s)..]
  {
    if s == [] || IsAsciiDigit(s[0]) then s else SkipNonDigits(s[1..])
  }

  /** `take_while(|c| c.is_ascii_digit())`: the longest prefix of digits. */
  function TakeDigits(s: string): (r: string)
    ensures |r| <= |s| && r == s[..|r|]
    ensures AllDigits(r)
    ensures |r| < |s| ==> !IsAsciiDigit(s[|r|])
  {
    if s == [] || !IsAsciiDigit(s[0]) then [] else [s[0]] + TakeDigits(s[1..])
  }

  /** `MedlineDate::year`: the first run of ASCII digits in the date text. It
      is a run of digits inside the text, preceded only by non-digits and not
      followed by a digit. */
  function MedlineDateYear(m: MedlineDate): (r: string)
    ensures AllDigits(r)
    ensures var i := FirstDigitAt(m.value);
            i + |r| <= |m.value| && r == m.value[i..i + |r|]
            && (i + |r| < |m.value| ==> !IsAsciiDigit(m.value[i + |r|]))
  {
    var rest := SkipNonDigits(m.value);
    var i := FirstDigitAt(m.value);
    var r := TakeDigits(rest);
    assert rest[..|r|] == m.value[i..i + |r|];
    r
  }

  /** `PubDate::year`: the `Year` field when present, else the year taken from
      `MedlineDate`, else nothing. */
  function PubDateYear(d: PubDate): (r: Option<string>)
    ensures d.yearOp.Some? ==> r == d.yearOp
    ensures d.yearOp.None? && d.medlineDateOp.Some? ==> r == Some(MedlineDateYear(d.medlineDateOp.value))
    ensures r.None? <==> d.yearOp.None? && d.medlineDateOp.None?
  {
    if d.yearOp.Some? then d.yearOp
    else if d.medlineDateOp.Some? then Some(MedlineDateYear(d.medlineDateOp.value))
    else d.yearOp
  }

  /** `JournalIssue::year` */
  function JournalIssueYear(j: JournalIssue): (r: Option<string>)
    ensures j.pubDate.yearOp.Some? ==> r == j.pubDate.yearOp
    ensures j.pubDate.yearOp.None? && j.pubDate.medlineDateOp.Some? ==> r == Some(MedlineDateYear(j.pubDate.medlineDateOp.value))
    ensures r.None? <==> j.pubDate.yearOp.None? && j.pubDate.medlineDateOp.None?
  {
    PubDateYear(j.pubDate)
  }

  /** `Journal::year`: the derived year parsed as a `u32`; an absent year is
      parsed as the empty text. */
  function JournalYear(j: Journal): (r: Result<u32, IntErrorKind>)
    ensures r == Err(Empty) <==> JournalIssueYear(j.journalIssue) in {None, Some("")}
    ensures r.Ok? ==> JournalIssueYear(j.journalIssue).Some?
  {
    match JournalIssueYear(j.journalIssue)
    case Some(v) => ParseU32(v)
    case None => ParseU32("")
  }

  /** The identifier written in decimal, as the decoder would read it back,
      gives the number again. */
  lemma PmidIdRoundTrip(version: string, n: u32)
    ensures PmidId(Pmid(version, DecimalString(n as nat))) == Ok(n)
  {
    ParseU32RoundTrip(n);
  }

  // ---------------------------------------------------------------- MedlineDate

  /** The year is empty exactly when the date text holds no ASCII digit. */
  lemma MedlineDateYearEmptyIffNoDigit(m: MedlineDate)
    ensures MedlineDateYear(m) == [] <==> forall k :: 0 <= k < |m.value| ==> !IsAsciiDigit(m.value[k])
  {
    var i := FirstDigitAt(m.value);
    if i < |m.value| {
      assert SkipNonDigits(m.value)[0] == m.value[i];
    }
  }

  /** Taking the year of a year changes nothing. */
  lemma MedlineDateYearIdempotent(m: MedlineDate)
    ensures MedlineDateYear(MedlineDate(MedlineDateYear(m))) == MedlineDateYear(m)
  {
    var r := MedlineDateYear(m);
    TakeDigitsOfDigits(r);
    if r != [] {
      assert IsAsciiDigit(r[0]);
    }
  }

  lemma {:induction false} TakeDigitsOfDigits(s: string)
    requires AllDigits(s)
    ensures TakeDigits(s) == s
  {
    if s != [] {
      TakeDigitsOfDigits(s[1..]);
      assert [s[0]] + s[1..] == s;
    }
  }

  /** A date text made of a lead without digits, a run of digits and a rest
      that does not continue the run has that run as its year, whatever the
      rest holds (a second year, for instance). */
  lemma MedlineDateYearOfFirstRun(lead: string, run: string, rest: string)
    requires forall k :: 0 <= k < |lead| ==> !IsAsciiDigit(lead[k])
    requires run != [] && AllDigits(run)
    requires rest == [] || !IsAsciiDigit(rest[0])
    ensures MedlineDateYear(MedlineDate(lead + run + rest)) == run
  {
    var s := lead + run + rest;
    assert s[|lead|] == run[0];
    assert FirstDigitAt(s) == |lead|;
    assert SkipNonDigits(s) == run + rest;
    TakeDigitsOfRun(run, rest);
  }

  /** A date text that opens with a run of digits has that run as its year. */
  lemma {:induction false} MedlineDateYearOfLeadingRun(run: string, rest: string)
    requires run != [] && AllDigits(run)
    requires rest == [] || !IsAsciiDigit(rest[0])
    ensures MedlineDateYear(MedlineDate(run + rest)) == run
  {
    TakeDigitsOfRun(run, rest);
    assert IsAsciiDigit((run + rest)[0]);
  }

  lemma {:induction false} TakeDigitsOfRun(run: string, rest: string)
    requires AllDigits(run)
    requires rest == [] || !IsAsciiDigit(rest[0])
    ensures TakeDigits(run + rest) == run
  {
    if run == [] {
      assert run + rest == rest;
    } else {
      assert (run + rest)[1..] == run[1..] + rest;
      TakeDigitsOfRun(run[1..], rest);
      assert [run[0]] + run[1..] == run;
    }
  }

  /** `<MedlineDate>1998 Mar-Apr</MedlineDate>` gives the year 1998. */
  lemma MedlineDateYearExample()
    ensures MedlineDateYear(MedlineDate("1998 Mar-Apr")) == "1998"
  {
    assert "1998 Mar-Apr" == "1998" + " Mar-Apr";
    MedlineDateYearOfLeadingRun("1998", " Mar-Apr");
  }

  // -------------------------------------------------------------- PubDate year

  /** `Year` wins whenever it is present, even empty or beside a
      `MedlineDate`; the `MedlineDate` fallback is always `Some`; `None` only
      when both fields are absent. */
  lemma PubDateYearPrecedence(d: PubDate)
    ensures d.yearOp.Some? ==> PubDateYear(d) == d.yearOp
    ensures d.yearOp.None? && d.medlineDateOp.Some? ==>
              PubDateYear(d).Some? && AllDigits(PubDateYear(d).value)
              && (PubDateYear(d).value == [] <==> forall k :: 0 <= k < |d.medlineDateOp.value.value| ==> !IsAsciiDigit(d.medlineDateOp.value.value[k]))
    ensures PubDateYear(d).None? <==> d.yearOp.None? && d.medlineDateOp.None?
  {
    if d.yearOp.None? && d.medlineDateOp.Some? {
      MedlineDateYearEmptyIffNoDigit(d.medlineDateOp.value);
    }
  }

  // -------------------------------------------------------------- Journal year

  /** `Journal::year` is the parse of the derived year text, the empty text
      standing in for an absent year. */
  lemma JournalYearOk(j: Journal)
    ensures var y := JournalIssueYear(j.journalIssue);
            var text := if y.Some? then y.value else "";
            (JournalYear(j).Ok? <==> IsU32Literal(text))
            && (JournalYear(j).Ok? ==> JournalYear(j).value as int == DigitsValue(UnsignedDigits(text)))
  {
    var y := JournalIssueYear(j.journalIssue);
    ParseU32Characterization(if y.Some? then y.value else "");
  }

  /** The ways `Journal::year` fails with an empty-input error: no year at
      all, an empty `Year`, or (without `Year`) a `MedlineDate` with no digit. */
  lemma JournalYearEmptyCases(j: Journal)
    ensures var d := j.journalIssue.pubDate;
            JournalYear(j) == Err(Empty) <==>
              (d.yearOp == Some("")
               || (d.yearOp.None? && d.medlineDateOp.None?)
               || (d.yearOp.None? && d.medlineDateOp.Some?
                   && forall k :: 0 <= k < |d.medlineDateOp.value.value| ==> !IsAsciiDigit(d.medlineDateOp.value.value[k])))
  {
    var d := j.journalIssue.pubDate;
    PubDateYearPrecedence(d);
  }

  /** Without a `Year`, a `MedlineDate` whose first digit run fits in 32 bits
      gives that number; a longer run overflows. */
  lemma JournalYearFromMedlineDate(j: Journal)
    requires j.journalIssue.pubDate.yearOp.None? && j.journalIssue.pubDate.medlineDateOp.Some?
    requires MedlineDateYear(j.journalIssue.pubDate.medlineDateOp.value) != []
    ensures var digits := MedlineDateYear(j.journalIssue.pubDate.medlineDateOp.value);
            JournalYear(j) == if DigitsValue(digits) <= U32_MAX then Ok(DigitsValue(digits) as u32) else Err(PosOverflow)
  {
    ParseU32Digits(MedlineDateYear(j.journalIssue.pubDate.medlineDateOp.value));
  }

  /** A journal dated `<MedlineDate>1998 Mar-Apr</MedlineDate>` has year 1998. */
  lemma JournalYearExample(j: Journal)
    requires j.journalIssue.pubDate == PubDate(None, Some(MedlineDate("1998 Mar-Apr")))
    ensures JournalYear(j) == Ok(1998)
  {
    MedlineDateYearExample();
    assert ParseU32("1998") == Ok(1998);
  }
}
