# PubMed archive reader: record slicer and year derivations

This project models, in Dafny, the two pieces of the PubMed archive reader
that carry logic of their own.

The first is the **record slicer and its drivers** in `src/main.rs`:
- `read_article` pulls XML events after a `PubmedArticle` start tag. It
  builds a self-contained copy of that one record for the schema decoder.
- It keeps a `u32` depth counter and copies structural tags.
- It copies text only below the record's own children.
- It turns a fixed table of inline tags into literal text markers. These are
  `i`, `b`, `sup`, `sub`, `u` and `DispFormula` by local name, and
  `mml`-prefixed elements below the top level.
- `read` scans a file for `PubmedArticle` start tags and slices each record.
  It hands the record to the decoder and logs the records that fail to
  decode.
- `read_directory` reads the regular files with extension `gz`.

The second is the **year and identifier derivations** on the record types:
- `PMID::id`, `MedlineDate::year`, `PubDate::year`, `JournalIssue::year`
  and `Journal::year`.
- The library crate (`pubmed/src/lib.rs`) and the binary
  (`src/pubmed/mod.rs`) carry identical copies of these. One module
  (`PubmedRecords`) models both.

Modules:
- `Wrappers`: `Option` and `Result`.
- `RustNum`: `u32` and Rust's `str::parse::<u32>`, as `ParseU32`. The parse
  accepts an optional `+` and at least one ASCII digit. It fails with
  `Empty`, `InvalidDigit` or `PosOverflow`.
- `XmlEvents`: the pull events and qualified names. The reader splits a name
  at its first `:` into prefix and local part.
- `PubmedRecords`: the record shapes and the derivations, as functions.
- `ArticleSlicer`: `read_article`.
  - The method `ReadArticle` is a loop over the event sequence. It appends to
    an output sequence of events.
  - It is proved equal to the function `Slice`. `Slice` is built from `Step`,
    which is one turn of the loop with its match arms in source order.
- `SliceProperties` and `SliceEdgeCases`: what the slicer guarantees, and its
  edge cases.
- `ArchiveReader`: `read` and `read_directory` as methods with loops.
  - `Read` is proved equal to the spec function `Scan`.
  - `ReadDirectory` is proved equal to the spec function `DirectoryRun`.

How the slicer's outcomes are modelled:
- **Record end.** The `Ok` return is `Sliced(record, next)`, where `next` is
  the position after the record's end tag.
- **Reader error.** It is returned as `ReadFailed`.
- **Counter overflow.** Incrementing past `u32::MAX`, or decrementing at
  zero, panics in a debug build. This is the outcome `DepthOverflow`.
- **End of input.** The `_ => ()` arm swallows it, so the loop never returns.
  This is the outcome `Diverged`.
- **Scanner.** A slicer error panics there (`ReaderPanic`, `OverflowPanic`).
  A reader error in the scan loop itself falls into `_ => ()` and is skipped.

Points worth noting about the code:
- The counter starts at 0: events directly under the record are at depth 0,
  the top level.
- The record's end tag is recognised at any depth.
- An end of input inside a record makes the loop spin; it is not reported as
  an error.
- Slicer errors panic in `read`; they are not propagated as values.

## Model

| member | source | states |
|---|---|---|
| `RustNum.ParseU32Characterization` | pubmed/src/lib.rs:29 | `str::parse::<u32>` succeeds exactly on an optional `+` followed by one or more ASCII digits whose value fits in 32 bits, and then returns that value |
| `RustNum.ParseU32` | pubmed/src/lib.rs:29 | `str::parse::<u32>` fails with `Empty` exactly on the empty text |
| `RustNum.Accumulate` | pubmed/src/lib.rs:29 | the digit loop never reports empty input, and a value it returns is at least the value accumulated so far |
| `RustNum.ParseU32Digits` | pubmed/src/lib.rs:60 | an all-digit, non-empty text parses to its decimal value, or fails with `PosOverflow` when that exceeds 4294967295 |
| `RustNum.ParseU32RoundTrip` | pubmed/src/lib.rs:29 | every `u32` written in decimal parses back to itself |
| `RustNum.DecimalStringValue` | pubmed/src/lib.rs:29 | the decimal text of a number is all digits and has that number as its value |
| `XmlEvents.Split` | src/main.rs:111-114 | the reader's split of a name: a prefix exactly when the name holds a `:`, and that prefix holds no `:` |
| `XmlEvents.RenderSplit` | src/main.rs:116 | a name split into prefix and local part and written back is the name as written |
| `XmlEvents.SplitRender` | src/main.rs:39 | a well-formed qualified name written out and split again is the same prefix and local part |
| `XmlEvents.RenderMatchesPlain` | src/main.rs:206 | comparing a name as written with a colon-free text matches exactly the unprefixed name with that local part |
| `PubmedRecords.PmidId` | pubmed/src/lib.rs:28-30 | `PMID::id` is `Ok` exactly on an optional `+` plus digits of value at most 4294967295, with that value; `Err(Empty)` exactly on empty text; no trimming |
| `PubmedRecords.PmidIdRoundTrip` | src/pubmed/mod.rs:13-15 | an identifier written in decimal gives its number back |
| `PubmedRecords.FirstDigitAt` | pubmed/src/lib.rs:136 | the position of the first ASCII digit: no digit before it, a digit at it unless it is the end |
| `PubmedRecords.SkipNonDigits` | pubmed/src/lib.rs:136 | `skip_while(!is_ascii_digit)` is the text from its first digit on |
| `PubmedRecords.TakeDigits` | pubmed/src/lib.rs:137 | `take_while(is_ascii_digit)` is the longest all-digit prefix |
| `PubmedRecords.MedlineDateYear` | pubmed/src/lib.rs:132-140 | `MedlineDate::year` is all digits, a contiguous piece of the text that starts at its first digit and is not followed by a digit |
| `PubmedRecords.MedlineDateYearEmptyIffNoDigit` | pubmed/src/lib.rs:133-139 | the year is empty exactly when the text holds no ASCII digit |
| `PubmedRecords.MedlineDateYearIdempotent` | src/pubmed/mod.rs:117-124 | taking the year of a year gives it unchanged |
| `PubmedRecords.MedlineDateYearOfFirstRun` | src/pubmed/mod.rs:119-123 | a text made of non-digits, then a digit run, then anything that does not continue the run (a second year, for instance) has exactly that run as its year |
| `PubmedRecords.MedlineDateYearOfLeadingRun` | src/pubmed/mod.rs:118-123 | a text that opens with a digit run not followed by a digit has that run as its year |
| `PubmedRecords.MedlineDateYearExample` | pubmed/src/lib.rs:125 | `1998 Mar-Apr` gives `1998` |
| `PubmedRecords.PubDateYear` | pubmed/src/lib.rs:112-123 | `PubDate::year` is `Year` whenever present; otherwise `Some` of the `MedlineDate` year; `None` exactly when both are absent |
| `PubmedRecords.PubDateYearPrecedence` | src/pubmed/mod.rs:97-108 | the same precedence, and the `MedlineDate` fallback is all digits and empty exactly when the date has no digit |
| `PubmedRecords.JournalIssueYear` | pubmed/src/lib.rs:86-90 | `JournalIssue::year` applies its `PubDate`'s precedence: `Year`, else the `MedlineDate` year, else `None` |
| `PubmedRecords.JournalYear` | pubmed/src/lib.rs:57-64 | `Journal::year` fails with `Empty` exactly when its issue has no year or an empty year text, and is `Ok` only when the issue has a year |
| `PubmedRecords.JournalYearOk` | pubmed/src/lib.rs:57-64 | `Journal::year` is `Ok` exactly when the derived year text, or the empty text if there is none, is a `u32` literal, and then has its value |
| `PubmedRecords.JournalYearEmptyCases` | src/pubmed/mod.rs:42-49 | `Journal::year` fails with the empty-input error exactly for no year, an empty `Year`, or a digit-free `MedlineDate` without `Year` |
| `PubmedRecords.JournalYearFromMedlineDate` | src/pubmed/mod.rs:42-49 | without `Year`, a `MedlineDate` digit run gives its value if it fits in 32 bits and `PosOverflow` otherwise |
| `PubmedRecords.JournalYearExample` | src/pubmed/mod.rs:110 | a journal dated `1998 Mar-Apr` has year 1998 |
| `ArticleSlicer.StartMarker` | src/main.rs:39-73 | a start tag is written as a marker exactly when its local name is rewritten, or it has prefix `mml` below the top level; at the top level the marker is one of the fixed texts |
| `ArticleSlicer.EndMarker` | src/main.rs:75-147 | the same for end tags, with the `mml` marker opening with `&lt/` |
| `ArticleSlicer.RecordNameMatch` | src/main.rs:32 | the record end test on the full name matches exactly the unprefixed `PubmedArticle` |
| `ArticleSlicer.Step` | src/main.rs:38-178 | one turn of the loop keeps the counter within `u32` whenever it goes on |
| `ArticleSlicer.SliceFrom` | src/main.rs:35-178 | a record is returned only past the current position and within the input |
| `ArticleSlicer.SliceFromUnfold` | src/main.rs:35-36 | the loop pulls one event, runs the match arms on it, and either goes on from the next position or returns |
| `ArticleSlicer.Slice` | src/main.rs:28-34 | a call starts with the counter at 0 and a buffer holding a bare record start; a record is returned only past the start position |
| `ArticleSlicer.ReadArticle` | src/main.rs:25-182 | the loop computes exactly `Slice` on the reader's events |
| `SliceProperties.RecordTagIsStructural` | src/main.rs:160 | the record's end tag is never rewritten as a marker |
| `SliceProperties.RewrittenTagsKeepDepth` | src/main.rs:39-109 | `i`, `b`, `sup`, `sub`, `u` become `<x>`/`</x>` at any depth, whatever the prefix, without changing the counter; so does `DispFormula` unless it is `mml:DispFormula` below the top level |
| `SliceProperties.MathTagsBelowTopLevel` | src/main.rs:111-132 | below the top level an `mml` start becomes `<mml:x>`, its end `&lt/mml:x>`, and the counter stays |
| `SliceProperties.StructuralTagsMoveDepth` | src/main.rs:149-172 | any other start is copied with its attributes and raises the counter, overflowing at `u32::MAX`; an end other than the record's lowers it, underflowing at 0; the record's end finishes at any depth |
| `SliceProperties.OnlyNestedTextIsCopied` | src/main.rs:156-159 | text is copied only below the top level; `Empty` elements and other events are dropped |
| `SliceProperties.FirstStop` | src/main.rs:160-177 | the first record end, end of input or reader error: none before it, one at it |
| `SliceProperties.SliceEndsAtFirstStop` | src/main.rs:160-177 | the slicer returns `Ok` exactly at the first `PubmedArticle` end tag, at any depth; a reader error before it is returned; an end of input before it spins; the only other outcome is the counter panic |
| `SliceProperties.SlicedConsumesUpToRecordEnd` | src/main.rs:160-165 | the input consumed by a sliced record ends with its end tag and holds no earlier one, no end of input and no error |
| `SliceProperties.OpensAppend` | src/main.rs:149-172 | appending an event changes the open count by that event's weight |
| `SliceProperties.AppendFramed` | src/main.rs:149-159 | appending a structural tag, text below the top level, or a marker keeps the depth invariant |
| `SliceProperties.StartFramed` | src/main.rs:39-153 | every start-tag arm keeps the depth invariant |
| `SliceProperties.EndFramed` | src/main.rs:75-172 | every end-tag arm keeps the depth invariant, and the record-end arm returns a record of the promised shape |
| `SliceProperties.FinishShape` | src/main.rs:160-165 | closing the record in a state that satisfies the invariant gives a record of the promised shape |
| `SliceProperties.StepFramed` | src/main.rs:38-178 | one loop turn keeps the invariant: the counter is the number of elements opened inside the record and not closed |
| `SliceProperties.SliceFromShape` | src/main.rs:35-178 | from a state that satisfies the invariant, any returned record has the promised shape |
| `SliceProperties.SlicedRecordShape` | src/main.rs:25-182 | every returned record opens with a bare `PubmedArticle` start and ends with its only `PubmedArticle` end; it holds only tags and text, and no rewritten tag; before its end it never closes more than it opened; top-level text in it is always a fixed marker |
| `SliceProperties.PlainOpensAppend` | src/main.rs:149-172 | appending an event changes the plain-tag balance by that event's weight |
| `SliceProperties.StepBalanced` | src/main.rs:38-178 | on an event of a balanced body the slicer goes on and its counter moves exactly with the plain tags |
| `SliceProperties.BalancedBodyAt` | src/main.rs:149-172 | a balanced body's event at a position has no stop and a non-negative balance after it, and `mml` tags in it sit inside a plain element |
| `SliceProperties.SliceFromBalanced` | src/main.rs:35-178 | from a counter equal to the plain-tag balance so far, a balanced body is sliced whole up to its end tag |
| `SliceProperties.BalancedRecordIsSlicedWhole` | src/main.rs:149-172 | for well-nested input the slicer returns at the record's end tag, the counter is back at 0 then, and the record is balanced |
| `SliceProperties.SliceFromShift` | src/main.rs:35-178 | the slicer reads nothing before its position and nothing after the record end tag: on a stretch of input ending with that tag it returns the same wherever the stretch sits, its resume position shifted |
| `SliceProperties.BalancedBodyIsSlicedInPlace` | src/main.rs:35-178 | a balanced body followed by the record end tag is sliced, whatever comes before or after it, to the record it gives on its own, resuming just past the end tag |
| `SliceProperties.StepVerbatim` | src/main.rs:149-172 | a plain tag, or text below the top level, is copied unchanged and moves the counter as the plain tags do |
| `SliceProperties.VerbatimAt` | src/main.rs:149-172 | each event of a body of plain tags and nested text is no stop, keeps the balance within `u32` and non-negative, and is a plain tag or nested text |
| `SliceProperties.SliceFromVerbatim` | src/main.rs:35-178 | from a counter equal to the balance so far and a buffer holding the body so far, a body of plain tags and nested text is copied whole up to the record end tag |
| `SliceProperties.VerbatimRecord` | src/main.rs:149-172 | a body of plain tags and nested text comes out unchanged, between a bare record start tag and the record end tag |
| `SliceEdgeCases.MathMarkersAreAsymmetric` | src/main.rs:111-132 | inside an element, `mml:x` becomes the texts `<mml:x>` and `&lt/mml:x>` |
| `SliceEdgeCases.TopLevelMathLeavesRecordUnbalanced` | src/main.rs:111-114 | directly under the record, an `mml` start is copied and raises the counter, so its end becomes text and the record has one unclosed element |
| `SliceEdgeCases.TopLevelTextIsDropped` | src/main.rs:156-173 | text, empty elements and other events directly under the record are dropped |
| `SliceEdgeCases.EndOfInputSpins` | src/main.rs:173 | an end of input inside a record never produces a result |
| `SliceEdgeCases.StrayEndUnderflows` | src/main.rs:166-167 | an extra end tag directly under the record takes the counter below zero |
| `ArchiveReader.Read` | src/main.rs:184-243 | the scan loop computes exactly `Scan` on the file's events |
| `ArchiveReader.ScanFrom` | src/main.rs:202-235 | a completed scan never ends with fewer logged records than it started with, and logs at most one record per record it hands on |
| `ArchiveReader.Scan` | src/main.rs:184-243 | a completed scan never logs more records than it hands to the decoder |
| `ArchiveReader.ScanFromRecord` | src/main.rs:206-227 | one record start: the slicer's record is handed on, logged if it fails to decode, and the scan resumes after its end tag |
| `ArchiveReader.UndecodableAppend` | src/main.rs:218-225 | one more record extends the failures by that record exactly when it fails to decode |
| `ArchiveReader.ScanFromLogsFailures` | src/main.rs:202-235 | from a state whose log holds the failures so far, the final log holds exactly the failures |
| `ArchiveReader.LoggedAreTheUndecodable` | src/main.rs:211-227 | the logged records are exactly the ones that fail to decode, in order; a decode failure does not stop the scan |
| `ArchiveReader.ScanFromShapes` | src/main.rs:206-207 | from records that all have the slicer's shape, every record handed on has it |
| `ArchiveReader.ScannedRecordsHaveShape` | src/main.rs:207 | every record handed to the decoder has the shape the slicer guarantees |
| `ArchiveReader.ScanFromWithoutRecords` | src/main.rs:205-233 | without record starts ahead, the scan ends with what it has |
| `ArchiveReader.NoRecordStartNoRecords` | src/main.rs:206 | a file without a start tag named exactly `PubmedArticle` yields no records, and its scan completes |
| `ArchiveReader.SingleBalancedRecord` | src/main.rs:202-235 | a file of one well-nested record yields that one record, balanced and well-shaped, logged exactly when it fails to decode |
| `ArchiveReader.ScanFromSkipsGap` | src/main.rs:233 | events that are neither a record start nor the end of input are skipped without effect |
| `ArchiveReader.FiledFacts` | src/main.rs:206-207 | a record in place with a gap before it and a balanced body: the gap holds no record start, the start tag is matched, and the slicer returns the body's record just past its end tag |
| `ArchiveReader.ScanFromGapThenRecord` | src/main.rs:202-235 | a gap and then a record the slicer returns: the scan skips the gap, hands on the record, logs it if it fails to decode, and resumes after it |
| `ArchiveReader.ScanFromFiled` | src/main.rs:202-235 | one record in place: the scan hands on the record its body gives and resumes right after its end tag |
| `ArchiveReader.ScanFromLaidOut` | src/main.rs:202-235 | over records laid out one after another, then a gap and the end of input, the scan completes and appends each record in order |
| `ArchiveReader.RecordPerArticle` | src/main.rs:202-235 | a file of well-nested `PubmedArticle` elements separated by gaps and closed by the end of input yields exactly one record per element, in file order, each the slicer's record of that body; it logs exactly those that fail to decode; whatever follows the end of input is never read |
| `ArchiveReader.FailedSliceStopsTheScan` | src/main.rs:228-230 | when the slicer fails on the first record, the scan panics with the reader error or the counter panic, or never returns, whatever the rest of the file holds |
| `ArchiveReader.LastDot` | src/main.rs:251 | the position of the last `.` in a file name, with none after it |
| `ArchiveReader.Extension` | src/main.rs:251 | an extension holds no `.`, is the text after a `.` that is not the name's first character, and ends the name; a name without `.` has none |
| `ArchiveReader.ExtensionOfName` | src/main.rs:251 | a name made of a non-empty stem, a `.` and a dot-free extension has that extension, whatever dots the stem holds; only `..` is excluded |
| `ArchiveReader.NoExtension` | src/main.rs:251 | a name with no `.` after its first character has no extension |
| `ArchiveReader.ArchiveNameExamples` | src/main.rs:251 | `n0001.xml.gz` and `..gz` have extension `gz`; `.gz` and `README` have none |
| `ArchiveReader.DirFrom` | src/main.rs:247-256 | the walk from an entry on never ends with fewer reports than it started with, and adds at most one per remaining entry |
| `ArchiveReader.DirectoryRun` | src/main.rs:245-259 | `read_directory` reads at most one file per listed entry, and nothing when the path is not a directory or the listing fails |
| `ArchiveReader.DirFromAllComplete` | src/main.rs:247-256 | when every remaining entry completes, the walk is `Ok` and adds one report per regular `gz` file, in order, each with its scan's records and log |
| `ArchiveReader.DirFromStopsAt` | src/main.rs:247-256 | up to a given entry, entries that complete only add the reports of their `gz` files |
| `ArchiveReader.DirFromIncomplete` | src/main.rs:247-256 | an entry ahead that does not complete keeps the walk from being `Ok` |
| `ArchiveReader.ReadDirectory` | src/main.rs:245-259 | the walk computes exactly `DirectoryRun` |
| `ArchiveReader.ReadsExactlyTheGzFiles` | src/main.rs:245-259 | a non-directory is `Ok` with nothing read; a failed listing is returned as that `Err` with nothing read; when every entry completes the walk is `Ok` and has read exactly the regular files with extension `gz`, in listing order, each reported with its name and its scan's records and log; when some entry does not complete it is not `Ok` |
| `ArchiveReader.WalkStopsAtFirstFailure` | src/main.rs:245-259 | at the first entry that does not complete, the walk stops with the reports of the `gz` files before it: a failed entry is returned as its `Err`; a regular file without extension panics; a `gz` file whose scan panics panics, and one whose scan never returns never returns |
| `ArchiveReader.FileWithoutExtensionPanics` | src/main.rs:251 | a regular file named `README` in the listing makes the walk panic before it reads anything |

## Left out

- gzip decompression and the XML reader are not modelled. A file is the sequence of events its decompressed contents yield, and a reader failure is the `ReadErr` event. Once the input is used up the reader yields `Eof`, and the end of the sequence is treated the same way.
- The XML writer and its escaping are not modelled. The output is a sequence of events, and markers are the unescaped texts such as `<i>` and `&lt/mml:x>`. A write into the in-memory buffer cannot fail, so the writer's error returns are left out.
- The schema decoder is not modelled. It is the parameter `decodes`, and the decoder's error message is not modelled.
- The errors file is reduced to the list of logged records. Its path, its line format (message, record bytes, newline) and its deletion when empty are left out, because they are file I/O.
- The `unwrap` panics of `File::open`, `File::create` and `file_name` in `read`, and the `println!` of each path, are left out, because they are file I/O and printing.
- `ArticleSlicer.ReadArticle`: the counter follows debug-build semantics, where overflow and underflow are a panic (`DepthOverflow`). A release build wraps around instead, and that is not modelled.
- `ArticleSlicer.ReadArticle`: the counter going below zero is an outcome, not a precondition. This covers every input the source accepts.
- `ArticleSlicer.ReadArticle`: the loop that spins forever at the end of input is the outcome `Diverged`. The model does not run the endless loop.
- `ArchiveReader.ReadDirectory`: whether an entry is a regular file is given with the entry, because `is_file` asks the file system. A directory's listing and the entries' contents are inputs.
- `main`, `process`, the database adapters, the tests and the utility binaries are not modelled. They are thread and batch plumbing, database drivers, tests against local paths, and printing.
- The asynchronous producer/consumer pipeline (`articles`, `directory_articles`) is not part of this model; its source is not among the files modelled here.
- The input is taken to be valid UTF-8. The `from_utf8` unwrap panics in `read_article` (src/main.rs:116, 127) and in `read` (src/main.rs:211) are not modelled, because names and texts are already sequences of characters.
- The remaining record types are not modelled. They are derive-only mirrors of the XML schema and have no code of their own.
