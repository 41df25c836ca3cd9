# Opintel: verified models

Dafny 4.11 models of the parts of Opintel whose behaviour is hardest to see from the code, with proofs about
them. `dafny verify dfyconfig.toml` checks everything; there is nothing to run.

## What is modelled

**Row predicates** (`Predicates`, `Normalisation`, `Evaluation`, `Logic`, `Composition`, `Lexer`, `Grammar`,
`Parser`, `RoundTrip`, `Reparse`, `Notation`, `Temporal`, `Shifted`). A small language with text, trees, a normal
form and a three-valued meaning. The lexer and the parser are the loops and the cursor of the source, proved against
functions on the rest of the input. Main results: a text is accepted exactly if all of it derives a tree within the
limits; the normal form is canonical and keeps the meaning; printing and parsing are inverse, exactly within the
limits and the years that can be written; composed decisions are exactly a conjunction. What these are, apart from
any function that computes it, is stated in `Lexemes` (what a token is), `Derivations` (the grammar as a relation),
`Meaning` (what a predicate means of a row), `Patterns` (the forms of a timestamp), `Digests` (the JSON document that
is digested) and `CodeUnits` (UTF-16).

**Filing register** (`Filings`, `Identifications`, `FilingProperties`, `FilingHistory`, `Chains`, `Notices`,
`Register`, `Outcomes`). A class with the list in
memory, the state file, the landing database and the receiver of notices. Saves may fail before or after the
rename, notices may arrive and still be reported as failed, landings may commit and still fail, and the process
may crash at any point. Every method extends a history that is a run of a state machine, and the main results are
about all runs: notices and what they report, receipts, revisions, and the links between filings. `Identifications`
and `Outcomes` say field by field what an operation makes of a filing.

**Spreadsheets** (`Flattening`, `Sweep`, `Flatten`, `Sheets`, `ColumnNames`, `Extraction`). The sweep over merged
ranges refines the plain reading of a merged cell; refusals and summaries are what the cells say; the two passes of the
extractor agree.

**Scanner** (`Needles`, `Tallies`, `Representations`, `Scanning`, `Observing`). Counting over blocks with a carried tail equals counting
over the whole stream, also for the observed writes to a sink.

**Tokens** (`Calendar`, `Numbers`, `Timestamps`, `Offsets`, `Crockford`, `Tokens`). Calendar arithmetic, canonical
numbers and timestamps, zone offsets and epochs, the bit-buffer encoder, and when two tokens coincide.

**Smaller pieces**: the staging-type grammar (`StagingTypes`, `StagingParser`), the alias allocator (`Aliases`),
the stderr filter (`StderrTail`) and the per-source ceiling (`Leases`).

`Wrappers`, `Chars`, `Ordering`, `Arithmetic` and `ColumnTypes` hold what these share.

## What the model takes as given

- Texts are sequences of Unicode scalar values. Lengths that the source takes in UTF-16 code units are computed as
  such, and strings compare as UTF-16 does. Lone surrogates do not occur.
- Number and float literals are read by functions that stand for the decimal library (`ColumnTypes.Readers`).
  `RoundTrip.ParsePrinted` needs nothing of them; `Reparse.ParseStable` needs that a canonical number is read as
  itself. The temporal readers are those of the source (`Reparse.Lawful`).
- `identifyFile`, `periodAsAt`, the workbook reader, `inferCell` on a cell that is not null, character encodings,
  the zone resolver, HMAC and SHA-256, and transliteration are parameters or arbitrary outcomes. What the rules file
  holds when an operation reads it is a parameter of the operation.
- The schemas at the boundaries hold: ids of columns and filings are UUIDs, names are not empty, needles are not
  empty, rows of a workbook come in increasing order, merged ranges are one-based rectangles.
- The register's `committed` reports every commit of the database, and a commit is visible to it by the time the
  call that made it has returned. Operations of the register do not interleave, as its queue guarantees.

## What does not hold

Each of these is a proved lemma beside the theorem that does hold.

- The parser accepts 16 to 31 nested `NOT`, but refuses the text that the printer makes of the result, because
  printing adds a bracket level to each (`Reparse.DeepNegationsNotReparsed`). `RoundTrip.ParsePrinted` and
  `Reparse.ParseStable` give the exact limits.
- A timestamp with a zone is shifted to UTC after its year is checked. Where the shift leaves the years 1 to 9999
  the literal is accepted, but what is kept of it can be neither read nor evaluated (`Shifted.EarlyNotReparsed`);
  `Temporal.LiteralStable` and `Reparse.ParseStable` give the exact condition.
- Normalisation sorts IN values, and evaluation stops at the first match: with such a literal the normal form may
  throw where the original is true (`Shifted.UnreadableLiteralMatters`). `Evaluation.ValuesOrderExact` says exactly
  at which cells the order matters.
- Composed decisions do not depend on their order except for the column records: the last decision that names a
  column decides its display name (`Composition.RecordsDependOnOrder`, exact condition
  `Composition.ComposedColumnsOrder`).
- `retry` may make a filing a duplicate of itself (`FilingHistory.SelfDuplicate`), and two filings may come to
  supersede each other (`FilingHistory.SupersedesEachOther`). `FilingHistory.RetryLinksExact` says exactly when a
  retry keeps the links in order, and `FilingHistory.LinksStay` exactly in which runs they stay so.
- A landing receipt on disk is not permanent if the save that wrote it reported a failure
  (`FilingHistory.FailedReceiptOverwritten`); it is exactly if memory holds it too (`FilingHistory.ReceiptStaysExact`).
- The scanner lists a needle twice if two forms of a value are the same, and then counts every occurrence twice
  (`Observing.SameFormCountedTwice`, exact condition `Observing.Base64Counted`; of any listing, `Observing.CountIsExact`).
- The alias allocator may try two candidates more than there are reserved names, for a base that is its own suffixed
  form (`Aliases.CandidateBoundExact`; such a name is shown by `Aliases.FullNameNeedsTwoMore`).

## Model

| member | source | states |
|---|---|---|
| Normalisation.NormaliseCanonical | src/shared/row-predicate-syntax.ts:85-90 | two predicates have the same normal form exactly if they have the same shape, where a shape forgets the order and the nesting of terms and the order and repetition of IN values: a canonical form in both directions |
| Normalisation.HashInputCanonical | src/shared/row-predicate.ts:8 | the text that is digested is equal exactly for equal shapes, so the hash separates all other predicates and no equivalent ones |
| Predicates.JsonInjective | src/shared/row-predicate.ts:8 | the JSON text determines the predicate, escapes of strings included |
| Digests.JsonExact | src/shared/row-predicate.ts:8 | it is the JSON document of the predicate: an object with these keys in this order, and no space |
| Digests.EscapedExact | src/shared/row-predicate.ts:8 | a character of a string is written as itself, as its short escape, or as a four-digit escape, exactly where JSON says |
| Digests.HashedText | src/shared/row-predicate.ts:8 | what is digested is the JSON document of the normal form, whose terms and values stand in order |
| CodeUnits.LengthExact | src/shared/row-predicate-syntax.ts:54 | the length the source takes is the number of UTF-16 code units |
| CodeUnits.LessExact | src/shared/row-predicate-syntax.ts:86 | the order of terms and values is that of their UTF-16 code units |
| Normalisation.NormaliseIdempotent | src/shared/row-predicate-syntax.ts:85-90 | normalising twice is normalising once |
| Normalisation.NormaliseReordered | src/shared/row-predicate-syntax.ts:85-86 | any permutation of the terms of a group has the same normal form |
| Normalisation.NormaliseRenested | src/shared/row-predicate-syntax.ts:86 | dissolving a group inside a group of its kind keeps the normal form |
| Normalisation.NormaliseValues | src/shared/row-predicate-syntax.ts:88 | two IN lists have the same normal form exactly if they hold the same values |
| Normalisation.NormaliseCongruent | src/shared/row-predicate-syntax.ts:85-87 | parts with equal normal forms may be exchanged inside a group and under NOT |
| Evaluation.EvaluateIn | src/shared/row-predicate.ts:27 | the loop over the IN values with its early return finds the first match, and is unknown after a NULL |
| Meaning.CompareExact | src/shared/row-predicate.ts:9-18 | a cell and a literal compare as less, equal or greater exactly if they stand so: finite numbers and instants by their values, false before true, other text by the first byte that differs or as a proper prefix, infinities at the ends, what is no number above everything |
| Meaning.EvaluateExact | src/shared/row-predicate.ts:19-29 | evaluation gives a truth value exactly if the predicate means it of the row: each operator by where the cell stands to the literal, IS NULL by the cell, IN by its first match, groups and negation in Kleene logic |
| Meaning.MeansUnique | src/shared/row-predicate.ts:19-29 | a predicate means at most one truth value of a row |
| Evaluation.SearchMeaning | src/shared/row-predicate.ts:27 | what the search over IN values returns in terms of which values match, throw or are NULL |
| Evaluation.GroupIsFold | src/shared/row-predicate.ts:20 | a group combines its terms one by one in Kleene logic, a thrown error winning over every value |
| Evaluation.NormaliseMeaning | src/shared/row-predicate-syntax.ts:85-90 | normalisation never changes a truth value of the three, and where in every IN list no value throws or no value equals the cell it does not change whether evaluation throws either |
| Evaluation.ValuesOrderExact | src/shared/row-predicate.ts:27 | at a cell, every order of the IN values gives the same outcome exactly if no value throws there or none equals the cell |
| Evaluation.LiteralsSettled | src/shared/row-predicate.ts:11-17 | literals that can be read meet this condition at every row |
| Shifted.UnreadableLiteralMatters | src/shared/row-predicate.ts:27 | the condition is needed of parsed predicates: an IN list of two timestamps that is true as written becomes, sorted by the parser, one that stops the evaluation |
| Logic.DeMorgan | src/shared/row-predicate.ts:20-21 | a negated conjunction is the disjunction of the negated terms and the other way round, with unknown and with errors |
| Logic.OrEqual | src/shared/row-predicate.ts:28 | <= and >= are the strict comparison or equality, whose meaning is `Meaning.CompareExact` |
| Logic.InIsDisjunction | src/shared/row-predicate.ts:27 | IN equals the disjunction of the equalities wherever that evaluates |
| Logic.NotANumber | src/shared/row-predicate.ts:11 | a cell that is not a number lies above every literal, equals none and is no error |
| Composition.ReferencedColumnsExact | src/shared/row-predicate-syntax.ts:91 | the referenced columns are exactly the columns a predicate mentions, sorted and without repetition |
| Composition.NormaliseMentions | src/shared/row-predicate-syntax.ts:85-91 | normalisation neither adds nor loses a mentioned column |
| Composition.EvaluateReads | src/shared/row-predicate.ts:19-29 | evaluation depends only on the types and cells of the mentioned columns |
| Composition.CollectColumns | src/shared/row-decision-composition.ts:10-11 | the loop over the decisions succeeds exactly if no column has two types, and keeps the last record of every column |
| Composition.Lookup | src/shared/row-decision-composition.ts:12 | every referenced column is found in order, or the composition fails exactly if one is missing |
| Composition.ComposeRowDecisions | src/shared/row-decision-composition.ts:6-13 | when composition succeeds, the ids, predicate, digested text and columns of the result |
| Composition.ComposedIsConjunction | src/shared/row-decision-composition.ts:9-12 | a row passes the composed predicate exactly if every decision admits it with the composed columns, and a decision that brings the columns of its own predicate admits the same rows with its own |
| Composition.AddingNeverAdmits | src/shared/row-decision-composition.ts:9-12 | a row that passes with one more decision passed without it |
| Composition.OrderIrrelevant | src/shared/row-decision-composition.ts:9-12 | the composed predicate, its digested text, its column ids and the records to choose from do not depend on the order of the decisions |
| Composition.LookupIsRecords | src/shared/row-decision-composition.ts:10-12 | the columns of a composition are, for every referenced id, the last record that stands under it |
| Composition.ComposedColumnsOrder | src/shared/row-decision-composition.ts:10-12 | every order of the decisions gives the same columns exactly if, for every column the conjunction names, all decisions with a record for it end in the same one |
| Composition.RecordsDependOnOrder | src/shared/row-decision-composition.ts:10-12 | two decisions with a record for a column give the last record of the one that comes last, in both orders |
| Lexer.SkipSpace | src/shared/row-predicate-syntax.ts:56 | skips exactly the white space |
| Lexer.Advance | src/shared/row-predicate-syntax.ts:56-59 | one turn of the lexer loop passes all white space, or the one token that the patterns in their order match at the start of the rest, or refuses exactly if none does |
| Lexer.Lex | src/shared/row-predicate-syntax.ts:55-60 | the loop returns the tokens of the whole text, or nothing if some part matches no pattern |
| Lexer.ReadsQuoted | src/shared/row-predicate-syntax.ts:57-59 | a string or name printed with doubled quotes is one token whose value is the original, whatever its characters and whatever follows |
| Lexer.ReadsNumber | src/shared/row-predicate-syntax.ts:57 | a number text is one number token before anything that cannot extend it |
| Lexer.ReadsWord | src/shared/row-predicate-syntax.ts:57 | a word is one word token before anything that cannot extend it |
| Lexer.ReadsThen | src/shared/row-predicate-syntax.ts:55-60 | texts that end safely can be lexed one after the other |
| Lexemes.NextTokenExact | src/shared/row-predicate-syntax.ts:57-59 | the lexer finds a token at the start of a text exactly if one of the five patterns matches there, as long as it can, none before it in their order does, and the value is what the pattern spells |
| Lexemes.LexExact | src/shared/row-predicate-syntax.ts:55-60 | a text lexes to these tokens exactly if it is white space and such tokens, one after the other, to its end |
| Parser.PredicateParser.Take | src/shared/row-predicate-syntax.ts:61 | takes a keyword or symbol exactly if it is next and not quoted |
| Parser.PredicateParser.Literal | src/shared/row-predicate-syntax.ts:62 | reads one typed literal or NULL, as the grammar says |
| Parser.PredicateParser.Values | src/shared/row-predicate-syntax.ts:74 | reads the further IN values, at most a thousand in all |
| Parser.PredicateParser.Membership | src/shared/row-predicate-syntax.ts:72-75 | reads the rest of an IN list or a scope reference |
| Parser.PredicateParser.Comparison | src/shared/row-predicate-syntax.ts:76 | reads operator and literal |
| Parser.PredicateParser.Test | src/shared/row-predicate-syntax.ts:69-77 | reads the test of one column of a supported type |
| Parser.PredicateParser.Tail | src/shared/row-predicate-syntax.ts:71-76 | reads what follows the column: a null test, IN, NOT IN or a comparison |
| Parser.PredicateParser.Atom | src/shared/row-predicate-syntax.ts:63-79 | reads NOT, a bracketed predicate or a test within the depth limit |
| Parser.PredicateParser.Conjoined | src/shared/row-predicate-syntax.ts:80-81 | the loop over AND or OR terms collects all terms of the group |
| Parser.ParsePredicate | src/shared/row-predicate-syntax.ts:52-84 | the class with its cursor computes `Grammar.Parse` on every text, refusals included; `Derivations.ParseExact` says what that is |
| Derivations.KeptExact | src/shared/row-predicate-syntax.ts:34-50 | the text kept of a literal, for every family, and exactly which literals are refused |
| Derivations.ParsesExactly | src/shared/row-predicate-syntax.ts:61-82 | all tokens parse to a tree exactly if they derive it: tests, NOT, brackets, AND within OR, within the depth, to the last token |
| Derivations.ParseExact | src/shared/row-predicate-syntax.ts:52-84 | a text is accepted with a result exactly if it is not blank, has at most 8192 code units, all of it lexes to tokens that derive a tree, and the result is the normal form of that tree with at most 128 terms in a group; everything else is refused |
| Derivations.TextUnique | src/shared/row-predicate-syntax.ts:61-82 | the tokens of a text derive at most one tree |
| RoundTrip.ReadsPredicate | src/shared/row-predicate-syntax.ts:95-105 | the printed text of a predicate lexes to the tokens of its tree |
| RoundTrip.ParsesPredicate | src/shared/row-predicate-syntax.ts:62-81 | those tokens parse to the predicate with canonical literals at any depth at which it fits, and are refused at any other or if a literal is refused |
| RoundTrip.ParsePrinted | src/shared/row-predicate-syntax.ts:35-105 | parsing the printed text of any predicate gives the normal form of the predicate with its literals made canonical if it is within the length, depth, term and value limits and no literal is refused, and is refused otherwise |
| RoundTrip.CanonicalReread | src/shared/row-predicate-syntax.ts:35-51 | making literals canonical changes nothing exactly if every literal is canonical |
| RoundTrip.ParseCanonical | src/shared/row-predicate-syntax.ts:35-105 | with canonical literals the parser gives exactly the normal form of what was printed, within the limits |
| Reparse.ParseStable | src/shared/row-predicate-syntax.ts:52-105 | whatever the parser accepts is a normal form that prints, and its text parses to itself exactly while text and depth are within the limits and every literal with a zone lies in the years 1 to 9999 of UTC |
| Reparse.KeptMoment | src/shared/row-predicate-syntax.ts:48 | the text kept of a temporal literal is kept again, and has an instant, exactly if it lies in those years |
| Shifted.EarlyNotReparsed | src/shared/row-predicate-syntax.ts:48 | the literal 0001-01-01T00:00:00+05:00 is accepted, but the printed text of the result is refused, and the result stops the evaluation at every instant |
| Reparse.DeepNegationsNotReparsed | src/shared/row-predicate-syntax.ts:64-66 | a text of 16 to 31 negations is accepted, and the printed text of its result is refused |
| Notation.AndBindsTighter | src/shared/row-predicate-syntax.ts:80-81 | a text without brackets is lexed and parsed as the disjunction of its conjunctions |
| Notation.NotIn | src/shared/row-predicate-syntax.ts:66-75 | column NOT IN is NOT in front of column IN, whatever the case of the keywords |
| Notation.PlainName | src/shared/row-predicate-syntax.ts:69 | a plain word names a column as a quoted name does |
| Temporal.LiteralStable | src/shared/row-predicate-syntax.ts:19-48 | the kept text of an accepted literal denotes the same microsecond and is kept as it is, except that it is refused exactly where the shift to UTC leaves the years 1 to 9999 |
| Temporal.YearInRange | src/shared/row-predicate-syntax.ts:48 | the year that `toISOString` prints is 1 to 9999 exactly for the seconds of those years, and its fields are the civil time with that count |
| Temporal.InRangeText | src/shared/row-predicate-syntax.ts:48 | within those years the kept text is the canonical one of its microsecond |
| Temporal.OutOfRangeText | src/shared/row-predicate-syntax.ts:26-48 | beyond them `temporal` refuses the kept text |
| Temporal.CanonicalTemporal | src/shared/row-predicate-syntax.ts:19-33 | a canonical text denotes its own microsecond |
| Temporal.ShiftedBeforeYearOne | src/shared/row-predicate-syntax.ts:19-48 | midnight of the first day five hours ahead of UTC is accepted and kept as a text that is refused |
| Patterns.TemporalExact | src/shared/row-predicate-syntax.ts:19-33 | `temporal` gives this microsecond exactly if the text has the form of its type and its fields are a valid date and time that denotes it |
| Patterns.LiteralExact | src/shared/row-predicate-syntax.ts:20-22 | the form of a DATE, TIME, TIMESTAMP and TIMESTAMPTZ literal, character by character |
| Filings.FirstCopyIn | sidecar/ingest/register.ts:289 | the copy a filing is compared with is the first unquarantined one of the same bytes other than itself, and none is found only if there is none |
| Filings.LastReadyIn | sidecar/ingest/register.ts:291 | the filing that is superseded is the last ready one of the same party, period and kind other than itself, and none is found only if there is none |
| Identifications.ArrivalExact | sidecar/ingest/register.ts:346-359 | the filing made of an arrival, field by field: quarantined with the reason, a duplicate of the original of the first copy, or ready and superseding the last ready one |
| Identifications.RetryExact | sidecar/ingest/register.ts:282-292 | the same of a retried filing, which keeps its arrival and takes the next revision |
| Identifications.CopyExact | sidecar/ingest/register.ts:354-355 | a filing is a duplicate exactly if the register holds an unquarantined copy, and then of the original of the first |
| Identifications.PredecessorExact | sidecar/ingest/register.ts:291 | what is superseded is the last ready filing of the same party, period and kind |
| Notices.NoticeExact | sidecar/ingest/register.ts:172-178 | what a notice reports, field by field: landed exactly if there is a landing and otherwise by the status, the party code of the receipt first, a category exactly of a quarantined filing |
| Notices.SentWasTrue | sidecar/ingest/register.ts:179-198 | in every run, every notice ever sent reported a filing as the register held it at that moment |
| Notices.LandedIsCommitted | sidecar/ingest/register.ts:172-198 | in every run, a notice of a landing is only ever sent of a filing the database has committed, with the party code of that receipt |
| Notices.InboxWasTrue | sidecar/ingest/register.ts:172-198 | so is every notice the receiver holds |
| Notices.DeliveredHolds | sidecar/ingest/register.ts:179-198 | when every filing is delivered at its revision, the receiver holds a notice of every filing and of nothing else, and each reports its filing |
| FilingProperties.StepInv | sidecar/ingest/register.ts:140-198 | every save, failed save, notice, landing and restart keeps the invariant of the register, and filings only advance |
| FilingProperties.RunInv | sidecar/ingest/register.ts:140-376 | the same over every run |
| FilingHistory.NoticesAgree | sidecar/ingest/register.ts:172-198 | in every run two notices of one filing and one revision are identical, and no delivered revision exceeds the revision |
| FilingHistory.HistoryGrows | sidecar/ingest/register.ts:140-154 | between any two moments of a run, restarts included, no filing disappears or changes its arrival, its revision never falls and its receipt never changes, in memory and against the file |
| FilingHistory.ReceiverCurrent | sidecar/ingest/register.ts:179-198 | when every filing is delivered at its revision, a receiver that drops older or equal revisions holds exactly the current notices |
| FilingHistory.ReceiptsAgree | sidecar/ingest/register.ts:300-316 | all receipts ever held for a filing, in memory or on disk, at any two moments, are the one the database committed |
| FilingHistory.ReceiptStaysExact | sidecar/ingest/register.ts:140-154 | at any moment of any run, a receipt in the state file stays there on every continuation exactly if memory holds it too |
| FilingHistory.FailedReceiptOverwritten | sidecar/ingest/register.ts:140-148 | a run in which it does not: a receipt that only a failed save put on disk is overwritten by the next save |
| FilingHistory.RetryLinksExact | sidecar/ingest/register.ts:282-295 | a retry keeps the links in order exactly if it does not identify a filing that has copies, and the chain of the filing it would supersede does not lead back to it |
| FilingHistory.RetryNotLinked | sidecar/ingest/register.ts:286-294 | it does so whenever no other record links to the retried filing |
| FilingHistory.LinksStay | sidecar/ingest/register.ts:282-295 | throughout a run, in memory and on disk, every supersession chain ends and every original is no duplicate, exactly if every retry that is written meets that condition |
| FilingHistory.SelfDuplicate | sidecar/ingest/register.ts:289-290 | a run in which the first half fails: a filing ends as a duplicate of itself |
| FilingHistory.SupersedesEachOther | sidecar/ingest/register.ts:291 | a run in which the second half fails: two filings supersede each other |
| Chains.UpdateEnds | sidecar/ingest/register.ts:291 | giving one record a new supersession link keeps all chains finite exactly if the new chain does not come back to it |
| Register.Outside.Persist | sidecar/ingest/register.ts:140-148 | a save succeeds with the new list on disk, or fails with the old list or already the new one |
| Register.FilingRegister.Open | sidecar/ingest/register.ts:78-110 | a first start gives an empty register at the start of a run |
| Register.Outside.SendReceipt | sidecar/ingest/land.ts:15-34 | a receipt is sent and answered |
| Register.FilingRegister.Reopen | sidecar/ingest/register.ts:91-109 | a start after a crash takes over the state file and nothing else |
| Register.FilingRegister.SaveChange | sidecar/ingest/register.ts:149-154 | memory changes exactly if the save succeeded |
| Register.FilingRegister.SendNotice | sidecar/ingest/register.ts:172-188 | exactly one notice is sent, which reports the filing; if the call succeeds the receiver holds one at least as new |
| Register.FilingRegister.PublishOne | sidecar/ingest/register.ts:183-196 | one turn of the delivery loop sends nothing if the revision is delivered or an initial attempt was made, and otherwise exactly one notice; an acknowledged one is recorded with that filing, any other counts as an attempt |
| Register.FilingRegister.Publish | sidecar/ingest/register.ts:179-198 | a pass sends the notices that are due, in order, and no others; after a pass that neither stopped nor threw every filing is delivered or was told, and if every notice was acknowledged the receiver holds exactly the current notices |
| Register.FilingRegister.Extract | sidecar/ingest/register.ts:155-164 | extraction changes nothing, or adds a summary, or quarantines with a reason |
| Register.FilingRegister.CallLand | sidecar/ingest/land.ts:25-27 | the database is asked only about a filing it has not committed, and at most that filing is committed |
| Register.FilingRegister.LandFiling | sidecar/ingest/land.ts:18-36 | the outcome for every answer of the database, which is asked exactly about ready, extracted filings whose attribution stands; without an answer nothing is committed; a receipt is never lost and is sent once |
| Register.FilingRegister.Process | sidecar/ingest/register.ts:165-171 | extraction and then landing, unless there is no lander or the register is closing |
| Register.FilingRegister.FindId | sidecar/ingest/register.ts:271 | the first filing with the id |
| Register.FilingRegister.RecoverOne | sidecar/ingest/register.ts:306-312 | a commit the register does not hold is taken over at the next revision, and nothing else changes |
| Register.FilingRegister.RecoverCommits | sidecar/ingest/register.ts:300-316 | after success every filing the database committed holds its receipt |
| Register.FilingRegister.ResumeOne | sidecar/ingest/register.ts:223-231 | a filing is processed unless it landed, stored at the next revision if it changed, and a filing that has to be tried again marks the pass as failed |
| Register.FilingRegister.ResumeAll | sidecar/ingest/register.ts:221-232 | committed filings are never landed again; after a pass every filing that has not landed was processed, and the pass is marked as failed exactly if one is left to be tried again |
| Register.FilingRegister.ReconcileReceipt | sidecar/ingest/land.ts:13-17 | the receipt of a landed filing is sent exactly once, and only how it was answered is stored, at the next revision |
| Register.FilingRegister.ReconcileReceipts | sidecar/ingest/register.ts:233-244 | after a pass every receipt was sent again, the filings say how it was answered, and the pass is marked as failed exactly if one was not accepted |
| Register.FilingRegister.ReconcileOnce | sidecar/ingest/register.ts:217-268 | after success every filing went through recovery, processing, its receipt and delivery; every filing is delivered or was told; the receiver is current if every notice was acknowledged, whatever failed before; every landing is registered if nothing failed |
| Register.FilingRegister.Reconcile | sidecar/ingest/register.ts:199-216 | the same for the queued operation; a closed register changes nothing |
| Register.FilingRegister.RetryFiling | sidecar/ingest/register.ts:269-299 | refused without any change unless the filing is quarantined, unlanded, its bytes are unchanged and the rules can be read; otherwise identified anew at the next revision, and everything reconciled |
| Register.FilingRegister.ScanEntry | sidecar/ingest/register.ts:329-371 | nothing is registered before two scans saw the same fingerprint, nothing is registered twice, and a file that is to be hashed and cannot be opened ends the scan |
| Register.FilingRegister.RegisterEntry | sidecar/ingest/register.ts:346-370 | the arrival is stored before it is processed, as exactly the filing its identification gives; nothing else changes |
| Register.FilingRegister.ProcessNew | sidecar/ingest/register.ts:364-369 | the new filing is processed and stored at the next revision if it changed |
| Register.FilingRegister.ScanOnce | sidecar/ingest/register.ts:317-375 | of the files below the directory, links and special files skipped: every new filing stands for a settled one, and after success every settled readable one is registered; registered filings are only marked as delivered; every filing is delivered, was told, or had been attempted |
| Outcomes.FilesExact | sidecar/ingest/register.ts:320-326 | the files of the walk: those below, a directory where it stands, and nothing of what is skipped |
| Outcomes.DueExact | sidecar/ingest/register.ts:183-188 | a pass sends one notice for every filing that is not delivered at its revision and, if only first attempts are made, was not attempted, in their order, each reporting its filing |
| Outcomes.PendingExact | sidecar/ingest/register.ts:225 | a filing is left to be tried again exactly if it is ready and has a reason or a receipt that is not registered |
| Outcomes.ProcessingOutcome | sidecar/ingest/land.ts:18-36 | only a ready filing is processed; it lands exactly if the database says so, under that receipt; otherwise it is quarantined with a reason or waits for the database |
| Outcomes.StampedExact | sidecar/ingest/register.ts:226-229 | a change is stored as it is at the next revision, and no change leaves the revision |
| Outcomes.RecoveredExact | sidecar/ingest/register.ts:306-312 | a recovered filing has the committed receipt, not yet registered, at the next revision, and is otherwise as it was |
| Outcomes.ResentExact | sidecar/ingest/land.ts:13-17 | a receipt that is sent again changes how it was answered, and the revision exactly if that changed |
| Outcomes.ReconciledLanding | sidecar/ingest/register.ts:217-246 | what was landed or committed before a reconciliation holds its receipt after it and is not processed |
| Outcomes.ReconciledProcessing | sidecar/ingest/register.ts:217-246 | what was not is as processing leaves it, but for its revision, its delivery and the answer to its receipt |
| Flattening.SpecificationPermutation | sidecar/ingest/extract.ts:11 | what a reader sees of a sheet does not depend on the order of its merged ranges, nor does whether a row fits |
| Sheets.ExpandedExact | sidecar/ingest/extract.ts:14-30 | a row of the flattened sheet, cell by cell: under a merged range what stands in its first cell, elsewhere what stands there |
| Sheets.ClashExact | sidecar/ingest/extract.ts:17 | two ranges clash in a row exactly if they cover one cell of it |
| Sheets.FitsExact | sidecar/ingest/extract.ts:17-28 | a row fits exactly if no cell is covered twice and the active anchors and the row are within their limits in UTF-16 code units |
| Sheets.OutcomeExact | sidecar/ingest/extract.ts:10-37 | flattening a workbook yields and refuses exactly what this reading of its cells says |
| Sweep.Sweeper.Start | sidecar/ingest/extract.ts:15-22 | the ranges that start at a row join the active ones; refused exactly for an overlap or an anchor size over the limit |
| Sweep.Sweeper.Fill | sidecar/ingest/extract.ts:23-27 | every active range shows its value in its columns, and exactly those that end at the row leave |
| Sweep.Sweeper.Expand | sidecar/ingest/extract.ts:14-30 | a row is given as a reader sees it, or refused exactly if it does not fit; `anchorSize` stays the size of the active anchors |
| Sweep.ApartNoClash | sidecar/ingest/extract.ts:17 | if the active ranges are apart, no two ranges of the sheet clash in the row |
| Sweep.OverlapClash | sidecar/ingest/extract.ts:17 | an overlap the sweep finds is a clash of the sheet |
| Flatten.LastMerge | sidecar/ingest/extract.ts:35 | the last row of any range |
| Flatten.Emit | sidecar/ingest/extract.ts:32-33 | one more row is yielded as a reader sees it, or it does not fit |
| Flatten.EmitGap | sidecar/ingest/extract.ts:32-36 | the rows of a gap are yielded in order |
| Flatten.Flattened | sidecar/ingest/extract.ts:10-37 | rows from one to the last row or range are yielded without gaps as a reader sees them, up to the first that does not fit |
| Flatten.YieldsAllOrNothing | sidecar/ingest/extract.ts:10-37 | all rows are yielded exactly if every row fits |
| Flatten.OutcomeUnique | sidecar/ingest/extract.ts:10-37 | a second pass over the same workbook yields the same rows and ends the same way |
| Extraction.InferRow | sidecar/ingest/extract.ts:82-85 | the types stay the joins of what has been inferred, one more row included |
| Extraction.Matches | sidecar/ingest/extract.ts:71-73 | finds the one header cell with the text, or that there is none or more than one |
| Extraction.InferRows | sidecar/ingest/extract.ts:65-86 | the data rows up to the first blank one are counted, each shows the declared value under the verified column, and the types are the joins of what their cells infer |
| ColumnNames.Names | src/modules/ingest/domain/extraction.ts:29-40 | every column gets the first candidate that is no earlier name and no header of another column |
| ColumnNames.NamesDistinct | src/modules/ingest/domain/extraction.ts:29-40 | such names are distinct, the first column with a header keeps it, and no generated name is a header |
| ColumnNames.NameShape | src/modules/ingest/domain/extraction.ts:34-38 | a name is the header, or column and its number if there is none, by itself or with a suffix from 2 |
| Extraction.InspectSheet | sidecar/ingest/extract.ts:57-97 | refuses in exactly the cases that `Refuses` states of the cells; otherwise counts all data rows, gives every column the join of its inferred types, and names the columns |
| Extraction.Inspect | sidecar/ingest/extract.ts:57-97 | the same for the rows and merged ranges of a workbook: refused exactly for a merged, empty or absent header, a verification column that no or more than one header cell names, a data row that shows another value under it, no data row to verify, or a sheet that does not flatten |
| Extraction.RefusedExact | sidecar/ingest/extract.ts:63-88 | every refusal in terms of the cells: which header cells hold the text of the verification column, and what the data rows show under it, an absent or null cell counting as the empty text |
| Extraction.SummaryExact | sidecar/ingest/extract.ts:82-94 | every summary in terms of the cells: the number of data rows, the header of every column, and its type from the cells under it |
| Extraction.UntilBlankExact | sidecar/ingest/extract.ts:77 | the data rows are those before the first in which every cell is null or empty |
| Extraction.WriteRows | sidecar/ingest/extract.ts:108-116 | the data rows are written in order in the types of the columns |
| Extraction.SheetUnique | sidecar/ingest/extract.ts:10-37 | a workbook has one flattened sheet |
| Extraction.Rows | sidecar/ingest/extract.ts:101-119 | a refused workbook writes nothing; on the same workbook the second pass writes exactly the inspected rows |
| Extraction.PassesAgree | sidecar/ingest/extract.ts:82-114 | as many rows as counted, as wide as the columns; a value that is not null is never lost, and in a column that is not text it has the type of the column |
| Extraction.CellTyped | sidecar/ingest/extract.ts:84-94 | every cell that is not null stands in a column, of its own type or of text |
| Extraction.ColumnsOrderIrrelevant | sidecar/ingest/extract.ts:84 | the columns do not depend on the order of the data rows |
| Needles.OccurrencesArePlaces | scripts/ephemerality/infrastructure/scanner.py:57-64 | the recursive count is the number of places where the needle stands, overlaps included |
| Needles.TailSuffices | scripts/ephemerality/infrastructure/scanner.py:69 | a tail one byte shorter than the longest needle is as good as the whole text for what the next block adds |
| Needles.FreshAll | scripts/ephemerality/infrastructure/scanner.py:61-64 | the matches that are not wholly in the tail are exactly the occurrences the block adds |
| Tallies.AddedSkips | scripts/ephemerality/infrastructure/scanner.py:58-67 | going from prefix to prefix skips no needle of the group |
| Scanning.Scanner.constructor | scripts/ephemerality/infrastructure/scanner.py:23-32 | every encoded form of every marker is listed as often as it occurs among the forms |
| Scanning.Scanner.AddBinary | scripts/ephemerality/infrastructure/scanner.py:34-40 | each of the four forms of the value is listed once more and named, and the overlap covers it |
| Representations.FormsInjective | scripts/ephemerality/infrastructure/scanner.py:36 | each of the four forms determines the value |
| Representations.SameFormsExact | scripts/ephemerality/infrastructure/scanner.py:36 | the two base64 forms are one text exactly if no padding is needed and no digit differs between the alphabets |
| Representations.HexExact | scripts/ephemerality/infrastructure/scanner.py:36 | two hexadecimal digits of the text have the value of the byte they stand for |
| Representations.SextetExact | scripts/ephemerality/infrastructure/scanner.py:36 | the six-bit groups are the bits of the value in order, with zero bits at the end |
| Representations.Base64Exact | scripts/ephemerality/infrastructure/scanner.py:36 | one digit of the alphabet for every group, and padding up to a multiple of four |
| Scanning.Scanner.Probe | scripts/ephemerality/infrastructure/scanner.py:60-66 | a match is counted once under its name and sampled while there is room |
| Scanning.Scanner.ScanGroup | scripts/ephemerality/infrastructure/scanner.py:58-67 | a group adds its fresh occurrences and nothing else |
| Scanning.Scanner.ScanBlock | scripts/ephemerality/infrastructure/scanner.py:57-67 | a block adds the fresh occurrences of all groups |
| Scanning.Scanner.Stream | scripts/ephemerality/infrastructure/scanner.py:42-70 | whatever the blocks, the count of every name is the tally over the whole stream, every sample is a needle at its offset, at most twelve and all of them if fewer; a short stream fails |
| Observing.CountOfNeedle | scripts/ephemerality/infrastructure/scanner.py:60-64 | the count under the name of a needle is its occurrences times how often it is listed |
| Observing.CountIsExact | scripts/ephemerality/infrastructure/scanner.py:31-64 | it is the number of occurrences exactly if the needle is listed once or does not occur |
| Observing.Base64Counted | scripts/ephemerality/infrastructure/scanner.py:34-64 | in any scanner to which a value is added, the occurrences of its base64 form are counted once, and twice exactly if both base64 forms are the same |
| Observing.SameFormCountedTwice | scripts/ephemerality/infrastructure/scanner.py:23-64 | a scanner for a marker and three zero bytes counts one occurrence of their base64 form twice |
| Observing.Subtract | scripts/ephemerality/infrastructure/scanner.py:287-290 | the counts of the tail are taken off and empty entries dropped |
| Observing.ObserveWrite | scripts/ephemerality/infrastructure/scanner.py:283-290 | one write reports exactly what it adds to everything written to its sink |
| Observing.ObservedWrites | scripts/ephemerality/infrastructure/scanner.py:246-302 | for every sink the reported counts add up to the tally of all that was written to it |
| Calendar.Digits | sidecar/tokenize/calendar.ts:10-15 | the decimal value of the text |
| Calendar.BeforeYearStep | sidecar/tokenize/calendar.ts:16-18 | year lengths telescope |
| Calendar.TickIsOneSecond | sidecar/tokenize/calendar.ts:16-20 | one second later by the rules of the calendar is one more second |
| Calendar.EpochDay | sidecar/tokenize/calendar.ts:20 | the day that is subtracted is the first of January 1970, so the count starts there |
| Calendar.SecondsInjective | sidecar/tokenize/calendar.ts:20 | different civil times are different seconds |
| Calendar.SecondsRange | sidecar/tokenize/calendar.ts:19-20 | every valid civil time lies in the range of the formatter |
| Calendar.YearOf | sidecar/tokenize/calendar.ts:26-33 | the binary search ends at the year that holds the day |
| Calendar.MonthOf | sidecar/tokenize/calendar.ts:34-40 | the walk ends at the month and day of the month |
| Calendar.FormatSeconds | sidecar/tokenize/calendar.ts:22-43 | a text exactly for the seconds from -62135596800 to 253402300799, and then the fields of the one civil time with that count |
| Calendar.PrintedReads | sidecar/tokenize/calendar.ts:21-42 | the fields stand at fixed places and read back |
| Calendar.PrintedInjective | sidecar/tokenize/calendar.ts:42 | the text determines the civil time and the fraction |
| Numbers.MatchSound | sidecar/tokenize/canonicalise.ts:38 | what the pattern matches is a number with these parts |
| Numbers.MatchComplete | sidecar/tokenize/canonicalise.ts:38 | every such number is matched |
| Numbers.CanonicalNumberText | sidecar/tokenize/canonicalise.ts:37-45 | the result is the text of the canonical number |
| Numbers.CanonicalSameRational | sidecar/tokenize/canonicalise.ts:42-44 | the canonical number is the same rational |
| Numbers.CanonicalUnique | sidecar/tokenize/canonicalise.ts:42-44 | canonical numbers that are the same rational are the same |
| Numbers.NumberEquality | sidecar/tokenize/canonicalise.ts:37-45 | two accepted texts have the same result exactly if they are the same rational |
| Numbers.NumberFixedPoint | sidecar/tokenize/canonicalise.ts:37-45 | a result is its own result |
| Timestamps.SplitMicros | sidecar/tokenize/canonicalise.ts:54-59 | floor division of the microseconds, also of negative ones |
| Timestamps.CanonicalEpoch | sidecar/tokenize/canonicalise.ts:51-67 | an epoch value is accepted exactly if it is an integer in range, and gives the text of its microsecond |
| Timestamps.CanonicalTimestamp | sidecar/tokenize/canonicalise.ts:50-90 | a timestamp is accepted exactly if it denotes a microsecond in range, and gives the text of that microsecond |
| Timestamps.TextsAreInstants | sidecar/tokenize/canonicalise.ts:50-90 | two such texts are equal exactly if they are the same microsecond, whichever form each came from |
| Timestamps.PrintedMatches | sidecar/tokenize/canonicalise.ts:68 | a canonical text matches the pattern with its own fields and the offset Z |
| Timestamps.TimestampFixedPoint | sidecar/tokenize/canonicalise.ts:68-89 | a canonical text denotes its own microsecond, so canonicalising it again changes nothing |
| Offsets.CanonicalOffset | sidecar/tokenize/canonicalise.ts:68-89 | a civil time with an offset gives the canonical text of the civil time that many minutes earlier, or later for a negative offset, in all three forms of an offset |
| Offsets.OffsetRefused | sidecar/tokenize/canonicalise.ts:68-89 | it is refused exactly if there is no such civil time in the years 1 to 9999 |
| Offsets.CanonicalEpochs | sidecar/tokenize/canonicalise.ts:51-89 | an epoch in seconds, a thousand times as many milliseconds, and the UTC text of that second give the same text |
| Offsets.OffsetDenotes | sidecar/tokenize/canonicalise.ts:68-89 | the microsecond such a text denotes |
| Offsets.UtcDenotes | sidecar/tokenize/canonicalise.ts:68-89 | the same for a text with Z |
| Offsets.EpochDenotes | sidecar/tokenize/canonicalise.ts:51-67 | the microsecond an integer epoch value denotes |
| Offsets.FirstEpochSecond | sidecar/tokenize/calendar.ts:20 | second one is one second after midnight of the first of January 1970 |
| Offsets.ReaderAccepts | sidecar/tokenize/canonicalise.ts:68-89 | what the predicate language reads as a timestamp with a zone, canonicalisation reads too |
| Offsets.ReadersAgree | src/shared/row-predicate-syntax.ts:19-33 | and what both read denotes the same microsecond in both |
| Patterns.StampExact | sidecar/tokenize/canonicalise.ts:68 | the pattern of a timestamp, character by character |
| Patterns.InstantExact | sidecar/tokenize/canonicalise.ts:50-90 | the microsecond of every accepted text, from its fields |
| Patterns.ZoneExact | sidecar/tokenize/canonicalise.ts:68 | the pattern of an offset |
| Crockford.EmitBits | sidecar/tokenize/tokenizer.ts:14-17 | the loop over the bits of a byte moves whole digits to the output |
| Crockford.Encode | sidecar/tokenize/tokenizer.ts:8-22 | the bit buffer gives the base-32 digits of the big-endian number with its padding, eight fifths as many characters rounded up |
| Crockford.SixteenBytes | scripts/ephemerality/infrastructure/proof.py:38-42 | for sixteen bytes: the closed form of the proof script, 26 characters of the number shifted by two |
| Crockford.EncodingInjective | sidecar/tokenize/tokenizer.ts:8-22 | different bytes have different encodings, whatever their lengths |
| Tokens.CompactInjective | src/shared/token-domain.ts:8-10 | dropping the dashes of a UUID loses nothing but the case |
| Tokens.DerivedInjective | src/shared/token-domain.ts:8-10 | derived domains are equal exactly for the same project and element |
| Tokens.DerivedReserved | src/shared/token-domain.ts:5-10 | a derived domain has the form of a domain, is no declared one and not the sentinel |
| Tokens.DeclarableExact | src/shared/token-domain.ts:5-7 | which domains may be declared: not empty, of digits and small letters, not the sentinel, and with none of the reserved prefixes |
| Tokens.CompactExact | src/shared/token-domain.ts:8-10 | the 32 digits of a UUID in lower case |
| Tokens.EffectiveExact | src/shared/token-domain.ts:8-13 | the domain of a column: the declared one, or the prefix with the project and the element |
| Tokens.DomainsShared | src/shared/token-domain.ts:11-13 | two columns share a domain exactly if both declare it or both are the same isolated column |
| Tokens.PayloadInjective | sidecar/tokenize/tokenizer.ts:36 | the payload determines canonical form, domain and value |
| Tokens.Tokenize | sidecar/tokenize/tokenizer.ts:36-42 | the token of a canonical value |
| Tokens.PayloadExact | sidecar/tokenize/tokenizer.ts:36 | what is digested: the version, the canonical form, the domain and the value, separated by NUL |
| Tokens.TokenExact | sidecar/tokenize/tokenizer.ts:42 | a token is v1, the domain and, between underscores, the 26 characters that spell the first sixteen bytes of the digest |
| Tokens.TokensCoincide | sidecar/tokenize/tokenizer.ts:42 | tokens are equal exactly for equal domains and equal first sixteen bytes of the digests |
| Tokens.TokensAreValues | sidecar/tokenize/tokenizer.ts:32-43 | where the digest does not collide, tokens are equal exactly for the same value, domain and canonical form |
| StagingTypes.ReadQuotedSound | src/shared/staging-types.ts:12 | a matched field name is a doubled name with its quotes and space |
| StagingTypes.ReadQuotedComplete | src/shared/staging-types.ts:12 | every name without NUL is matched back |
| StagingTypes.ScalarsPrefixFree | src/shared/staging-types.ts:20 | no alternative hides a later one |
| StagingTypes.ReadTypeSound | src/shared/staging-types.ts:6-23 | what is read is the printed text of a well-formed tree within the depth limit, and a rest |
| StagingTypes.ReadTypeComplete | src/shared/staging-types.ts:6-23 | the printed text of every such tree is read back before anything that may follow |
| StagingTypes.AcceptsPrinted | src/shared/staging-types.ts:3-25 | an input is accepted exactly if it is the printed text of a tree within the depth and DECIMAL bounds, and it is read as that tree |
| StagingTypes.DuckUnique | src/shared/staging-types.ts:8-22 | the DuckDB text determines the tree and where it ends |
| StagingTypes.TranslationInjective | src/shared/staging-types.ts:3-25 | two accepted inputs with the same DuckDB text are the same input |
| StagingTypes.ScalarNames | src/shared/staging-types.ts:20 | the scalar names |
| StagingTypes.ScalarTranslated | src/shared/staging-types.ts:20-22 | the PostgreSQL name of every scalar |
| StagingTypes.ListTranslated | src/shared/staging-types.ts:8-18 | a list is translated by its element, with its dimensions |
| StagingTypes.StructTranslated | src/shared/staging-types.ts:10-16 | a struct has no PostgreSQL type, and its DuckDB text lists its fields |
| StagingTypes.FieldsTranslated | src/shared/staging-types.ts:10-15 | field by field: the quoted name, and the text of its type |
| StagingTypes.DecimalAccepted | src/shared/staging-types.ts:19 | a DECIMAL is accepted exactly with a precision from 1 to 38 and a scale up to it |
| StagingParser.TypeParser.Take | src/shared/staging-types.ts:5 | moves the cursor past the text exactly if it is next |
| StagingParser.TypeParser.Parse | src/shared/staging-types.ts:6-23 | the parser with its cursor gives the translation of the tree that is read, or null |
| StagingParser.TypeParser.ParseFields | src/shared/staging-types.ts:10-15 | the loop over the fields gives the joined fields |
| StagingParser.StagingType | src/shared/staging-types.ts:3-25 | the translation of the tree the whole input prints, or null |
| Aliases.BaseShaped | migrations/026_source_alias.up.ts:33-38 | the base has the required shape, is no reserved word and has at most 63 characters |
| Aliases.CandidateShaped | migrations/026_source_alias.up.ts:40-46 | so has every candidate |
| Aliases.CandidatesDiffer | migrations/026_source_alias.up.ts:43-44 | candidates with different suffixes differ |
| Aliases.Assign | migrations/026_source_alias.up.ts:32-48 | the loop ends within two candidates more than there are reserved names, with the first candidate that is not reserved |
| Aliases.CandidateBoundExact | migrations/026_source_alias.up.ts:40-46 | one candidate more than the reserved names is always enough exactly for a base that is not one of its own suffixed forms |
| Aliases.OwnSuffix | migrations/026_source_alias.up.ts:44 | a base is its own suffixed form exactly if it has 63 characters and ends in its hash and the suffix |
| Aliases.SlugIsBase | migrations/026_source_alias.up.ts:33-37 | a name that is a slug already is its own base |
| Aliases.SlugExact | migrations/026_source_alias.up.ts:33-34 | the slug is the runs of letters and digits, joined by single underscores |
| Aliases.BaseExact | migrations/026_source_alias.up.ts:33-38 | the base, with the hash in front or behind where the slug starts with a digit, is reserved or is too long |
| Aliases.CandidateText | migrations/026_source_alias.up.ts:40-46 | a candidate is the front of the base, the hash, an underscore and the suffix, cut only to stay within 63 characters |
| Aliases.FullNameNeedsTwoMore | migrations/026_source_alias.up.ts:33-46 | a name of 63 characters that ends in _2, once reserved, needs the second extra candidate |
| Aliases.Up | migrations/026_source_alias.up.ts:52-64 | refused exactly if some name normalises to nothing; otherwise every row gets a legal alias and no two of a project the same |
| StderrTail.EngineStderrTail.Append | sidecar/stderr-tail.ts:19-23 | the tail is the last 4096 bytes of everything appended |
| StderrTail.EngineStderrTail.ConsumeCharacter | sidecar/stderr-tail.ts:26-34 | one character adds to the output exactly what the line-by-line reading adds |
| StderrTail.EngineStderrTail.Consume | sidecar/stderr-tail.ts:24-37 | so does a piece of text, and the count of withheld lines |
| StderrTail.EngineStderrTail.Finish | sidecar/stderr-tail.ts:38 | at the end the whole output is the line-by-line one |
| StderrTail.Run | sidecar/stderr-tail.ts:16-40 | for every division of the text into pieces: known lines as they are, one marker for every other line that is not empty, with the right count and tail |
| StderrTail.LinesExact | sidecar/stderr-tail.ts:24-38 | the lines are the text between its line feeds |
| StderrTail.FilteredExact | sidecar/stderr-tail.ts:26-34 | the output: a known line as it is, nothing for an empty one, the marker for every other |
| StderrTail.WithheldExact | sidecar/stderr-tail.ts:26-34 | the count is that of the lines that are neither empty nor known |
| StderrTail.LastExact | sidecar/stderr-tail.ts:19-23 | the tail is the end of the text, 4096 characters or all of it |
| Leases.StepInv | sidecar/infrastructure/postgres-source-scope.ts:59-195 | every step keeps the count of a source equal to the leases held on it and within the ceiling |
| Leases.RunInv | sidecar/infrastructure/postgres-source-scope.ts:59-195 | so in every run, with at most two connection attempts and one release for a lease |
| Leases.Quiescent | sidecar/infrastructure/postgres-source-scope.ts:165-193 | when no operation is left nothing is counted, and every operation that was not refused released its lease exactly once |
| Leases.BusyExact | sidecar/infrastructure/postgres-source-scope.ts:89-91 | an operation that is not aborted is refused exactly if the ceiling is reached |
| Leases.Admitted | sidecar/infrastructure/postgres-source-scope.ts:89-92 | what entering does: a lease is counted and starts its first attempt, or nothing changes |
| Leases.RetriedOnce | sidecar/infrastructure/postgres-source-scope.ts:122-145 | after a failed attempt there is a second exactly if the failure may be retried, the operation has not ended and it was the first |
| Leases.Released | sidecar/infrastructure/postgres-source-scope.ts:190-191 | a release takes one off the count of its source and of no other |

## Left out

- Register.FilingRegister.ScanOnce: what stands in the directory is a parameter and does not change during the walk, and reading a directory does not fail; nor is the report of reconciliation with its two counters modelled.
- Register.Outside.Land: a database that commits after `land` has returned without an answer, and a writer without `committed`, are not modelled.
- Extraction.Inspect: opening and attribution checks and hashing of the file are not modelled; that the file is unchanged is a parameter.
- Extraction.Rows: the agreement of the passes is stated for a workbook that is the same both times.
- Scanning.Scanner.Stream: reads never return nothing before the end, and the archives and memory maps of the scanner are not modelled.
- Observing.ObservedWrites: parsing of traces; writes that the source reports as incomplete are not in the list.
- Timestamps.CanonicalTimestamp: the resolver of a declared zone is a function parameter.
- Tokens.Tokenize: the digest is a function of the payload text; UTF-8 and the zeroing of buffers are not modelled.
- Aliases.Assign: stated for up to 2^53 - 16 reserved names, above which `suffix` is no longer exact; the text arrives transliterated and in lower case.
- StderrTail.EngineStderrTail.Append: stated for ASCII lines, which all known lines are; decoding of bytes and the byte count are not modelled.
- Leases.StepInv: a state machine over values, because the operations interleave; credentials, cancellation connections, deadlines and telemetry are not modelled beyond that they may end an operation at any time.
- The text mode of canonicalisation, whose results are those of Unicode tables, and its date mode, which returns its input.
- `typedLiteral` on numbers and floats, and the bounds of the numeric types, which belong to the decimal library.
- SQL, DuckDB, Postgres, network, timers, backoff, telemetry, schemas, contracts, console and operator code.
