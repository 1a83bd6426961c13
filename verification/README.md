# Verification of the memory core's scanning, encoding, wire and qualification logic

This project models the parts of the repository whose correctness is easiest to get wrong and hardest to see
from one function body, and proves what those parts are for. `dafny verify dfyconfig.toml` checks all of it.

**Windowed secret scanning** (`Utf8`, `Utf8Chars`, `LossyDecoding`, `Windows`, `ScanExactness`, `WindowScanning`).
Text is a byte sequence whose char boundaries are the bytes that are not continuation bytes. Long text is cut into
overlapping windows; each window's scan keeps the findings that lie clear of its artificial edges and end past what
earlier windows claimed. The scanner is a parameter. All that is assumed of it is locality: a finding that keeps the
edge margin from every artificial edge is reported in a window exactly as often as in the whole text, and no match is
longer than `MAX_MATCH_BYTES`. Under that hypothesis the findings kept by any proper walk are exactly the findings of
the whole text, with multiplicity, and every verdict is right; without it, an error is still the scanner's own. The
lossy decoding of any bytes is defined from their one canonical cut into valid and invalid runs, and the streaming
walk over it is proved to scan the same windows, in the same order, as the in-place walk over the decoded text.
`ScanExactness.MarkScannerIsLocal` shows a scanner that meets the hypothesis.

**Key names** (`KeyNames`, `CoverScan`, `KeyLabels`). The two-directional cover scan of an undelimited name equals an
existential over segmentations into vocabulary words; camel-case splitting marks each capital that starts a word,
once, and changes nothing else; the bounded label is the longest run of whole segments that fits.

**Encodings** (`Decimals`, `CredentialRow`, `CanonicalJson`, `JsonReading`, `CanonicalEncoding`, `ApplicabilityHeads`,
`Pieces`, `RevisionLocators`). The length-prefixed credential row is uniquely decodable and read back by a reader of
its format; a reader of JSON that knows nothing of the encoder gets from its text what the value holds, members in
code-point order; two JSON values have the same canonical text exactly when they mean the same, and have one at all
exactly when every number in them is a safe integer; protocol-prefixed preimages keep protocols apart; the heads
digest depends on each stream's own sequence and on nothing else; locators print and parse both ways.

**The multiplexed wire and its clients** (`Wire`, `Ledger`, `BatchLedger`). Every lock acquisition is one step, and a
run is any interleaving of the callers' and the reader's steps. A terminal found in `pending` reaches the call that
waits for it, and one that comes too late is absorbed. The query and batch retry loops are proved against arbitrary
replies, delays and other requests' rows: a record that is returned is its request's own and counts exactly its ledger
rows; its disposition is the one those rows come to; a completed batch was served the requested contents in order; a
client reports a timeout of its own only when the deadline has come, and gives up on a rejection only at the attempt
cap or when the next try would pass the deadline.

**Decay** (`Decay`). Tiers are monotone, more pressure never costs more, the derived pressure is the least that fits
the budget, and the histories whose cost overshoots every budget by less than one freshest compartment are
characterised by finitely many comparisons.

**Qualification inputs** (`ClosureManifest`, `ArgumentVariants`, `TomlScan`, `TomlTokens`, `DottedKeys`, `KeyTokens`).
Acceptance of a closure manifest is a property of its graph; accepted argument variants render to an argv the host
controls; the TOML scan visits the plain characters of any reading of a line into characters and strings, and cutting
comments is stable across a whole file; dotted keys split in exactly one way, at the plain dots.

**Shared-memory producers** (`ScatterCursor`, `UseOnce`). Any run of writes, filled views and advances over segments
is a run of a machine with one flat buffer; reservations and leases are settled once.

`Outcomes` and `Arithmetic` hold what several of these share.

Five places where the code and what is written about it differ, or where a natural property fails:

- The comment on `tombstones` in `crates/mc-host/examples/synapse_perf.rs:445` says that only calls without a terminal
  leave a correlation stored. That is false: `Wire.TombstoneCanOutliveItsTerminal` gives a run in which a timeout races
  a delivery and the tombstone stays although the terminal was read. Between frames the comment holds of a run if and
  only if no call gave up on a terminal that the reader had already found in `pending`
  (`Wire.OnlyUnansweredLeaveTombstones`, correlation by correlation in `Wire.TombstoneIsStaleExactly`). The giving-up
  caller could tell: its tombstone is stale exactly when it finds nothing left to remove from `pending`
  (`Wire.ForgetTellsStale`).
- The budget target of `compute_budget_pressure` is missed by some short histories; `Decay.ShortHistoryOvershoots` is
  one. `Decay.EveryBudgetIsMet` says which: a uniform history is within one freshest compartment of every budget if and
  only if at most `4 * (n - 1)` comparisons on its length, half-life and cost at pressure 1 all hold.
- In the closure check, the rejections for a root without an executable mode and for a native addon without a native
  edge can never be the ones reported (`ClosureManifest.Validate`).
- A request whose body is too long for a frame leaves its entry in `pending` (`Wire.RefusedBodyLeaks`); no other ended
  call leaves one behind (`Wire.OnlyRefusedBodiesLeak`).
- The retries after an attempt timeout (`crates/mc-host/examples/synapse_perf.rs:857-872`, and their counterparts for
  submissions and polls) never happen: the wire times a call out only at the request's own deadline, after which no
  delay fits before it. `Ledger.QueryTimeout`, `BatchLedger.SubmitTimeout` and `BatchLedger.AfterPoll` prove those
  branches dead.

## Model

| member | source | states |
|---|---|---|
| `Utf8.WellFormedIsSliceable` | crates/mc-core/src/redaction.rs:447-454 | well-formed UTF-8 (section 3 of RFC 3629) has what the window walks need: it starts on a char, no char is longer than four bytes, and ASCII stands alone |
| `Utf8.CharFloor` | crates/mc-core/src/redaction.rs:447-454 | returns the largest char boundary at or below the index, clamped to the length |
| `Utf8.FloorIsNear` | crates/mc-core/src/redaction.rs:447-454 | the boundary found is at most three bytes below the index |
| `Utf8Chars.GlyphsAreEncodedChars` | crates/mc-core/src/redaction.rs:447-454 | the byte syntax of a char holds exactly of the encodings of scalar values (section 3 of RFC 3629) |
| `Utf8Chars.EncodedIsWellFormed` | scripts/qualify-mc-host-production-inputs.ts:840-840 | a text's bytes are well-formed and as many as the row's lengths count |
| `LossyDecoding.ChunkedIsChunksOf` | crates/mc-core/src/redaction.rs:258-258 | a list of valid and invalid runs joins to the bytes, each valid run going on until a char breaks off and each invalid run being the bytes that broke off (section 3.9 of the Unicode Standard), iff it is the list `utf8_chunks` cuts: cutting loses nothing and is unique |
| `LossyDecoding.BrokenIsMaximal` | crates/mc-core/src/redaction.rs:258-258 | what is replaced is the longest start of a well-formed char that stands there, or else one byte |
| `LossyDecoding.WellFormedDecodesToItself` | crates/mc-core/src/redaction.rs:242-245 | the lossy decoding of valid UTF-8 is the bytes themselves, so both branches scan one text |
| `Windows.ConstantsFit` | crates/mc-core/src/redaction.rs:395-415 | the compile-time inequalities between match length, margins, overlap, advance and window size |
| `Windows.AdvanceMoves` | crates/mc-core/src/redaction.rs:378-382 | a full window's advance is positive, lands on a boundary and leaves at least the overlap |
| `Windows.NextStart` | crates/mc-core/src/redaction.rs:429-442 | the next start is the latest line start from the minimum advance up to the target, and the target when there is none |
| `Windows.ScanWindows` | crates/mc-core/src/redaction.rs:417-443 | the line-aligned walk ends; its windows start at 0, reach the end, lie on boundaries, fit the limit, overlap by the required bytes, advance by the minimum, and each later start is the latest qualifying line start if one exists |
| `Windows.SlideWindowsProper` | crates/mc-core/src/redaction.rs:283-305 | the sliding walk's windows are proper for every text: covering, bounded, on boundaries, overlapping, advancing |
| `ScanExactness.WindowReportsItsShare` | crates/mc-core/src/redaction.rs:332-364 | a window reports, with multiplicity, exactly the whole-text findings that end in the range it claims, and nothing else |
| `ScanExactness.WindowedScanIsExact` | crates/mc-core/src/redaction.rs:332-364 | over any proper windows, the kept findings are the whole-text findings, each exactly once |
| `ScanExactness.VerdictIsRight` | crates/mc-core/src/redaction.rs:222-236 | a walk that stops at the first finding answers whether the whole text has one, even when a later window would have failed |
| `ScanExactness.AnswerRests` | crates/mc-core/src/redaction.rs:222-236 | whatever the scanner, a walk's error is the scanner's on some window, a hit is one it reported, a clean answer took a scan of windows that cover the text, and the first failure or finding decides |
| `ScanExactness.WalksAgree` | crates/mc-core/src/redaction.rs:238-247 | any two ways of cutting a text agree on the verdict and on every finding |
| `ScanExactness.MarkScannerIsLocal` | crates/mc-core/src/redaction.rs:405-415 | the locality hypothesis is met by a scanner that reports every occurrence of a byte |
| `WindowScanning.WindowScan.Findings` | crates/mc-core/src/redaction.rs:332-364 | keeps exactly the findings inside the margins and past the inherited claim, in order, moves the claim, and leaves it alone on a scan error |
| `WindowScanning.WindowScan.Slide` | crates/mc-core/src/redaction.rs:367-374 | scans a full buffer; a clean one is drained to its overlap and the start moves by as much |
| `WindowScanning.DetectWindowed` | crates/mc-core/src/redaction.rs:222-236 | returns the verdict of the walk over the line-aligned windows, scans those windows in order up to the first hit, and leaves that walk's claim |
| `WindowScanning.DetectSliding` | crates/mc-core/src/redaction.rs:283-305 | the same for the walk that slices in place, and it ends |
| `WindowScanning.StepOrEnd` | crates/mc-core/src/redaction.rs:292-304 | one scanned window moves the walk to the next start or settles its verdict |
| `WindowScanning.FullBufferIsWindow` | crates/mc-core/src/redaction.rs:258-271 | a buffer the next char does not fit ends where the in-place window ends, with at most three bytes of room |
| `WindowScanning.DetectCopying` | crates/mc-core/src/redaction.rs:249-281 | for any bytes, streaming the runs of `utf8_chunks` through a bounded buffer gives the verdict, final claim and scanned windows of the in-place walk over the lossy decoding, and the fill loop ends |
| `WindowScanning.DetectText` | crates/mc-core/src/redaction.rs:222-236 | an error is the scanner's own on some window, the answer is that of the first window of a covering walk that fails or holds something to report, and under locality a verdict is whether the whole string has a finding |
| `WindowScanning.DetectBytes` | crates/mc-core/src/redaction.rs:238-247 | the same for any bytes and their lossy decoding, which for valid UTF-8 is the bytes themselves; the length of the input never decides |
| `KeyNames.WordsAreShort` | crates/mc-core/src/redaction.rs:92-93 | no vocabulary word, plural or not, is empty or longer than the span the scan looks at |
| `KeyNames.VocabularyIsListed` | crates/mc-core/src/redaction.rs:704-722 | a vocabulary word is a listed label word or affix, with or without a plural `s`, or a listed qualifier; a qualified segment is a label segment other than `key` and `keys` |
| `CoverScan.VocabularyReach` | crates/mc-core/src/redaction.rs:674-702 | marks exactly the positions whose prefix (or suffix) splits into vocabulary words |
| `CoverScan.SpanBoundLosesNothing` | crates/mc-core/src/redaction.rs:685-699 | the bounded span misses no word of the real vocabulary |
| `CoverScan.UndelimitedNamesACredential` | crates/mc-core/src/redaction.rs:640-672 | true iff some full cover holds a label word and some full cover, not necessarily the same, holds a label segment other than `key` |
| `KeyLabels.SeparateWords` | crates/mc-core/src/redaction.rs:762-788 | the loop computes the separated name, character by character, with both boundary rules |
| `KeyLabels.SeparateIsIdempotent` | crates/mc-core/src/redaction.rs:762-788 | separating twice is separating once |
| `KeyLabels.SeparateOnlyInserts` | crates/mc-core/src/redaction.rs:762-788 | the result is the name with underscores put in and nothing else changed |
| `KeyLabels.SeparateMarksHumps` | crates/mc-core/src/redaction.rs:762-788 | as many underscores are put in as capitals start a word, and in the result none starts one unmarked |
| `KeyLabels.SegmentsAreBetweenBlanks` | crates/mc-core/src/redaction.rs:742-745 | the segments are what stands between characters that are no ASCII letters or digits |
| `KeyLabels.LabelSegmentsAreKept` | crates/mc-core/src/redaction.rs:745-745 | the label segments are kept as often as they occur, and nothing else is |
| `KeyLabels.CutIsLongestFitting` | crates/mc-core/src/redaction.rs:753-759 | cutting at the last underscore within the bound is cutting after the last segment that fits |
| `KeyLabels.BoundedLabel` | crates/mc-core/src/redaction.rs:747-759 | truncation keeps the longest run of whole segments within 64 bytes; the mid-segment fallback is unreachable |
| `KeyLabels.RedactionTypeForKey` | crates/mc-core/src/redaction.rs:741-760 | `secret` when there is no label segment, otherwise the longest fitting run of leading label segments |
| `Decimals.ReadPrint` | scripts/qualify-mc-host-production-inputs.ts:840-840 | reading a printed number gives it back |
| `Decimals.PrintRead` | crates/mc-core/src/claim_operation.rs:209-230 | printing what a digit run without leading zero reads to gives the run back |
| `CredentialRow.Encode` | scripts/qualify-mc-host-production-inputs.ts:835-849 | the appended message is tag, harness, provider and each entry's name, value length and value, in order |
| `CredentialRow.FieldEnds` | scripts/qualify-mc-host-production-inputs.ts:840-840 | a field ends where its UTF-8 length says, whatever digits and colons it or the rest hold |
| `CredentialRow.MessageReadsBack` | scripts/qualify-mc-host-production-inputs.ts:830-849 | a reader of decimal lengths, colons and that many UTF-8 bytes gets the row back from its message |
| `CredentialRow.MessageIsUniquelyDecodable` | scripts/qualify-mc-host-production-inputs.ts:830-849 | equal messages come from equal tags, harnesses, providers and entry lists |
| `JsonReading.ReadsValue` | crates/mc-core/src/claim_operation.rs:73-129 | a reader of JSON (RFC 8259) that knows nothing of the encoder reads each rendered value back, whatever follows it |
| `CanonicalJson.LessIsBefore` | crates/mc-core/src/claim_operation.rs:111-111 | the key order is code-point order: where two keys part, the first ends or has the smaller character |
| `CanonicalJson.CollectHoldsLast` | crates/mc-core/src/claim_operation.rs:111-111 | the map an object stands for holds the last entry of each key |
| `CanonicalEncoding.StringEnds` | crates/mc-core/src/claim_operation.rs:73-86 | an encoded string determines its text and where it ends, escapes included (section 7 of RFC 8259) |
| `CanonicalEncoding.ValueEnds` | crates/mc-core/src/claim_operation.rs:88-129 | an encoded value determines the normalised value and where it ends, whatever follows |
| `CanonicalEncoding.NormalizeIsMeaning` | crates/mc-core/src/claim_operation.rs:53-129 | normal forms are equal exactly when leaves, safe integers, item order and keyed members agree, however members were ordered |
| `CanonicalEncoding.NormalizesWhenSafe` | crates/mc-core/src/claim_operation.rs:51-129 | a value has a normal form iff every number it holds, by its real value and through duplicate keys, is a safe integer |
| `CanonicalEncoding.RenderingWrites` | crates/mc-core/src/claim_operation.rs:88-129 | the text of a value's normal form reads as its leaves, its numbers' own values, its items in order and one member per key, of any two the one with the smaller key first |
| `CanonicalEncoding.EncodingIsInjective` | crates/mc-core/src/claim_operation.rs:131-135 | two encodable values have the same text iff they mean the same |
| `CanonicalEncoding.PreimagesSeparateProtocols` | crates/mc-core/src/claim_operation.rs:149-156 | preimages of one-line protocols are equal iff protocol and meaning are |
| `CanonicalEncoding.EncodeString` | crates/mc-core/src/claim_operation.rs:73-86 | the loop appends the escaped, quoted text and keeps what was written before |
| `CanonicalEncoding.EncodeValue` | crates/mc-core/src/claim_operation.rs:88-129 | succeeds exactly when every number among the value's items and members is a safe integer, and then appends the canonical text of the value's normal form; read as JSON the appended text says what the value holds, members in code-point order of their keys |
| `ApplicabilityHeads.StableSortSorts` | crates/mc-core/src/claim_operation.rs:270-282 | of two heads in the sorted list, the one whose key is first by code point comes first |
| `ApplicabilityHeads.StableSortKeepsStreams` | crates/mc-core/src/claim_operation.rs:267-274 | sorting keeps each stream's own order |
| `ApplicabilityHeads.SortedIsDetermined` | crates/mc-core/src/claim_operation.rs:267-274 | a list sorted by key is determined by its streams |
| `ApplicabilityHeads.HeadsHaveAPreimage` | crates/mc-core/src/claim_operation.rs:267-282 | a head list can be hashed iff every sequence number is a safe integer |
| `ApplicabilityHeads.HeadsPreimageReads` | crates/mc-core/src/claim_operation.rs:267-282 | what is hashed reads, after the protocol's line, as the array of the sorted heads, each an object of its `seq` and `streamKey` |
| `ApplicabilityHeads.HeadsPreimageIsStreams` | crates/mc-core/src/claim_operation.rs:267-282 | two head lists that can be hashed are hashed alike iff every stream has the same sequence in both |
| `RevisionLocators.ParseUndoesFormat` | crates/mc-core/src/claim_operation.rs:192-230 | parsing a formatted locator gives the locator |
| `RevisionLocators.FormatUndoesParse` | crates/mc-core/src/claim_operation.rs:192-230 | formatting a parsed locator gives the text, so only the printed form parses |
| `RevisionLocators.ParsesWhatIsSpelled` | crates/mc-core/src/claim_operation.rs:192-230 | exactly the texts spelled `mcm_`, 32 small hex digits, `/r`, a revision in range, `/`, 64 small hex digits parse |
| `Wire.StepKeepsInv` | crates/mc-host/examples/synapse_perf.rs:538-657 | every step of a caller or the reader keeps the invariant on pending, tombstones, owners, writer and inboxes |
| `Wire.EveryRunKeepsInv` | crates/mc-host/examples/synapse_perf.rs:538-657 | the invariant holds after every interleaving |
| `Wire.FirstTerminalIsNeverUnknown` | crates/mc-host/examples/synapse_perf.rs:441-447 | in no run is the first terminal of a fully written correlation reported unknown |
| `Wire.RepliesReachTheirOwnCaller` | crates/mc-host/examples/synapse_perf.rs:538-657 | a returned reply is the terminal of the correlation its call was handed, and no other call was handed that one |
| `Wire.StepKeepsRoutes` | crates/mc-host/examples/synapse_perf.rs:577-657 | every step keeps, for each correlation, where its entry in `pending` and its terminal stand |
| `Wire.AnsweredCallsGetTheirReply` | crates/mc-host/examples/synapse_perf.rs:582-657 | in every run, a terminal found in `pending` whose call waits is, unless the reader is handing it over, in that call's inbox; the call can return it and can neither hang up nor give up |
| `Wire.ReturnedRepliesWereRead` | crates/mc-host/examples/synapse_perf.rs:582-657 | a returned reply had been read, and found in `pending` |
| `Wire.PendingHoldsOnlyLiveCalls` | crates/mc-host/examples/synapse_perf.rs:538-657 | an entry in `pending` belongs to a call still to be answered or to one that failed |
| `Wire.OnlyRefusedBodiesLeak` | crates/mc-host/examples/synapse_perf.rs:538-575 | an entry in `pending` outlives its call only if the call's body was refused |
| `Wire.RefusedBodyLeaks` | crates/mc-host/examples/synapse_perf.rs:553-559 | a run in which it does |
| `Wire.ReaderErrorIsTheReport` | crates/mc-host/examples/synapse_perf.rs:538-541 | callers see the reader's error from its report on, and not before |
| `Wire.DeadWireNeverTimesOut` | crates/mc-host/examples/synapse_perf.rs:538-613 | from then on a new call fails at once and none under way ends in a timeout |
| `Wire.ClearedCallsCanHangUp` | crates/mc-host/examples/synapse_perf.rs:577-613 | whoever waits without a reply when the reader clears `pending` can hang up |
| `Wire.CorrelationsLeaveInOrder` | crates/mc-host/examples/synapse_perf.rs:538-575 | correlations leave the writer strictly increasing |
| `Wire.StepKeepsTombs` | crates/mc-host/examples/synapse_perf.rs:577-657 | every step keeps, for each correlation, the account of whether its tombstone is stored: given up and not absorbed by the reader |
| `Wire.TombstoneIsStaleExactly` | crates/mc-host/examples/synapse_perf.rs:438-448 | in every run without a repeated terminal, a correlation whose terminal was read has a tombstone iff the reader found it in `pending` and its call gave up all the same |
| `Wire.OnlyUnansweredLeaveTombstones` | crates/mc-host/examples/synapse_perf.rs:445-445 | the comment's claim holds after a run iff no call gave up on a terminal the reader had found in `pending` |
| `Wire.LateTerminalIsAbsorbed` | crates/mc-host/examples/synapse_perf.rs:441-448 | in every run without a repeated terminal, one that arrives after its call gave up for good is looked up in vain, meets its tombstone, and leaves the reader reading with the correlation in neither map |
| `Wire.ForgetTellsStale` | crates/mc-host/examples/synapse_perf.rs:595-600 | after installing its tombstone, the caller finds its correlation gone from `pending` iff the reader had taken its terminal |
| `Wire.TombstoneCanOutliveItsTerminal` | crates/mc-host/examples/synapse_perf.rs:445-445 | a run in which no terminal arrives twice and that ends with a tombstone for a correlation whose terminal was read, against the comment |
| `Ledger.RunContext.RecordCall` | crates/mc-host/examples/synapse_perf.rs:682-757 | a call that reached the wire and came back adds one row of its own, with its method, disposition, a fresh attempt id, send and terminal times and answer; any other call adds none; a call expires or times out only at its deadline; a broken call is remembered |
| `Ledger.QueryAttempt` | crates/mc-host/examples/synapse_perf.rs:821-965 | an iteration retries only `queue_full`, only while the attempt limit and the deadline allow, and keeps the attempt count equal to the rows; otherwise it stops with the result its last row, the deadline or a broken call decides |
| `Ledger.ExecuteQuery` | crates/mc-host/examples/synapse_perf.rs:812-966 | a record is the request's own, with its schedule, counts exactly its rows, has no polls, and measures latency from the schedule or the first send; all rows but the last were `queue_full`, and the last fixes disposition, code and terminal time; a timeout of the client's own means the deadline has come (or less than a millisecond is left), a rejection that the attempt limit is reached or the next try would pass the deadline; failure is a reply that makes no sense or a broken call; the limit bounds the rows |
| `Ledger.QueryLedgerAgrees` | crates/mc-host/examples/synapse_perf.rs:697-711 | the last row's disposition and a query's result agree: success, timeout, rejection and failure, for each error frame; all rows before it were retryable rejections |
| `Ledger.PollAttemptsArePolls` | crates/mc-host/examples/synapse_perf.rs:697-699 | a record counts as polls exactly the rows whose disposition is a poll's |
| `BatchLedger.Submit` | crates/mc-host/examples/synapse_perf.rs:1018-1136 | the submission loop ends with a job id, the first restart, or the record or failure its last row comes to, counts kept; every retry before was below its cap |
| `BatchLedger.PollUntilAnswered` | crates/mc-host/examples/synapse_perf.rs:1146-1238 | polling keeps the counts and what the pages since the last restart served, and hands on the last answer or the record it comes to; giving up needs the cap reached or the next try past the deadline |
| `BatchLedger.HandlePage` | crates/mc-host/examples/synapse_perf.rs:1273-1321 | a page continues, completes or fails by whether it is genuine, its cursor and whether the pages since the last restart served the requested ids in order; the deadline check before the next poll ends in a timeout only once it has come |
| `BatchLedger.RunJob` | crates/mc-host/examples/synapse_perf.rs:1138-1348 | a job ends with the first restart or with what its rows come to, deadline and caps included |
| `BatchLedger.ExecuteBatch` | crates/mc-host/examples/synapse_perf.rs:981-1349 | a record is the request's own, and its attempts and polls are the request's rows and poll rows; every page before the last reply was genuine; completion, rejection, timeout and failure follow from the rows since the last restart; a client's own timeout means the deadline has come, and giving up on retried replies that the cap of 64 or 4 in a row is reached or the next try would pass the deadline; at most one resubmission follows a restart, and a second restart is a rejection |
| `BatchLedger.ValidPageIsGenuine` | crates/mc-host/examples/synapse_perf.rs:1375-1425 | a page is accepted iff its lane is right and every vector has a requested id, the content asked for last under it, and a good payload |
| `BatchLedger.RequestedPageIsRefusedForOrderOnly` | crates/mc-host/examples/synapse_perf.rs:1273-1300 | for distinct ids, a page of requested vectors is refused only for the served order at the end or a missing cursor |
| `BatchLedger.CompletedIsExact` | crates/mc-host/examples/synapse_perf.rs:1274-1300 | a completed request was served, since the last restart and after at most one, as many vectors as it asked for, the `k`th with the `k`th id, the content requested for that id, and a good payload |
| `Decay.TierIsMonotone` | crates/mc-core/src/decay.rs:54-82 | older, less important or under more pressure never means a lower tier |
| `Decay.OverlapProtects` | crates/mc-core/src/decay.rs:84-119 | anchor overlap never raises the rendered tier above the natural one, changes no tier but the archive's, and nothing when there is none |
| `Decay.OverlapMovesTheArchiveLine` | crates/mc-core/src/decay.rs:84-119 | a compartment is archived from `Z4` half-lives on, and `G` later for each unit of overlap, up to one |
| `Decay.TierIsAgeInHalfLives` | crates/mc-core/src/decay.rs:54-82 | a tier is reached when the age, 0 at index 1, times the floored pressure is that tier's share of the half-life |
| `Decay.HalfLifeDoubles` | crates/mc-core/src/decay.rs:40-60 | 25 points of importance double the half-life, from 24 at 50, between 1 and 100 |
| `Decay.ComputeBudgetPressure` | crates/mc-core/src/decay.rs:121-139 | for a positive budget the least pressure, at or above the floor, at which the natural cost over the pressure fits the budget, so below 1 when there is budget to spare; 1 for a budget that is not positive |
| `Decay.CostFallsWithPressure` | crates/mc-core/src/decay.rs:121-127 | for any history, more pressure never costs more |
| `Decay.CostScales` | crates/mc-core/src/decay.rs:121-127 | the claimed scaling `C(p) ~ C(1)/p`, with its exact error of less than one freshest compartment, when the oldest is past P4 at pressure 1 or the pressure is at most 1 |
| `Decay.EveryBudgetIsMet` | crates/mc-core/src/decay.rs:121-139 | a uniform history is within one freshest compartment of every budget iff each crossing of a tier boundary above pressure 1 fits: at most `4 * (n - 1)` comparisons on its length, half-life and cost at pressure 1 |
| `Decay.KeptIsFloor` | crates/mc-core/src/decay.rs:54-82 | the counts in those comparisons are `min(n, floor(zk * j / zi) + 1)`, so they can be evaluated without a history |
| `Decay.BudgetIsMet` | crates/mc-core/src/decay.rs:121-139 | for one budget: the cost at the derived pressure is below budget plus the freshest tier's cost, floor included, when the oldest compartment is past P4 at pressure 1 or the cost at pressure 1 is itself within that bound |
| `Decay.ShortHistoryOvershoots` | crates/mc-core/src/decay.rs:121-139 | four compartments of importance 50 and budget 644 cost 1075, so the bound needs its condition |
| `ClosureManifest.IndexNodes` | scripts/qualify-mc-host-production-inputs.ts:1551-1554 | of the checks on single nodes, the owner-only mode and the distinct path: indexing succeeds iff both hold of all nodes, and then maps each path to its node |
| `ClosureManifest.PushRoots` | scripts/qualify-mc-host-production-inputs.ts:1592-1611 | the worklist starts with exactly the roots, or some root is missing or of the wrong kind |
| `ClosureManifest.CheckEdges` | scripts/qualify-mc-host-production-inputs.ts:1623-1643 | a node's edges are all pushed, native targets recorded, iff each target exists and nativeness agrees |
| `ClosureManifest.Explore` | scripts/qualify-mc-host-production-inputs.ts:1613-1644 | the worklist ends; it visits a set closed under edges, all reachable, or finds an edge that does not fit |
| `ClosureManifest.Validate` | scripts/qualify-mc-host-production-inputs.ts:1561-1655 | accepts iff every root exists with its kind, every edge target exists, edges are native exactly towards native addons, and every node is reachable; a rejection names something that is wrong; two of its rejections never happen |
| `ClosureManifest.RootsAreNamed` | scripts/qualify-mc-host-production-inputs.ts:1561-1589 | the roots are exactly the executable, or the interpreter, the entrypoint and each extension, with their kinds |
| `ClosureManifest.AcceptedRootsExist` | scripts/qualify-mc-host-production-inputs.ts:1561-1611 | in an accepted manifest each of them is a node of that kind |
| `ArgumentVariants.CheckVariant` | scripts/qualify-mc-host-production-inputs.ts:708-736 | accepts iff fields and placeholder occurrences correspond one to one, each field at its own placeholder |
| `ArgumentVariants.CheckHarness` | scripts/qualify-mc-host-production-inputs.ts:702-738 | accepts iff raw argv is off and every variant is one to one |
| `ArgumentVariants.PlaceholderIsBracedName` | scripts/qualify-mc-host-production-inputs.ts:716-719 | a placeholder for a name is the name in braces |
| `ArgumentVariants.FaultlessSuits` | scripts/qualify-mc-host-production-inputs.ts:887-911 | no check rejects a value iff it is non-empty text without control bytes, starts with no `-`, is no control token, equals no template token that does not start with `{`, and matches its pattern |
| `ArgumentVariants.FaultsAreReal` | scripts/qualify-mc-host-production-inputs.ts:887-911 | a fault names its field and something that is wrong with the value |
| `ArgumentVariants.RenderArgumentVariant` | scripts/qualify-mc-host-production-inputs.ts:861-914 | renders iff exactly the fields are supplied, each suitably; the argv has the template's length, equals it off the placeholders, holds each value at its placeholder, and has no flag the template did not have; a refusal names the first fault |
| `ArgumentVariants.RenderingLosesNothing` | scripts/qualify-mc-host-production-inputs.ts:886-913 | equal renderings of a variant come from equal supplied values |
| `TomlScan.ScanUnquoted` | scripts/qualify-mc-host-production-inputs.ts:2626-2670 | visits the characters `Scan` visits, in order, up to where the visitor halts, and updates the caller's multiline state in place |
| `TomlTokens.ScanReadsTokens` | scripts/qualify-mc-host-production-inputs.ts:2626-2670 | however a line is read into plain characters, closed and unclosed strings and multiline blocks, the scan visits exactly the plain characters and ends in that reading's mode |
| `TomlTokens.LineReads` | scripts/qualify-mc-host-production-inputs.ts:2626-2670 | every line, from every mode, has such a reading |
| `TomlTokens.VisitsArePlainCharacters` | scripts/qualify-mc-host-production-inputs.ts:2626-2670 | so the visited positions are the plain positions of a reading of the line |
| `TomlScan.ScanOfPrefix` | scripts/qualify-mc-host-production-inputs.ts:2626-2670 | a line cut at a visited character is scanned as before up to the cut and ends outside strings |
| `TomlScan.StripTomlComments` | scripts/qualify-mc-host-production-inputs.ts:2684-2695 | cuts the line at the first `#` outside strings and leaves the state of that scan |
| `TomlScan.StripCutsTheComment` | scripts/qualify-mc-host-production-inputs.ts:2672-2695 | a stripped line is a prefix, cut only at an unquoted `#` with none before it |
| `TomlScan.CommentCutIsStrip` | scripts/qualify-mc-host-production-inputs.ts:2672-2695 | there is only one such cut |
| `TomlScan.StripIsStable` | scripts/qualify-mc-host-production-inputs.ts:2672-2695 | stripping is idempotent, both visitors leave a stripped line in the original mode, and a stripped line shows what the line showed before its comment |
| `TomlScan.StructuralDelta` | scripts/qualify-mc-host-production-inputs.ts:2804-2815 | the delta is the number of opening minus closing brackets and braces among the characters outside strings |
| `TomlScan.TomlLines` | scripts/qualify-mc-host-production-inputs.ts:2697-2704 | lines are stripped in order, the multiline state carried from each to the next |
| `TomlScan.StrippedLinesAreStable` | scripts/qualify-mc-host-production-inputs.ts:2697-2704 | stripped lines strip to themselves, and both visitors meet every line start in the mode the first strip met |
| `TomlScan.StrippedFileIsStable` | scripts/qualify-mc-host-production-inputs.ts:2697-2704 | stripping a whole file again, after joining its stripped lines, gives the same lines |
| `DottedKeys.SplitDottedKey` | scripts/qualify-mc-host-production-inputs.ts:2856-2887 | the loop splits at the dots outside quotes |
| `DottedKeys.JoinUndoesSplit` | scripts/qualify-mc-host-production-inputs.ts:2856-2887 | joining the parts with dots gives the key back |
| `DottedKeys.SplitIsTheSeparation` | scripts/qualify-mc-host-production-inputs.ts:2846-2887 | a list is the split iff it joins to the key, no part has an unquoted dot, and every part but the last ends outside quotes |
| `KeyTokens.CutsArePlainDots` | scripts/qualify-mc-host-production-inputs.ts:2846-2887 | however a key is read into plain characters and quoted strings, it is cut at exactly the plain dots |
| `KeyTokens.KeyHasReading` | scripts/qualify-mc-host-production-inputs.ts:2846-2887 | every key has such a reading |
| `DottedKeys.PartsSplitToThemselves` | scripts/qualify-mc-host-production-inputs.ts:2846-2887 | a part splits into itself alone |
| `ScatterCursor.NewCursor` | packages/mc-shm-native/index.ts:362-374 | a cursor is made iff the segment lengths add up to the capacity, and starts at 0 |
| `ScatterCursor.ProducerCursor.GetView` | packages/mc-shm-native/index.ts:384-391 | the view is the rest of the segment that holds the cursor, whose bytes are the flat buffer's from the cursor on; it is empty iff the cursor is at capacity |
| `ScatterCursor.ProducerCursor.Advance` | packages/mc-shm-native/index.ts:393-402 | moves the cursor by a count within the room left, and refuses any other count |
| `ScatterCursor.ProducerCursor.Write` | packages/mc-shm-native/index.ts:404-422 | refused iff the bytes do not fit; otherwise the flat buffer has the bytes at the cursor, all other bytes unchanged, and the cursor moves past them, for any segment lengths |
| `ScatterCursor.JoinPut` | packages/mc-shm-native/index.ts:417-417 | setting bytes in one segment sets them at the matching place of the flat buffer |
| `ScatterCursor.PutPut` | packages/mc-shm-native/index.ts:404-422 | consecutive writes are one write of both |
| `ScatterCursor.FillView` | packages/mc-shm-native/index.ts:384-391 | bytes set in the current view land in the flat buffer at the cursor, which stays; refused iff they are more than the rest of the cursor's segment |
| `ScatterCursor.RunTouchesWithin` | packages/mc-shm-native/index.ts:362-422 | a run changes only bytes from where it began to the end of the segment it ended in |
| `ScatterCursor.WritesLandEndToEnd` | packages/mc-shm-native/index.ts:404-422 | writes alone leave the accepted bytes end to end from the starting cursor, refused ones leaving nothing |
| `ScatterCursor.RunOps` | packages/mc-shm-native/index.ts:362-422 | any sequence of writes, view fills and advances, crossing segments or not, ends where the machine with one flat buffer ends, and takes exactly the operations that machine takes |
| `UseOnce.Settle` | packages/mc-shm-native/index.ts:425-460 | whatever commits and aborts are called, the native side hears the first call only; later commits are refused, later aborts are silent |
| `UseOnce.UseLease` | packages/mc-shm-native/index.ts:462-512 | bytes are handed out only before the first release or disposal, and the native side is told once |

## Left out

- The scanner's rules (`mc-secret-scanner`) and the merging, description and rendering of findings
  (`crates/mc-core/src/redaction/scanner.rs`, `redact_windowed`): the scanner is a parameter under the locality
  hypothesis, and a scan either reports findings or fails with an error kind.
- WindowScanning.DetectCopying: the buffer is a sequence value that the loop reassigns, so sharing of its storage is
  not captured.
- Windows.ConstantsFit: `saturating_add` on window starts is ordinary addition, since no text reaches `usize::MAX`.
- CoverScan.VocabularyReach: a name is a sequence of characters and its byte positions are character positions, which
  holds for the ASCII names the caller passes.
- KeyLabels.RedactionTypeForKey: Unicode lowercasing is a parameter.
- A claim that undelimited names are gated like delimited ones: the code does not give it (`keykey` has no segment other
  than `key`).
- CredentialRow.Encode: text is Unicode scalar values, so unpaired surrogates are not modelled; the canonicalization
  tag is a field of the row.
- JsonReading.ReadsValue: the reader covers what the encoder can write; fractions, exponents, white space and surrogate
  pairs in escapes are not read.
- CanonicalEncoding.EncodeValue: a number is what `serde_json` can hold, with floating-point values as exact reals; an
  object is a list of entries in which a later duplicate key wins, as in the map it becomes.
- ApplicabilityHeads.HeadsPreimageIsStreams: sorting is a stable sort by key, by the order of Unicode scalar values,
  which is the byte order of their UTF-8.
- SHA-256: digest claims are about the preimage.
- Wire.StepKeepsInv: tokio, sockets and locks are atomic steps, a frame is its correlation, no terminal arrives for a
  frame whose write failed, and times are open.
- Wire.TombstoneIsStaleExactly: assumes that no correlation's terminal arrives twice; a repeated terminal can absorb the
  stale tombstone or be reported unknown.
- Ledger.ExecuteQuery: the clock never runs backwards and a wire call takes at least one tick; retry delays, replies
  and other requests' rows are arbitrary; JSON bodies are the fields the clients read; a request id is used once; the
  clock of a deadline and that of the recorded times are one.
- BatchLedger.ExecuteBatch: vector payloads are one validity flag, request bodies (the cursor a poll sends among them)
  are not recorded, the delay schedule is arbitrary, and a timeout record does not say how late it is.
- Decay.BudgetIsMet: for a single budget the condition is sufficient, not necessary; the exact condition
  (`Decay.EveryBudgetIsMet`) is over all budgets, and both are about histories of one importance.
- Decay.ComputeBudgetPressure: real arithmetic is exact, and the power of two is any positive, non-decreasing function.
- ClosureManifest.IndexNodes: sizes, digests, kinds, relative paths, source roots, repeated dependency targets and sort
  orders are not checked.
- ClosureManifest.Validate: the literal checks on each node's fields, relative paths, hashes, source roots and sort
  orders are not part of this model.
- ArgumentVariants.RenderArgumentVariant: stated for variants the document check accepts; regular expressions are a
  parameter; an unknown harness, which throws, is not modelled.
- ArgumentVariants.CheckHarness: the credential-variable, alias and fixed-literal checks of the same function are left
  out.
- TomlScan.ScanUnquoted: what a plain character is, is stated by `TomlTokens`; the visitor is the predicate on which
  it halts, and what it was shown is returned.
- ScatterCursor.ProducerCursor.Write: input bytes that alias a segment are not modelled, and the segments of one
  reservation are distinct memory.
- UseOnce.Settle: what the native addon does is whether its call worked.
- `classify`, `composite.rs`, the release-contract, payload and evidence validators and
  `scripts/eidnara-migration/check.ts`: mostly fixed-literal or one-branch checks.
- `perf_load.rs`: its abort-on-timeout path reports a mismatch on purpose.
- File copies, process spawning, npm, gh and git calls, benches, CLI parsing, generated files, N-API bindings and
  capability probing.
