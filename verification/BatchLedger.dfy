/**
  `execute_batch`: submissions, polls and pages, one resubmission after `module_restarted`, and the
  counts its record reports. The ledger's own rows are the history the properties speak about.
 */
module BatchLedger {
  import opened Arithmetic
  import opened Outcomes
  import opened Ledger

  const MAX_TOTAL_ATTEMPTS: nat := 4
  const QUEUE_FULL_MAX_ATTEMPTS: nat := 64

  datatype Item = Item(id: string, sha: string)

  function Ids(items: seq<Item>): seq<string> {
    seq(|items|, i requires 0 <= i < |items| => items[i].id)
  }

  // ----- Reading the history

  /** The reply a client takes as `module_restarted`. */
  predicate IsRestart(row: Row) {
    && row.answer.Some? && row.answer.value.code == Some(ModuleRestarted)
    && (if row.method' == Poll then row.answer.value.ty == Error else row.answer.value.ty != Response)
  }

  predicate IsPage(row: Row) {
    row.method' == Poll && row.answer.Some? && row.answer.value.ty != Error && row.answer.value.vectors.Some?
  }

  function Restarts(rows: seq<Row>): nat {
    if rows == [] then 0
    else Restarts(rows[..|rows| - 1]) + (if IsRestart(rows[|rows| - 1]) then 1 else 0)
  }

  function PageIds(vectors: seq<Vector>): seq<string> {
    if vectors == [] then []
    else
      var last := vectors[|vectors| - 1];
      PageIds(vectors[..|vectors| - 1]) + [if last.id.Some? then last.id.value else ""]
  }

  /** The ids served by the pages since the last restart, in order. */
  function Served(rows: seq<Row>): seq<string> {
    if rows == [] then []
    else
      var last := rows[|rows| - 1];
      if IsRestart(last) then []
      else Served(rows[..|rows| - 1]) + (if IsPage(last) then PageIds(last.answer.value.vectors.value) else [])
  }

  lemma OneMoreRow(rows: seq<Row>, row: Row)
    ensures Restarts(rows + [row]) == Restarts(rows) + (if IsRestart(row) then 1 else 0)
    ensures Served(rows + [row])
         == if IsRestart(row) then []
            else Served(rows) + (if IsPage(row) then PageIds(row.answer.value.vectors.value) else [])
  {
    assert (rows + [row])[..|rows|] == rows;
  }

  // ----- What a history comes to

  function Expected(items: seq<Item>): map<string, string> {
    if items == [] then map[]
    else Expected(items[..|items| - 1])[items[|items| - 1].id := items[|items| - 1].sha]
  }

  /** `validate_batch_page`. */
  predicate ValidPage(answer: Answer, expected: map<string, string>)
    requires answer.vectors.Some?
  {
    && answer.laneOk
    && forall k | 0 <= k < |answer.vectors.value| ::
         var v := answer.vectors.value[k];
         v.id.Some? && v.sha.Some? && v.id.value in expected && expected[v.id.value] == v.sha.value && v.payloadOk
  }

  /** The vector is one that was asked for, with the content asked for last under its id. */
  predicate Requested(v: Vector, items: seq<Item>) {
    v.id.Some? && v.sha.Some? && v.payloadOk && IsLastItem(items, Item(v.id.value, v.sha.value))
  }

  /** `item` is the last of its id to be asked for. */
  predicate IsLastItem(items: seq<Item>, item: Item) {
    exists i :: 0 <= i < |items| && LastOf(items, i) && items[i] == item
  }

  /** No later item has this one's id. */
  predicate LastOf(items: seq<Item>, i: nat)
    requires i < |items|
  {
    forall j | i < j < |items| :: items[j].id != items[i].id
  }

  /** A page of the right lane, every vector of which was asked for. */
  predicate Genuine(answer: Answer, items: seq<Item>)
    requires answer.vectors.Some?
  {
    answer.laneOk && forall k | 0 <= k < |answer.vectors.value| :: Requested(answer.vectors.value[k], items)
  }

  lemma LastOfMore(items: seq<Item>, i: nat)
    requires i + 1 < |items| && items[i].id != items[|items| - 1].id
    ensures LastOf(items[..|items| - 1], i) <==> LastOf(items, i)
  {
    var most := items[..|items| - 1];
    assert forall j | i < j < |most| :: most[j].id == items[j].id;
  }

  lemma {:induction false} ExpectedIsLast(items: seq<Item>, id: string, sha: string)
    ensures id in Expected(items) && Expected(items)[id] == sha <==> IsLastItem(items, Item(id, sha))
  {
    if items != [] {
      var last := |items| - 1;
      if items[last].id == id {
        assert LastOf(items, last);
      } else {
        ExpectedIsLast(items[..last], id, sha);
        LastItemOfMore(items, Item(id, sha));
      }
    }
  }

  lemma LastItemOfMore(items: seq<Item>, item: Item)
    requires items != [] && items[|items| - 1].id != item.id
    ensures IsLastItem(items, item) <==> IsLastItem(items[..|items| - 1], item)
  {
    var most := items[..|items| - 1];
    if i: nat :| i < |items| && LastOf(items, i) && items[i] == item {
      LastOfMore(items, i);
      assert most[i] == item;
    }
    if i: nat :| i < |most| && LastOf(most, i) && most[i] == item {
      LastOfMore(items, i);
      assert items[i] == item;
    }
  }

  /** What `validate_batch_page` checks: it accepts exactly the genuine pages. */
  lemma ValidPageIsGenuine(answer: Answer, items: seq<Item>)
    requires answer.vectors.Some?
    ensures ValidPage(answer, Expected(items)) <==> Genuine(answer, items)
  {
    forall k | 0 <= k < |answer.vectors.value|
      ensures
        var v := answer.vectors.value[k];
        Requested(v, items)
        <==> v.id.Some? && v.sha.Some? && v.payloadOk
             && v.id.value in Expected(items) && Expected(items)[v.id.value] == v.sha.value
    {
      var v := answer.vectors.value[k];
      if v.id.Some? && v.sha.Some? {
        ExpectedIsLast(items, v.id.value, v.sha.value);
      }
    }
  }

  /** A reply to a submission that no client understands. */
  predicate BadSubmission(answer: Answer) {
    if answer.ty == Response then answer.jobId.None?
    else answer.code != Some(ModuleRestarted) && answer.code != Some(QueueFull)
  }

  /** A reply to a poll that no client understands, `served` being all ids served so far, its own included. */
  predicate BadPoll(answer: Answer, served: seq<string>, items: seq<Item>) {
    if answer.ty == Error then
      answer.code != Some(ModuleRestarted) && answer.code != Some(TimeoutCode) && answer.code != Some(QueueFull)
    else
      && answer.vectors.Some?
      && (|| !Genuine(answer, items)
          || (if answer.done then served != Ids(items) else answer.nextCursor.None?))
  }

  /** The last row is a reply that ends the request without a record. */
  predicate BadLast(rows: seq<Row>, items: seq<Item>) {
    && rows != []
    && var last := rows[|rows| - 1];
       && last.answer.Some?
       && if last.method' == Poll then BadPoll(last.answer.value, Served(rows), items)
          else BadSubmission(last.answer.value)
  }

  /** The last row is the final page, and what was served is what was asked for, in order. */
  predicate DoneLast(rows: seq<Row>, items: seq<Item>) {
    rows != [] && IsPage(rows[|rows| - 1]) && rows[|rows| - 1].answer.value.done && !BadLast(rows, items)
  }

  /** The only answers that are retried: `queue_full`, and for polls also `timeout`. */
  predicate Retried(row: Row) {
    && row.answer.Some?
    && if row.method' == Poll then
         row.answer.value.ty == Error
         && (row.answer.value.code == Some(QueueFull) || row.answer.value.code == Some(TimeoutCode))
       else row.answer.value.ty != Response && row.answer.value.code == Some(QueueFull)
  }

  /** How many attempts in a row have ended so. */
  function Trail(rows: seq<Row>): nat {
    if rows == [] || !Retried(rows[|rows| - 1]) then 0 else 1 + Trail(rows[..|rows| - 1])
  }

  /** How many attempts may. */
  function Cap(row: Row): nat {
    if row.answer.Some? && row.answer.value.code == Some(QueueFull) then QUEUE_FULL_MAX_ATTEMPTS else MAX_TOTAL_ATTEMPTS
  }

  /** Every retry so far was within its cap, and every page so far genuine. */
  predicate Patient(rows: seq<Row>, items: seq<Item>) {
    rows == []
    || (&& Patient(rows[..|rows| - 1], items)
        && (Retried(rows[|rows| - 1]) ==> Trail(rows) < Cap(rows[|rows| - 1]))
        && (IsPage(rows[|rows| - 1]) ==> Genuine(rows[|rows| - 1].answer.value, items)))
  }

  /** Every attempt before the last went on as the client should. */
  predicate PatientBefore(rows: seq<Row>, items: seq<Item>) {
    rows != [] ==> Patient(rows[..|rows| - 1], items)
  }

  /** The last attempt was answered in time; one that was not ends the request. */
  predicate AnsweredInTime(rows: seq<Row>) {
    rows != [] ==> rows[|rows| - 1].answer.Some?
  }

  /** Nothing in the history ends the request yet. */
  predicate Going(rows: seq<Row>, items: seq<Item>) {
    && !BadLast(rows, items) && !DoneLast(rows, items) && Restarts(rows) <= 1
    && Patient(rows, items) && AnsweredInTime(rows)
  }

  /** The last attempt may be given up on: its cap is reached, or the next try would pass the deadline. */
  predicate MayGiveUp(q: Request, rows: seq<Row>, at: Moment) {
    && rows != [] && Retried(rows[|rows| - 1])
    && (Cap(rows[|rows| - 1]) <= Trail(rows) || q.deadline <= at.clock + at.drawn)
  }

  /** The record has this disposition and code. */
  predicate Says(r: Record, disposition: LogicalDisposition, code: Option<Code>) {
    r.disposition == disposition && r.code == code
  }

  /** The record is what the history comes to, code and instant included. */
  predicate Outcome(q: Request, rows: seq<Row>, items: seq<Item>, r: Record, at: Moment) {
    if DoneLast(rows, items) then
      Restarts(rows) <= 1 && Says(r, Completed, None) && r.terminalNs == rows[|rows| - 1].terminalNs
    else if Restarts(rows) > 1 then
      && Restarts(rows) == 2 && IsRestart(rows[|rows| - 1])
      && Says(r, Rejected, Some(ModuleRestarted)) && r.terminalNs == rows[|rows| - 1].terminalNs
    else if rows != [] && rows[|rows| - 1].answer == None then
      Says(r, TimedOut, Some(AttemptTimeout)) && q.deadline <= r.terminalNs
    else
      || (Says(r, TimedOut, Some(TimeoutCode)) && q.deadline <= r.terminalNs)
      || (&& MayGiveUp(q, rows, at) && r.terminalNs == rows[|rows| - 1].terminalNs
          && r.code == rows[|rows| - 1].answer.value.code
          && r.disposition == (if r.code == Some(TimeoutCode) then TimedOut else Rejected))
  }

  /** A record that is returned: its counts are those of the history, and so is its outcome. */
  ghost predicate Ended(q: Request, r: Record, rows: seq<Row>, items: seq<Item>, at: Moment) {
    && Accounts(q, rows, r) && r.terminalNs <= at.clock
    && !BadLast(rows, items) && PatientBefore(rows, items) && Outcome(q, rows, items, r, at)
  }

  /** The vectors served by the pages since the last restart, in order. */
  function ServedVectors(rows: seq<Row>): seq<Vector> {
    if rows == [] then []
    else
      var last := rows[|rows| - 1];
      if IsRestart(last) then []
      else ServedVectors(rows[..|rows| - 1]) + (if IsPage(last) then last.answer.value.vectors.value else [])
  }

  lemma {:induction false} PageIdsAreIds(vectors: seq<Vector>)
    ensures |PageIds(vectors)| == |vectors|
    ensures forall k | 0 <= k < |vectors| && vectors[k].id.Some? :: PageIds(vectors)[k] == vectors[k].id.value
  {
    if vectors != [] {
      PageIdsAreIds(vectors[..|vectors| - 1]);
    }
  }

  /** Every page served since the last restart was genuine. */
  ghost predicate AllRequested(vectors: seq<Vector>, served: seq<string>, items: seq<Item>) {
    && |served| == |vectors|
    && forall k | 0 <= k < |vectors| :: Requested(vectors[k], items) && served[k] == vectors[k].id.value
  }

  lemma {:induction false} ServedAsRequested(rows: seq<Row>, items: seq<Item>)
    requires Patient(rows, items)
    ensures AllRequested(ServedVectors(rows), Served(rows), items)
  {
    if rows != [] {
      ServedAsRequested(rows[..|rows| - 1], items);
      if IsPage(rows[|rows| - 1]) {
        PageIdsAreIds(rows[|rows| - 1].answer.value.vectors.value);
      }
    }
  }

  predicate DistinctIds(items: seq<Item>) {
    forall i, j | 0 <= i < j < |items| :: items[i].id != items[j].id
  }

  /**
    A completion served, since the last restart and after at most one, exactly what was asked for: as
    many vectors as items, the `k`th with the `k`th item's id, the content asked for last under that
    id, and a good payload. When the ids are distinct that content is the `k`th item's own.
   */
  lemma CompletedIsExact(q: Request, r: Record, rows: seq<Row>, items: seq<Item>, at: Moment)
    requires Ended(q, r, rows, items, at) && r.disposition == Completed
    ensures Restarts(rows) <= 1 && |ServedVectors(rows)| == |items|
    ensures forall k | 0 <= k < |items| ::
              var v := ServedVectors(rows)[k];
              && v.id == Some(items[k].id) && Requested(v, items)
              && (DistinctIds(items) ==> v.sha == Some(items[k].sha))
  {
    var most, last := rows[..|rows| - 1], rows[|rows| - 1];
    assert Retried(last) ==> false;
    ServedAsRequested(rows, items);
    assert Served(rows) == Ids(items);
  }

  /** A page of requested vectors is only ever refused for its order at the end, or for a missing cursor. */
  lemma RequestedPageIsRefusedForOrderOnly(rows: seq<Row>, items: seq<Item>)
    requires BadLast(rows, items) && IsPage(rows[|rows| - 1])
    requires rows[|rows| - 1].answer.value.laneOk && DistinctIds(items)
    requires
      var vectors := rows[|rows| - 1].answer.value.vectors.value;
      forall k | 0 <= k < |vectors| ::
        vectors[k].id.Some? && vectors[k].sha.Some? && vectors[k].payloadOk
        && Item(vectors[k].id.value, vectors[k].sha.value) in items
    ensures
      var answer := rows[|rows| - 1].answer.value;
      if answer.done then Served(rows) != Ids(items) else answer.nextCursor.None?
  {
    var vectors := rows[|rows| - 1].answer.value.vectors.value;
    forall k | 0 <= k < |vectors|
      ensures Requested(vectors[k], items)
    {
      var i :| 0 <= i < |items| && items[i] == Item(vectors[k].id.value, vectors[k].sha.value);
      assert LastOf(items, i);
    }
  }

  /** What one more row does to the history. */
  lemma TrailGrows(rows: seq<Row>, row: Row, items: seq<Item>)
    ensures Trail(rows + [row]) == if Retried(row) then 1 + Trail(rows) else 0
    ensures Patient(rows + [row], items)
       <==> Patient(rows, items) && (Retried(row) ==> Trail(rows) + 1 < Cap(row))
            && (IsPage(row) ==> Genuine(row.answer.value, items))
    ensures PatientBefore(rows + [row], items) <==> Patient(rows, items)
  {
    assert (rows + [row])[..|rows|] == rows;
  }

  /** A row without an answer serves nothing and restarts nothing. */
  lemma UnansweredRow(rows: seq<Row>, row: Row, items: seq<Item>)
    requires row.answer == None
    ensures !BadLast(rows + [row], items) && !DoneLast(rows + [row], items)
    ensures Served(rows + [row]) == Served(rows) && Restarts(rows + [row]) == Restarts(rows)
  {
    OneMoreRow(rows, row);
  }

  // ----- Progress

  /** The counters that survive a resubmission. */
  datatype Progress = Progress(firstSend: Option<nat>, batchAttempts: nat, polls: nat)

  ghost predicate Counted(p: Progress, rows: seq<Row>) {
    && p.batchAttempts + p.polls == |rows|
    && p.polls == Polls(rows)
    && FirstSend(rows, p.firstSend)
  }

  function RecordOf(q: Request, p: Progress, firstSend: nat, terminalNs: nat, disposition: LogicalDisposition,
                    code: Option<Code>): Record
  {
    TerminalRecord(q, firstSend, terminalNs, disposition, code, p.batchAttempts + p.polls, p.polls)
  }

  lemma RecordAccounts(q: Request, p: Progress, rows: seq<Row>, firstSend: nat, terminalNs: nat,
                       disposition: LogicalDisposition, code: Option<Code>)
    requires Counted(p, rows) && (p.firstSend.Some? ==> firstSend == p.firstSend.value)
    ensures Accounts(q, rows, RecordOf(q, p, firstSend, terminalNs, disposition, code))
  {
  }

  lemma CountOne(p: Progress, rows: seq<Row>, row: Row)
    requires Counted(p, rows)
    ensures
      var poll := row.method' == Poll;
      Counted(Progress(GetOrInsert(p.firstSend, row.sendNs), p.batchAttempts + (if poll then 0 else 1),
                       p.polls + (if poll then 1 else 0)), rows + [row])
  {
    OneMore(rows, row, p.firstSend);
  }

  // ----- Submissions

  datatype Submission =
    | Retry
    | Submitted(jobId: string)
    | Restarted
    | Finished(record: Record)
    | Failed(failure: Failure)

  /** Nothing has been served since the last restart. */
  ghost predicate Starting(p: Progress, rows: seq<Row>, used: bool, items: seq<Item>) {
    Counted(p, rows) && Going(rows, items) && Served(rows) == [] && Restarts(rows) == (if used then 1 else 0)
  }

  ghost predicate Fails(failure: Failure, rows: seq<Row>, items: seq<Item>) {
    if failure == BadReply then BadLast(rows, items) && PatientBefore(rows, items) else Going(rows, items)
  }

  /**
    What a submission step leaves behind: `used` is whether the restart had been used before it, and
    `tries` how many submissions in a row have been turned away.
   */
  ghost predicate Submits(q: Request, s: Submission, p: Progress, rows: seq<Row>, used: bool, tries: nat,
                          items: seq<Item>,
                          at: Moment)
  {
    match s
    case Retry => Starting(p, rows, used, items) && Trail(rows) == tries
    case Submitted(_) => Starting(p, rows, used, items) && p.firstSend.Some? && Trail(rows) == 0
    case Restarted => Starting(p, rows, true, items) && !used && Trail(rows) == 0
    case Finished(record) => Ended(q, record, rows, items, at)
    case Failed(failure) => Fails(failure, rows, items)
  }

  /** The decision on a submission's reply, and the wait before a retry. */
  method SubmitReply(ctx: RunContext, rng: DeterministicRng, q: Request, tries: nat, used: bool, p: Progress,
                     receivedNs: nat, answer: Answer, ghost before: seq<Row>, ghost row: Row, ghost items: seq<Item>)
    returns (s: Submission)
    requires Counted(p, before + [row]) && p.firstSend.Some?
    requires row.method' == Batch && row.answer == Some(answer) && row.terminalNs == receivedNs <= ctx.clock
    requires Served(before) == [] && Restarts(before) == (if used then 1 else 0)
    requires Patient(before, items) && tries == Trail(before) + 1
    modifies ctx, rng
    ensures ctx.clock >= old(ctx.clock) && Own(ctx.attempts, q.id) == old(Own(ctx.attempts, q.id))
    ensures q.id in ctx.broken <==> q.id in old(ctx.broken)
    ensures Submits(q, s, p, before + [row], used, tries, items, Moment(ctx.clock, rng.drawn))
    ensures s != Failed(WireFailed)
  {
    OneMoreRow(before, row);
    TrailGrows(before, row, items);
    if answer.ty == Response {
      return if answer.jobId.Some? then Submitted(answer.jobId.value) else Failed(BadReply);
    }
    var rejected := RecordOf(q, p, p.firstSend.value, receivedNs, Rejected, answer.code);
    RecordAccounts(q, p, before + [row], p.firstSend.value, receivedNs, Rejected, answer.code);
    if answer.code == Some(ModuleRestarted) {
      return if !used then Restarted else Finished(rejected);
    }
    if answer.code != Some(QueueFull) {
      return Failed(BadReply);
    }
    if tries >= QUEUE_FULL_MAX_ATTEMPTS {
      return Finished(rejected);
    }
    var delay := rng.RetryDelay();
    var now := ctx.Now(q.id);
    if now + delay >= q.deadline {
      return Finished(rejected);
    }
    ctx.Sleep(delay, q.id);
    return Retry;
  }

  /** What follows a submission that was sent and timed out; by then no retry can fit. */
  method SubmitTimeout(ctx: RunContext, rng: DeterministicRng, q: Request, tries: nat, used: bool, p: Progress,
                       ghost before: seq<Row>, ghost row: Row, ghost items: seq<Item>)
    returns (s: Submission)
    requires Counted(p, before + [row]) && p.firstSend.Some?
    requires row.method' == Batch && row.answer == None && q.deadline <= ctx.clock
    requires Restarts(before) <= 1 && Patient(before, items)
    modifies ctx, rng
    ensures ctx.clock >= old(ctx.clock) && Own(ctx.attempts, q.id) == old(Own(ctx.attempts, q.id))
    ensures q.id in ctx.broken <==> q.id in old(ctx.broken)
    ensures Submits(q, s, p, before + [row], used, tries, items, Moment(ctx.clock, rng.drawn))
    ensures s != Failed(WireFailed)
  {
    UnansweredRow(before, row, items);
    TrailGrows(before, row, items);
    var now;
    if tries < MAX_TOTAL_ATTEMPTS {
      var delay := rng.RetryDelay();
      now := ctx.Now(q.id);
      if now + delay < q.deadline {
        assert false;
        return Retry;
      }
    }
    now := ctx.Now(q.id);
    RecordAccounts(q, p, before + [row], p.firstSend.value, now, TimedOut, Some(AttemptTimeout));
    return Finished(RecordOf(q, p, p.firstSend.value, now, TimedOut, Some(AttemptTimeout)));
  }

  /** A record for a deadline that passed before a byte was sent; no row belongs to it. */
  lemma DeadlinePassed(q: Request, p: Progress, rows: seq<Row>, items: seq<Item>, firstSend: nat, now: nat, at: Moment)
    requires Counted(p, rows) && Going(rows, items) && (p.firstSend.Some? ==> firstSend == p.firstSend.value)
    requires q.deadline <= now <= at.clock
    ensures Ended(q, RecordOf(q, p, firstSend, now, TimedOut, Some(TimeoutCode)), rows, items, at)
  {
    RecordAccounts(q, p, rows, firstSend, now, TimedOut, Some(TimeoutCode));
  }

  /** What an iteration does with a submission that left a row. */
  method SubmitRow(ctx: RunContext, rng: DeterministicRng, q: Request, tries: nat, used: bool, p0: Progress,
                   call: CallResult, ghost rows: seq<Row>, ghost row: Row, ghost items: seq<Item>)
    returns (s: Submission, p: Progress)
    requires Starting(p0, rows, used, items) && Trail(rows) == tries
    requires RowOf(Some(row), q.id, Batch, call) && row.terminalNs <= ctx.clock
    requires call.TimedOutAfterSend? ==> q.deadline <= ctx.clock
    modifies ctx, rng
    ensures ctx.clock >= old(ctx.clock) && Own(ctx.attempts, q.id) == old(Own(ctx.attempts, q.id))
    ensures q.id in ctx.broken <==> q.id in old(ctx.broken)
    ensures Submits(q, s, p, rows + [row], used, tries + 1, items, Moment(ctx.clock, rng.drawn))
    ensures s != Failed(WireFailed)
  {
    CountOne(p0, rows, row);
    p := Progress(GetOrInsert(p0.firstSend, call.sentNs), p0.batchAttempts + 1, p0.polls);
    if call.Replied? {
      s := SubmitReply(ctx, rng, q, tries + 1, used, p, call.receivedNs, call.answer, rows, row, items);
    } else {
      s := SubmitTimeout(ctx, rng, q, tries + 1, used, p, rows, row, items);
    }
  }

  /** One iteration of the submission loop. */
  method SubmitOnce(ctx: RunContext, rng: DeterministicRng, q: Request, tries: nat, used: bool, p0: Progress,
                    ghost rows: seq<Row>, ghost items: seq<Item>)
    returns (s: Submission, p: Progress, ghost row: Option<Row>)
    requires Starting(p0, rows, used, items) && Trail(rows) == tries && q.id !in ctx.broken
    modifies ctx, rng
    ensures Own(ctx.attempts, q.id) == Extend(old(Own(ctx.attempts, q.id)), row)
    ensures Submits(q, s, p, Extend(rows, row), used, tries + 1, items, Moment(ctx.clock, rng.drawn))
    ensures s == Failed(WireFailed) <==> q.id in ctx.broken
    ensures ctx.clock >= old(ctx.clock)
    ensures !s.Finished? && !s.Failed? ==> old(ctx.clock) < q.deadline && old(ctx.clock) < ctx.clock
  {
    p, row := p0, None;
    var now := ctx.Now(q.id);
    var call := ExpiredBeforeSend;
    if now < q.deadline {
      call, row := ctx.RecordCall(q.id, Batch, q.deadline);
    }
    if call.Fatal? {
      s := Failed(WireFailed);
      return;
    }
    // the deadline passed before the loop's check, or before a byte was sent; neither leaves a row
    if call.ExpiredBeforeSend? {
      now := ctx.Now(q.id);
      var firstSend := UnwrapOr(p.firstSend, now);
      DeadlinePassed(q, p, rows, items, firstSend, now, Moment(ctx.clock, rng.drawn));
      s := Finished(RecordOf(q, p, firstSend, now, TimedOut, Some(TimeoutCode)));
      return;
    }
    s, p := SubmitRow(ctx, rng, q, tries, used, p, call, rows, row.value, items);
  }

  /** The submission loop: everything up to a job id, a restart or a terminal record. */
  method Submit(ctx: RunContext, rng: DeterministicRng, q: Request, used: bool, p0: Progress,
                ghost base: seq<Row>, ghost rows0: seq<Row>, ghost items: seq<Item>)
    returns (s: Submission, p: Progress, ghost rows: seq<Row>)
    requires Own(ctx.attempts, q.id) == base + rows0 && q.id !in ctx.broken
    requires Starting(p0, rows0, used, items) && Trail(rows0) == 0
    modifies ctx, rng
    ensures Own(ctx.attempts, q.id) == base + rows
    ensures Submits(q, s, p, rows, used, 0, items, Moment(ctx.clock, rng.drawn)) && !s.Retry?
    ensures s == Failed(WireFailed) <==> q.id in ctx.broken
    ensures ctx.clock >= old(ctx.clock)
    ensures s.Submitted? || s.Restarted? ==> old(ctx.clock) < q.deadline && old(ctx.clock) < ctx.clock
  {
    var tries := 0;
    s, p, rows := Retry, p0, rows0;
    while s.Retry?
      invariant Own(ctx.attempts, q.id) == base + rows
      invariant Submits(q, s, p, rows, used, tries, items, Moment(ctx.clock, rng.drawn))
      invariant s == Failed(WireFailed) <==> q.id in ctx.broken
      invariant s.Submitted? || s.Restarted? ==> old(ctx.clock) < q.deadline && old(ctx.clock) < ctx.clock
      invariant ctx.clock >= old(ctx.clock)
      decreases s.Retry?, q.deadline - ctx.clock
    {
      ghost var step;
      s, p, step := SubmitOnce(ctx, rng, q, tries, used, p, rows, items);
      ExtendAfter(base, rows, step);
      rows := Extend(rows, step);
      tries := tries + 1;
    }
  }

  // ----- Polls

  datatype PollStep = PollAgain | Answered(receivedNs: nat, answer: Answer) | PollFinished(record: Record) | PollBroke

  /** Where the request stands between polls: `collected` is what the pages since the last restart served. */
  ghost predicate Collecting(p: Progress, rows: seq<Row>, collected: seq<string>, used: bool, tries: nat,
                             items: seq<Item>)
  {
    && Counted(p, rows) && p.firstSend.Some? && Going(rows, items)
    && Served(rows) == collected
    && Restarts(rows) == (if used then 1 else 0)
    && Trail(rows) == tries
  }

  /**
    The last row is a poll's, answered so; before it the request was collecting. An answer that could
    have been retried is handed on only to be given up on.
   */
  ghost predicate JustAnswered(q: Request, p: Progress, rows: seq<Row>, receivedNs: nat, answer: Answer,
                               collected: seq<string>, used: bool, items: seq<Item>, at: Moment)
  {
    && Counted(p, rows) && p.firstSend.Some?
    && rows != []
    && var before, last := rows[..|rows| - 1], rows[|rows| - 1];
       && last.method' == Poll && last.answer == Some(answer) && last.terminalNs == receivedNs <= at.clock
       && Served(before) == collected
       && Restarts(before) == (if used then 1 else 0)
       && Patient(before, items)
       && (Retried(last) ==> MayGiveUp(q, rows, at))
  }

  ghost predicate PollsTo(q: Request, s: PollStep, p: Progress, rows: seq<Row>, collected: seq<string>, used: bool,
                          tries: nat, items: seq<Item>, at: Moment)
  {
    match s
    case PollAgain => Collecting(p, rows, collected, used, tries, items)
    case Answered(receivedNs, answer) => JustAnswered(q, p, rows, receivedNs, answer, collected, used, items, at)
    case PollFinished(record) => Ended(q, record, rows, items, at)
    case PollBroke => Going(rows, items)
  }

  /** A poll turned away within its cap serves nothing and ends nothing. */
  lemma RetriedRow(rows: seq<Row>, row: Row, items: seq<Item>)
    requires row.method' == Poll && Retried(row) && Restarts(rows) <= 1
    requires Patient(rows, items) && Trail(rows) + 1 < Cap(row)
    ensures Going(rows + [row], items) && Trail(rows + [row]) == Trail(rows) + 1
    ensures Served(rows + [row]) == Served(rows) && Restarts(rows + [row]) == Restarts(rows)
  {
    OneMoreRow(rows, row);
    TrailGrows(rows, row, items);
  }

  /** One iteration of the poll loop. */
  method PollOnce(ctx: RunContext, rng: DeterministicRng, q: Request, tries: nat, p0: Progress,
                  ghost rows: seq<Row>, ghost collected: seq<string>, ghost used: bool, ghost items: seq<Item>)
    returns (s: PollStep, p: Progress, ghost row: Option<Row>)
    requires Collecting(p0, rows, collected, used, tries, items) && q.id !in ctx.broken
    modifies ctx, rng
    ensures Own(ctx.attempts, q.id) == Extend(old(Own(ctx.attempts, q.id)), row)
    ensures PollsTo(q, s, p, Extend(rows, row), collected, used, tries + 1, items, Moment(ctx.clock, rng.drawn))
    ensures s == PollBroke <==> q.id in ctx.broken
    ensures ctx.clock >= old(ctx.clock)
    ensures s.PollAgain? || s.Answered? ==> old(ctx.clock) < q.deadline && old(ctx.clock) < ctx.clock
  {
    p, row := p0, None;
    var now := ctx.Now(q.id);
    var call := ExpiredBeforeSend;
    if now < q.deadline {
      call, row := ctx.RecordCall(q.id, Poll, q.deadline);
    }
    if call.Fatal? {
      s := PollBroke;
      return;
    }
    if call.ExpiredBeforeSend? {
      now := ctx.Now(q.id);
      var firstSend := UnwrapOr(p.firstSend, now);
      DeadlinePassed(q, p, rows, items, firstSend, now, Moment(ctx.clock, rng.drawn));
      s := PollFinished(RecordOf(q, p, firstSend, now, TimedOut, Some(TimeoutCode)));
      return;
    }
    CountOne(p, rows, row.value);
    p := Progress(p.firstSend, p.batchAttempts, p.polls + 1);
    s := AfterPoll(ctx, rng, q, tries + 1, p, call, rows, row.value, collected, used, items);
  }

  /** What the poll loop does once a poll has left its row; after a timeout no retry can fit. */
  method AfterPoll(ctx: RunContext, rng: DeterministicRng, q: Request, tries: nat, p: Progress, call: CallResult,
                   ghost rows: seq<Row>, ghost row: Row, ghost collected: seq<string>, ghost used: bool,
                   ghost items: seq<Item>)
    returns (s: PollStep)
    requires call.Replied? || (call.TimedOutAfterSend? && q.deadline <= ctx.clock)
    requires RowOf(Some(row), q.id, Poll, call) && row.terminalNs <= ctx.clock
    requires Counted(p, rows + [row]) && p.firstSend.Some?
    requires Served(rows) == collected && Restarts(rows) == (if used then 1 else 0)
    requires Patient(rows, items) && tries == Trail(rows) + 1
    modifies ctx, rng
    ensures ctx.clock >= old(ctx.clock) && Own(ctx.attempts, q.id) == old(Own(ctx.attempts, q.id))
    ensures q.id in ctx.broken <==> q.id in old(ctx.broken)
    ensures PollsTo(q, s, p, rows + [row], collected, used, tries, items, Moment(ctx.clock, rng.drawn))
    ensures s != PollBroke
  {
    assert (rows + [row])[..|rows|] == rows;
    TrailGrows(rows, row, items);
    if call.Replied? {
      var code := call.answer.code;
      var retryable := call.answer.ty == Error && (code == Some(QueueFull) || code == Some(TimeoutCode));
      var attemptCap := if code == Some(QueueFull) then QUEUE_FULL_MAX_ATTEMPTS else MAX_TOTAL_ATTEMPTS;
      if !retryable || tries >= attemptCap {
        return Answered(call.receivedNs, call.answer);
      }
      var delay := rng.RetryDelay();
      var now := ctx.Now(q.id);
      if now + delay >= q.deadline {
        return Answered(call.receivedNs, call.answer);
      }
      ctx.Sleep(delay, q.id);
      RetriedRow(rows, row, items);
      return PollAgain;
    }
    UnansweredRow(rows, row, items);
    var now;
    if tries < MAX_TOTAL_ATTEMPTS {
      var delay := rng.RetryDelay();
      now := ctx.Now(q.id);
      if now + delay < q.deadline {
        assert false;
        return PollAgain;
      }
    }
    now := ctx.Now(q.id);
    RecordAccounts(q, p, rows + [row], p.firstSend.value, now, TimedOut, Some(AttemptTimeout));
    return PollFinished(RecordOf(q, p, p.firstSend.value, now, TimedOut, Some(AttemptTimeout)));
  }

  /** The poll loop: everything up to a reply to act on or a terminal record. */
  method PollUntilAnswered(ctx: RunContext, rng: DeterministicRng, q: Request, p0: Progress,
                           ghost base: seq<Row>, ghost rows0: seq<Row>, ghost collected: seq<string>, ghost used: bool,
                           ghost items: seq<Item>)
    returns (s: PollStep, p: Progress, ghost rows: seq<Row>)
    requires Own(ctx.attempts, q.id) == base + rows0 && q.id !in ctx.broken
    requires Collecting(p0, rows0, collected, used, 0, items)
    modifies ctx, rng
    ensures Own(ctx.attempts, q.id) == base + rows
    ensures PollsTo(q, s, p, rows, collected, used, 0, items, Moment(ctx.clock, rng.drawn)) && !s.PollAgain?
    ensures s == PollBroke <==> q.id in ctx.broken
    ensures ctx.clock >= old(ctx.clock)
    ensures s.Answered? ==> old(ctx.clock) < q.deadline && old(ctx.clock) < ctx.clock
  {
    var tries := 0;
    s, p, rows := PollAgain, p0, rows0;
    while s.PollAgain?
      invariant Own(ctx.attempts, q.id) == base + rows
      invariant PollsTo(q, s, p, rows, collected, used, tries, items, Moment(ctx.clock, rng.drawn))
      invariant s == PollBroke <==> q.id in ctx.broken
      invariant s.Answered? ==> old(ctx.clock) < q.deadline && old(ctx.clock) < ctx.clock
      invariant ctx.clock >= old(ctx.clock)
      decreases s.PollAgain?, q.deadline - ctx.clock
    {
      ghost var step;
      s, p, step := PollOnce(ctx, rng, q, tries, p, rows, collected, used, items);
      ExtendAfter(base, rows, step);
      rows := Extend(rows, step);
      tries := tries + 1;
    }
  }

  // ----- Pages

  datatype PageStep = NextPoll | RestartJob | JobDone(record: Record) | JobFailed(failure: Failure)

  ghost predicate PagesTo(q: Request, s: PageStep, p: Progress, rows: seq<Row>, collected: seq<string>, used: bool,
                          items: seq<Item>, at: Moment)
  {
    match s
    case NextPoll => Collecting(p, rows, collected, used, 0, items)
    case RestartJob => Starting(p, rows, true, items) && !used && Trail(rows) == 0
    case JobDone(record) => Ended(q, record, rows, items, at)
    case JobFailed(failure) => Fails(failure, rows, items)
  }

  lemma LastRow(rows: seq<Row>, items: seq<Item>)
    requires rows != []
    ensures
      var before, row := rows[..|rows| - 1], rows[|rows| - 1];
      && Restarts(rows) == Restarts(before) + (if IsRestart(row) then 1 else 0)
      && Served(rows) == (if IsRestart(row) then []
                          else Served(before) + (if IsPage(row) then PageIds(row.answer.value.vectors.value) else []))
      && (!Retried(row) ==> Trail(rows) == 0)
      && (!Retried(row) && Patient(before, items) && (IsPage(row) ==> Genuine(row.answer.value, items))
          ==> Patient(rows, items))
  {
  }

  /** An error reply to a poll: the first `module_restarted` starts over, anything else is terminal. */
  method HandleError(q: Request, p: Progress, receivedNs: nat, answer: Answer, used: bool, ghost items: seq<Item>,
                     ghost rows: seq<Row>, ghost collected: seq<string>, ghost at: Moment)
    returns (s: PageStep)
    requires JustAnswered(q, p, rows, receivedNs, answer, collected, used, items, at) && answer.ty == Error
    ensures PagesTo(q, s, p, rows, collected, used, items, at) && !s.NextPoll? && s != JobFailed(WireFailed)
  {
    LastRow(rows, items);
    var disposition := if answer.code == Some(TimeoutCode) then TimedOut else Rejected;
    RecordAccounts(q, p, rows, p.firstSend.value, receivedNs, disposition, answer.code);
    var ended := RecordOf(q, p, p.firstSend.value, receivedNs, disposition, answer.code);
    if answer.code == Some(ModuleRestarted) {
      return if !used then RestartJob else JobDone(ended);
    }
    if answer.code != Some(TimeoutCode) && answer.code != Some(QueueFull) {
      return JobFailed(BadReply);
    }
    return JobDone(ended);
  }

  /** A page of vectors: validated, collected and, when it is the last, compared with the request. */
  method HandlePage(ctx: RunContext, ghost drawn: nat, q: Request, p: Progress, receivedNs: nat, answer: Answer,
                    items: seq<Item>, collected0: seq<string>, ghost used: bool, ghost rows: seq<Row>)
    returns (s: PageStep, collected: seq<string>, cursor: Option<string>)
    requires JustAnswered(q, p, rows, receivedNs, answer, collected0, used, items, Moment(ctx.clock, drawn))
    requires answer.ty != Error && answer.vectors.Some?
    modifies ctx
    ensures ctx.clock >= old(ctx.clock) && Own(ctx.attempts, q.id) == old(Own(ctx.attempts, q.id))
    ensures q.id in ctx.broken <==> q.id in old(ctx.broken)
    ensures PagesTo(q, s, p, rows, collected, used, items, Moment(ctx.clock, drawn))
    ensures !s.RestartJob? && s != JobFailed(WireFailed)
  {
    LastRow(rows, items);
    collected, cursor := collected0, None;
    ValidPageIsGenuine(answer, items);
    if !ValidPage(answer, Expected(items)) {
      return JobFailed(BadReply), collected, cursor;
    }
    collected := collected + PageIds(answer.vectors.value);
    if answer.done {
      if collected != Ids(items) {
        return JobFailed(BadReply), collected, cursor;
      }
      RecordAccounts(q, p, rows, p.firstSend.value, receivedNs, Completed, None);
      return JobDone(RecordOf(q, p, p.firstSend.value, receivedNs, Completed, None)), collected, cursor;
    }
    cursor := answer.nextCursor;
    if cursor.None? {
      return JobFailed(BadReply), collected, cursor;
    }
    s := GoOn(ctx, drawn, q, p, items, collected, used, rows);
  }

  /** The deadline check before the next poll. */
  method GoOn(ctx: RunContext, ghost drawn: nat, q: Request, p: Progress, ghost items: seq<Item>,
              ghost collected: seq<string>, ghost used: bool, ghost rows: seq<Row>)
    returns (s: PageStep)
    requires Collecting(p, rows, collected, used, 0, items)
    modifies ctx
    ensures ctx.clock >= old(ctx.clock) && Own(ctx.attempts, q.id) == old(Own(ctx.attempts, q.id))
    ensures q.id in ctx.broken <==> q.id in old(ctx.broken)
    ensures PagesTo(q, s, p, rows, collected, used, items, Moment(ctx.clock, drawn)) && !s.RestartJob? && !s.JobFailed?
  {
    var now := ctx.Now(q.id);
    if now >= q.deadline {
      now := ctx.Now(q.id);
      DeadlinePassed(q, p, rows, items, p.firstSend.value, now, Moment(ctx.clock, drawn));
      return JobDone(RecordOf(q, p, p.firstSend.value, now, TimedOut, Some(TimeoutCode)));
    }
    return NextPoll;
  }

  /** A pending reply: wait, but not past the deadline, and poll again. */
  method HandlePending(ctx: RunContext, ghost drawn: nat, q: Request, p: Progress, ghost receivedNs: nat,
                       answer: Answer, ghost items: seq<Item>, ghost collected: seq<string>, ghost used: bool,
                       ghost rows: seq<Row>)
    returns (s: PageStep)
    requires JustAnswered(q, p, rows, receivedNs, answer, collected, used, items, Moment(ctx.clock, drawn))
    requires answer.ty != Error && answer.vectors.None?
    modifies ctx
    ensures ctx.clock >= old(ctx.clock) && Own(ctx.attempts, q.id) == old(Own(ctx.attempts, q.id))
    ensures q.id in ctx.broken <==> q.id in old(ctx.broken)
    ensures PagesTo(q, s, p, rows, collected, used, items, Moment(ctx.clock, drawn)) && !s.RestartJob? && !s.JobFailed?
  {
    LastRow(rows, items);
    var delay: nat :| true;
    var now := ctx.Now(q.id);
    var remaining := SaturatingSub(q.deadline, now);
    ctx.Sleep(if delay < remaining then delay else remaining, q.id);
    s := GoOn(ctx, drawn, q, p, items, collected, used, rows);
  }

  /** What the client does with a poll's answer. */
  method HandleAnswer(ctx: RunContext, ghost drawn: nat, q: Request, p: Progress, receivedNs: nat, answer: Answer,
                      items: seq<Item>, collected0: seq<string>, used: bool, ghost rows: seq<Row>)
    returns (s: PageStep, collected: seq<string>, cursor: Option<string>)
    requires JustAnswered(q, p, rows, receivedNs, answer, collected0, used, items, Moment(ctx.clock, drawn))
    modifies ctx
    ensures ctx.clock >= old(ctx.clock) && Own(ctx.attempts, q.id) == old(Own(ctx.attempts, q.id))
    ensures q.id in ctx.broken <==> q.id in old(ctx.broken)
    ensures PagesTo(q, s, p, rows, collected, used, items, Moment(ctx.clock, drawn)) && s != JobFailed(WireFailed)
  {
    collected, cursor := collected0, None;
    if answer.ty == Error {
      s := HandleError(q, p, receivedNs, answer, used, items, rows, collected, Moment(ctx.clock, drawn));
    } else if answer.vectors.Some? {
      s, collected, cursor := HandlePage(ctx, drawn, q, p, receivedNs, answer, items, collected, used, rows);
    } else {
      s := HandlePending(ctx, drawn, q, p, receivedNs, answer, items, collected, used, rows);
    }
  }

  /** Polls one job until it restarts, completes or ends. */
  method RunJob(ctx: RunContext, rng: DeterministicRng, q: Request, items: seq<Item>, used: bool, p0: Progress,
                ghost base: seq<Row>, ghost rows0: seq<Row>)
    returns (s: PageStep, p: Progress, ghost rows: seq<Row>)
    requires Own(ctx.attempts, q.id) == base + rows0 && q.id !in ctx.broken
    requires Collecting(p0, rows0, [], used, 0, items)
    modifies ctx, rng
    ensures Own(ctx.attempts, q.id) == base + rows
    ensures JobEnds(q, s, p, rows, used, items, Moment(ctx.clock, rng.drawn))
    ensures s == JobFailed(WireFailed) <==> q.id in ctx.broken
  {
    var collected: seq<string> := [];
    var cursor: Option<string> := None;
    s, p, rows := NextPoll, p0, rows0;
    while s.NextPoll?
      invariant Own(ctx.attempts, q.id) == base + rows
      invariant PagesTo(q, s, p, rows, collected, used, items, Moment(ctx.clock, rng.drawn))
      invariant s == JobFailed(WireFailed) <==> q.id in ctx.broken
      decreases s.NextPoll?, q.deadline - ctx.clock
    {
      var step;
      step, p, rows := PollUntilAnswered(ctx, rng, q, p, base, rows, collected, used, items);
      match step {
        case PollFinished(record) => s := JobDone(record);
        case PollBroke => s := JobFailed(WireFailed);
        case Answered(receivedNs, answer) =>
          s, collected, cursor := HandleAnswer(ctx, rng.drawn, q, p, receivedNs, answer, items, collected, used, rows);
      }
    }
  }

  // ----- execute_batch

  /** A job that is over, one way or another. */
  ghost predicate JobEnds(q: Request, s: PageStep, p: Progress, rows: seq<Row>, used: bool, items: seq<Item>,
                          at: Moment)
  {
    match s
    case NextPoll => false
    case RestartJob => Starting(p, rows, true, items) && !used && Trail(rows) == 0
    case JobDone(record) => Ended(q, record, rows, items, at)
    case JobFailed(failure) => Fails(failure, rows, items)
  }

  /** One turn of the outer loop: a submission with a fresh retry budget, then its job. */
  method RunLogical(ctx: RunContext, rng: DeterministicRng, q: Request, items: seq<Item>, used: bool, p0: Progress,
                    ghost base: seq<Row>, ghost rows0: seq<Row>)
    returns (s: PageStep, p: Progress, ghost rows: seq<Row>)
    requires Own(ctx.attempts, q.id) == base + rows0 && q.id !in ctx.broken
    requires Starting(p0, rows0, used, items) && Trail(rows0) == 0
    modifies ctx, rng
    ensures Own(ctx.attempts, q.id) == base + rows
    ensures JobEnds(q, s, p, rows, used, items, Moment(ctx.clock, rng.drawn))
    ensures s == JobFailed(WireFailed) <==> q.id in ctx.broken
  {
    var submission;
    submission, p, rows := Submit(ctx, rng, q, used, p0, base, rows0, items);
    match submission
    case Submitted(_) =>
      s, p, rows := RunJob(ctx, rng, q, items, used, p, base, rows);
    case Restarted => s := RestartJob;
    case Finished(record) => s := JobDone(record);
    case Failed(failure) => s := JobFailed(failure);
  }

  lemma NothingYet(base: seq<Row>, p: Progress, none: seq<Row>, items: seq<Item>)
    requires |none| == 0 && p == Progress(None, 0, 0)
    ensures base + none == base
    ensures Starting(p, none, false, items) && Trail(none) == 0
  {
  }

  /**
    What `execute_batch` guarantees about its rows: a record is this request's, counts exactly them
    and is what they come to, and a failure is a reply that made no sense or a call that broke.
   */
  ghost predicate BatchFinished(q: Request, rows: seq<Row>, items: seq<Item>, r: Result<Record, Failure>, at: Moment) {
    match r
    case Ok(record) => Ended(q, record, rows, items, at)
    case Err(failure) => Fails(failure, rows, items)
  }

  /**
    `execute_batch`, under any replies, delays and clock. At most one resubmission follows a restart,
    and the result follows from the rows the request owns.
   */
  method ExecuteBatch(ctx: RunContext, rng: DeterministicRng, q: Request, items: seq<Item>)
    returns (r: Result<Record, Failure>, ghost rows: seq<Row>)
    requires q.id !in ctx.broken
    modifies ctx, rng
    ensures Own(ctx.attempts, q.id) == old(Own(ctx.attempts, q.id)) + rows
    ensures BatchFinished(q, rows, items, r, Moment(ctx.clock, rng.drawn))
    ensures r == Err(WireFailed) <==> q.id in ctx.broken
  {
    ghost var base := Own(ctx.attempts, q.id);
    var start := Progress(None, 0, 0);
    NothingYet(base, start, base[..0], items);
    var restartUsed := false;
    var s, p;
    s, p, rows := RunLogical(ctx, rng, q, items, restartUsed, start, base, base[..0]);
    while s.RestartJob?
      invariant Own(ctx.attempts, q.id) == base + rows
      invariant JobEnds(q, s, p, rows, restartUsed, items, Moment(ctx.clock, rng.drawn))
      invariant s == JobFailed(WireFailed) <==> q.id in ctx.broken
      decreases !restartUsed
    {
      restartUsed := true;
      s, p, rows := RunLogical(ctx, rng, q, items, restartUsed, p, base, rows);
    }
    r := if s.JobDone? then Ok(s.record) else Err(s.failure);
  }
}
