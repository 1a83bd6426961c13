/**
  The retry clients and the attempt ledger they share.

  Replies, delays, other requests' rows and the clock are arbitrary, except that the clock never
  runs backwards and a wire call takes at least one tick. `RunContext` is the shared state.
 */
module Ledger {
  import opened Arithmetic
  import opened Outcomes

  datatype Method = Query | Batch | Poll

  datatype FrameType = Response | Error | Other

  /** The error codes the clients tell apart; `AttemptTimeout` is the ledger's own. */
  datatype Code = TimeoutCode | QueueFull | ModuleRestarted | AttemptTimeout | OtherCode(text: string)

  /** One vector of a batch page; `None` is a field the reply left out or mistyped. */
  datatype Vector = Vector(id: Option<string>, sha: Option<string>, payloadOk: bool)

  /** What the clients read from a reply's frame and JSON body. */
  datatype Answer = Answer(
    ty: FrameType,
    code: Option<Code>,
    retryAfterMs: Option<nat>,
    vectorsOk: bool,
    jobId: Option<string>,
    laneOk: bool,
    vectors: Option<seq<Vector>>,
    done: bool,
    nextCursor: Option<string>)

  datatype AttemptDisposition = PollAttempt | RetryableRejection | TimeoutAttempt | Failure | Success

  /** `answer` is the reply the row was made from; the source's row keeps its code and retry hint. */
  datatype AttemptRecord = AttemptRecord(
    logicalId: nat, attemptId: nat, method': Method, disposition: AttemptDisposition,
    sendNs: nat, terminalNs: nat, answer: Option<Answer>)

  datatype CallResult =
    | Replied(sentNs: nat, receivedNs: nat, answer: Answer)
    | TimedOutAfterSend(sentNs: nat)
    | ExpiredBeforeSend
    | Fatal

  datatype LogicalDisposition = Completed | Rejected | TimedOut

  datatype Record = Record(
    logicalId: nat, scheduledStartNs: Option<nat>, firstSendNs: nat, terminalNs: nat, latencyNs: nat,
    disposition: LogicalDisposition, code: Option<Code>, attempts: nat, polls: nat)

  /** One logical request: who asks, since when latency counts, and until when. */
  datatype Request = Request(id: nat, scheduledStartNs: Option<nat>, deadline: nat)

  function TerminalRecord(q: Request, firstSendNs: nat, terminalNs: nat, disposition: LogicalDisposition,
                          code: Option<Code>,
                          attempts: nat, polls: nat): Record
  {
    var from := if q.scheduledStartNs.Some? then q.scheduledStartNs.value else firstSendNs;
    Record(q.id, q.scheduledStartNs, firstSendNs, terminalNs, SaturatingSub(terminalNs, from), disposition, code,
           attempts, polls)
  }

  function DispositionOf(m: Method, answer: Answer): AttemptDisposition {
    if m == Poll then PollAttempt
    else if answer.ty == Error && (answer.code == Some(QueueFull) || answer.code == Some(ModuleRestarted))
    then RetryableRejection
    else if answer.ty == Error && answer.code == Some(TimeoutCode) then TimeoutAttempt
    else if answer.ty == Error then Failure
    else Success
  }

  /** A row's disposition is that of its reply; one without a reply was a timeout, or a poll. */
  predicate Classified(row: AttemptRecord) {
    row.disposition
    == if row.answer.Some? then DispositionOf(row.method', row.answer.value)
       else if row.method' == Poll then PollAttempt else TimeoutAttempt
  }

  type Row = row: AttemptRecord | Classified(row)
    witness AttemptRecord(0, 0, Poll, PollAttempt, 0, 0, None)

  /** Why a request ends without a record: a call broke, or a reply made no sense. */
  datatype Failure = WireFailed | BadReply

  // ----- Reading the ledger

  function Own(ledger: seq<Row>, id: nat): seq<Row> {
    if ledger == [] then []
    else
      var last := ledger[|ledger| - 1];
      Own(ledger[..|ledger| - 1], id) + (if last.logicalId == id then [last] else [])
  }

  function Polls(rows: seq<Row>): nat {
    if rows == [] then 0
    else Polls(rows[..|rows| - 1]) + (if rows[|rows| - 1].method' == Poll then 1 else 0)
  }

  lemma {:induction false} OwnConcat(a: seq<Row>, b: seq<Row>, id: nat)
    ensures Own(a + b, id) == Own(a, id) + Own(b, id)
  {
    if b == [] {
      assert a + b == a;
    } else {
      OwnConcat(a, b[..|b| - 1], id);
      assert (a + b)[..|a + b| - 1] == a + b[..|b| - 1];
    }
  }

  lemma {:induction false} OwnOfOthers(rows: seq<Row>, id: nat)
    requires forall row | row in rows :: row.logicalId != id
    ensures Own(rows, id) == []
  {
    if rows != [] {
      OwnOfOthers(rows[..|rows| - 1], id);
    }
  }

  lemma PollsAppend(rows: seq<Row>, row: Row)
    ensures Polls(rows + [row]) == Polls(rows) + (if row.method' == Poll then 1 else 0)
  {
    assert (rows + [row])[..|rows|] == rows;
  }

  /** A row of this request for a call of `m`, sent at `sentNs`; `answer` is `None` after a timeout. */
  ghost predicate RowFor(row: Row, id: nat, m: Method, sentNs: nat, answer: Option<Answer>) {
    row.logicalId == id && row.method' == m && row.sendNs == sentNs && row.answer == answer
  }

  /** A call that reached the wire and came back adds one row of its own; any other call adds none. */
  ghost predicate RowOf(row: Option<Row>, id: nat, m: Method, r: CallResult) {
    match r
    case Replied(sentNs, receivedNs, answer) =>
      row.Some? && RowFor(row.value, id, m, sentNs, Some(answer)) && row.value.terminalNs == receivedNs
    case TimedOutAfterSend(sentNs) => row.Some? && RowFor(row.value, id, m, sentNs, None)
    case _ => row == None
  }

  ghost function Extend(rows: seq<Row>, row: Option<Row>): seq<Row> {
    if row.Some? then rows + [row.value] else rows
  }

  lemma ExtendAfter(base: seq<Row>, rows: seq<Row>, row: Option<Row>)
    ensures Extend(base + rows, row) == base + Extend(rows, row)
  {
    if row.Some? {
      assert base + rows + [row.value] == base + (rows + [row.value]);
    }
  }

  // ----- Shared state

  function OthersOnly(rows: seq<Row>, id: nat): (others: seq<Row>)
    ensures forall row | row in others :: row.logicalId != id
  {
    if rows == [] then []
    else (if rows[0].logicalId == id then [] else [rows[0]]) + OthersOnly(rows[1..], id)
  }

  class RunContext {
    var attempts: seq<Row>
    var nextAttempt: nat
    var clock: nat
    /** Requests one of whose calls broke. */
    ghost var broken: set<nat>

    constructor ()
      ensures attempts == [] && nextAttempt == 0 && clock == 0 && broken == {}
    {
      attempts, nextAttempt, clock, broken := [], 0, 0, {};
    }

    /** `Instant::now` and `elapsed_ns`: time has moved on, and so have the other requests. */
    method Now(id: nat) returns (now: nat)
      modifies this
      ensures now == clock >= old(clock) && nextAttempt >= old(nextAttempt)
      ensures Own(attempts, id) == old(Own(attempts, id)) && (id in broken <==> id in old(broken))
    {
      Sleep(0, id);
      now := clock;
    }

    method Sleep(ns: nat, id: nat)
      modifies this
      ensures clock >= old(clock) + ns && nextAttempt >= old(nextAttempt)
      ensures Own(attempts, id) == old(Own(attempts, id)) && (id in broken <==> id in old(broken))
    {
      var longer: nat :| true;
      clock := clock + ns + longer;
      OthersAppend(id);
    }

    /** What other requests push and break while this one is not looking. */
    method OthersAppend(id: nat)
      modifies this`attempts, this`broken, this`nextAttempt
      ensures nextAttempt >= old(nextAttempt)
      ensures Own(attempts, id) == old(Own(attempts, id)) && (id in broken <==> id in old(broken))
    {
      ghost var others: set<nat> :| id !in others;
      broken := broken + others;
      var rows: seq<Row> :| true;
      var allotted: nat :| true;
      nextAttempt := nextAttempt + allotted;
      OwnConcat(attempts, OthersOnly(rows, id), id);
      OwnOfOthers(OthersOnly(rows, id), id);
      attempts := attempts + OthersOnly(rows, id);
    }

    method Push(row: Row)
      modifies this`attempts
      ensures Own(attempts, row.logicalId) == old(Own(attempts, row.logicalId)) + [row]
    {
      OwnConcat(attempts, [row], row.logicalId);
      assert Own([row], row.logicalId) == [row];
      attempts := attempts + [row];
    }

    /**
      `RunContext::record_call`; the wire may answer anything. A call gives up, sent or not, only once
      its deadline has come.
     */
    method RecordCall(id: nat, m: Method, deadline: nat) returns (r: CallResult, ghost row: Option<Row>)
      modifies this
      ensures clock > old(clock) && nextAttempt >= old(nextAttempt)
      ensures Own(attempts, id) == Extend(old(Own(attempts, id)), row)
      ensures RowOf(row, id, m, r)
      ensures row.Some? ==> old(nextAttempt) <= row.value.attemptId < nextAttempt
      ensures row.Some? ==> old(clock) <= row.value.sendNs && row.value.terminalNs <= clock
      ensures r.ExpiredBeforeSend? || r.TimedOutAfterSend? ==> deadline <= clock
      ensures r.TimedOutAfterSend? ==> deadline <= row.value.terminalNs
      ensures id in broken <==> id in old(broken) || r.Fatal?
    {
      var sent := Now(id);
      r := Exchange(id, sent, deadline);
      row := None;
      if r.Fatal? {
        broken := broken + {id};
      } else if r.Replied? {
        var attemptId := nextAttempt;
        nextAttempt := nextAttempt + 1;
        var parses: bool := *;
        if !parses {
          r := Fatal;
          broken := broken + {id};
          return;
        }
        var disposition := DispositionOf(m, r.answer);
        var pushed := AttemptRecord(id, attemptId, m, disposition, r.sentNs, r.receivedNs, Some(r.answer));
        row := Some(pushed);
        Push(pushed);
      } else if r.TimedOutAfterSend? {
        var disposition := if m == Poll then PollAttempt else TimeoutAttempt;
        var pushed := AttemptRecord(id, nextAttempt, m, disposition, r.sentNs, clock, None);
        nextAttempt := nextAttempt + 1;
        row := Some(pushed);
        Push(pushed);
      }
    }

    /** The wire's side of a call that began at `begun`. */
    method Exchange(id: nat, begun: nat, deadline: nat) returns (r: CallResult)
      requires begun <= clock
      modifies this
      ensures clock > old(clock) && nextAttempt >= old(nextAttempt)
      ensures Own(attempts, id) == old(Own(attempts, id)) && (id in broken <==> id in old(broken))
      ensures r.Replied? ==> begun <= r.sentNs <= clock && r.receivedNs <= clock
      ensures r.TimedOutAfterSend? ==> begun <= r.sentNs <= clock
      ensures r.ExpiredBeforeSend? || r.TimedOutAfterSend? ==> deadline <= clock
    {
      Sleep(1, id);
      var sentNs: nat :| begun <= sentNs <= clock;
      var outcome: nat :| true;
      match outcome {
        case 0 => return Fatal;
        case 1 =>
          Sleep(SaturatingSub(deadline, clock), id);
          return ExpiredBeforeSend;
        case 2 =>
          Sleep(SaturatingSub(deadline, clock), id);
          return TimedOutAfterSend(sentNs);
        case _ =>
          var receivedNs: nat :| receivedNs <= clock;
          var answer: Answer :| true;
          return Replied(sentNs, receivedNs, answer);
      }
    }
  }

  /** A request's own random delays before it retries. */
  class DeterministicRng {
    /** The delay drawn last. */
    var drawn: nat

    constructor () {
    }

    method RetryDelay() returns (ns: nat)
      modifies this
      ensures ns == drawn
    {
      ns :| true;
      drawn := ns;
    }
  }

  // ----- What a finished request's record must say about its rows

  /** The record is this request's, counts exactly its rows, and measures latency from the first of them. */
  ghost predicate Accounts(q: Request, rows: seq<Row>, r: Record) {
    && r.logicalId == q.id && r.scheduledStartNs == q.scheduledStartNs
    && r.attempts == |rows|
    && r.polls == Polls(rows)
    && (rows != [] ==> r.firstSendNs == rows[0].sendNs)
    && r.latencyNs
       == SaturatingSub(r.terminalNs, if r.scheduledStartNs.Some? then r.scheduledStartNs.value else r.firstSendNs)
  }

  /** The send that latency is measured from: the first row's, if there is one yet. */
  ghost predicate FirstSend(rows: seq<Row>, firstSend: Option<nat>) {
    if rows == [] then firstSend == None else firstSend == Some(rows[0].sendNs)
  }

  function GetOrInsert(slot: Option<nat>, value: nat): Option<nat> {
    if slot.Some? then slot else Some(value)
  }

  function UnwrapOr(slot: Option<nat>, value: nat): nat {
    if slot.Some? then slot.value else value
  }

  lemma OneMore(rows: seq<Row>, row: Row, firstSend: Option<nat>)
    requires FirstSend(rows, firstSend)
    ensures FirstSend(rows + [row], GetOrInsert(firstSend, row.sendNs))
    ensures Polls(rows + [row]) == Polls(rows) + (if row.method' == Poll then 1 else 0)
  {
    PollsAppend(rows, row);
  }

  const MILLISECOND: nat := 1_000_000

  // ----- execute_query

  /** Whether a retry loop goes round again or returns. */
  datatype Turn = Again | Stop(result: Result<Record, Failure>)

  /** The instant a result is returned at, and the retry delay drawn last before it. */
  datatype Moment = Moment(clock: nat, drawn: nat)

  /** The only outcome of an attempt that is retried: `queue_full`. */
  predicate Retryable(row: Row) {
    row.answer.Some? && row.answer.value.ty != Response && row.answer.value.code == Some(QueueFull)
  }

  ghost predicate AllRetryable(rows: seq<Row>) {
    forall k | 0 <= k < |rows| :: Retryable(rows[k])
  }

  /** The result is a record of this disposition and code, reached at this instant. */
  predicate Records(r: Result<Record, Failure>, disposition: LogicalDisposition, code: Option<Code>, terminalNs: nat) {
    r.Ok? && r.value.disposition == disposition && r.value.code == code && r.value.terminalNs == terminalNs
  }

  /** What a query must come to when its last attempt is not retryable: a function of that attempt. */
  ghost predicate SettledBy(q: Request, row: Row, r: Result<Record, Failure>) {
    match row.answer
    case None =>
      r.Ok? && Records(r, TimedOut, Some(AttemptTimeout), r.value.terminalNs) && q.deadline <= r.value.terminalNs
    case Some(answer) =>
      if answer.ty == Response then
        if answer.vectorsOk then Records(r, Completed, None, row.terminalNs) else r == Err(BadReply)
      else if answer.code == Some(TimeoutCode) then Records(r, TimedOut, answer.code, row.terminalNs)
      else r == Err(BadReply)
  }

  /**
    What it may come to otherwise: a broken call, less than a millisecond left before the deadline, or
    a rejection once the attempt limit is reached or the next try would pass the deadline.
   */
  ghost predicate GaveUp(q: Request, limit: Option<nat>, rows: seq<Row>, r: Result<Record, Failure>, at: Moment) {
    match r
    case Err(failure) => failure == WireFailed
    case Ok(record) =>
      || (Records(r, TimedOut, Some(TimeoutCode), record.terminalNs) && q.deadline < record.terminalNs + MILLISECOND)
      || (rows != [] && Records(r, Rejected, Some(QueueFull), rows[|rows| - 1].terminalNs)
          && ((limit.Some? && limit.value <= |rows|) || q.deadline <= at.clock + at.drawn))
  }

  /** How a query's result follows from its attempts: all but the last were retried, and the last decides. */
  ghost predicate QueryEnding(q: Request, limit: Option<nat>, rows: seq<Row>, r: Result<Record, Failure>, at: Moment) {
    && (forall k | 0 <= k < |rows| - 1 :: Retryable(rows[k]))
    && (if rows != [] && !Retryable(rows[|rows| - 1]) then SettledBy(q, rows[|rows| - 1], r)
        else GaveUp(q, limit, rows, r, at))
  }

  /** No more than `limit` attempts, though one is always made. */
  predicate Within(limit: Option<nat>, attempts: nat) {
    limit.Some? ==> attempts <= if limit.value == 0 then 1 else limit.value
  }

  /** Another attempt is still allowed. */
  predicate MayTry(limit: Option<nat>, attempts: nat) {
    limit.Some? ==> attempts == 0 || attempts < limit.value
  }

  /** What a finished query guarantees: its counts, its instant, and how its result follows from its rows. */
  ghost predicate QueryFinished(q: Request, limit: Option<nat>, rows: seq<Row>, r: Result<Record, Failure>,
                                at: Moment)
  {
    && QueryEnding(q, limit, rows, r, at) && Within(limit, |rows|) && Polls(rows) == 0
    && (r.Ok? ==> Accounts(q, rows, r.value) && r.value.terminalNs <= at.clock)
  }

  /** The state of the retry loop between iterations. */
  ghost predicate QueryCounted(rows: seq<Row>, attempts: nat, firstSend: Option<nat>) {
    attempts == |rows| && FirstSend(rows, firstSend) && Polls(rows) == 0
  }

  /** What an iteration leaves behind. */
  ghost predicate QueryTurns(q: Request, limit: Option<nat>, turn: Turn, rows: seq<Row>, attempts: nat,
                             firstSend: Option<nat>,
                             at: Moment)
  {
    match turn
    case Again => QueryCounted(rows, attempts, firstSend) && AllRetryable(rows) && MayTry(limit, attempts)
    case Stop(r) => QueryFinished(q, limit, rows, r, at)
  }

  /** What `execute_query` does with a reply. */
  method QueryReply(ctx: RunContext, rng: DeterministicRng, q: Request, limit: Option<nat>, attempts: nat,
                    firstSend: nat,
                    receivedNs: nat, answer: Answer, ghost rows: seq<Row>, ghost row: Row)
    returns (turn: Turn)
    requires row.answer == Some(answer) && row.terminalNs == receivedNs <= ctx.clock
    requires AllRetryable(rows) && QueryCounted(rows + [row], attempts, Some(firstSend))
    requires Within(limit, attempts)
    modifies ctx, rng
    ensures ctx.clock >= old(ctx.clock)
    ensures Own(ctx.attempts, q.id) == old(Own(ctx.attempts, q.id)) && (q.id in ctx.broken <==> q.id in old(ctx.broken))
    ensures QueryTurns(q, limit, turn, rows + [row], attempts, Some(firstSend), Moment(ctx.clock, rng.drawn))
    ensures turn != Stop(Err(WireFailed))
  {
    if answer.ty == Response {
      if !answer.vectorsOk {
        return Stop(Err(BadReply));
      }
      return Stop(Ok(TerminalRecord(q, firstSend, receivedNs, Completed, None, attempts, 0)));
    }
    if answer.code == Some(TimeoutCode) {
      return Stop(Ok(TerminalRecord(q, firstSend, receivedNs, TimedOut, answer.code, attempts, 0)));
    }
    if answer.code != Some(QueueFull) {
      return Stop(Err(BadReply));
    }
    if limit.Some? && attempts >= limit.value {
      return Stop(Ok(TerminalRecord(q, firstSend, receivedNs, Rejected, answer.code, attempts, 0)));
    }
    var delay := rng.RetryDelay();
    var now := ctx.Now(q.id);
    if now + delay >= q.deadline {
      return Stop(Ok(TerminalRecord(q, firstSend, receivedNs, Rejected, answer.code, attempts, 0)));
    }
    ctx.Sleep(delay, q.id);
    return Again;
  }

  /** What `execute_query` does when an attempt was sent and timed out; by then no retry can fit. */
  method QueryTimeout(ctx: RunContext, rng: DeterministicRng, q: Request, limit: Option<nat>, attempts: nat,
                      firstSend: nat,
                      ghost rows: seq<Row>, ghost row: Row)
    returns (turn: Turn)
    requires row.answer == None && q.deadline <= ctx.clock
    requires AllRetryable(rows) && QueryCounted(rows + [row], attempts, Some(firstSend))
    requires Within(limit, attempts)
    modifies ctx, rng
    ensures ctx.clock >= old(ctx.clock)
    ensures Own(ctx.attempts, q.id) == old(Own(ctx.attempts, q.id)) && (q.id in ctx.broken <==> q.id in old(ctx.broken))
    ensures QueryTurns(q, limit, turn, rows + [row], attempts, Some(firstSend), Moment(ctx.clock, rng.drawn))
    ensures turn != Stop(Err(WireFailed))
  {
    var now;
    if limit.None? || attempts < limit.value {
      var delay := rng.RetryDelay();
      now := ctx.Now(q.id);
      if now + delay < q.deadline {
        assert false;
        return Again;
      }
    }
    now := ctx.Now(q.id);
    return Stop(Ok(TerminalRecord(q, firstSend, now, TimedOut, Some(AttemptTimeout), attempts, 0)));
  }

  /** What an iteration does with a call that left a row. */
  method QueryRow(ctx: RunContext, rng: DeterministicRng, q: Request, limit: Option<nat>, attempts: nat, firstSend: nat,
                  call: CallResult, ghost rows: seq<Row>, ghost row: Row)
    returns (turn: Turn)
    requires RowOf(Some(row), q.id, Query, call) && row.terminalNs <= ctx.clock
    requires call.TimedOutAfterSend? ==> q.deadline <= ctx.clock
    requires AllRetryable(rows) && QueryCounted(rows + [row], attempts, Some(firstSend))
    requires Within(limit, attempts)
    modifies ctx, rng
    ensures ctx.clock >= old(ctx.clock)
    ensures Own(ctx.attempts, q.id) == old(Own(ctx.attempts, q.id)) && (q.id in ctx.broken <==> q.id in old(ctx.broken))
    ensures QueryTurns(q, limit, turn, rows + [row], attempts, Some(firstSend), Moment(ctx.clock, rng.drawn))
    ensures turn != Stop(Err(WireFailed))
  {
    if call.TimedOutAfterSend? {
      turn := QueryTimeout(ctx, rng, q, limit, attempts, firstSend, rows, row);
    } else {
      turn := QueryReply(ctx, rng, q, limit, attempts, firstSend, call.receivedNs, call.answer, rows, row);
    }
  }

  /** The whole milliseconds left before the deadline. */
  function RemainingMs(deadline: nat, now: nat): (ms: nat)
    ensures ms == 0 <==> deadline < now + MILLISECOND
  {
    SaturatingSub(deadline, now) / MILLISECOND
  }

  /** A record for a deadline that is less than a millisecond away or past; no row belongs to it. */
  lemma QueryExpired(q: Request, limit: Option<nat>, rows: seq<Row>, attempts: nat, firstSend: Option<nat>, now: nat,
                     at: Moment)
    requires QueryCounted(rows, attempts, firstSend) && AllRetryable(rows) && MayTry(limit, attempts)
    requires q.deadline < now + MILLISECOND && now <= at.clock
    ensures
      var r := TerminalRecord(q, UnwrapOr(firstSend, now), now, TimedOut, Some(TimeoutCode), attempts, 0);
      QueryFinished(q, limit, rows, Ok(r), at)
  {
  }

  /** The call of one iteration, made only if a whole millisecond is left before the deadline. */
  method QueryCall(ctx: RunContext, q: Request) returns (call: CallResult, ghost row: Option<Row>)
    modifies ctx
    ensures ctx.clock >= old(ctx.clock)
    ensures Own(ctx.attempts, q.id) == Extend(old(Own(ctx.attempts, q.id)), row)
    ensures RowOf(row, q.id, Query, call) && (row.Some? ==> row.value.terminalNs <= ctx.clock)
    ensures call.ExpiredBeforeSend? ==> q.deadline < ctx.clock + MILLISECOND
    ensures call.TimedOutAfterSend? ==> q.deadline <= ctx.clock
    ensures !call.ExpiredBeforeSend? ==> old(ctx.clock) < q.deadline && old(ctx.clock) < ctx.clock
    ensures q.id in ctx.broken <==> q.id in old(ctx.broken) || call.Fatal?
  {
    call, row := ExpiredBeforeSend, None;
    var now := ctx.Now(q.id);
    if RemainingMs(q.deadline, now) > 0 {
      call, row := ctx.RecordCall(q.id, Query, q.deadline);
    }
  }

  /** One iteration of `execute_query`. */
  method QueryAttempt(ctx: RunContext, rng: DeterministicRng, q: Request, limit: Option<nat>, attempts0: nat,
                      firstSend0: Option<nat>, ghost rows: seq<Row>)
    returns (turn: Turn, attempts: nat, firstSend: Option<nat>, ghost row: Option<Row>)
    requires QueryCounted(rows, attempts0, firstSend0) && AllRetryable(rows) && MayTry(limit, attempts0)
    requires q.id !in ctx.broken
    modifies ctx, rng
    ensures Own(ctx.attempts, q.id) == Extend(old(Own(ctx.attempts, q.id)), row)
    ensures QueryTurns(q, limit, turn, Extend(rows, row), attempts, firstSend, Moment(ctx.clock, rng.drawn))
    ensures turn == Stop(Err(WireFailed)) <==> q.id in ctx.broken
    ensures turn.Again? ==> old(ctx.clock) < q.deadline && old(ctx.clock) < ctx.clock
  {
    attempts, firstSend, row := attempts0 + 1, firstSend0, None;
    var call;
    call, row := QueryCall(ctx, q);
    if call.Fatal? {
      turn := Stop(Err(WireFailed));
      return;
    }
    // no request reached the wire: the deadline left no whole millisecond, or passed before the send
    if call.ExpiredBeforeSend? {
      var now := ctx.Now(q.id);
      QueryExpired(q, limit, rows, SaturatingSub(attempts, 1), firstSend, now, Moment(ctx.clock, rng.drawn));
      turn := Stop(Ok(TerminalRecord(q, UnwrapOr(firstSend, now), now, TimedOut, Some(TimeoutCode),
                                     SaturatingSub(attempts, 1), 0)));
      return;
    }
    OneMore(rows, row.value, firstSend);
    firstSend := GetOrInsert(firstSend, call.sentNs);
    turn := QueryRow(ctx, rng, q, limit, attempts, firstSend.value, call, rows, row.value);
  }

  lemma NoRowsYet(before: seq<Row>, none: seq<Row>)
    requires |none| == 0
    ensures before + none == before && QueryCounted(none, 0, None) && AllRetryable(none)
  {
  }

  /**
    `execute_query`, under any attempt limit and any retry delays. The result follows from the rows
    the request owns: a record is this request's and counts exactly those rows, and the last of them,
    or the deadline, or a broken call decides between completion, rejection, timeout and failure.
    Every `expect` on the first send succeeds.
   */
  method ExecuteQuery(ctx: RunContext, rng: DeterministicRng, q: Request, limit: Option<nat>)
    returns (r: Result<Record, Failure>, ghost rows: seq<Row>)
    requires q.id !in ctx.broken
    modifies ctx, rng
    ensures Own(ctx.attempts, q.id) == old(Own(ctx.attempts, q.id)) + rows
    ensures QueryFinished(q, limit, rows, r, Moment(ctx.clock, rng.drawn))
    ensures r == Err(WireFailed) <==> q.id in ctx.broken
  {
    ghost var before := Own(ctx.attempts, q.id);
    rows := before[..0];
    NoRowsYet(before, rows);
    var firstSend: Option<nat> := None;
    var attempts: nat := 0;
    var turn := Again;
    while turn.Again?
      invariant Own(ctx.attempts, q.id) == before + rows
      invariant QueryTurns(q, limit, turn, rows, attempts, firstSend, Moment(ctx.clock, rng.drawn))
      invariant turn == Stop(Err(WireFailed)) <==> q.id in ctx.broken
      decreases turn.Again?, q.deadline - ctx.clock
    {
      ghost var row;
      turn, attempts, firstSend, row := QueryAttempt(ctx, rng, q, limit, attempts, firstSend, rows);
      ExtendAfter(before, rows, row);
      rows := Extend(rows, row);
    }
    r := turn.result;
  }

  // ----- What the rows' dispositions tell

  /** The rows the ledger's summary counts as polls. */
  function PollAttempts(rows: seq<Row>): nat {
    if rows == [] then 0
    else PollAttempts(rows[..|rows| - 1]) + (if rows[|rows| - 1].disposition == PollAttempt then 1 else 0)
  }

  /** They are the polls a record counts. */
  lemma {:induction false} PollAttemptsArePolls(q: Request, rows: seq<Row>, r: Record)
    requires Accounts(q, rows, r)
    ensures r.polls == PollAttempts(rows)
  {
    PollAttemptsCount(rows);
  }

  lemma {:induction false} PollAttemptsCount(rows: seq<Row>)
    ensures PollAttempts(rows) == Polls(rows)
  {
    if rows != [] {
      PollAttemptsCount(rows[..|rows| - 1]);
    }
  }

  lemma {:induction false} NoPolls(rows: seq<Row>, k: nat)
    requires Polls(rows) == 0 && k < |rows|
    ensures rows[k].method' != Poll
  {
    if k < |rows| - 1 {
      NoPolls(rows[..|rows| - 1], k);
    }
  }

  /**
    The ledger and a query's result agree: everything before the last attempt was a rejection that
    may be retried, and the last attempt's disposition says whether the query succeeded, timed out,
    was turned away or failed. An error frame of a restarted module counts as a rejection, although
    the query fails on it.
   */
  lemma QueryLedgerAgrees(q: Request, limit: Option<nat>, rows: seq<Row>, r: Result<Record, Failure>, at: Moment)
    requires QueryFinished(q, limit, rows, r, at)
    ensures forall k | 0 <= k < |rows| - 1 && rows[k].answer.value.ty == Error ::
              rows[k].disposition == RetryableRejection
    ensures r.Ok? && r.value.disposition == Completed ==> rows != [] && rows[|rows| - 1].disposition == Success
    ensures
      rows != [] && (rows[|rows| - 1].answer.Some? ==> rows[|rows| - 1].answer.value.ty == Error) ==>
        match rows[|rows| - 1].disposition
        case TimeoutAttempt => r.Ok? && r.value.disposition == TimedOut
        case Failure => r == Err(BadReply)
        case RetryableRejection => true
        case _ => false
    ensures
      rows != [] && rows[|rows| - 1].answer.Some? && rows[|rows| - 1].answer.value.ty == Error ==>
        var code := rows[|rows| - 1].answer.value.code;
        && (r.Ok? && r.value.disposition == Rejected ==> rows[|rows| - 1].disposition == RetryableRejection)
        && (r == Err(BadReply) && code != Some(ModuleRestarted) ==> rows[|rows| - 1].disposition == Failure)
  {
    forall k | 0 <= k < |rows|
      ensures rows[k].method' != Poll
    {
      NoPolls(rows, k);
    }
  }
}
