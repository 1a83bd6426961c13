/**
  The multiplexed request wire: callers and one reader share `pending` and `tombstones` under
  separate locks, so every lock acquisition is one step and any interleaving of steps is a run.

  A run is a list of actions. `Apply` is what one action does, or `None` where the code could not
  take it. Clocks are left open: a deadline may pass at any point where the code looks at it.
 */
module Wire {
  import opened Outcomes

  type CallId = nat
  type Corr = nat

  datatype Outcome = Reply(frame: Corr) | Timeout | Expired | Transport

  /** Where one `RoutedWire::call` stands. */
  datatype Phase =
    | Queued
    | Locked
    | Allocated(corr: Corr)
    | Registered(corr: Corr)
    | Sent(corr: Corr)
    | Waiting(corr: Corr)
    | GaveUp(corr: Corr)
    | Tombstoned(corr: Corr)
    | Forgotten(corr: Corr)
    | Done(owned: Option<Corr>, outcome: Outcome)

  /** Where `read_terminals` stands; `first` marks the first terminal of a fully written correlation. */
  datatype Reader =
    | Reading
    | Looking(corr: Corr, first: bool)
    | Delivering(corr: Corr, call: CallId)
    | Missed(corr: Corr, first: bool)
    | Unknown(corr: Corr, first: bool)
    | Broken
    | Reported
    | Stopped

  /**
    The last four fields record history: which call a correlation was handed to, the frames fully
    written, in order, the correlations of the terminals read so far, and those of them the reader
    found in `pending`.
   */
  datatype State = State(
    calls: map<CallId, Phase>,
    writer: Option<CallId>,
    pending: map<Corr, CallId>,
    tombstones: set<Corr>,
    nextCorr: Corr,
    inbox: map<CallId, Corr>,
    readerError: bool,
    reader: Reader,
    owners: map<Corr, CallId>,
    written: seq<Corr>,
    received: set<Corr>,
    taken: set<Corr>)

  const FIRST_CORR: nat := 1_000_000

  const INITIAL: State :=
    State(map[], None, map[], {}, FIRST_CORR, map[], false, Reading, map[], [], {}, {})

  /** The steps of one call, in the order its code takes them. */
  datatype CallStep =
    | Begin | Expire | Lock | Allocate | Register | RefuseBody | FailWrite | FinishWrite | Unlock
    | TakeReply | HangUp | GiveUp | Entomb | Forget | Finish

  datatype ReaderStep = Arrive(corr: Corr) | LookUp | Deliver | CheckTombstone | Break | Report | ClearPending

  datatype Action = ByCall(call: CallId, step: CallStep) | ByReader(read: ReaderStep)

  function Move(s: State, c: CallId, phase: Phase): State {
    s.(calls := s.calls[c := phase])
  }

  function Release(s: State): State {
    s.(writer := None)
  }

  /** The call still holds the receiving half of its channel. */
  predicate Listening(phase: Phase) {
    phase.Registered? || phase.Sent? || phase.Waiting?
  }

  function BeginCall(s: State, c: CallId): Option<State> {
    if c in s.calls then None
    else Some(Move(s, c, if s.readerError then Done(None, Transport) else Queued))
  }

  /** Up to and including the frame's last byte. */
  function SendStep(s: State, c: CallId, phase: Phase, step: CallStep): Option<State> {
    match step
    // lock acquisition timed out, or the deadline had passed once the lock was held
    case Expire =>
      if phase == Queued then Some(Move(s, c, Done(None, Expired)))
      else if phase == Locked then Some(Release(Move(s, c, Done(None, Expired))))
      else None
    case Lock =>
      if phase == Queued && s.writer == None then Some(Move(s, c, Locked).(writer := Some(c))) else None
    case Allocate =>
      if phase == Locked then
        Some(Move(s, c, Allocated(s.nextCorr)).(nextCorr := s.nextCorr + 1, owners := s.owners[s.nextCorr := c]))
      else None
    case Register =>
      if phase.Allocated? then Some(Move(s, c, Registered(phase.corr)).(pending := s.pending[phase.corr := c]))
      else None
    // an over-long body returns without taking the correlation out of `pending`
    case RefuseBody =>
      if phase.Registered? then Some(Release(Move(s, c, Done(Some(phase.corr), Transport)))) else None
    case FailWrite =>
      if phase.Registered? then
        Some(Release(Move(s, c, Done(Some(phase.corr), Transport)).(pending := s.pending - {phase.corr})))
      else None
    case FinishWrite =>
      if phase.Registered? then Some(Move(s, c, Sent(phase.corr)).(written := s.written + [phase.corr])) else None
    case Unlock =>
      if phase.Sent? then Some(Release(Move(s, c, Waiting(phase.corr)))) else None
    case _ => None
  }

  /** Waiting for the terminal, and giving up on it. */
  function WaitStep(s: State, c: CallId, phase: Phase, step: CallStep): Option<State> {
    match step
    case TakeReply =>
      if phase.Waiting? && c in s.inbox then Some(Move(s, c, Done(Some(phase.corr), Reply(s.inbox[c])))) else None
    // the sender was dropped without a reply
    case HangUp =>
      if phase.Waiting? && c !in s.inbox && phase.corr !in s.pending && s.reader != Delivering(phase.corr, c)
      then Some(Move(s, c, Done(Some(phase.corr), Transport)))
      else None
    case GiveUp =>
      if phase.Waiting? && c !in s.inbox then Some(Move(s, c, GaveUp(phase.corr))) else None
    case Entomb =>
      if phase.GaveUp? then
        Some(Move(s, c, Tombstoned(phase.corr)).(tombstones := s.tombstones + {phase.corr}))
      else None
    case Forget =>
      if phase.Tombstoned? then Some(Move(s, c, Forgotten(phase.corr)).(pending := s.pending - {phase.corr})) else None
    case Finish =>
      if phase.Forgotten? then
        Some(Move(s, c, Done(Some(phase.corr), if s.readerError then Transport else Timeout)))
      else None
    case _ => None
  }

  function ApplyCall(s: State, c: CallId, step: CallStep): Option<State> {
    if step == Begin then BeginCall(s, c)
    else if c !in s.calls then None
    else if SendStep(s, c, s.calls[c], step).Some? then SendStep(s, c, s.calls[c], step)
    else WaitStep(s, c, s.calls[c], step)
  }

  function ApplyReader(s: State, read: ReaderStep): Option<State> {
    match read
    case Arrive(k) =>
      if s.reader == Reading then
        Some(s.(reader := Looking(k, k in s.written && k !in s.received), received := s.received + {k}))
      else None
    case LookUp =>
      if s.reader.Looking? then
        var k := s.reader.corr;
        if k in s.pending then
          Some(s.(reader := Delivering(k, s.pending[k]), pending := s.pending - {k}, taken := s.taken + {k}))
        else Some(s.(reader := Missed(k, s.reader.first)))
      else None
    case Deliver =>
      if s.reader.Delivering? then
        var c := s.reader.call;
        var heard := c in s.calls && Listening(s.calls[c]);
        Some(s.(reader := Reading, inbox := if heard then s.inbox[c := s.reader.corr] else s.inbox))
      else None
    case CheckTombstone =>
      if s.reader.Missed? then
        var k := s.reader.corr;
        if k in s.tombstones then Some(s.(reader := Reading, tombstones := s.tombstones - {k}))
        else Some(s.(reader := Unknown(k, s.reader.first)))
      else None
    // any other violation, or the connection ending
    case Break => if s.reader == Reading then Some(s.(reader := Broken)) else None
    case Report =>
      if s.reader.Unknown? || s.reader.Broken? then Some(s.(reader := Reported, readerError := true)) else None
    case ClearPending => if s.reader == Reported then Some(s.(reader := Stopped, pending := map[])) else None
  }

  function Apply(s: State, a: Action): Option<State> {
    match a
    case ByCall(c, step) => ApplyCall(s, c, step)
    case ByReader(read) => ApplyReader(s, read)
  }

  /** The state a run leads to, if the code can take every one of its actions. */
  function After(run: seq<Action>): Option<State> {
    if run == [] then Some(INITIAL)
    else
      match After(run[..|run| - 1])
      case None => None
      case Some(s) => Apply(s, run[|run| - 1])
  }

  // ----- The invariant, one correlation and one call at a time

  function Owned(phase: Phase): Option<Corr> {
    match phase
    case Queued => None
    case Locked => None
    case Done(owned, _) => owned
    case _ => Some(phase.corr)
  }

  predicate HoldsWriter(phase: Phase) {
    phase.Locked? || phase.Allocated? || phase.Registered? || phase.Sent?
  }

  predicate NotYetWritten(phase: Phase) {
    phase.Allocated? || phase.Registered?
  }

  /** A fully written correlation whose first terminal has not been looked up yet. */
  predicate Outstanding(s: State, k: Corr) {
    k in s.written && (k !in s.received || s.reader == Looking(k, true))
  }

  predicate Above(written: seq<Corr>, k: Corr) {
    k !in written && (written == [] || written[|written| - 1] < k)
  }

  /** A handed-out correlation belongs to its call, and is where the call's progress says it is. */
  ghost predicate OwnedWell(s: State, k: Corr)
    requires k in s.owners
  {
    var c := s.owners[k];
    && k < s.nextCorr
    && c in s.calls && Owned(s.calls[c]) == Some(k)
    && (NotYetWritten(s.calls[c]) ==> Above(s.written, k))
    && (s.calls[c].Registered? && k !in s.received && !s.reader.Stopped? ==> k in s.pending)
    && (s.calls[c].Tombstoned? && Outstanding(s, k) ==> k in s.tombstones)
  }

  ghost predicate GoodCorr(s: State, k: Corr) {
    && (k in s.owners ==> OwnedWell(s, k))
    && (k in s.pending ==> k in s.owners && s.pending[k] == s.owners[k])
    && (k in s.written ==> k in s.owners)
    && (Outstanding(s, k) && !s.reader.Stopped? ==> k in s.pending || k in s.tombstones)
  }

  ghost predicate GoodCall(s: State, c: CallId) {
    && (s.writer == Some(c) ==> c in s.calls && HoldsWriter(s.calls[c]))
    && (c in s.inbox ==> s.inbox[c] in s.owners && s.owners[s.inbox[c]] == c)
    && (c in s.calls ==>
          var phase := s.calls[c];
          && (HoldsWriter(phase) ==> s.writer == Some(c))
          && (Owned(phase).Some? ==> Owned(phase).value in s.owners && s.owners[Owned(phase).value] == c)
          && (phase.Done? && phase.outcome.Reply? ==> phase.owned == Some(phase.outcome.frame)))
  }

  ghost predicate GoodReader(s: State) {
    match s.reader
    case Looking(k, first) => k in s.received && (first ==> k in s.written)
    case Delivering(k, c) => k in s.owners && s.owners[k] == c
    case Missed(k, first) => k in s.received && (first ==> k in s.tombstones)
    case Unknown(_, first) => !first
    case _ => true
  }

  ghost predicate Increasing(written: seq<Corr>) {
    forall i, j | 0 <= i < j < |written| :: written[i] < written[j]
  }

  ghost predicate Inv(s: State) {
    && (forall k {:trigger GoodCorr(s, k)} :: GoodCorr(s, k))
    && (forall c {:trigger GoodCall(s, c)} :: GoodCall(s, c))
    && GoodReader(s)
    && Increasing(s.written)
  }

  // ----- Callers keep it

  /** The facts about a state that one step and one correlation involve. */
  ghost predicate Around(s: State, c: CallId, k: Corr) {
    && GoodCorr(s, k) && GoodCall(s, c) && GoodReader(s)
    && (k in s.owners ==> GoodCall(s, s.owners[k]))
    && GoodCorr(s, s.nextCorr)
    && (s.written != [] ==> GoodCorr(s, s.written[|s.written| - 1]))
  }

  lemma FinishWriteKeepsCorr(s: State, c: CallId, k: Corr)
    requires Around(s, c, k) && c in s.calls && s.calls[c].Registered?
    ensures GoodCorr(SendStep(s, c, s.calls[c], FinishWrite).value, k)
  {
    var own := s.calls[c].corr;
    assert own in s.owners && s.owners[own] == c;
    if k in s.owners && NotYetWritten(s.calls[s.owners[k]]) {
      assert s.writer == Some(s.owners[k]);
      assert k == own;
    }
    assert k in s.written + [own] <==> k in s.written || k == own;
  }

  lemma LeavesCorr(s: State, c: CallId, step: CallStep, k: Corr)
    requires Around(s, c, k) && c in s.calls && SendStep(s, c, s.calls[c], step).Some?
    requires step == RefuseBody || step == FailWrite || step == Unlock
    ensures GoodCorr(SendStep(s, c, s.calls[c], step).value, k)
  {
  }

  lemma QueuesForCorr(s: State, c: CallId, step: CallStep, k: Corr)
    requires Around(s, c, k) && c in s.calls && SendStep(s, c, s.calls[c], step).Some?
    requires step == Expire || step == Lock
    ensures GoodCorr(SendStep(s, c, s.calls[c], step).value, k)
  {
  }

  lemma SendKeepsCorr(s: State, c: CallId, step: CallStep, k: Corr)
    requires Around(s, c, k) && c in s.calls && SendStep(s, c, s.calls[c], step).Some?
    ensures GoodCorr(SendStep(s, c, s.calls[c], step).value, k)
  {
    if step == FinishWrite {
      FinishWriteKeepsCorr(s, c, k);
    } else if step == Allocate || step == Register {
      TakesCorr(s, c, step, k);
    } else if step == Expire || step == Lock {
      QueuesForCorr(s, c, step, k);
    } else {
      LeavesCorr(s, c, step, k);
    }
  }

  lemma TakesCorr(s: State, c: CallId, step: CallStep, k: Corr)
    requires Around(s, c, k) && c in s.calls && SendStep(s, c, s.calls[c], step).Some?
    requires step == Allocate || step == Register
    ensures GoodCorr(SendStep(s, c, s.calls[c], step).value, k)
  {
  }

  lemma EndingKeepsCorr(s: State, c: CallId, step: CallStep, k: Corr)
    requires Around(s, c, k) && c in s.calls && WaitStep(s, c, s.calls[c], step).Some?
    requires step == TakeReply || step == HangUp || step == GiveUp || step == Finish
    ensures GoodCorr(WaitStep(s, c, s.calls[c], step).value, k)
  {
  }

  lemma BuryingKeepsCorr(s: State, c: CallId, step: CallStep, k: Corr)
    requires Around(s, c, k) && c in s.calls && WaitStep(s, c, s.calls[c], step).Some?
    requires step == Entomb || step == Forget
    ensures GoodCorr(WaitStep(s, c, s.calls[c], step).value, k)
  {
  }

  lemma WaitKeepsCorr(s: State, c: CallId, step: CallStep, k: Corr)
    requires Around(s, c, k) && c in s.calls && WaitStep(s, c, s.calls[c], step).Some?
    ensures GoodCorr(WaitStep(s, c, s.calls[c], step).value, k)
  {
    if step == Entomb || step == Forget {
      BuryingKeepsCorr(s, c, step, k);
    } else {
      EndingKeepsCorr(s, c, step, k);
    }
  }

  lemma CallKeepsCorr(s: State, c: CallId, step: CallStep, k: Corr)
    requires Around(s, c, k) && ApplyCall(s, c, step).Some?
    ensures GoodCorr(ApplyCall(s, c, step).value, k)
  {
    if step != Begin {
      if SendStep(s, c, s.calls[c], step).Some? {
        SendKeepsCorr(s, c, step, k);
      } else {
        WaitKeepsCorr(s, c, step, k);
      }
    }
  }

  /** The facts about a state that one step and one other call involve. */
  ghost predicate Beside(s: State, c: CallId, d: CallId) {
    && GoodCall(s, c) && GoodCall(s, d)
    && GoodCorr(s, s.nextCorr)
    && (d in s.inbox ==> GoodCorr(s, s.inbox[d]))
  }

  lemma AcquiringKeepsCall(s: State, c: CallId, step: CallStep, d: CallId)
    requires Beside(s, c, d) && c in s.calls && SendStep(s, c, s.calls[c], step).Some?
    requires step == Expire || step == Lock
    ensures GoodCall(SendStep(s, c, s.calls[c], step).value, d)
  {
  }

  lemma RegisteringKeepsCall(s: State, c: CallId, step: CallStep, d: CallId)
    requires Beside(s, c, d) && c in s.calls && SendStep(s, c, s.calls[c], step).Some?
    requires step == Allocate || step == Register
    ensures GoodCall(SendStep(s, c, s.calls[c], step).value, d)
  {
  }

  lemma WritingKeepsCall(s: State, c: CallId, step: CallStep, d: CallId)
    requires Beside(s, c, d) && c in s.calls && SendStep(s, c, s.calls[c], step).Some?
    requires step == RefuseBody || step == FailWrite || step == FinishWrite || step == Unlock
    ensures GoodCall(SendStep(s, c, s.calls[c], step).value, d)
  {
  }

  lemma SendKeepsCall(s: State, c: CallId, step: CallStep, d: CallId)
    requires Beside(s, c, d) && c in s.calls && SendStep(s, c, s.calls[c], step).Some?
    ensures GoodCall(SendStep(s, c, s.calls[c], step).value, d)
  {
    if step == Expire || step == Lock {
      AcquiringKeepsCall(s, c, step, d);
    } else if step == Allocate || step == Register {
      RegisteringKeepsCall(s, c, step, d);
    } else {
      WritingKeepsCall(s, c, step, d);
    }
  }

  lemma WaitKeepsCall(s: State, c: CallId, step: CallStep, d: CallId)
    requires Beside(s, c, d) && c in s.calls && WaitStep(s, c, s.calls[c], step).Some?
    ensures GoodCall(WaitStep(s, c, s.calls[c], step).value, d)
  {
  }

  lemma CallKeepsCall(s: State, c: CallId, step: CallStep, d: CallId)
    requires Beside(s, c, d) && ApplyCall(s, c, step).Some?
    ensures GoodCall(ApplyCall(s, c, step).value, d)
  {
    if step != Begin {
      if SendStep(s, c, s.calls[c], step).Some? {
        SendKeepsCall(s, c, step, d);
      } else {
        WaitKeepsCall(s, c, step, d);
      }
    }
  }

  lemma WritesStayIncreasing(written: seq<Corr>, k: Corr)
    requires Increasing(written) && Above(written, k)
    ensures Increasing(written + [k])
  {
    forall i, j | 0 <= i < j < |written| + 1
      ensures (written + [k])[i] < (written + [k])[j]
    {
      if j == |written| && i < j - 1 {
        assert written[i] < written[j - 1];
      }
    }
  }

  lemma CallKeepsOrder(s: State, c: CallId, step: CallStep)
    requires Around(s, c, s.nextCorr) && ApplyCall(s, c, step).Some?
    requires c in s.calls && Owned(s.calls[c]).Some? ==> GoodCorr(s, Owned(s.calls[c]).value)
    requires Increasing(s.written)
    ensures Increasing(ApplyCall(s, c, step).value.written)
  {
    if step == FinishWrite {
      WritesStayIncreasing(s.written, s.calls[c].corr);
    }
  }

  lemma CallKeepsReader(s: State, c: CallId, step: CallStep)
    requires GoodReader(s) && GoodCorr(s, s.nextCorr) && ApplyCall(s, c, step).Some?
    requires s.reader.Delivering? ==> GoodCorr(s, s.reader.corr)
    ensures GoodReader(ApplyCall(s, c, step).value)
  {
  }

  lemma CallKeepsRest(s: State, c: CallId, step: CallStep)
    requires Inv(s) && ApplyCall(s, c, step).Some?
    ensures GoodReader(ApplyCall(s, c, step).value) && Increasing(ApplyCall(s, c, step).value.written)
  {
    assert GoodCorr(s, s.nextCorr) && Around(s, c, s.nextCorr);
    if c in s.calls && Owned(s.calls[c]).Some? {
      assert GoodCorr(s, Owned(s.calls[c]).value);
    }
    if s.reader.Delivering? {
      assert GoodCorr(s, s.reader.corr);
    }
    CallKeepsOrder(s, c, step);
    CallKeepsReader(s, c, step);
  }

  // ----- The reader keeps it

  lemma LookingKeepsCorr(s: State, read: ReaderStep, k: Corr)
    requires GoodCorr(s, k) && GoodReader(s) && ApplyReader(s, read).Some?
    requires read.Arrive? || read == LookUp
    ensures GoodCorr(ApplyReader(s, read).value, k)
  {
  }

  lemma AnsweringKeepsCorr(s: State, read: ReaderStep, k: Corr)
    requires GoodCorr(s, k) && GoodReader(s) && ApplyReader(s, read).Some?
    requires read == Deliver || read == CheckTombstone || read == Break || read == Report || read == ClearPending
    ensures GoodCorr(ApplyReader(s, read).value, k)
  {
  }

  lemma ReaderKeepsCorr(s: State, read: ReaderStep, k: Corr)
    requires GoodCorr(s, k) && GoodReader(s) && ApplyReader(s, read).Some?
    ensures GoodCorr(ApplyReader(s, read).value, k)
  {
    if read.Arrive? || read == LookUp {
      LookingKeepsCorr(s, read, k);
    } else {
      AnsweringKeepsCorr(s, read, k);
    }
  }

  lemma ReaderKeepsCall(s: State, read: ReaderStep, d: CallId)
    requires GoodCall(s, d) && GoodReader(s) && ApplyReader(s, read).Some?
    ensures GoodCall(ApplyReader(s, read).value, d)
  {
  }

  lemma ReaderKeepsRest(s: State, read: ReaderStep)
    requires Inv(s) && ApplyReader(s, read).Some?
    ensures GoodReader(ApplyReader(s, read).value) && Increasing(ApplyReader(s, read).value.written)
  {
    if s.reader.Looking? {
      assert GoodCorr(s, s.reader.corr);
    }
  }

  lemma StepKeepsInv(s: State, a: Action)
    requires Inv(s) && Apply(s, a).Some?
    ensures Inv(Apply(s, a).value)
  {
    match a
    case ByCall(c, step) =>
      CallKeepsRest(s, c, step);
      forall k
        ensures GoodCorr(ApplyCall(s, c, step).value, k)
      {
        assert Around(s, c, k);
        CallKeepsCorr(s, c, step, k);
      }
      forall d
        ensures GoodCall(ApplyCall(s, c, step).value, d)
      {
        assert Beside(s, c, d);
        CallKeepsCall(s, c, step, d);
      }
    case ByReader(read) =>
      ReaderKeepsRest(s, read);
      forall k
        ensures GoodCorr(ApplyReader(s, read).value, k)
      {
        assert GoodCorr(s, k);
        ReaderKeepsCorr(s, read, k);
      }
      forall d
        ensures GoodCall(ApplyReader(s, read).value, d)
      {
        assert GoodCall(s, d);
        ReaderKeepsCall(s, read, d);
      }
  }

  lemma {:induction false} EveryRunKeepsInv(run: seq<Action>)
    requires After(run).Some?
    ensures Inv(After(run).value)
  {
    if run != [] {
      EveryRunKeepsInv(run[..|run| - 1]);
      StepKeepsInv(After(run[..|run| - 1]).value, run[|run| - 1]);
    }
  }

  // ----- What every run guarantees

  /** The first terminal of a fully written correlation is never reported unknown. */
  lemma FirstTerminalIsNeverUnknown(run: seq<Action>)
    requires After(run).Some?
    ensures After(run).value.reader.Unknown? ==> !After(run).value.reader.first
  {
    EveryRunKeepsInv(run);
  }

  /** A reply a call returns is the terminal of the correlation that call was handed, and nobody else's. */
  lemma RepliesReachTheirOwnCaller(run: seq<Action>, c: CallId)
    requires After(run).Some?
    requires c in After(run).value.calls
    requires var phase := After(run).value.calls[c]; phase.Done? && phase.outcome.Reply?
    ensures
      var s := After(run).value;
      var phase := s.calls[c];
      && phase.owned == Some(phase.outcome.frame)
      && forall d | d in s.calls && d != c :: Owned(s.calls[d]) != Some(phase.outcome.frame)
  {
    EveryRunKeepsInv(run);
    var s := After(run).value;
    assert GoodCall(s, c);
    forall d | d in s.calls && d != c
      ensures Owned(s.calls[d]) != Some(s.calls[c].outcome.frame)
    {
      assert GoodCall(s, d);
    }
  }

  /** Correlations leave the writer in strictly increasing order. */
  lemma CorrelationsLeaveInOrder(run: seq<Action>)
    requires After(run).Some?
    ensures Increasing(After(run).value.written)
  {
    EveryRunKeepsInv(run);
  }

  // ----- Replies are handed over

  /** A terminal found in `pending` is on its way to a caller that still listens, or in its inbox. */
  ghost predicate Handed(s: State, k: Corr)
    requires k in s.owners && s.owners[k] in s.calls
  {
    var c := s.owners[k];
    Listening(s.calls[c]) && s.reader != Delivering(k, c) ==> c in s.inbox && s.inbox[c] == k
  }

  /** The call this correlation was handed to has its terminal, or has returned it. */
  ghost predicate HasReply(s: State, k: Corr) {
    && k in s.owners && s.owners[k] in s.calls
    && var c := s.owners[k];
       (c in s.inbox && s.inbox[c] == k) || (s.calls[c].Done? && s.calls[c].outcome == Reply(k))
  }

  /** Where a correlation's entry in `pending` and its terminal stand. */
  ghost predicate Routed(s: State, k: Corr) {
    && (k in s.pending || k in s.taken ==> k in s.owners && s.owners[k] in s.calls && !s.calls[s.owners[k]].Allocated?)
    && (k in s.pending ==>
          var phase := s.calls[s.owners[k]];
          k !in s.taken && (Expecting(phase) || (phase.Done? && phase.outcome == Transport)))
    && (k in s.taken ==> k in s.received && Handed(s, k))
    && (HasReply(s, k) ==> k in s.taken)
    && (s.reader.Delivering? && s.reader.corr == k ==> k in s.taken)
  }

  /** The facts about a state that one step and one correlation's route involve. */
  ghost predicate OnRoute(s: State, c: CallId, k: Corr) {
    && Routed(s, k) && GoodCorr(s, k) && GoodCall(s, c) && GoodCorr(s, s.nextCorr) && Routed(s, s.nextCorr)
    && (c in s.inbox ==> GoodCorr(s, s.inbox[c]))
  }

  lemma AllocatingKeepsRoute(s: State, c: CallId, k: Corr)
    requires OnRoute(s, c, k) && c in s.calls && SendStep(s, c, s.calls[c], Allocate).Some?
    ensures Routed(SendStep(s, c, s.calls[c], Allocate).value, k)
  {
  }

  lemma RegisteringKeepsRoute(s: State, c: CallId, k: Corr)
    requires OnRoute(s, c, k) && c in s.calls && SendStep(s, c, s.calls[c], Register).Some?
    ensures Routed(SendStep(s, c, s.calls[c], Register).value, k)
  {
  }

  lemma WritingKeepsRoute(s: State, c: CallId, step: CallStep, k: Corr)
    requires OnRoute(s, c, k) && c in s.calls && SendStep(s, c, s.calls[c], step).Some?
    requires step == FailWrite || step == FinishWrite || step == Unlock
    ensures Routed(SendStep(s, c, s.calls[c], step).value, k)
  {
  }

  lemma LeavingKeepsRoute(s: State, c: CallId, step: CallStep, k: Corr)
    requires OnRoute(s, c, k) && c in s.calls && SendStep(s, c, s.calls[c], step).Some?
    requires step == Expire || step == Lock || step == RefuseBody
    ensures Routed(SendStep(s, c, s.calls[c], step).value, k)
  {
  }

  lemma SendKeepsRoute(s: State, c: CallId, step: CallStep, k: Corr)
    requires OnRoute(s, c, k) && c in s.calls && SendStep(s, c, s.calls[c], step).Some?
    ensures Routed(SendStep(s, c, s.calls[c], step).value, k)
  {
    match step
    case Allocate => AllocatingKeepsRoute(s, c, k);
    case Register => RegisteringKeepsRoute(s, c, k);
    case Expire => LeavingKeepsRoute(s, c, step, k);
    case Lock => LeavingKeepsRoute(s, c, step, k);
    case RefuseBody => LeavingKeepsRoute(s, c, step, k);
    case _ => WritingKeepsRoute(s, c, step, k);
  }

  lemma EndingKeepsRoute(s: State, c: CallId, step: CallStep, k: Corr)
    requires OnRoute(s, c, k) && c in s.calls && WaitStep(s, c, s.calls[c], step).Some?
    requires step == TakeReply || step == HangUp || step == GiveUp
    ensures Routed(WaitStep(s, c, s.calls[c], step).value, k)
  {
  }

  lemma BuryingKeepsRoute(s: State, c: CallId, step: CallStep, k: Corr)
    requires OnRoute(s, c, k) && c in s.calls && WaitStep(s, c, s.calls[c], step).Some?
    requires step == Entomb || step == Forget || step == Finish
    ensures Routed(WaitStep(s, c, s.calls[c], step).value, k)
  {
  }

  lemma CallKeepsRoute(s: State, c: CallId, step: CallStep, k: Corr)
    requires OnRoute(s, c, k) && ApplyCall(s, c, step).Some?
    ensures Routed(ApplyCall(s, c, step).value, k)
  {
    if step != Begin {
      if SendStep(s, c, s.calls[c], step).Some? {
        SendKeepsRoute(s, c, step, k);
      } else if step == Entomb || step == Forget || step == Finish {
        BuryingKeepsRoute(s, c, step, k);
      } else {
        EndingKeepsRoute(s, c, step, k);
      }
    }
  }

  lemma ReaderKeepsRoute(s: State, read: ReaderStep, k: Corr)
    requires Routed(s, k) && GoodCorr(s, k) && GoodReader(s) && ApplyReader(s, read).Some?
    requires s.reader.Delivering? ==> GoodCorr(s, s.reader.corr)
    ensures Routed(ApplyReader(s, read).value, k)
  {
  }

  ghost predicate RouteInv(s: State) {
    forall k {:trigger Routed(s, k)} :: Routed(s, k)
  }

  lemma StepKeepsRoutes(s: State, a: Action)
    requires Inv(s) && RouteInv(s) && Apply(s, a).Some?
    ensures RouteInv(Apply(s, a).value)
  {
    forall k
      ensures Routed(Apply(s, a).value, k)
    {
      assert Routed(s, k) && GoodCorr(s, k) && GoodCorr(s, s.nextCorr) && Routed(s, s.nextCorr);
      match a {
        case ByCall(c, step) =>
          assert GoodCall(s, c) && (c in s.inbox ==> GoodCorr(s, s.inbox[c]));
          CallKeepsRoute(s, c, step, k);
        case ByReader(read) =>
          if s.reader.Delivering? {
            assert GoodCorr(s, s.reader.corr);
          }
          ReaderKeepsRoute(s, read, k);
      }
    }
  }

  lemma {:induction false} EveryRunKeepsRoutes(run: seq<Action>)
    requires After(run).Some?
    ensures RouteInv(After(run).value)
  {
    if run != [] {
      EveryRunKeepsRoutes(run[..|run| - 1]);
      EveryRunKeepsInv(run[..|run| - 1]);
      StepKeepsRoutes(After(run[..|run| - 1]).value, run[|run| - 1]);
    }
  }

  /**
    A terminal the reader has found in `pending` reaches the call that waits for it: unless the reader
    is about to hand it over, it is in that call's inbox, the call can take it and return it, and it can
    neither hang up nor give up.
   */
  lemma AnsweredCallsGetTheirReply(run: seq<Action>, k: Corr)
    requires After(run).Some?
    requires
      var s := After(run).value;
      k in s.taken && k in s.owners && s.owners[k] in s.calls && s.calls[s.owners[k]] == Waiting(k)
    requires !(After(run).value.reader.Delivering? && After(run).value.reader.corr == k)
    ensures
      var s := After(run).value;
      var c := s.owners[k];
      && c in s.inbox && s.inbox[c] == k
      && ApplyCall(s, c, HangUp).None? && ApplyCall(s, c, GiveUp).None?
      && ApplyCall(s, c, TakeReply) == Some(Move(s, c, Done(Some(k), Reply(k))))
  {
    EveryRunKeepsRoutes(run);
    assert Routed(After(run).value, k);
  }

  /** A reply that a call returned had been read, and found in `pending`. */
  lemma ReturnedRepliesWereRead(run: seq<Action>, c: CallId)
    requires After(run).Some?
    requires c in After(run).value.calls
    requires var phase := After(run).value.calls[c]; phase.Done? && phase.outcome.Reply?
    ensures var s := After(run).value; s.calls[c].outcome.frame in s.taken * s.received
  {
    EveryRunKeepsInv(run);
    EveryRunKeepsRoutes(run);
    var s := After(run).value;
    assert GoodCall(s, c) && Routed(s, s.calls[c].outcome.frame);
  }

  /** Only a call that is still to be answered, or that failed before its deadline, leaves an entry in `pending`. */
  lemma PendingHoldsOnlyLiveCalls(run: seq<Action>, k: Corr)
    requires After(run).Some? && k in After(run).value.pending
    ensures
      var s := After(run).value;
      && k in s.owners && s.owners[k] in s.calls
      && var phase := s.calls[s.owners[k]];
         Expecting(phase) || (phase.Done? && phase.outcome == Transport)
  {
    EveryRunKeepsRoutes(run);
    assert Routed(After(run).value, k);
  }

  /** An entry in `pending` outlives its call, which never hears of it. */
  predicate Leaked(s: State, k: Corr) {
    && k in s.pending && k in s.owners && s.owners[k] in s.calls
    && s.calls[s.owners[k]].Done?
  }

  lemma OthersKeepTheirPhase(s: State, c: CallId, step: CallStep, d: CallId)
    requires ApplyCall(s, c, step).Some? && d in s.calls && d != c
    ensures var after := ApplyCall(s, c, step).value; d in after.calls && after.calls[d] == s.calls[d]
  {
  }

  /** A step of its own call ends it with its entry still there. */
  lemma LeaksWhenRefused(s: State, step: CallStep, k: Corr)
    requires k in s.owners && s.owners[k] in s.calls && k in s.pending && Routed(s, k) && GoodCorr(s, k)
    requires var c := s.owners[k]; GoodCall(s, c) && (c in s.inbox ==> GoodCorr(s, s.inbox[c]))
    requires ApplyCall(s, s.owners[k], step).Some? && Leaked(ApplyCall(s, s.owners[k], step).value, k)
    requires !s.calls[s.owners[k]].Done?
    ensures step == RefuseBody
  {
  }

  lemma PendingGrowsOnRegister(s: State, c: CallId, step: CallStep, k: Corr)
    requires ApplyCall(s, c, step).Some? && k in ApplyCall(s, c, step).value.pending && k !in s.pending
    ensures c in s.calls && s.calls[c] == Allocated(k)
    ensures var after := ApplyCall(s, c, step).value; after.calls[c] == Registered(k) && after.owners == s.owners
  {
  }

  lemma OwnersAreKept(s: State, c: CallId, step: CallStep, k: Corr)
    requires ApplyCall(s, c, step).Some? && k in s.owners && k != s.nextCorr
    ensures var after := ApplyCall(s, c, step).value; k in after.owners && after.owners[k] == s.owners[k]
  {
  }

  lemma StillPending(s: State, c: CallId, step: CallStep, k: Corr)
    requires GoodCorr(s, k) && (c in s.calls ==> GoodCall(s, c))
    requires ApplyCall(s, c, step).Some? && Leaked(ApplyCall(s, c, step).value, k)
    ensures k in s.pending && k in s.owners && s.owners[k] in s.calls
    ensures s.owners[k] == ApplyCall(s, c, step).value.owners[k]
  {
    if k in s.pending {
      OwnersAreKept(s, c, step, k);
    } else {
      PendingGrowsOnRegister(s, c, step, k);
      assert false;
    }
  }

  lemma LeakIsOldOrRefused(s: State, a: Action, k: Corr)
    requires Inv(s) && RouteInv(s) && Apply(s, a).Some? && Leaked(Apply(s, a).value, k)
    ensures k in s.owners && s.owners[k] == Apply(s, a).value.owners[k]
    ensures Leaked(s, k) || a == ByCall(s.owners[k], RefuseBody)
  {
    assert GoodCorr(s, k) && Routed(s, k);
    match a
    case ByReader(read) =>
    case ByCall(c, step) =>
      assert GoodCall(s, c);
      StillPending(s, c, step, k);
      if c != s.owners[k] {
        OthersKeepTheirPhase(s, c, step, s.owners[k]);
      } else if !s.calls[c].Done? {
        assert GoodCall(s, c) && (c in s.inbox ==> GoodCorr(s, s.inbox[c]));
        LeaksWhenRefused(s, step, k);
      }
  }

  /** Only a call whose body was refused leaves an entry in `pending` behind. */
  lemma {:induction false} OnlyRefusedBodiesLeak(run: seq<Action>, k: Corr)
    requires After(run).Some? && Leaked(After(run).value, k)
    ensures ByCall(After(run).value.owners[k], RefuseBody) in run
  {
    if run != [] {
      var most, a := run[..|run| - 1], run[|run| - 1];
      EveryRunKeepsInv(most);
      EveryRunKeepsRoutes(most);
      LeakIsOldOrRefused(After(most).value, a, k);
      if Leaked(After(most).value, k) {
        OnlyRefusedBodiesLeak(most, k);
      }
      assert run == most + [a];
    }
  }

  // ----- A dead wire

  lemma CallsLeaveTheReader(s: State, c: CallId, step: CallStep)
    requires ApplyCall(s, c, step).Some?
    ensures var after := ApplyCall(s, c, step).value; after.reader == s.reader && after.readerError == s.readerError
  {
  }

  /** The error the callers look at is set once the reader has reported it, and only then. */
  lemma {:induction false} ReaderErrorIsTheReport(run: seq<Action>)
    requires After(run).Some?
    ensures var s := After(run).value; s.readerError <==> s.reader.Reported? || s.reader.Stopped?
  {
    if run != [] {
      var s := After(run[..|run| - 1]).value;
      ReaderErrorIsTheReport(run[..|run| - 1]);
      match run[|run| - 1] {
        case ByCall(c, step) => CallsLeaveTheReader(s, c, step);
        case ByReader(read) =>
      }
    }
  }

  lemma OwnStepOnDeadWire(s: State, c: CallId, step: CallStep)
    requires s.readerError && ApplyCall(s, c, step).Some?
    ensures
      var after := ApplyCall(s, c, step).value;
      && c in after.calls
      && (c !in s.calls ==> after.calls[c] == Done(None, Transport))
      && (c in s.calls && after.calls[c].Done? ==> after.calls[c].outcome != Timeout || s.calls[c] == after.calls[c])
  {
  }

  lemma OthersKeepOut(s: State, d: CallId, step: CallStep, c: CallId)
    requires ApplyCall(s, d, step).Some? && c !in s.calls && c != d
    ensures c !in ApplyCall(s, d, step).value.calls
  {
  }

  lemma ReaderLeavesTheCalls(s: State, read: ReaderStep)
    requires ApplyReader(s, read).Some?
    ensures ApplyReader(s, read).value.calls == s.calls
  {
  }

  /** From then on a new call fails at once, and none that is under way ends in a timeout. */
  lemma DeadWireNeverTimesOut(s: State, a: Action, c: CallId)
    requires s.readerError && Apply(s, a).Some? && c in Apply(s, a).value.calls
    ensures
      var after := Apply(s, a).value.calls[c];
      if c !in s.calls then after == Done(None, Transport)
      else after.Done? && after.outcome == Timeout ==> s.calls[c] == after
  {
    match a
    case ByCall(d, step) =>
      if c == d {
        OwnStepOnDeadWire(s, c, step);
      } else if c in s.calls {
        OthersKeepTheirPhase(s, d, step, c);
      } else {
        OthersKeepOut(s, d, step, c);
      }
    case ByReader(read) => ReaderLeavesTheCalls(s, read);
  }

  /** And whoever waits without a reply when the reader lets go of `pending` can hang up. */
  lemma ClearedCallsCanHangUp(run: seq<Action>, c: CallId)
    requires run != [] && run[|run| - 1] == ByReader(ClearPending) && After(run).Some?
    requires c in After(run).value.calls && After(run).value.calls[c].Waiting? && c !in After(run).value.inbox
    ensures
      var s := After(run).value;
      ApplyCall(s, c, HangUp) == Some(Move(s, c, Done(Some(s.calls[c].corr), Transport)))
  {
  }

  // ----- Exactly when a tombstone is stale

  /** The call gave up on its reply and left a tombstone behind. */
  predicate Buried(phase: Phase) {
    phase.Tombstoned? || phase.Forgotten? || (phase.Done? && phase.outcome == Timeout)
  }

  /** The call this correlation was handed to gave up on it. */
  predicate GivenUp(s: State, k: Corr) {
    k in s.owners && s.owners[k] in s.calls && Buried(s.calls[s.owners[k]])
  }

  /** The reader has reported no violation. */
  predicate Healthy(s: State) {
    s.reader.Reading? || s.reader.Looking? || s.reader.Delivering? || s.reader.Missed?
  }

  /** The reader is looking for this correlation and has not found it. */
  predicate Sought(s: State, k: Corr) {
    (s.reader.Looking? || s.reader.Missed?) && s.reader.corr == k
  }

  /** The call waits for its terminal, or is giving up on it. */
  predicate Expecting(phase: Phase) {
    phase.Registered? || phase.Sent? || phase.Waiting? || phase.GaveUp? || phase.Tombstoned?
  }

  /** The terminal of this correlation came and was not handed over: its tombstone absorbed it. */
  predicate Absorbed(s: State, k: Corr) {
    k in s.received && k !in s.taken && !Sought(s, k)
  }

  /** Where a correlation's tombstone stands while no terminal has arrived twice. */
  ghost predicate TombKept(s: State, k: Corr) {
    && (k in s.pending || k in s.taken ==> k in s.owners && s.owners[k] in s.calls && !s.calls[s.owners[k]].Allocated?)
    && (k in s.taken ==> k in s.received && k !in s.pending && !Sought(s, k))
    && (Sought(s, k) ==> k in s.received)
    && (k in s.tombstones ==> GivenUp(s, k))
    && (GivenUp(s, k) ==> (k in s.tombstones <==> !Absorbed(s, k)))
    && (Absorbed(s, k) ==> GivenUp(s, k))
    && (k in s.owners && s.owners[k] in s.calls && Expecting(s.calls[s.owners[k]]) ==> k in s.pending || k in s.taken)
  }

  /** The facts about a state that one step and one tombstone involve. */
  ghost predicate Near(s: State, c: CallId, k: Corr) {
    && Healthy(s) && !s.readerError && TombKept(s, k)
    && GoodCorr(s, k) && GoodCall(s, c) && GoodCorr(s, s.nextCorr)
  }

  lemma QueueingKeepsTomb(s: State, c: CallId, step: CallStep, k: Corr)
    requires Near(s, c, k) && c in s.calls && SendStep(s, c, s.calls[c], step).Some?
    requires step == Expire || step == Lock || step == Unlock
    ensures TombKept(SendStep(s, c, s.calls[c], step).value, k)
  {
  }

  lemma AllocatingKeepsTomb(s: State, c: CallId, k: Corr)
    requires Near(s, c, k) && c in s.calls && SendStep(s, c, s.calls[c], Allocate).Some?
    ensures TombKept(SendStep(s, c, s.calls[c], Allocate).value, k)
  {
  }

  lemma RegisteringKeepsTomb(s: State, c: CallId, k: Corr)
    requires Near(s, c, k) && c in s.calls && SendStep(s, c, s.calls[c], Register).Some?
    ensures TombKept(SendStep(s, c, s.calls[c], Register).value, k)
  {
  }

  lemma WritingKeepsTomb(s: State, c: CallId, step: CallStep, k: Corr)
    requires Near(s, c, k) && c in s.calls && SendStep(s, c, s.calls[c], step).Some?
    requires step == RefuseBody || step == FailWrite || step == FinishWrite
    ensures TombKept(SendStep(s, c, s.calls[c], step).value, k)
  {
  }

  lemma SendKeepsTomb(s: State, c: CallId, step: CallStep, k: Corr)
    requires Near(s, c, k) && c in s.calls && SendStep(s, c, s.calls[c], step).Some?
    ensures TombKept(SendStep(s, c, s.calls[c], step).value, k)
  {
    match step
    case Allocate => AllocatingKeepsTomb(s, c, k);
    case Register => RegisteringKeepsTomb(s, c, k);
    case Expire => QueueingKeepsTomb(s, c, step, k);
    case Lock => QueueingKeepsTomb(s, c, step, k);
    case Unlock => QueueingKeepsTomb(s, c, step, k);
    case _ => WritingKeepsTomb(s, c, step, k);
  }

  lemma WaitingKeepsTomb(s: State, c: CallId, step: CallStep, k: Corr)
    requires Near(s, c, k) && c in s.calls && WaitStep(s, c, s.calls[c], step).Some?
    requires step == TakeReply || step == HangUp || step == GiveUp || step == Finish
    ensures TombKept(WaitStep(s, c, s.calls[c], step).value, k)
  {
  }

  lemma EntombingKeepsTomb(s: State, c: CallId, k: Corr)
    requires Near(s, c, k) && c in s.calls && WaitStep(s, c, s.calls[c], Entomb).Some?
    ensures TombKept(WaitStep(s, c, s.calls[c], Entomb).value, k)
  {
  }

  lemma ForgettingKeepsTomb(s: State, c: CallId, k: Corr)
    requires Near(s, c, k) && c in s.calls && WaitStep(s, c, s.calls[c], Forget).Some?
    ensures TombKept(WaitStep(s, c, s.calls[c], Forget).value, k)
  {
  }

  lemma CallKeepsTomb(s: State, c: CallId, step: CallStep, k: Corr)
    requires Near(s, c, k) && ApplyCall(s, c, step).Some?
    ensures var after := ApplyCall(s, c, step).value; after.reader == s.reader && after.readerError == s.readerError
    ensures TombKept(ApplyCall(s, c, step).value, k)
  {
    if step != Begin {
      if SendStep(s, c, s.calls[c], step).Some? {
        SendKeepsTomb(s, c, step, k);
      } else if step == Entomb {
        EntombingKeepsTomb(s, c, k);
      } else if step == Forget {
        ForgettingKeepsTomb(s, c, k);
      } else {
        WaitingKeepsTomb(s, c, step, k);
      }
    }
  }

  lemma ReaderKeepsTomb(s: State, read: ReaderStep, k: Corr)
    requires Healthy(s) && !s.readerError && TombKept(s, k) && GoodCorr(s, k) && ApplyReader(s, read).Some?
    requires s.reader.Looking? || s.reader.Missed? ==> TombKept(s, s.reader.corr)
    requires read.Arrive? ==> read.corr !in s.received
    ensures Healthy(ApplyReader(s, read).value) ==> TombKept(ApplyReader(s, read).value, k)
    ensures Healthy(ApplyReader(s, read).value) ==> !ApplyReader(s, read).value.readerError
  {
  }

  /** The invariant on tombstones. */
  ghost predicate TombInv(s: State) {
    Healthy(s) ==> !s.readerError && forall k {:trigger TombKept(s, k)} :: TombKept(s, k)
  }

  lemma StepKeepsTombs(s: State, a: Action)
    requires Inv(s) && TombInv(s) && Apply(s, a).Some?
    requires a.ByReader? && a.read.Arrive? ==> a.read.corr !in s.received
    ensures TombInv(Apply(s, a).value)
  {
    var after := Apply(s, a).value;
    if Healthy(s) && Healthy(after) {
      assert GoodCorr(s, s.nextCorr);
      forall k
        ensures TombKept(after, k) && !after.readerError
      {
        assert TombKept(s, k) && GoodCorr(s, k);
        match a {
          case ByCall(c, step) =>
            assert GoodCall(s, c);
            CallKeepsTomb(s, c, step, k);
          case ByReader(read) =>
            ReaderKeepsTomb(s, read, k);
        }
      }
    } else if Healthy(after) {
      StaysBroken(s, a);
    }
  }

  lemma StaysBroken(s: State, a: Action)
    requires !Healthy(s) && Apply(s, a).Some?
    ensures !Healthy(Apply(s, a).value)
  {
  }

  /** No correlation's terminal arrives twice. */
  ghost predicate ArrivesOnce(run: seq<Action>) {
    forall i, j | 0 <= i < j < |run| && run[i].ByReader? && run[i].read.Arrive? :: run[i] != run[j]
  }

  lemma ArrivalIsReceived(s: State, a: Action, k: Corr)
    requires Apply(s, a).Some?
    ensures k in Apply(s, a).value.received <==> k in s.received || a == ByReader(Arrive(k))
  {
    match a
    case ByCall(c, step) =>
      assert Apply(s, a).value.received == s.received;
    case ByReader(read) =>
  }

  lemma {:induction false} ReceivedArrived(run: seq<Action>, k: Corr)
    requires After(run).Some?
    ensures k in After(run).value.received <==> ByReader(Arrive(k)) in run
  {
    if run != [] {
      var most, a := run[..|run| - 1], run[|run| - 1];
      ReceivedArrived(most, k);
      ArrivalIsReceived(After(most).value, a, k);
      InLonger(most, a, run, ByReader(Arrive(k)));
    }
  }

  lemma InLonger(most: seq<Action>, a: Action, run: seq<Action>, b: Action)
    requires run == most + [a]
    ensures b in run <==> b in most || b == a
  {
  }

  lemma {:induction false} EveryRunKeepsTombs(run: seq<Action>)
    requires After(run).Some? && ArrivesOnce(run)
    ensures TombInv(After(run).value)
  {
    if run != [] {
      var last := |run| - 1;
      EveryRunKeepsTombs(run[..last]);
      EveryRunKeepsInv(run[..last]);
      if run[last].ByReader? && run[last].read.Arrive? {
        ReceivedArrived(run[..last], run[last].read.corr);
      }
      StepKeepsTombs(After(run[..last]).value, run[last]);
    }
  }

  /**
    Between frames, a correlation whose terminal has been read has a tombstone exactly when the reader
    handed the terminal over and the call gave up all the same.
   */
  lemma TombstoneIsStaleExactly(run: seq<Action>, k: Corr)
    requires After(run).Some? && ArrivesOnce(run)
    requires After(run).value.reader == Reading && k in After(run).value.received
    ensures
      var s := After(run).value;
      k in s.tombstones <==> k in s.taken && GivenUp(s, k)
  {
    EveryRunKeepsTombs(run);
    assert TombKept(After(run).value, k);
  }

  /**
    So between frames only calls without a terminal have left a tombstone exactly when no call gave up
    on a terminal the reader had found in `pending`.
   */
  lemma OnlyUnansweredLeaveTombstones(run: seq<Action>)
    requires After(run).Some? && ArrivesOnce(run) && After(run).value.reader == Reading
    ensures
      var s := After(run).value;
      (forall k | k in s.tombstones :: k !in s.received)
      <==> (forall c | c in s.calls && Buried(s.calls[c]) && Owned(s.calls[c]).Some? ::
              Owned(s.calls[c]).value !in s.taken)
  {
    var s := After(run).value;
    EveryRunKeepsTombs(run);
    EveryRunKeepsInv(run);
    if forall c | c in s.calls && Buried(s.calls[c]) && Owned(s.calls[c]).Some? :: Owned(s.calls[c]).value !in s.taken {
      forall k | k in s.tombstones
        ensures k !in s.received
      {
        assert TombKept(s, k) && GoodCorr(s, k);
      }
    }
    if forall k | k in s.tombstones :: k !in s.received {
      forall c | c in s.calls && Buried(s.calls[c]) && Owned(s.calls[c]).Some?
        ensures Owned(s.calls[c]).value !in s.taken
      {
        assert GoodCall(s, c) && TombKept(s, Owned(s.calls[c]).value);
      }
    }
  }

  /** The caller could tell: its tombstone is stale exactly when it finds nothing left to remove from `pending`. */
  lemma ForgetTellsStale(run: seq<Action>, c: CallId)
    requires After(run).Some? && ArrivesOnce(run) && Healthy(After(run).value)
    requires c in After(run).value.calls && After(run).value.calls[c].Tombstoned?
    ensures
      var s := After(run).value;
      var k := s.calls[c].corr;
      k in s.taken <==> k !in s.pending
  {
    var s := After(run).value;
    EveryRunKeepsTombs(run);
    EveryRunKeepsInv(run);
    assert GoodCall(s, c) && TombKept(s, s.calls[c].corr);
  }

  // ----- A late terminal

  /** The call this correlation was handed to has given up on it for good. */
  predicate Gone(s: State, k: Corr) {
    && k in s.owners && s.owners[k] in s.calls
    && var phase := s.calls[s.owners[k]];
       phase.Forgotten? || (phase.Done? && phase.outcome == Timeout)
  }

  lemma CallKeepsGone(s: State, c: CallId, step: CallStep, k: Corr)
    requires ApplyCall(s, c, step).Some? && Gone(s, k) && k != s.nextCorr && !s.readerError
    ensures Gone(ApplyCall(s, c, step).value, k)
  {
    if step != Begin && s.owners[k] != c {
      OthersKeepTheirPhase(s, c, step, s.owners[k]);
    }
  }

  lemma StepKeepsGone(s: State, a: Action, k: Corr)
    requires Apply(s, a).Some? && Gone(s, k) && GoodCorr(s, k) && !s.readerError
    ensures Gone(Apply(s, a).value, k)
  {
    match a
    case ByCall(c, step) => CallKeepsGone(s, c, step, k);
    case ByReader(read) =>
  }

  lemma StepKeepsUntaken(s: State, a: Action, k: Corr)
    requires Apply(s, a).Some? && k !in s.taken && k !in s.pending
    ensures k !in Apply(s, a).value.taken
  {
  }

  lemma GoneIsNotPending(s: State, k: Corr)
    requires Routed(s, k) && Gone(s, k)
    ensures k !in s.pending
  {
  }

  /** From the arrival of a terminal nobody waits for, nobody is given it. */
  lemma {:induction false} LateTerminalStaysUntaken(run: seq<Action>, i: nat, k: Corr)
    requires After(run).Some? && ArrivesOnce(run) && Healthy(After(run).value)
    requires i < |run| && run[i] == ByReader(Arrive(k))
    requires After(run[..i]).Some? && Gone(After(run[..i]).value, k)
    ensures Gone(After(run).value, k) && k !in After(run).value.taken
  {
    var last := |run| - 1;
    var s := After(run[..last]).value;
    if !Healthy(s) {
      StaysBroken(s, run[last]);
    }
    EveryRunKeepsInv(run[..last]);
    EveryRunKeepsRoutes(run[..last]);
    EveryRunKeepsTombs(run[..last]);
    assert GoodCorr(s, k) && Routed(s, k);
    if i < last {
      assert run[..last][..i] == run[..i];
      LateTerminalStaysUntaken(run[..last], i, k);
    } else {
      ReceivedArrived(run[..last], k);
    }
    GoneIsNotPending(s, k);
    StepKeepsGone(s, run[last], k);
    StepKeepsUntaken(s, run[last], k);
  }

  /**
    A terminal that comes after its call has given up is absorbed: the reader finds nothing in
    `pending` and the tombstone instead, and goes back to reading with the correlation in neither.
   */
  lemma LateTerminalIsAbsorbed(run: seq<Action>, i: nat, k: Corr)
    requires After(run).Some? && ArrivesOnce(run) && Healthy(After(run).value)
    requires i < |run| && run[i] == ByReader(Arrive(k))
    requires After(run[..i]).Some? && Gone(After(run[..i]).value, k)
    ensures
      var s := After(run).value;
      && k !in s.pending
      && (s.reader.Looking? && s.reader.corr == k ==>
            ApplyReader(s, LookUp) == Some(s.(reader := Missed(k, s.reader.first))))
      && (s.reader.Missed? && s.reader.corr == k ==>
            ApplyReader(s, CheckTombstone) == Some(s.(reader := Reading, tombstones := s.tombstones - {k})))
      && (s.reader == Reading ==> k !in s.tombstones)
  {
    var s := After(run).value;
    LateTerminalStaysUntaken(run, i, k);
    EveryRunKeepsRoutes(run);
    EveryRunKeepsTombs(run);
    ReceivedArrived(run, k);
    assert Routed(s, k) && TombKept(s, k);
    GoneIsNotPending(s, k);
  }

  // ----- Runs that show a leak and a stale tombstone

  lemma NothingDone() returns (run: seq<Action>, s: State)
    ensures s == INITIAL && After(run) == Some(s) && ArrivesOnce(run)
  {
    run, s := [], INITIAL;
  }

  lemma OneMoreAction(run: seq<Action>, s: State, a: Action) returns (longer: seq<Action>, after: State)
    requires After(run) == Some(s) && Apply(s, a).Some?
    requires ArrivesOnce(run) && (a.ByReader? && a.read.Arrive? ==> a.read.corr !in s.received)
    ensures After(longer) == Some(after) == Apply(s, a) && ArrivesOnce(longer)
  {
    longer, after := run + [a], Apply(s, a).value;
    assert longer[..|run|] == run;
    if a.ByReader? && a.read.Arrive? {
      ReceivedArrived(run, a.read.corr);
    }
  }

  /** Call 0 has a fully registered correlation of its own and nothing else has happened to it. */
  ghost predicate Alone(s: State, phase: Phase) {
    && 0 in s.calls && s.calls[0] == phase && 0 !in s.inbox && s.received == {}
    && !s.readerError && s.reader == Reading && s.nextCorr >= FIRST_CORR
    && s.writer == (if HoldsWriter(phase) then Some(0) else None)
    && (Owned(phase) == None ==> s.nextCorr == FIRST_CORR)
    && (Owned(phase) == Some(FIRST_CORR) && !phase.Allocated? ==> FIRST_CORR in s.pending && s.pending[FIRST_CORR] == 0)
  }

  /** One step of call 0 on its way to waiting. */
  lemma OneStepOn(run: seq<Action>, s: State, step: CallStep, phase: Phase, next: Phase)
    returns (longer: seq<Action>, after: State)
    requires After(run) == Some(s) && Alone(s, phase) && ArrivesOnce(run)
    requires
      || (step == Lock && phase == Queued && next == Locked)
      || (step == Allocate && phase == Locked && next == Allocated(FIRST_CORR))
      || (step == Register && phase == Allocated(FIRST_CORR) && next == Registered(FIRST_CORR))
      || (step == FinishWrite && phase == Registered(FIRST_CORR) && next == Sent(FIRST_CORR))
      || (step == Unlock && phase == Sent(FIRST_CORR) && next == Waiting(FIRST_CORR))
    ensures After(longer) == Some(after) && Alone(after, next) && ArrivesOnce(longer)
  {
    longer, after := OneMoreAction(run, s, ByCall(0, step));
  }

  /** Call 0 has the writer and its entry in `pending`. */
  lemma RunToRegistered() returns (run: seq<Action>, s: State)
    ensures After(run) == Some(s) && Alone(s, Registered(FIRST_CORR)) && ArrivesOnce(run)
  {
    run, s := NothingDone();
    run, s := OneMoreAction(run, s, ByCall(0, Begin));
    run, s := OneStepOn(run, s, Lock, Queued, Locked);
    run, s := OneStepOn(run, s, Allocate, Locked, Allocated(FIRST_CORR));
    run, s := OneStepOn(run, s, Register, Allocated(FIRST_CORR), Registered(FIRST_CORR));
  }

  /** A refused body does leave its entry behind. */
  lemma RefusedBodyLeaks() returns (run: seq<Action>, s: State)
    ensures After(run) == Some(s) && FIRST_CORR in s.pending
    ensures 0 in s.calls && s.calls[0] == Done(Some(FIRST_CORR), Transport) && s.writer == None
  {
    run, s := RunToRegistered();
    run, s := OneMoreAction(run, s, ByCall(0, RefuseBody));
  }

  /** Call 0 waits for the reply to its fully written frame. */
  lemma RunToWaiting() returns (run: seq<Action>, s: State)
    ensures After(run) == Some(s) && Alone(s, Waiting(FIRST_CORR)) && ArrivesOnce(run)
  {
    run, s := RunToRegistered();
    run, s := OneStepOn(run, s, FinishWrite, Registered(FIRST_CORR), Sent(FIRST_CORR));
    run, s := OneStepOn(run, s, Unlock, Sent(FIRST_CORR), Waiting(FIRST_CORR));
  }

  /** Call 0 gives up between the reader's look-up of its terminal and the delivery. */
  lemma RunToRace() returns (run: seq<Action>, s: State)
    ensures After(run) == Some(s) && 0 in s.calls && s.calls[0] == GaveUp(FIRST_CORR)
    ensures !s.readerError && s.reader == Reading && FIRST_CORR in s.received && ArrivesOnce(run)
  {
    run, s := RunToWaiting();
    run, s := OneMoreAction(run, s, ByReader(Arrive(FIRST_CORR)));
    run, s := OneMoreAction(run, s, ByReader(LookUp));
    run, s := OneMoreAction(run, s, ByCall(0, GiveUp));
    run, s := OneMoreAction(run, s, ByReader(Deliver));
  }

  /**
    The condition does fail: a timeout that races a delivery leaves a tombstone behind for a
    correlation whose terminal the reader has already handed over.
   */
  lemma TombstoneCanOutliveItsTerminal() returns (run: seq<Action>, s: State)
    ensures After(run) == Some(s) && ArrivesOnce(run)
    ensures s.reader == Reading && FIRST_CORR in s.received && FIRST_CORR in s.tombstones
    ensures 0 in s.calls && s.calls[0] == Done(Some(FIRST_CORR), Timeout)
  {
    run, s := RunToRace();
    run, s := OneMoreAction(run, s, ByCall(0, Entomb));
    run, s := OneMoreAction(run, s, ByCall(0, Forget));
    run, s := OneMoreAction(run, s, ByCall(0, Finish));
  }
}
