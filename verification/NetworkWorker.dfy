/** The network worker: the application task and the worker task share four
    slots and two queues. Each step below is one queue operation, one critical
    section or the one long call outside of any; the two tasks' steps interleave
    freely. */
module NetworkWorker {
  const SLOTS := 4

  datatype Job = Job(id: int, kind: int, request: int)

  datatype Reply = Reply(id: int, kind: int, answer: int)

  /** Where the application task stands between two steps. */
  datatype Caller = Idle | Claimed(slot: nat, job: Job) | Filled(slot: nat) | Refused(slot: nat) | Taking(slot: nat)

  /** Where the worker task stands. */
  datatype Task = Waiting | Received(slot: nat) | Executing(slot: nat) | Sending(slot: nat) | Sent(slot: nat) | Stopped

  datatype State = State(
    inUse: seq<bool>, jobs: seq<Job>, replies: seq<Reply>, pending: seq<nat>, results: seq<nat>,
    caller: Caller, task: Task, stop: bool,
    accepted: seq<Job>, delivered: seq<Reply>)

  /** `execute` answers a job with its own id and kind. */
  function Execute(call: Job -> int, job: Job): Reply {
    Reply(job.id, job.kind, call(job))
  }

  // ---------------------------------------------------------------------- steps

  /** The first slot not in use, if there is one. */
  ghost predicate FirstFree(inUse: seq<bool>, slot: nat) {
    slot < |inUse| && !inUse[slot] && forall i :: 0 <= i < slot ==> inUse[i]
  }

  // The application task: enqueue and poll.
  ghost predicate Claim(s: State, t: State) {
    s.caller.Idle? && !s.stop
    && (t == s
        || exists slot: nat, job :: FirstFree(s.inUse, slot)
             && t == s.(inUse := s.inUse[slot := true], caller := Claimed(slot, job)))
  }

  ghost predicate Fill(s: State, t: State) {
    s.caller.Claimed? && s.caller.slot < |s.jobs| && s.caller.slot < |s.inUse|
    && (t == s.(jobs := s.jobs[s.caller.slot := s.caller.job], caller := Filled(s.caller.slot))
        || t == s.(inUse := s.inUse[s.caller.slot := false], caller := Idle))
  }

  ghost predicate SendPending(s: State, t: State) {
    s.caller.Filled? && s.caller.slot < |s.jobs|
    && t == if |s.pending| < SLOTS
            then s.(pending := s.pending + [s.caller.slot], caller := Idle,
                    accepted := s.accepted + [s.jobs[s.caller.slot]])
            else s.(caller := Refused(s.caller.slot))
  }

  ghost predicate Unclaim(s: State, t: State) {
    s.caller.Refused? && s.caller.slot < |s.inUse|
    && t == s.(inUse := s.inUse[s.caller.slot := false], caller := Idle)
  }

  ghost predicate ReceiveResult(s: State, t: State) {
    s.caller.Idle?
    && (t == s || (s.results != [] && t == s.(results := s.results[1..], caller := Taking(s.results[0]))))
  }

  ghost predicate TakeResult(s: State, t: State) {
    s.caller.Taking? && s.caller.slot < |s.inUse| && s.caller.slot < |s.replies|
    && t == s.(inUse := s.inUse[s.caller.slot := false], caller := Idle,
               delivered := s.delivered + [s.replies[s.caller.slot]])
  }

  ghost predicate RequestStop(s: State, t: State) {
    s.caller.Idle? && t == s.(stop := true)
  }

  // The worker task: the loop of `taskLoop`.
  ghost predicate ReceivePending(s: State, t: State) {
    s.task.Waiting?
    && (t == s || (!s.stop && s.pending != [] && t == s.(pending := s.pending[1..], task := Received(s.pending[0]))))
  }

  ghost predicate CheckStop(s: State, t: State) {
    s.task.Received? && t == s.(task := if s.stop then Stopped else Executing(s.task.slot))
  }

  ghost predicate RunJob(call: Job -> int, s: State, t: State) {
    s.task.Executing? && s.task.slot < |s.jobs| && s.task.slot < |s.replies|
    && t == s.(replies := s.replies[s.task.slot := Execute(call, s.jobs[s.task.slot])], task := Sending(s.task.slot))
  }

  ghost predicate SendResult(s: State, t: State) {
    s.task.Sending? && !s.stop
    && t == if |s.results| < SLOTS then s.(results := s.results + [s.task.slot], task := Sent(s.task.slot)) else s
  }

  ghost predicate NextRound(s: State, t: State) {
    && (s.task.Sent? || (s.task.Sending? && s.stop))
    && t == if s.stop && s.task.slot < |s.inUse|
            then s.(inUse := s.inUse[s.task.slot := false], task := Stopped)
            else s.(task := Waiting)
  }

  ghost predicate StopIdle(s: State, t: State) {
    s.task.Waiting? && s.stop && t == s.(task := Stopped)
  }

  ghost predicate Next(call: Job -> int, s: State, t: State) {
    || Claim(s, t) || Fill(s, t) || SendPending(s, t) || Unclaim(s, t) || ReceiveResult(s, t) || TakeResult(s, t)
    || RequestStop(s, t)
    || ReceivePending(s, t) || CheckStop(s, t) || RunJob(call, s, t) || SendResult(s, t) || NextRound(s, t)
        || StopIdle(s, t)
  }

  ghost predicate Initial(s: State) {
    && |s.inUse| == |s.jobs| == |s.replies| == SLOTS && (forall i :: 0 <= i < SLOTS ==> !s.inUse[i])
    && s.pending == [] && s.results == [] && s.caller == Idle && s.task == Waiting && !s.stop
    && s.accepted == [] && s.delivered == []
  }

  // ------------------------------------------------------------------- ownership

  function CallerHolds(c: Caller): seq<nat> {
    match c
    case Idle => []
    case Claimed(slot, _) => [slot]
    case Filled(slot) => [slot]
    case Refused(slot) => [slot]
    case Taking(slot) => [slot]
  }

  function TaskHolds(t: Task): seq<nat> {
    match t
    case Received(slot) => [slot]
    case Executing(slot) => [slot]
    case Sending(slot) => [slot]
    case _ => []
  }

  /** Every place where a slot's number stands: the caller's hands, the pending
      queue, the worker's hands, the result queue. */
  function Owners(s: State): seq<nat> {
    CallerHolds(s.caller) + s.pending + TaskHolds(s.task) + s.results
  }

  function Counts(s: State): multiset<nat> { multiset(Owners(s)) }

  predicate Below(slots: seq<nat>) {
    forall i :: 0 <= i < |slots| ==> slots[i] < SLOTS
  }

  /** Each slot in use has exactly one owner, and a free one has none. */
  ghost predicate Owned(s: State) {
    && |s.inUse| == SLOTS && Below(Owners(s))
    && forall slot: nat :: slot < SLOTS ==> Counts(s)[slot] == if s.inUse[slot] then 1 else 0
  }

  // The jobs on their way, from the next reply to deliver to the last accepted.
  function OnTheWay(s: State): seq<nat> {
    (if s.caller.Taking? then [s.caller.slot] else []) + s.results + TaskHolds(s.task) + s.pending
  }

  function JobsOf(s: State, slots: seq<nat>): seq<Job>
    requires Below(slots) && |s.jobs| == SLOTS
  {
    seq(|slots|, i requires 0 <= i < |slots| => s.jobs[slots[i]])
  }

  // The slots whose reply is already written.
  function Answered(s: State): seq<nat> {
    (if s.caller.Taking? then [s.caller.slot] else []) + s.results + if s.task.Sending? then [s.task.slot] else []
  }

  ghost predicate InOrder(call: Job -> int, s: State) {
    && |s.jobs| == |s.replies| == SLOTS
    && Below(OnTheWay(s))
    && |s.delivered| <= |s.accepted|
    && s.accepted[|s.delivered|..] == JobsOf(s, OnTheWay(s))
    && (forall i :: 0 <= i < |s.delivered| ==> s.delivered[i] == Execute(call, s.accepted[i]))
    && Below(Answered(s))
    && forall i :: 0 <= i < |Answered(s)| ==> s.replies[Answered(s)[i]] == Execute(call, s.jobs[Answered(s)[i]])
  }

  ghost predicate Good(call: Job -> int, s: State) {
    !s.stop ==> Owned(s) && InOrder(call, s) && !s.task.Stopped?
  }

  // --------------------------------------------------------------- pigeonholes

  lemma {:induction false} CountSlots(a: seq<nat>)
    requires Below(a)
    ensures |a| == multiset(a)[0] + multiset(a)[1] + multiset(a)[2] + multiset(a)[3]
  {
    if a != [] {
      CountSlots(a[1..]);
      assert a == [a[0]] + a[1..];
    }
  }

  lemma {:induction false} PartsOfOwners(s: State)
    requires Owned(s)
    ensures |CallerHolds(s.caller)| + |s.pending| + |TaskHolds(s.task)| + |s.results| <= SLOTS
  {
    CountSlots(Owners(s));
    assert Counts(s)[0] <= 1 && Counts(s)[1] <= 1 && Counts(s)[2] <= 1 && Counts(s)[3] <= 1;
  }

  /** Neither queue is ever full when a slot is sent to it: the other three slots
      are all there can be ahead of it. */
  lemma {:induction false} SendsNeverFindAFullQueue(call: Job -> int, s: State)
    requires Good(call, s) && !s.stop
    ensures s.task.Sending? ==> |s.results| < SLOTS
    ensures s.caller.Filled? ==> |s.pending| < SLOTS
  {
    PartsOfOwners(s);
  }

  // ------------------------------------------------------------- what steps keep

  lemma {:induction false} CountsByPart(s: State)
    ensures Counts(s) == multiset(CallerHolds(s.caller)) + multiset(s.pending) + multiset(TaskHolds(s.task))
      + multiset(s.results)
  {
  }

  lemma {:induction false} FirstOut(a: seq<nat>)
    requires a != []
    ensures multiset(a) == multiset{a[0]} + multiset(a[1..])
  {
    assert a == [a[0]] + a[1..];
  }

  lemma {:induction false} BelowByCounts(a: seq<nat>, b: seq<nat>)
    requires Below(a) && multiset(b) <= multiset(a)
    ensures Below(b)
  {
    forall i | 0 <= i < |b| ensures b[i] < SLOTS {
      assert b[i] in multiset(b);
      assert b[i] in multiset(a);
      assert b[i] in a;
    }
  }

  lemma {:induction false} OwnedSame(s: State, t: State)
    requires Owned(s) && Counts(t) == Counts(s) && t.inUse == s.inUse
    ensures Owned(t)
  {
    BelowByCounts(Owners(s), Owners(t));
  }

  lemma {:induction false} OwnedLess(s: State, t: State, slot: nat)
    requires Owned(s) && slot < SLOTS && Counts(s) == Counts(t) + multiset{slot} && t.inUse == s.inUse[slot := false]
    ensures Owned(t)
  {
    BelowByCounts(Owners(s), Owners(t));
  }

  lemma {:induction false} OwnedMore(s: State, t: State, slot: nat)
    requires Owned(s) && slot < SLOTS && !s.inUse[slot]
    requires Counts(t) == Counts(s) + multiset{slot} && t.inUse == s.inUse[slot := true]
    ensures Owned(t)
  {
    forall i | 0 <= i < |Owners(t)| ensures Owners(t)[i] < SLOTS {
      assert Owners(t)[i] in Counts(t);
      if Owners(t)[i] != slot { assert Owners(t)[i] in Owners(s); }
    }
  }

  lemma {:induction false} ClaimKeepsOwned(s: State, t: State)
    requires Owned(s) && Claim(s, t)
    ensures Owned(t)
  {
    if t != s {
      var slot: nat, job :| FirstFree(s.inUse, slot)
          && t == s.(inUse := s.inUse[slot := true], caller := Claimed(slot, job));
      CountsByPart(s);
      CountsByPart(t);
      OwnedMore(s, t, slot);
    }
  }

  lemma {:induction false} GiveBackKeepsOwned(s: State, t: State, slot: nat)
    requires Owned(s) && CallerHolds(s.caller) == [slot] && t.caller == Idle
    requires t.pending == s.pending && t.results == s.results && t.task == s.task
    requires slot < |s.inUse| && t.inUse == s.inUse[slot := false]
    ensures Owned(t)
  {
    assert |s.inUse| == SLOTS;
    hide Owners, Owned, Counts;
    CountsByPart(s);
    CountsByPart(t);
    OwnedLess(s, t, slot);
  }

  // A slot that only changes hands.
  lemma {:induction false} HandOnKeepsOwned(s: State, t: State)
    requires Owned(s) && t.inUse == s.inUse
    requires multiset(CallerHolds(t.caller)) + multiset(t.pending) + multiset(TaskHolds(t.task)) + multiset(t.results)
      == multiset(CallerHolds(s.caller)) + multiset(s.pending) + multiset(TaskHolds(s.task)) + multiset(s.results)
    ensures Owned(t)
  {
    hide Owners, Owned, Counts;
    CountsByPart(s);
    CountsByPart(t);
    OwnedSame(s, t);
  }

  lemma {:induction false} CallerKeepsOwned(s: State, t: State)
    requires Owned(s)
    requires Claim(s, t) || Fill(s, t) || SendPending(s, t) || Unclaim(s, t) || ReceiveResult(s, t) || TakeResult(s, t)
    ensures Owned(t)
  {
    hide Owned, Fill, SendPending, Unclaim, ReceiveResult, TakeResult, Claim;
    if Claim(s, t) {
      ClaimKeepsOwned(s, t);
    } else if Unclaim(s, t) || TakeResult(s, t) || Fill(s, t) {
      CallerFinishes(s, t);
    } else {
      CallerHandsOn(s, t);
    }
  }

  lemma {:induction false} CallerFinishes(s: State, t: State)
    requires Owned(s) && (Unclaim(s, t) || TakeResult(s, t) || Fill(s, t))
    ensures Owned(t)
  {
    hide Owned;
    if t.caller.Idle? {
      GiveBackKeepsOwned(s, t, s.caller.slot);
    } else {
      HandOnKeepsOwned(s, t);
    }
  }

  lemma {:induction false} CallerHandsOn(s: State, t: State)
    requires Owned(s) && (SendPending(s, t) || ReceiveResult(s, t))
    ensures Owned(t)
  {
    hide Owned;
    if s.results != [] { FirstOut(s.results); }
    HandOnKeepsOwned(s, t);
  }

  lemma {:induction false} TaskKeepsOwned(call: Job -> int, s: State, t: State)
    requires Owned(s) && !s.stop
    requires ReceivePending(s, t) || CheckStop(s, t) || RunJob(call, s, t) || SendResult(s, t) || NextRound(s, t)
    ensures Owned(t)
  {
    hide Owned;
    if ReceivePending(s, t) {
      if s.pending != [] { FirstOut(s.pending); }
      HandOnKeepsOwned(s, t);
    } else if SendResult(s, t) {
      assert multiset(s.results + [s.task.slot]) == multiset(s.results) + multiset{s.task.slot};
      HandOnKeepsOwned(s, t);
    } else {
      HandOnKeepsOwned(s, t);
    }
  }

  lemma {:induction false} HeldOnce(s: State, slot: nat, other: seq<nat>)
    requires Owned(s) && slot < SLOTS && multiset{slot} + multiset(other) <= Counts(s)
    ensures slot !in other
  {
    assert Counts(s)[slot] <= 1;
    assert (multiset{slot} + multiset(other))[slot] <= Counts(s)[slot];
    assert multiset(other)[slot] == 0;
  }

  lemma {:induction false} JobsOfSame(s: State, t: State, slots: seq<nat>)
    requires Below(slots) && |s.jobs| == |t.jobs| == SLOTS
    requires forall i :: 0 <= i < |slots| ==> s.jobs[slots[i]] == t.jobs[slots[i]]
    ensures JobsOf(s, slots) == JobsOf(t, slots)
  {
  }

  lemma {:induction false} JobsOfMore(s: State, a: seq<nat>, b: seq<nat>)
    requires Below(a) && Below(b) && |s.jobs| == SLOTS
    ensures Below(a + b) && JobsOf(s, a + b) == JobsOf(s, a) + JobsOf(s, b)
  {
  }

  // What the parts of the way and of the answered slots leave of the owners.
  lemma {:induction false} WayIsOwned(s: State)
    ensures multiset(Answered(s)) <= multiset(OnTheWay(s)) <= Counts(s)
    ensures !s.caller.Taking? ==> multiset(CallerHolds(s.caller)) + multiset(OnTheWay(s)) <= Counts(s)
    ensures s.task.Executing? ==> multiset{s.task.slot} + multiset(Answered(s)) <= Counts(s)
  {
    CountsByPart(s);
  }

  lemma {:induction false} FillKeepsOrder(call: Job -> int, s: State, t: State)
    requires Owned(s) && InOrder(call, s) && Fill(s, t)
    ensures InOrder(call, t)
  {
    var slot := s.caller.slot;
    CallerSlotFits(s);
    NotOnTheWay(s);
    ElementsOf(OnTheWay(s), slot);
    ElementsOf(Answered(s), slot);
    assert OnTheWay(t) == OnTheWay(s) && Answered(t) == Answered(s);
    SameWay(call, s, t);
  }

  lemma {:induction false} ElementsOf(a: seq<nat>, x: nat)
    requires x !in a
    ensures forall i :: 0 <= i < |a| ==> a[i] != x
  {
  }

  lemma {:induction false} CallerSlotFits(s: State)
    requires Owned(s)
    ensures !s.caller.Idle? ==> s.caller.slot < SLOTS
    ensures s.task.Executing? ==> s.task.slot < SLOTS
  {
    if !s.caller.Idle? { assert Owners(s)[0] == s.caller.slot; }
    if s.task.Executing? {
      var k := |CallerHolds(s.caller)| + |s.pending|;
      assert Owners(s)[k] == s.task.slot;
    }
  }

  lemma {:induction false} NotOnTheWay(s: State)
    requires Owned(s)
    ensures !s.caller.Idle? && !s.caller.Taking? ==> s.caller.slot !in OnTheWay(s) && s.caller.slot !in Answered(s)
    ensures s.task.Executing? ==> s.task.slot !in Answered(s)
  {
    hide Owned, Counts, OnTheWay, Answered;
    CallerSlotFits(s);
    WayIsOwned(s);
    if !s.caller.Idle? && !s.caller.Taking? {
      HeldOnce(s, s.caller.slot, OnTheWay(s));
      HeldOnce(s, s.caller.slot, Answered(s));
    }
    if s.task.Executing? { HeldOnce(s, s.task.slot, Answered(s)); }
  }

  // The same slots on the way and answered, with the same jobs and replies.
  lemma {:induction false} SameWay(call: Job -> int, s: State, t: State)
    requires InOrder(call, s) && OnTheWay(t) == OnTheWay(s) && Answered(t) == Answered(s)
    requires |t.jobs| == |t.replies| == SLOTS && t.accepted == s.accepted && t.delivered == s.delivered
    requires forall i :: 0 <= i < |OnTheWay(s)| ==> s.jobs[OnTheWay(s)[i]] == t.jobs[OnTheWay(s)[i]]
    requires forall i :: 0 <= i < |Answered(s)| ==>
      s.jobs[Answered(s)[i]] == t.jobs[Answered(s)[i]] && s.replies[Answered(s)[i]] == t.replies[Answered(s)[i]]
    ensures InOrder(call, t)
  {
    JobsOfSame(s, t, OnTheWay(s));
  }

  lemma {:induction false} SendKeepsOrder(call: Job -> int, s: State, t: State)
    requires Owned(s) && InOrder(call, s) && SendPending(s, t)
    ensures InOrder(call, t)
  {
    if |s.pending| < SLOTS {
      var slot := s.caller.slot;
      assert OnTheWay(t) == OnTheWay(s) + [slot] && Answered(t) == Answered(s);
      JobsOfMore(s, OnTheWay(s), [slot]);
      JobsOfSame(s, t, OnTheWay(t));
      assert t.accepted[|t.delivered|..] == s.accepted[|s.delivered|..] + [s.jobs[slot]];
    } else {
      SameWay(call, s, t);
    }
  }

  lemma {:induction false} TakeKeepsOrder(call: Job -> int, s: State, t: State)
    requires Owned(s) && InOrder(call, s) && TakeResult(s, t)
    ensures InOrder(call, t)
  {
    var slot := s.caller.slot;
    assert OnTheWay(s) == [slot] + OnTheWay(t);
    assert forall i :: 0 <= i < |OnTheWay(t)| ==> OnTheWay(t)[i] == OnTheWay(s)[i + 1];
    JobsOfMore(s, [slot], OnTheWay(t));
    JobsOfSame(s, t, OnTheWay(t));
    assert Answered(s) == [slot] + Answered(t);
    assert forall i :: 0 <= i < |Answered(t)| ==> Answered(t)[i] == Answered(s)[i + 1];
    assert Answered(s)[0] == slot;
    assert s.accepted[|s.delivered|] == s.accepted[|s.delivered|..][0] == s.jobs[slot];
    assert t.accepted[|t.delivered|..] == s.accepted[|s.delivered|..][1..];
  }

  lemma {:induction false} RunKeepsOrder(call: Job -> int, s: State, t: State)
    requires Owned(s) && InOrder(call, s) && RunJob(call, s, t)
    ensures InOrder(call, t)
  {
    hide Owned;
    var slot := s.task.slot;
    CallerSlotFits(s);
    NotOnTheWay(s);
    ElementsOf(Answered(s), slot);
    assert OnTheWay(t) == OnTheWay(s) && Answered(t) == Answered(s) + [slot];
    JobsOfSame(s, t, OnTheWay(s));
  }

  // Steps that only move a slot along.
  lemma {:induction false} MoveKeepsOrder(call: Job -> int, s: State, t: State)
    requires InOrder(call, s) && t.jobs == s.jobs && t.replies == s.replies
    requires t.accepted == s.accepted && t.delivered == s.delivered
    requires OnTheWay(t) == OnTheWay(s) && Answered(t) == Answered(s)
    ensures InOrder(call, t)
  {
    JobsOfSame(s, t, OnTheWay(s));
  }

  lemma {:induction false} CallerKeepsOrder(call: Job -> int, s: State, t: State)
    requires Owned(s) && InOrder(call, s)
    requires Claim(s, t) || Fill(s, t) || SendPending(s, t) || Unclaim(s, t) || ReceiveResult(s, t) || TakeResult(s, t)
    ensures InOrder(call, t)
  {
    hide InOrder, Owned, FirstFree;
    if Fill(s, t) { FillKeepsOrder(call, s, t); }
    else if SendPending(s, t) { SendKeepsOrder(call, s, t); }
    else if TakeResult(s, t) { TakeKeepsOrder(call, s, t); }
    else {
      assert s.results != [] ==> s.results == [s.results[0]] + s.results[1..];
      MoveKeepsOrder(call, s, t);
    }
  }

  lemma {:induction false} TaskKeepsOrder(call: Job -> int, s: State, t: State)
    requires Owned(s) && InOrder(call, s) && !s.stop
    requires ReceivePending(s, t) || CheckStop(s, t) || RunJob(call, s, t) || SendResult(s, t) || NextRound(s, t)
    ensures InOrder(call, t)
  {
    hide InOrder, Owned;
    if RunJob(call, s, t) {
      RunKeepsOrder(call, s, t);
    } else {
      assert s.pending != [] ==> s.pending == [s.pending[0]] + s.pending[1..];
      assert OnTheWay(t) == OnTheWay(s);
      assert Answered(t) == Answered(s);
      MoveKeepsOrder(call, s, t);
    }
  }

  lemma {:induction false} InitialIsGood(call: Job -> int, s: State)
    requires Initial(s)
    ensures Good(call, s)
  {
    assert Owners(s) == [];
  }

  lemma {:induction false} StepKeepsGood(call: Job -> int, s: State, t: State)
    requires Good(call, s) && Next(call, s, t)
    ensures Good(call, t)
  {
    if !t.stop {
      hide Owned, InOrder, FirstFree;
      if Claim(s, t) || Fill(s, t) || SendPending(s, t) || Unclaim(s, t) || ReceiveResult(s, t) || TakeResult(s, t) {
        CallerKeepsOwned(s, t);
        CallerKeepsOrder(call, s, t);
      } else {
        TaskKeepsOwned(call, s, t);
        TaskKeepsOrder(call, s, t);
      }
    }
  }

  // ------------------------------------------------------------------ whole runs

  ghost predicate IsRun(call: Job -> int, states: seq<State>) {
    states != [] && Initial(states[0]) && forall i :: 0 <= i < |states| - 1 ==> Next(call, states[i], states[i + 1])
  }

  lemma {:induction false} RunsAreGood(call: Job -> int, states: seq<State>, i: nat)
    requires IsRun(call, states) && i < |states|
    ensures Good(call, states[i])
  {
    hide Good, Initial, Next;
    if i == 0 {
      InitialIsGood(call, states[0]);
    } else {
      RunsAreGood(call, states, i - 1);
      assert Next(call, states[i - 1], states[i]);
      StepKeepsGood(call, states[i - 1], states[i]);
    }
  }

  /** Until a stop is requested, under every interleaving: each slot in use has
      one owner and a free one none, no send finds its queue full, and what has
      been delivered is one reply for each accepted job, in order of acceptance,
      from the first on; all of them once nothing is on its way. */
  lemma {:induction false} JobsAreAnsweredOnceInOrder(call: Job -> int, states: seq<State>, i: nat)
    requires IsRun(call, states) && i < |states| && !states[i].stop
    ensures var s := states[i];
      && Owned(s)
      && (s.task.Sending? ==> |s.results| < SLOTS) && (s.caller.Filled? ==> |s.pending| < SLOTS)
      && |s.delivered| <= |s.accepted|
      && (forall k :: 0 <= k < |s.delivered| ==> s.delivered[k] == Execute(call, s.accepted[k]))
      && (OnTheWay(s) == [] ==> |s.delivered| == |s.accepted|)
  {
    RunsAreGood(call, states, i);
    var s := states[i];
    SendsNeverFindAFullQueue(call, s);
    if OnTheWay(s) == [] { assert |s.accepted[|s.delivered|..]| == 0; }
  }

  // ------------------------------------------------------------------- progress

  function CallerWork(c: Caller): nat {
    match c
    case Idle => 0
    case Taking(_) => 1
    case Refused(_) => 1
    case Filled(_) => 8
    case Claimed(_, _) => 9
  }

  function TaskWork(t: Task): nat {
    match t
    case Sent(_) => 1
    case Sending(_) => 4
    case Executing(_) => 5
    case Received(_) => 6
    case _ => 0
  }

  /** What is still to do until nothing is on its way. */
  function Work(s: State): nat {
    CallerWork(s.caller) + 7 * |s.pending| + TaskWork(s.task) + 2 * |s.results|
  }

  /** A step of the worker, of polling or of an enqueue already begun. */
  ghost predicate Drains(call: Job -> int, s: State, t: State) {
    || Fill(s, t) || SendPending(s, t) || Unclaim(s, t) || ReceiveResult(s, t) || TakeResult(s, t)
    || ReceivePending(s, t) || CheckStop(s, t) || RunJob(call, s, t) || SendResult(s, t) || NextRound(s, t)
  }

  /** Every such step that changes anything leaves less to do, in any order of steps. */
  lemma {:induction false} DrainingEnds(call: Job -> int, s: State, t: State)
    requires Good(call, s) && !s.stop && Drains(call, s, t) && t != s
    ensures Next(call, s, t) && !t.stop && Work(t) < Work(s) && s.accepted <= t.accepted
  {
    hide Owned, InOrder;
    SendsNeverFindAFullQueue(call, s);
  }

  /** While something is to do, such a step is there to be taken. */
  lemma {:induction false} SomethingDrains(call: Job -> int, s: State) returns (t: State)
    requires Good(call, s) && !s.stop && Work(s) > 0
    ensures Drains(call, s, t) && t != s
  {
    hide Owned, OnTheWay, Answered, JobsOf;
    CallerSlotFits(s);
    TaskIsRunning(call, s);
    SendsNeverFindAFullQueue(call, s);
    match s.caller {
      case Claimed(slot, _) => t := s.(inUse := s.inUse[slot := false], caller := Idle);
      case Filled(slot) => t := s.(pending := s.pending + [slot], caller := Idle,
                                   accepted := s.accepted + [s.jobs[slot]]);
      case Refused(slot) => t := s.(inUse := s.inUse[slot := false], caller := Idle);
      case Taking(slot) =>
        t := s.(inUse := s.inUse[slot := false], caller := Idle, delivered := s.delivered + [s.replies[slot]]);
      case Idle =>
        if s.results != [] {
          t := s.(results := s.results[1..], caller := Taking(s.results[0]));
        } else {
          match s.task {
            case Waiting => t := s.(pending := s.pending[1..], task := Received(s.pending[0]));
            case Received(slot) => t := s.(task := Executing(slot));
            case Executing(slot) =>
              t := s.(replies := s.replies[slot := Execute(call, s.jobs[slot])], task := Sending(slot));
            case Sending(slot) => t := s.(results := s.results + [slot], task := Sent(slot));
            case Sent(_) => t := s.(task := Waiting);
          }
        }
    }
  }

  lemma {:induction false} TaskIsRunning(call: Job -> int, s: State)
    requires Good(call, s) && !s.stop
    ensures !s.task.Stopped? && |s.inUse| == |s.jobs| == |s.replies| == SLOTS && Owned(s)
  {
  }

  ghost predicate IsPath(call: Job -> int, states: seq<State>) {
    states != [] && forall i :: 0 <= i < |states| - 1 ==> Next(call, states[i], states[i + 1])
  }

  /** From any moment before a stop, every job accepted by then can be brought to
      delivery, each with its own reply, in at most as many steps as there is to do. */
  lemma {:induction false} AcceptedJobsCanBeDelivered(call: Job -> int, s: State) returns (states: seq<State>)
    requires Good(call, s) && !s.stop
    ensures IsPath(call, states) && states[0] == s && |states| <= Work(s) + 1
    ensures var last := states[|states| - 1];
      && s.accepted <= last.accepted && |last.delivered| == |last.accepted|
      && forall k :: 0 <= k < |last.delivered| ==> last.delivered[k] == Execute(call, last.accepted[k])
    decreases Work(s)
  {
    hide Owned, Next, Drains, Work;
    if Work(s) == 0 {
      states := [s];
      NothingToDo(call, s);
    } else {
      var t := SomethingDrains(call, s);
      DrainingEnds(call, s, t);
      StepKeepsGood(call, s, t);
      var rest := AcceptedJobsCanBeDelivered(call, t);
      states := [s] + rest;
      forall i | 0 <= i < |states| - 1 ensures Next(call, states[i], states[i + 1]) {
        if i > 0 { assert Next(call, rest[i - 1], rest[i]); }
      }
    }
  }

  lemma {:induction false} NothingToDo(call: Job -> int, s: State)
    requires Good(call, s) && !s.stop && Work(s) == 0
    ensures |s.delivered| == |s.accepted|
    ensures forall k :: 0 <= k < |s.delivered| ==> s.delivered[k] == Execute(call, s.accepted[k])
  {
    assert OnTheWay(s) == [];
    assert |s.accepted[|s.delivered|..]| == 0;
  }
}
