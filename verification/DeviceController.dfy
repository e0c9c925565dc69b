/** The terminal's controller: it journals an action before sending it, takes it
    off the outbox only on a definitive answer, and chains what it journals. The
    outbox appears as the queue its stored files refine. */
module DeviceController {
  import opened Bytes
  import opened OutboxFormat
  import opened Journal
  import opened OutboxQueue
  import opened OutboxRuns
  import Delivery
  import WorkDay
  import Server = TerminalService

  /** What the controller computes with: the outbox's codecs, request ids, the
      signature, and the clock reading of a timestamp. */
  datatype Setting = Setting(
    codecs: Codecs,
    requestId: (Bytes, u32) -> Bytes,
    sign: Action -> Bytes,
    captured: Bytes -> int)

  const SEQUENCE_LIMIT := 0x1_0000_0000

  /** The parts of an event that `executeAction` journals. */
  datatype Press = Press(ready: bool, command: byte, uid: Bytes, timestamp: Bytes, appliedAt: Bytes, syncedAt: Bytes,
                         online: bool)

  datatype Failure = Failure(retryable: bool, transport: bool, timeout: bool, invalidResponse: bool)

  /** An answer to the action job: a decoded outcome's request id, or a failure. */
  datatype Answer = Ok(requestId: Option<Bytes>) | Fail(failure: Failure)

  predicate Ambiguous(f: Failure) {
    f.retryable || f.transport || f.timeout || f.invalidResponse
  }

  /** The answer settles the action being sent. */
  predicate Definitive(answer: Answer, active: Bytes) {
    match answer
    case Ok(id) => id == Some(active) && active != []
    case Fail(f) => !Ambiguous(f)
  }

  lemma {:induction false} WhatIsDefinitive(answer: Answer, active: Bytes)
    ensures Definitive(answer, active) && active != [] <==>
      && active != []
      && if answer.Ok? then answer.requestId == Some(active)
         else !answer.failure.retryable && !answer.failure.transport && !answer.failure.timeout
              && !answer.failure.invalidResponse
  {
  }

  // ------------------------------------------------------------------ the chain

  /** `b` may follow `a` in the journal. */
  predicate Follows(a: Action, b: Action) {
    if b.rebootId == a.rebootId then b.previousLocalHash == a.signature && b.deviceSequence > a.deviceSequence
    else b.previousLocalHash == []
  }

  predicate AllActions(items: seq<Item>) {
    forall i :: 0 <= i < |items| ==> items[i].Queued?
  }

  predicate Chained(items: seq<Item>) {
    AllActions(items) && forall i :: 1 <= i < |items| ==> Follows(items[i - 1].action, items[i].action)
  }

  /** The clock has not gone back between two actions, and has moved on if a restart
      lies between. */
  predicate Advances(s: Setting, a: Action, b: Action) {
    if b.rebootId == a.rebootId then s.captured(b.deviceCapturedAt) >= s.captured(a.deviceCapturedAt)
    else s.captured(b.deviceCapturedAt) > s.captured(a.deviceCapturedAt)
  }

  predicate InTime(s: Setting, items: seq<Item>)
    requires AllActions(items)
  {
    forall i :: 1 <= i < |items| ==> Advances(s, items[i - 1].action, items[i].action)
  }

  /** Where the boot's chain stands at the end of the journal. */
  predicate AtTip(items: seq<Item>, rebootId: Bytes, sequence: nat, lastLocalHash: Bytes)
    requires AllActions(items)
  {
    && (forall i :: 0 <= i < |items| && items[i].action.rebootId == rebootId ==>
          items[i].action.deviceSequence <= sequence)
    && (items != [] ==>
          var last := items[|items| - 1].action;
          lastLocalHash == if last.rebootId == rebootId then last.signature else [])
  }

  /** The clock has not gone back since the last journalled action, and has moved
      on if that one was journalled by an earlier boot. */
  predicate ClockAdvances(s: Setting, items: seq<Item>, rebootId: Bytes, timestamp: Bytes)
    requires AllActions(items)
  {
    items != [] ==>
      var last := items[|items| - 1].action;
      if rebootId == last.rebootId then s.captured(timestamp) >= s.captured(last.deviceCapturedAt)
      else s.captured(timestamp) > s.captured(last.deviceCapturedAt)
  }

  lemma {:induction false} ChainedSuffix(s: Setting, items: seq<Item>, k: nat)
    requires Chained(items) && k <= |items|
    ensures Chained(items[k..]) && (InTime(s, items) ==> InTime(s, items[k..]))
  {
  }

  lemma {:induction false} TipOfSuffix(items: seq<Item>, k: nat, rebootId: Bytes, sequence: nat, lastLocalHash: Bytes)
    requires AllActions(items) && k <= |items| && AtTip(items, rebootId, sequence, lastLocalHash)
    ensures AtTip(items[k..], rebootId, sequence, lastLocalHash)
  {
    assert k < |items| ==> items[k..][|items| - k - 1] == items[|items| - 1];
  }

  // ------------------------------------------------------------------- the class

  /** The journal is in time order, and so it would be after the operation. */
  predicate StaysInTime(s: Setting, q: Queue, op: Op)
    requires q.Valid() && Chained(q.actions)
    requires op.AppendOp? ==> Chained(OutboxRuns.Result(s.codecs, q, op).0.actions)
  {
    InTime(s, q.actions) && (op.AppendOp? ==> InTime(s, OutboxRuns.Result(s.codecs, q, op).0.actions))
  }

  function PendingItems(q: Queue): set<Item>
    requires q.Valid()
  {
    set x | x in q.Pending()
  }

  /** A journal that its files can hold: at most ten thousand records the codec takes. */
  ghost predicate Journalled(cs: Codecs, q: Queue) {
    Paired(cs) && |q.actions| <= CAPACITY && AllValid(cs.actions, q.actions)
  }

  /** The action is what was pressed, as the boot's action of that number, behind the
      last one of its chain, and signed as a whole. */
  predicate IsPressed(s: Setting, press: Press, rebootId: Bytes, sequence: nat, lastLocalHash: Bytes, a: Action) {
    && a.uid == press.uid && a.command == press.command && a.deviceCapturedAt == press.timestamp
    && a.appliedAt == press.appliedAt && a.clockSyncedAt == press.syncedAt
    && a.clientRequestId == s.requestId(rebootId, a.deviceSequence)
    && a.deviceSequence == sequence && a.rebootId == rebootId && a.previousLocalHash == lastLocalHash
    && a.signature == s.sign(a.(signature := []))
  }

  class Controller {
    const setting: Setting
    var queue: Queue
    var rebootId: Bytes
    var sequence: nat
    var lastLocalHash: Bytes
    var activeJob: bool
    var activeRequest: Bytes
    // The action being sent, every action ever journalled, and every one definitively answered.
    ghost var active: Option<Item>
    ghost var stored: set<Item>
    ghost var answered: set<Item>

    ghost predicate Valid()
      reads this
    {
      && queue.Valid() && Chained(queue.actions) && Journalled(setting.codecs, queue)
      && AtTip(queue.actions, rebootId, sequence, lastLocalHash)
      && sequence < SEQUENCE_LIMIT
      && stored <= PendingItems(queue) + answered
      && (!activeJob ==> activeRequest == [])
      && (activeRequest != [] ==>
            active.Some? && IdOf(active.value) == activeRequest && active.value in queue.Pending())
    }

    constructor (setting: Setting, rebootId: Bytes)
      requires Paired(setting.codecs)
      ensures Valid() && queue == Queue([], 0) && stored == {} && answered == {} && this.setting == setting
    {
      this.setting := setting;
      this.rebootId := rebootId;
      queue := Queue([], 0);
      sequence := 0;
      lastLocalHash := [];
      activeJob := false;
      activeRequest := [];
      active := None;
      stored, answered := {}, {};
    }

    function Prepared(press: Press): Action
      reads this
      requires sequence + 1 < SEQUENCE_LIMIT
    {
      var unsigned := Action(setting.requestId(rebootId, sequence + 1), press.uid, press.command, press.timestamp,
                             press.appliedAt, press.syncedAt, sequence + 1, rebootId, lastLocalHash, []);
      unsigned.(signature := setting.sign(unsigned))
    }

    /** `executeAction`: the action is journalled first, and only then sent. A
        journalled action extends the chain, and keeps it in time order if the clock
        advances; a failed attempt only uses up a sequence number. */
    method ExecuteAction(press: Press, enqueued: bool) returns (error: OutboxError)
      requires Valid() && sequence + 1 < SEQUENCE_LIMIT
      modifies this
      ensures Valid() && rebootId == old(rebootId) && answered == old(answered)
      ensures (InTime(setting, old(queue).actions)
               && ClockAdvances(setting, old(queue).actions, rebootId, press.timestamp)) ==>
        InTime(setting, queue.actions)
      ensures !press.ready || old(activeJob) ==>
        error == NotFound && queue == old(queue) && sequence == old(sequence) && lastLocalHash == old(lastLocalHash)
        && stored == old(stored)
      ensures press.ready && !old(activeJob) ==>
        var x := Queued(old(Prepared(press)));
        && sequence == old(sequence) + 1
        && IsPressed(setting, press, rebootId, sequence, old(lastLocalHash), x.action)
        && (queue, error) == OutboxRuns.Result(setting.codecs, old(queue), AppendOp(x))
        && AppendedTo(setting.codecs, old(queue), x, error, queue)
        && lastLocalHash == (if error == NoError then x.action.signature else old(lastLocalHash))
        && stored == old(stored) + (if error == NoError then {x} else {})
        && (error == NoError ==> x in queue.Pending())
        && (activeJob ==> active == Some(x))
      ensures activeJob ==> old(activeJob) || (press.ready && press.online && enqueued && error == NoError)
    {
      hide Chained, AtTip, UniqueIds, OutboxRuns.Result, InTime, ClockAdvances, Journalled, AppendedTo;
      if !press.ready || activeJob { return NotFound; }
      var action := Prepared(press);
      sequence := sequence + 1;
      var (after, appended) := OutboxRuns.Result(setting.codecs, queue, AppendOp(Queued(action)));
      assert Extendable(queue.actions, action, rebootId, sequence, lastLocalHash);
      AppendKeepsChain(setting, queue, action, rebootId, sequence, lastLocalHash);
      AppendKeepsPending(setting.codecs, queue, Queued(action));
      AppendIsJournalled(setting.codecs, queue, Queued(action));
      queue := after;
      error := appended;
      if appended != NoError { return; }
      lastLocalHash := action.signature;
      stored := stored + {Queued(action)};
      activeRequest := action.clientRequestId;
      active := Some(Queued(action));
      if !press.online || !enqueued {
        activeRequest := [];
        return;
      }
      activeJob := true;
    }

    /** `handleActionResult`: only a definitive answer for the action being sent
        completes anything, and what it completes is that action. */
    method HandleActionResult(answer: Answer) returns (completionStored: bool)
      requires Valid()
      modifies this
      ensures Valid() && stored == old(stored) && rebootId == old(rebootId) && sequence == old(sequence)
      ensures !activeJob && activeRequest == [] && queue.actions == old(queue).actions
      ensures !(Definitive(answer, old(activeRequest)) && old(activeRequest) != []) ==>
        queue == old(queue) && answered == old(answered) && !completionStored
      ensures Definitive(answer, old(activeRequest)) && old(activeRequest) != [] ==>
        && old(active).Some? && IdOf(old(active).value) == old(activeRequest)
        && answered == old(answered) + {old(active).value}
        && queue == OutboxRuns.Result(setting.codecs, old(queue), CompleteOp(old(activeRequest))).0
        && (completionStored
            <==> OutboxRuns.Result(setting.codecs, old(queue), CompleteOp(old(activeRequest))).1 == NoError)
        && PendingItems(old(queue)) <= PendingItems(queue) + {old(active).value}
      ensures answer.Fail? && (answer.failure.retryable || answer.failure.transport) ==>
        queue == old(queue) && answered == old(answered)
      ensures answer.Fail? && (answer.failure.timeout || answer.failure.invalidResponse) ==>
        queue == old(queue) && answered == old(answered)
      ensures answer.Ok? && (answer.requestId == None || answer.requestId.value != old(activeRequest)) ==>
        queue == old(queue) && answered == old(answered)
      ensures (old(activeRequest) != []
               && if answer.Ok? then answer.requestId == Some(old(activeRequest))
                  else !answer.failure.retryable && !answer.failure.transport && !answer.failure.timeout
                       && !answer.failure.invalidResponse) ==>
        && old(queue).Pending() != [] && old(active).Some? && answered == old(answered) + {old(active).value}
        && (completionStored <==> old(queue).Pending()[0] == old(active).value)
        && queue.Pending() == if completionStored then old(queue).Pending()[1..] else old(queue).Pending()
    {
      hide Chained, AtTip, UniqueIds, OutboxRuns.Result, PendingItems, Journalled, Definitive;
      WhatIsDefinitive(answer, activeRequest);
      activeJob := false;
      completionStored := false;
      var sent := activeRequest;
      activeRequest := [];
      var requestId := if answer.Ok? && answer.requestId.Some? then answer.requestId.value else [];
      if answer.Ok? && (answer.requestId == None || requestId == [] || requestId != sent) { return; }
      if answer.Fail? && Ambiguous(answer.failure) { return; }
      var completedId := if answer.Ok? then requestId else sent;
      if completedId == [] { return; }
      assert completedId == sent;
      answered := answered + {active.value};
      CompleteKeepsPending(setting.codecs, queue, active.value);
      CompleteIsJournalled(setting.codecs, queue, active.value);
      var (after, error) := OutboxRuns.Result(setting.codecs, queue, CompleteOp(completedId));
      queue := after;
      completionStored := error == NoError;
    }

    /** A restart, after a loss of power during `op` or between operations. The
        outbox comes back as one of the queues an interrupted operation leaves. */
    method Restart(op: Op, left: Queue, newRebootId: Bytes)
      requires Valid() && left.Valid() && MayLeave(setting.codecs, queue, op, left)
      requires op.AppendOp? ==> op.x.Queued?
      requires op.AppendOp? ==> Chained(OutboxRuns.Result(setting.codecs, queue, op).0.actions)
      requires op.CompleteOp? && queue.Pending() != [] && IdOf(queue.Pending()[0]) == op.id ==>
        queue.Pending()[0] in answered
      requires forall i :: 0 <= i < |left.actions| && left.actions[i].Queued? ==>
        left.actions[i].action.rebootId != newRebootId
      modifies this
      ensures Valid() && queue == left && stored == old(stored) && answered == old(answered)
      ensures StaysInTime(setting, old(queue), op) ==> InTime(setting, queue.actions)
    {
      hide UniqueIds, OutboxRuns.Result, PendingItems, MayLeave, Journalled;
      LeftIsJournalled(setting.codecs, queue, op, left);
      LeftKeepsPending(setting.codecs, queue, op, left);
      LeftKeepsChain(setting, queue, op, left);
      queue := left;
      rebootId := newRebootId;
      sequence := 0;
      lastLocalHash := [];
      activeJob := false;
      activeRequest := [];
    }
  }

  // ------------------------------------------------------------- what steps keep

  // A journal that may come before the action, and the boot's place in it.
  predicate Extendable(items: seq<Item>, action: Action, rebootId: Bytes, sequence: nat, last: Bytes) {
    && sequence > 0 && Chained(items) && AtTip(items, rebootId, sequence - 1, last)
    && action.rebootId == rebootId && action.deviceSequence == sequence && action.previousLocalHash == last
  }

  lemma {:induction false} ExtendedJournal(s: Setting, items: seq<Item>, action: Action, rebootId: Bytes,
                                           sequence: nat, last: Bytes)
    requires Extendable(items, action, rebootId, sequence, last)
    ensures Queued(action) !in items
    ensures Chained(items + [Queued(action)])
    ensures AtTip(items + [Queued(action)], rebootId, sequence, action.signature)
    ensures AtTip(items, rebootId, sequence, last)
    ensures InTime(s, items) && ClockAdvances(s, items, rebootId, action.deviceCapturedAt) ==>
      InTime(s, items + [Queued(action)])
  {
    var more := items + [Queued(action)];
    forall i | 1 <= i < |more| ensures Follows(more[i - 1].action, more[i].action) {
      if i < |items| { assert Follows(items[i - 1].action, items[i].action); }
    }
    if InTime(s, items) && ClockAdvances(s, items, rebootId, action.deviceCapturedAt) {
      forall i | 1 <= i < |more| ensures Advances(s, more[i - 1].action, more[i].action) {
        if i < |items| { assert Advances(s, items[i - 1].action, items[i].action); }
      }
    }
  }

  lemma {:induction false} ExtendableSuffix(s: Setting, items: seq<Item>, k: nat, action: Action, rebootId: Bytes,
                                            sequence: nat, last: Bytes)
    requires Extendable(items, action, rebootId, sequence, last) && k <= |items|
    ensures Extendable(items[k..], action, rebootId, sequence, last)
    ensures InTime(s, items) && ClockAdvances(s, items, rebootId, action.deviceCapturedAt) ==>
      InTime(s, items[k..]) && ClockAdvances(s, items[k..], rebootId, action.deviceCapturedAt)
  {
    ChainedSuffix(s, items, k);
    TipOfSuffix(items, k, rebootId, sequence - 1, last);
    assert k < |items| ==> items[k..][|items| - k - 1] == items[|items| - 1];
  }

  lemma {:induction false} AppendKeepsChain(s: Setting, q: Queue, action: Action, rebootId: Bytes, sequence: nat,
                                            last: Bytes)
    requires q.Valid() && Extendable(q.actions, action, rebootId, sequence, last)
    ensures Chained(q.actions)
    ensures var r := OutboxRuns.Result(s.codecs, q, AppendOp(Queued(action)));
      && r.0.Valid() && Chained(r.0.actions)
      && Queued(action) !in q.actions
      && AtTip(r.0.actions, rebootId, sequence, if r.1 == NoError then action.signature else last)
      && (InTime(s, q.actions) && ClockAdvances(s, q.actions, rebootId, action.deviceCapturedAt) ==>
            InTime(s, r.0.actions))
  {
    hide Extendable, Chained, AtTip, InTime, ClockAdvances;
    assert Chained(q.actions) && AllActions(q.actions) by {
      ExtendableIsChained(q.actions, action, rebootId, sequence, last);
    }
    AppendedQueue(s.codecs, q, Queued(action));
    ExtendedJournal(s, q.actions, action, rebootId, sequence, last);
    ExtendableSuffix(s, q.actions, q.completed, action, rebootId, sequence, last);
    ExtendedJournal(s, q.Pending(), action, rebootId, sequence, last);
  }

  lemma {:induction false} ExtendableIsChained(items: seq<Item>, action: Action, rebootId: Bytes, sequence: nat,
                                               last: Bytes)
    requires Extendable(items, action, rebootId, sequence, last)
    ensures Chained(items) && AllActions(items)
  {
  }

  /** What appending makes of a queue: the action at its end, perhaps after
      dropping what is completed, or no change. */
  lemma {:induction false} AppendedQueue(cs: Codecs, q: Queue, x: Item)
    requires q.Valid()
    ensures var r := OutboxRuns.Result(cs, q, AppendOp(x));
      && r.0.Valid()
      && (r.1 == NoError && x !in q.actions ==>
            r.0.Pending() == q.Pending() + [x] && r.0.actions in {q.actions + [x], q.Pending() + [x]})
      && (r.1 != NoError || x in q.actions ==> r.0 == q)
  {
    UniqueSuffix(q.actions, q.completed);
    assert (q.actions + [x])[q.completed..] == q.actions[q.completed..] + [x];
    if forall i :: 0 <= i < |q.actions| ==> IdOf(q.actions[i]) != IdOf(x) {
      UniqueExtends(q.actions, x);
      UniqueExtends(q.Pending(), x);
    }
  }

  lemma {:induction false} UniqueExtends(items: seq<Item>, x: Item)
    requires UniqueIds(items) && forall i :: 0 <= i < |items| ==> IdOf(items[i]) != IdOf(x)
    ensures UniqueIds(items + [x])
  {
  }

  lemma {:induction false} AppendKeepsPending(cs: Codecs, q: Queue, x: Item)
    requires q.Valid()
    ensures var r := OutboxRuns.Result(cs, q, AppendOp(x));
      && r.0.Valid() && PendingItems(q) <= PendingItems(r.0)
      && (r.1 == NoError && x !in q.actions ==> x in r.0.Pending())
  {
    hide UniqueIds;
    AppendedQueue(cs, q, x);
    var r := OutboxRuns.Result(cs, q, AppendOp(x)).0;
    forall y | y in PendingItems(q) ensures y in PendingItems(r) { assert y in r.Pending(); }
  }

  /** Completing an id that a pending action has takes away that action or nothing. */
  lemma {:induction false} CompleteKeepsPending(cs: Codecs, q: Queue, x: Item)
    requires q.Valid() && x in q.Pending()
    ensures var r := OutboxRuns.Result(cs, q, CompleteOp(IdOf(x)));
      && r.0.Valid() && r.0.actions == q.actions && PendingItems(q) <= PendingItems(r.0) + {x}
  {
    var r := OutboxRuns.Result(cs, q, CompleteOp(IdOf(x))).0;
    var k :| 0 <= k < |q.Pending()| && q.Pending()[k] == x;
    assert q.actions[q.completed + k] == x;
    HeadOrNothing(q, r);
    assert q.Pending()[0] == q.actions[q.completed];
  }

  lemma {:induction false} AppendIsJournalled(cs: Codecs, q: Queue, x: Item)
    requires q.Valid() && Journalled(cs, q) && OutboxRuns.Result(cs, q, AppendOp(x)).0.Valid()
    ensures Journalled(cs, OutboxRuns.Result(cs, q, AppendOp(x)).0)
    ensures AppendedTo(cs, q, x, OutboxRuns.Result(cs, q, AppendOp(x)).1, OutboxRuns.Result(cs, q, AppendOp(x)).0)
  {
    hide Lawful, UniqueIds, AppendedTo;
    AnswerOfAppend(cs, q, x);
  }

  lemma {:induction false} CompleteIsJournalled(cs: Codecs, q: Queue, x: Item)
    requires q.Valid() && Journalled(cs, q) && x in q.Pending()
    ensures var r := OutboxRuns.Result(cs, q, CompleteOp(IdOf(x)));
      && Journalled(cs, r.0) && r.0.Valid() && r.0.actions == q.actions
      && (r.1 == NoError <==> q.Pending()[0] == x)
      && r.0.Pending() == if r.1 == NoError then q.Pending()[1..] else q.Pending()
  {
    hide Lawful;
    var k :| 0 <= k < |q.Pending()| && q.Pending()[k] == x;
    assert q.actions[q.completed + k] == x && q.Pending()[0] == q.actions[q.completed];
    assert Completable(cs, x);
    OnlyOne(q, q.completed + k);
  }

  lemma {:induction false} LeftIsJournalled(cs: Codecs, q: Queue, op: Op, left: Queue)
    requires q.Valid() && Journalled(cs, q) && left.Valid() && MayLeave(cs, q, op, left)
    ensures Journalled(cs, left)
  {
    hide Lawful, UniqueIds;
    if op.AppendOp? && left == OutboxRuns.Result(cs, q, op).0 { AppendIsJournalled(cs, q, op.x); }
  }

  lemma {:induction false} HeadOrNothing(q: Queue, r: Queue)
    requires q.Valid() && r.Valid() && r.actions == q.actions
    requires r == q || (q.Pending() != [] && r.completed == q.completed + 1)
    ensures r != q ==> PendingItems(q) == PendingItems(r) + {q.Pending()[0]}
  {
    if r != q {
      assert q.Pending() == [q.Pending()[0]] + r.Pending();
    }
  }

  lemma {:induction false} LeftKeepsPending(cs: Codecs, q: Queue, op: Op, left: Queue)
    requires q.Valid() && left.Valid() && MayLeave(cs, q, op, left)
    ensures PendingItems(q) <= PendingItems(left)
      + if op.CompleteOp? && q.Pending() != [] && IdOf(q.Pending()[0]) == op.id then {q.Pending()[0]} else {}
  {
    hide UniqueIds;
    match op {
      case AppendOp(x) => AppendKeepsPending(cs, q, x);
      case CompleteOp(id) => HeadOrNothing(q, OutboxRuns.Result(cs, q, op).0);
      case CompactOp =>
    }
    if left == Reopened(q) {
      forall y | y in PendingItems(q) ensures y in PendingItems(left) { assert y in left.Pending(); }
    } else if left == Compacted(q) {
      assert left.Pending() == q.Pending();
    }
  }

  lemma {:induction false} LeftKeepsChain(s: Setting, q: Queue, op: Op, left: Queue)
    requires q.Valid() && left.Valid() && MayLeave(s.codecs, q, op, left) && Chained(q.actions)
    requires op.AppendOp? ==> Chained(OutboxRuns.Result(s.codecs, q, op).0.actions)
    ensures Chained(left.actions)
    ensures StaysInTime(s, q, op) ==> InTime(s, left.actions)
  {
    ChainedSuffix(s, q.actions, q.completed);
  }

  // -------------------------------------------------------------- what is sent

  function Text(b: Bytes): string {
    seq(|b|, i requires 0 <= i < |b| => b[i] as char)
  }

  function Sent(s: Setting, commandOf: byte -> WorkDay.Command, timeOf: Bytes -> Option<int>, item: Item, index: nat)
    : Server.QueuedAction
    requires item.Queued?
  {
    var a := item.action;
    Server.QueuedAction(
      WorkDay.Request(Text(a.clientRequestId), commandOf(a.command), s.captured(a.deviceCapturedAt),
                      timeOf(a.appliedAt), s.captured(a.clockSyncedAt)),
      Text(a.uid), a.deviceSequence, Text(a.rebootId), Text(a.previousLocalHash), Text(a.signature), index)
  }

  function Batch(s: Setting, commandOf: byte -> WorkDay.Command, timeOf: Bytes -> Option<int>, items: seq<Item>)
    : seq<Server.QueuedAction>
    requires AllActions(items)
  {
    seq(|items|, i requires 0 <= i < |items| => Sent(s, commandOf, timeOf, items[i], i))
  }

  lemma {:induction false} TextIsInjective(a: Bytes, b: Bytes)
    ensures Text(a) == Text(b) <==> a == b
  {
    if Text(a) == Text(b) {
      assert |Text(a)| == |a| && |Text(b)| == |b|;
      forall i | 0 <= i < |a| ensures a[i] == b[i] {
        assert Text(a)[i] == Text(b)[i];
      }
    }
  }

  lemma {:induction false} SentInTurn(s: Setting, commandOf: byte -> WorkDay.Command, timeOf: Bytes -> Option<int>,
                                      x: Item, y: Item, i: nat)
    requires x.Queued? && y.Queued? && i > 0 && Follows(x.action, y.action)
    ensures var first, second := Sent(s, commandOf, timeOf, x, i - 1), Sent(s, commandOf, timeOf, y, i);
      && Server.LinkHolds(first, second)
      && (Advances(s, x.action, y.action) ==> !Server.Before(second, first))
  {
    hide Text;
    TextIsInjective(y.action.rebootId, x.action.rebootId);
    EmptyText();
  }

  lemma {:induction false} SentPlaces(s: Setting, commandOf: byte -> WorkDay.Command, timeOf: Bytes -> Option<int>,
                                      output: seq<Item>)
    requires AllActions(output)
    ensures Server.Indexed(Batch(s, commandOf, timeOf, output))
  {
  }

  lemma {:induction false} EmptyText()
    ensures Text([]) == ""
  {
  }

  /** Any batch the outbox lists is one chain. The server's sort leaves it as it is if
      and only if no action is captured before the one ahead of it, which an advancing
      clock makes sure of over any number of boots; and then the chain check passes. */
  lemma {:induction false} BatchesPassTheServer(s: Setting, commandOf: byte -> WorkDay.Command,
                                                timeOf: Bytes -> Option<int>, q: Queue, output: seq<Item>)
    requires q.Valid() && Chained(q.actions) && output <= q.Pending()
    ensures AllActions(output)
    ensures var batch := Batch(s, commandOf, timeOf, output);
      && Server.ChainHolds(batch) && Server.Indexed(batch)
      && (Server.SortQueued(batch) == batch <==> Server.InOrder(batch))
      && (InTime(s, q.actions) ==> Server.SortQueued(batch) == batch && Server.ChainHolds(Server.SortQueued(batch)))
  {
    hide Server.SortQueued, Server.InOrder, Server.LinkHolds, Server.Before, Follows, Advances, Sent, UniqueIds;
    assert output == q.actions[q.completed..][..|output|];
    ChainedSuffix(s, q.actions, q.completed);
    assert AllActions(output);
    var batch := Batch(s, commandOf, timeOf, output);
    forall i | 1 <= i < |batch|
      ensures Server.LinkHolds(batch[i - 1], batch[i])
      ensures InTime(s, q.actions) ==> !Server.Before(batch[i], batch[i - 1])
    {
      assert Follows(output[i - 1].action, output[i].action);
      assert InTime(s, q.actions) ==> Advances(s, output[i - 1].action, output[i].action);
      SentInTurn(s, commandOf, timeOf, output[i - 1], output[i], i);
      assert batch[i - 1] == Sent(s, commandOf, timeOf, output[i - 1], i - 1);
      assert batch[i] == Sent(s, commandOf, timeOf, output[i], i);
    }
    assert forall i :: 0 <= i < |batch| ==> batch[i].index == i by { SentPlaces(s, commandOf, timeOf, output); }
    Server.SortKeepsOrder(batch);
    Server.InOrderIs(batch);
  }

  /** From the press to the log: if a batch's answer says that the action of a press was
      recorded, the log has one event more, the person's, of the command that was pressed
      and at the time that was chosen, or else the time of the press. */
  lemma {:induction false} PressBecomesEvent(
      s: Setting, commandOf: byte -> WorkDay.Command, timeOf: Bytes -> Option<int>, press: Press, rebootId: Bytes,
      sequence: nat, lastLocalHash: Bytes, a: Action, index: nat, before: Delivery.Db, terminal: string,
      employee: Option<string>, now: int, after: Delivery.Db, outcome: Server.Outcome)
    requires IsPressed(s, press, rebootId, sequence, lastLocalHash, a)
    requires Server.Synced(before, terminal, Sent(s, commandOf, timeOf, Queued(a), index), employee, now, after,
                           outcome)
    requires outcome.status.Accepted?
    ensures var n := |before.rows|;
      && employee.Some? && |after.rows| == n + 1 && after.rows[..n] == before.rows
      && after.rows[n].employee == employee.value && after.rows[n].terminal == terminal
      && after.rows[n].requestId == Text(s.requestId(rebootId, sequence))
      && after.rows[n].entry == Delivery.Plain(WorkDay.Event(
           commandOf(press.command), if timeOf(press.appliedAt).Some? then timeOf(press.appliedAt).value
                                     else s.captured(press.timestamp)))
  {
    hide Server.Effects, Server.InTimeOrder, Server.Recordable, Text;
  }
}
