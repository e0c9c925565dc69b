/** The outbox as a bounded first-in first-out queue, over every run with losses of power anywhere. */
module OutboxRuns {
  import opened Bytes
  import opened OutboxFormat
  import opened Journal
  import opened Flash
  import opened OutboxRecovery
  import opened OutboxQueue

  /** The journalled actions, of which the first `completed` are done. */
  datatype Queue = Queue(actions: seq<Item>, completed: nat) {
    predicate Valid() { completed <= |actions| && UniqueIds(actions) }
    function Pending(): seq<Item> requires Valid() { actions[completed..] }
    function Marks(): seq<Item>
      requires Valid()
    {
      seq(completed, i requires 0 <= i < completed => Done(IdOf(actions[i])))
    }
  }

  datatype Op = AppendOp(x: Item) | CompleteOp(id: Bytes) | CompactOp

  function Compacted(q: Queue): Queue requires q.Valid() { Queue(q.Pending(), 0) }

  function Reopened(q: Queue): Queue { Queue(q.actions, 0) }

  /** The queue operations, with the error each returns. */
  function Result(cs: Codecs, q: Queue, op: Op): (Queue, OutboxError)
    requires q.Valid()
  {
    match op
    case AppendOp(x) =>
      if !cs.actions.valid(x) then (q, InvalidData)
      else if exists i :: 0 <= i < |q.actions| && IdOf(q.actions[i]) == IdOf(x) && q.actions[i] != x then
        (q, InvalidData)
      else if x in q.actions then (q, NoError)
      else if |q.actions| < CAPACITY then (Queue(q.actions + [x], q.completed), NoError)
      else if q.completed == 0 then (q, Capacity)
      else (Queue(q.Pending() + [x], 0), NoError)
    case CompleteOp(id) =>
      if !cs.completions.valid(Done(id)) then (q, InvalidData)
      else if exists i :: 0 <= i < q.completed && IdOf(q.actions[i]) == id then (q, NoError)
      else if q.Pending() == [] then (q, NotFound)
      else if IdOf(q.Pending()[0]) != id then (q, InvalidData)
      else (Queue(q.actions, q.completed + 1), NoError)
    case CompactOp => (Compacted(q), NoError)
  }

  ghost function OpPlan(cs: Codecs, files: Files, op: Op): Plan
    requires Paired(cs)
  {
    match op
    case AppendOp(x) => AppendPlan(cs, files, x)
    case CompleteOp(id) => CompletePlan(cs, files, id)
    case CompactOp => CompactPlan(cs, files)
  }

  /** The queues an interrupted operation may leave: the one before, the one after, or, when it
      compacts, the one before with its completed actions pending again or dropped. */
  predicate MayLeave(cs: Codecs, q: Queue, op: Op, left: Queue)
    requires q.Valid()
  {
    || left == q
    || left == Result(cs, q, op).0
    || ((op.CompactOp? || (op.AppendOp? && |q.actions| >= CAPACITY)) && left in {Reopened(q), Compacted(q)})
  }

  ghost predicate ReadyQueue(cs: Codecs, files: Files, q: Queue) {
    q.Valid() && Ready(cs, files, q.actions, q.Marks())
  }

  ghost predicate RecoverableQueue(cs: Codecs, files: Files, q: Queue)
    requires Paired(cs)
  {
    q.Valid() && Recoverable(cs, files, q.actions, q.Marks())
  }

  lemma {:induction false} MarksOfReopened(q: Queue)
    requires q.Valid()
    ensures Reopened(q).Valid() && Reopened(q).Marks() == []
    ensures Compacted(q).Valid() && Compacted(q).Marks() == []
  {
    UniqueSuffix(q.actions, q.completed);
  }

  lemma {:induction false} ScanOfQueue(cs: Codecs, files: Files, q: Queue)
    requires Paired(cs) && ReadyQueue(cs, files, q)
    ensures Scan(cs, files) == Scanned(NoError, q.actions, q.completed)
  {
    ScanOfReady(cs, files, q.actions, q.Marks());
  }

  lemma {:induction false} CompactQueue(cs: Codecs, files: Files, q: Queue)
    requires Paired(cs) && ReadyQueue(cs, files, q)
    ensures CompactPlan(cs, files).error == NoError
    ensures ReadyQueue(cs, Run(files, CompactPlan(cs, files).calls), Compacted(q))
    ensures forall after :: Interrupted(files, CompactPlan(cs, files).calls, after) ==>
              RecoverableQueue(cs, after, q) || RecoverableQueue(cs, after, Reopened(q))
                  || RecoverableQueue(cs, after, Compacted(q))
  {
    MarksOfReopened(q);
    CompactIsSafe(cs, files, q.actions, q.Marks());
  }

  /** A new action journalled where there is room for it. */
  lemma {:induction false} AppendWithRoom(cs: Codecs, files: Files, q: Queue, x: Item)
    requires Paired(cs) && ReadyQueue(cs, files, q) && |q.actions| < CAPACITY && cs.actions.valid(x)
    requires forall i :: 0 <= i < |q.actions| ==> IdOf(q.actions[i]) != IdOf(x)
    ensures var calls := [Append(CurrentPath(Actions), cs.actions.frame(x))];
            var more := Queue(q.actions + [x], q.completed);
            && ReadyQueue(cs, Run(files, calls), more)
            && forall after :: Interrupted(files, calls, after) ==>
              RecoverableQueue(cs, after, q) || RecoverableQueue(cs, after, more)
  {
    var calls := [Append(CurrentPath(Actions), cs.actions.frame(x))];
    var more := Queue(q.actions + [x], q.completed);
    assert more.Marks() == q.Marks();
    FrameAppendedWhole(cs.actions, Actions, files, q.actions, x);
    RunIsInterrupted(files, calls);
    OtherJournalKept(cs, Actions, Completions, files, calls, Run(files, calls), q.Marks());
    RestedSettles(cs.completions, Completions, files, q.Marks());
    forall after | Interrupted(files, calls, after)
      ensures RecoverableQueue(cs, after, q) || RecoverableQueue(cs, after, more)
    {
      FrameAppended(cs.actions, Actions, files, q.actions, x, after);
      OtherJournalKept(cs, Actions, Completions, files, calls, after, q.Marks());
    }
  }

  /** The head of the queue marked as completed. */
  lemma {:induction false} CompleteHead(cs: Codecs, files: Files, q: Queue)
    requires Paired(cs) && ReadyQueue(cs, files, q) && q.Pending() != []
    ensures var mark := Done(IdOf(q.Pending()[0]));
            var calls := [Append(CurrentPath(Completions), cs.completions.frame(mark))];
            var fewer := Queue(q.actions, q.completed + 1);
            && ReadyQueue(cs, Run(files, calls), fewer)
            && forall after :: Interrupted(files, calls, after) ==>
              RecoverableQueue(cs, after, q) || RecoverableQueue(cs, after, fewer)
  {
    var head := q.Pending()[0];
    var mark := Done(IdOf(head));
    assert head == q.actions[q.completed] && Completable(cs, head);
    var calls := [Append(CurrentPath(Completions), cs.completions.frame(mark))];
    var fewer := Queue(q.actions, q.completed + 1);
    assert fewer.Marks() == q.Marks() + [mark];
    FrameAppendedWhole(cs.completions, Completions, files, q.Marks(), mark);
    RunIsInterrupted(files, calls);
    OtherJournalKept(cs, Completions, Actions, files, calls, Run(files, calls), q.actions);
    RestedSettles(cs.actions, Actions, files, q.actions);
    forall after | Interrupted(files, calls, after)
      ensures RecoverableQueue(cs, after, q) || RecoverableQueue(cs, after, fewer)
    {
      FrameAppended(cs.completions, Completions, files, q.Marks(), mark, after);
      OtherJournalKept(cs, Completions, Actions, files, calls, after, q.actions);
    }
  }

  lemma {:induction false} NothingDone(cs: Codecs, files: Files, q: Queue)
    requires Paired(cs) && ReadyQueue(cs, files, q)
    ensures forall after :: Interrupted(files, [], after) ==> RecoverableQueue(cs, after, q)
  {
    ReadyIsRecoverable(cs, files, q.actions, q.Marks());
  }

  /** What an operation guarantees on the stored files. */
  ghost predicate Refines(cs: Codecs, files: Files, q: Queue, op: Op)
    requires Paired(cs) && q.Valid()
  {
    var plan := OpPlan(cs, files, op);
    && plan.error == Result(cs, q, op).1
    && ReadyQueue(cs, Run(files, plan.calls), Result(cs, q, op).0)
    && forall after :: Interrupted(files, plan.calls, after) ==> LeavesAllowed(cs, q, op, after)
  }

  ghost predicate LeavesAllowed(cs: Codecs, q: Queue, op: Op, after: Files)
    requires Paired(cs) && q.Valid()
  {
    exists left :: MayLeave(cs, q, op, left) && RecoverableQueue(cs, after, left)
  }

  // At capacity, an append compacts first and then writes its frame.
  lemma {:induction false} AppendAfterCompacting(cs: Codecs, files: Files, q: Queue, x: Item)
    requires Paired(cs) && ReadyQueue(cs, files, q)
    requires OpPlan(cs, files, AppendOp(x)).calls != [] && |q.actions| >= CAPACITY
    ensures Refines(cs, files, q, AppendOp(x))
  {
    hide Ready, Recoverable, CompactPlan;
    var op := AppendOp(x);
    var plan := OpPlan(cs, files, op);
    ScanOfQueue(cs, files, q);
    var compact, write := CompactPlan(cs, files).calls, [Append(CurrentPath(Actions), cs.actions.frame(x))];
    CompactQueue(cs, files, q);
    MarksOfReopened(q);
    var middle := Run(files, compact);
    AppendWithRoom(cs, middle, Compacted(q), x);
    RunAppend(files, compact, write);
    forall after | Interrupted(files, plan.calls, after)
      ensures LeavesAllowed(cs, q, op, after)
    {
      InterruptedAppend(files, compact, write, after);
      if Interrupted(middle, write, after) && !RecoverableQueue(cs, after, Compacted(q)) {
        assert RecoverableQueue(cs, after, Result(cs, q, op).0);
      }
    }
  }

  lemma {:induction false} AppendRefines(cs: Codecs, files: Files, q: Queue, x: Item)
    requires Paired(cs) && ReadyQueue(cs, files, q)
    ensures Refines(cs, files, q, AppendOp(x))
  {
    var plan := OpPlan(cs, files, AppendOp(x));
    ScanOfQueue(cs, files, q);
    NothingDone(cs, files, q);
    if plan.calls != [] {
      if |q.actions| < CAPACITY {
        assert plan.calls == [Append(CurrentPath(Actions), cs.actions.frame(x))];
        AppendWithRoom(cs, files, q, x);
      } else {
        AppendAfterCompacting(cs, files, q, x);
      }
    }
  }

  lemma {:induction false} CompleteRefines(cs: Codecs, files: Files, q: Queue, id: Bytes)
    requires Paired(cs) && ReadyQueue(cs, files, q)
    ensures Refines(cs, files, q, CompleteOp(id))
  {
    hide Ready, Recoverable;
    ScanOfQueue(cs, files, q);
    NothingDone(cs, files, q);
    if OpPlan(cs, files, CompleteOp(id)).calls != [] {
      CompleteHead(cs, files, q);
    }
  }

  /** Each operation on the stored files does what the queue operation does and returns its error; and
      interrupted anywhere it leaves one of the allowed queues. */
  lemma {:induction false} OperationsRefineTheQueue(cs: Codecs, files: Files, q: Queue, op: Op)
    requires Paired(cs) && ReadyQueue(cs, files, q)
    ensures Refines(cs, files, q, op)
  {
    match op
    case AppendOp(x) => AppendRefines(cs, files, q, x);
    case CompleteOp(id) => CompleteRefines(cs, files, q, id);
    case CompactOp => CompactQueue(cs, files, q);
  }

  // ------------------------------------------------------ what a caller is answered

  /** No journalled action has the id. */
  predicate NewId(q: Queue, id: Bytes) {
    forall i :: 0 <= i < |q.actions| ==> IdOf(q.actions[i]) != id
  }

  /** How an append is answered, and the queue it leaves. A new action is accepted
      unless ten thousand are pending, and is then the last pending one; a repeat is
      accepted and changes nothing; what is not accepted changes nothing. */
  ghost predicate AppendedTo(cs: Codecs, q: Queue, x: Item, error: OutboxError, after: Queue)
    requires q.Valid() && after.Valid()
  {
    && (error == NoError <==> cs.actions.valid(x) && (x in q.actions || (NewId(q, IdOf(x)) && |q.Pending()| < 10000)))
    && (error == Capacity <==> cs.actions.valid(x) && NewId(q, IdOf(x)) && |q.Pending()| == 10000)
    && (error == InvalidData <==> !cs.actions.valid(x) || (x !in q.actions && !NewId(q, IdOf(x))))
    && (NewId(q, IdOf(x)) && error == NoError ==> after.Pending() == q.Pending() + [x])
    && (!NewId(q, IdOf(x)) || error != NoError ==> after == q)
  }

  /** The action is the oldest pending one, or an earlier one. */
  predicate Reached(q: Queue, id: Bytes) {
    exists i :: 0 <= i < |q.actions| && i <= q.completed && IdOf(q.actions[i]) == id
  }

  /** How a completion is answered: the oldest pending action leaves, a completed one
      is confirmed, and everything else is refused without a change. */
  ghost predicate CompletedFrom(cs: Codecs, q: Queue, id: Bytes, error: OutboxError, after: Queue)
    requires q.Valid() && after.Valid()
  {
    && (error == NoError <==> Reached(q, id))
    && (error == NotFound <==> !Reached(q, id) && q.Pending() == [] && cs.completions.valid(Done(id)))
    && (q.Pending() != [] && IdOf(q.Pending()[0]) == id ==> after.Pending() == q.Pending()[1..])
    && (q.Pending() == [] || IdOf(q.Pending()[0]) != id ==> after == q)
    && after.actions == q.actions
  }

  lemma {:induction false} ResultOfAppend(cs: Codecs, files: Files, q: Queue, x: Item)
    requires Paired(cs) && ReadyQueue(cs, files, q)
    ensures Result(cs, q, AppendOp(x)).0.Valid()
    ensures AppendedTo(cs, q, x, Result(cs, q, AppendOp(x)).1, Result(cs, q, AppendOp(x)).0)
  {
    hide Lawful, Encoded, Content, AppendedTo;
    AppendRefines(cs, files, q, x);
    AnswerOfAppend(cs, q, x);
  }

  // Of a queue that fits its journal.
  lemma {:induction false} AnswerOfAppend(cs: Codecs, q: Queue, x: Item)
    requires q.Valid() && |q.actions| <= CAPACITY && AllValid(cs.actions, q.actions)
    requires Result(cs, q, AppendOp(x)).0.Valid()
    ensures AppendedTo(cs, q, x, Result(cs, q, AppendOp(x)).1, Result(cs, q, AppendOp(x)).0)
  {
    hide UniqueIds;
    if x in q.actions {
      var i :| 0 <= i < |q.actions| && q.actions[i] == x;
      OnlyOne(q, i);
    }
  }

  lemma {:induction false} OnlyOne(q: Queue, i: nat)
    requires q.Valid() && i < |q.actions|
    ensures forall j :: 0 <= j < |q.actions| && IdOf(q.actions[j]) == IdOf(q.actions[i]) ==> j == i
  {
  }

  lemma {:induction false} ResultOfComplete(cs: Codecs, files: Files, q: Queue, id: Bytes)
    requires Paired(cs) && ReadyQueue(cs, files, q)
    ensures Result(cs, q, CompleteOp(id)).0.Valid()
    ensures CompletedFrom(cs, q, id, Result(cs, q, CompleteOp(id)).1, Result(cs, q, CompleteOp(id)).0)
  {
    hide Lawful, Encoded, Content, CompletedFrom;
    CompleteRefines(cs, files, q, id);
    forall i | 0 <= i < |q.actions| ensures Completable(cs, q.actions[i]) { assert cs.actions.valid(q.actions[i]); }
    AnswerOfComplete(cs, q, id);
  }

  lemma {:induction false} AnswerOfComplete(cs: Codecs, q: Queue, id: Bytes)
    requires q.Valid() && forall i :: 0 <= i < |q.actions| ==> Completable(cs, q.actions[i])
    requires Result(cs, q, CompleteOp(id)).0.Valid()
    ensures CompletedFrom(cs, q, id, Result(cs, q, CompleteOp(id)).1, Result(cs, q, CompleteOp(id)).0)
  {
    hide UniqueIds;
    if q.Pending() != [] && IdOf(q.Pending()[0]) == id {
      OnlyOne(q, q.completed);
    } else if Reached(q, id) {
      var i :| 0 <= i < |q.actions| && i <= q.completed && IdOf(q.actions[i]) == id;
      assert Completable(cs, q.actions[i]);
    }
  }

  /** The stored files hold the queue an append leaves. */
  ghost predicate AppendAnswered(cs: Codecs, q: Queue, x: Item, error: OutboxError, files: Files)
    requires q.Valid()
  {
    exists after :: ReadyQueue(cs, files, after) && AppendedTo(cs, q, x, error, after)
  }

  ghost predicate CompleteAnswered(cs: Codecs, q: Queue, id: Bytes, error: OutboxError, files: Files)
    requires q.Valid()
  {
    exists after :: ReadyQueue(cs, files, after) && CompletedFrom(cs, q, id, error, after)
  }

  lemma {:induction false} AppendIsAnswered(cs: Codecs, files: Files, q: Queue, x: Item)
    requires Paired(cs) && ReadyQueue(cs, files, q)
    ensures AppendAnswered(cs, q, x, AppendPlan(cs, files, x).error, Run(files, AppendPlan(cs, files, x).calls))
  {
    hide Ready, AppendedTo, AppendPlan, Result;
    AppendRefines(cs, files, q, x);
    ResultOfAppend(cs, files, q, x);
    assert OpPlan(cs, files, AppendOp(x)) == AppendPlan(cs, files, x);
  }

  lemma {:induction false} CompleteIsAnswered(cs: Codecs, files: Files, q: Queue, id: Bytes)
    requires Paired(cs) && ReadyQueue(cs, files, q)
    ensures CompleteAnswered(cs, q, id, CompletePlan(cs, files, id).error,
                             Run(files, CompletePlan(cs, files, id).calls))
  {
    hide Ready, CompletedFrom, CompletePlan, Result;
    CompleteRefines(cs, files, q, id);
    ResultOfComplete(cs, files, q, id);
    assert OpPlan(cs, files, CompleteOp(id)) == CompletePlan(cs, files, id);
  }

  // ---------------------------------------------------------------- whole runs

  /** The stored files, and whether a started outbox is running on them. */
  datatype Config = Config(files: Files, on: bool)

  /** `begin` or an operation, run to its end or cut by a loss of power. */
  datatype Event = Start | StartCut | Do(op: Op) | DoCut(op: Op)

  ghost predicate Next(cs: Codecs, a: Config, e: Event, b: Config)
    requires Paired(cs)
  {
    match e
    case Start =>
      var plan := BeginPlan(cs, a.files);
      !a.on && b == Config(Run(a.files, plan.calls), plan.error == NoError)
    case StartCut => !a.on && !b.on && Interrupted(a.files, BeginPlan(cs, a.files).calls, b.files)
    case Do(op) => a.on && b == Config(Run(a.files, OpPlan(cs, a.files, op).calls), true)
    case DoCut(op) => a.on && !b.on && Interrupted(a.files, OpPlan(cs, a.files, op).calls, b.files)
  }

  ghost predicate IsRun(cs: Codecs, configs: seq<Config>, events: seq<Event>)
    requires Paired(cs)
  {
    && |configs| == |events| + 1
    && configs[0] == Config(map[], false)
    && forall i :: 0 <= i < |events| ==> Next(cs, configs[i], events[i], configs[i + 1])
  }

  /** Everything ever journalled, in order: the first `dropped` were compacted away, the next
      `completed` are marked, and `finished` is the furthest that has ever been marked. */
  datatype History = History(log: seq<Item>, dropped: nat, completed: nat, finished: nat) {
    predicate Valid() { dropped + completed <= finished <= |log| && UniqueIds(log[dropped..]) }
    function Now(): Queue requires Valid() { Queue(log[dropped..], completed) }
  }

  /** A history that agrees with the stored files. */
  ghost predicate Explains(cs: Codecs, h: History, c: Config)
    requires Paired(cs)
  {
    h.Valid() && if c.on then ReadyQueue(cs, c.files, h.Now()) else RecoverableQueue(cs, c.files, h.Now())
  }

  function OpOf(e: Event): Option<Op> {
    match e
    case Do(op) => Some(op)
    case DoCut(op) => Some(op)
    case _ => None
  }

  /** How one event may extend the history: only the action being appended enters the log, at its end;
      and the log is finished one action at a time, only by completing that action's id. */
  ghost predicate Extends(cs: Codecs, h: History, e: Event, later: History) {
    && h.Valid() && later.Valid()
    && h.log <= later.log && h.dropped <= later.dropped && h.finished <= later.finished
    && (|later.log| > |h.log| ==>
          OpOf(e).Some? && OpOf(e).value.AppendOp? && later.log == h.log + [OpOf(e).value.x])
    && (later.finished > h.finished ==>
          && later.finished == h.finished + 1 <= |h.log|
          && OpOf(e) == Some(CompleteOp(IdOf(h.log[h.finished]))))
    && (e.Do? && Result(cs, h.Now(), e.op).1 == NoError ==> Acknowledged(e.op, later))
  }

  /** A successful append has its action in the journal; a successful completion has its id marked. */
  predicate Acknowledged(op: Op, h: History)
    requires h.Valid()
  {
    match op
    case AppendOp(x) => x in h.Now().actions
    case CompleteOp(id) => exists i :: 0 <= i < h.completed && IdOf(h.Now().actions[i]) == id
    case CompactOp => h.completed == 0
  }

  /** Any queue an operation may leave is a queue of an extended history. */
  lemma {:induction false} QueueStepExtends(cs: Codecs, h: History, e: Event, left: Queue) returns (later: History)
    requires h.Valid() && OpOf(e).Some? && left.Valid() && MayLeave(cs, h.Now(), OpOf(e).value, left)
    requires e.Do? ==> left == Result(cs, h.Now(), e.op).0
    ensures Extends(cs, h, e, later) && later.Now() == left
  {
    var q := h.Now();
    var op := OpOf(e).value;
    if left == q {
      later := h;
    } else if left == Result(cs, q, op).0 && op.AppendOp? && |q.actions| < CAPACITY {
      later := History(h.log + [op.x], h.dropped, h.completed, h.finished);
      assert later.log[h.dropped..] == q.actions + [op.x];
    } else if left == Result(cs, q, op).0 && op.AppendOp? {
      later := History(h.log + [op.x], h.dropped + h.completed, 0, h.finished);
      assert later.log[later.dropped..] == q.Pending() + [op.x];
    } else if op.CompleteOp? {
      var reached := h.dropped + h.completed + 1;
      later := History(h.log, h.dropped, h.completed + 1, if reached > h.finished then reached else h.finished);
      assert q.Pending()[0] == h.log[h.dropped + h.completed];
    } else if left == Reopened(q) {
      later := History(h.log, h.dropped, 0, h.finished);
    } else {
      later := History(h.log, h.dropped + h.completed, 0, h.finished);
      assert later.log[later.dropped..] == q.Pending();
    }
    if e.Do? && Result(cs, q, op).1 == NoError {
      AcknowledgedByResult(cs, q, op, later);
    }
  }

  lemma {:induction false} AcknowledgedByResult(cs: Codecs, q: Queue, op: Op, later: History)
    requires q.Valid() && later.Valid() && later.Now() == Result(cs, q, op).0 && Result(cs, q, op).1 == NoError
    ensures Acknowledged(op, later)
  {
    if op.CompleteOp? && later.Now() != q {
      assert IdOf(later.Now().actions[q.completed]) == op.id;
    }
  }

  lemma {:induction false} EventExtends(cs: Codecs, a: Config, e: Event, b: Config, h: History) returns (later: History)
    requires Paired(cs) && Explains(cs, h, a) && Next(cs, a, e, b)
    ensures Explains(cs, later, b) && Extends(cs, h, e, later)
    ensures e.Start? ==> b.on
  {
    var q := h.Now();
    if OpOf(e).None? {
      BeginRecovers(cs, a.files, q.actions, q.Marks());
      later := h;
    } else {
      var op := OpOf(e).value;
      OperationsRefineTheQueue(cs, a.files, q, op);
      var left := Result(cs, q, op).0;
      if e.DoCut? {
        assert LeavesAllowed(cs, q, op, b.files);
        left :| MayLeave(cs, q, op, left) && RecoverableQueue(cs, b.files, left);
      }
      later := QueueStepExtends(cs, h, e, left);
    }
  }

  /** Histories that agree with the files at every moment of a run and extend one another. */
  ghost predicate IsHistoryOf(cs: Codecs, hs: seq<History>, configs: seq<Config>, events: seq<Event>)
    requires Paired(cs)
  {
    && |hs| == |configs| == |events| + 1
    && hs[0] == History([], 0, 0, 0)
    && (forall i :: 0 <= i < |configs| ==> Explains(cs, hs[i], configs[i]))
    && (forall i :: 0 <= i < |events| ==> Extends(cs, hs[i], events[i], hs[i + 1]))
  }

  lemma {:induction false} EmptyStorage(cs: Codecs)
    requires Paired(cs)
    ensures Explains(cs, History([], 0, 0, 0), Config(map[], false))
  {
    var h := History([], 0, 0, 0);
    assert h.Now() == Queue([], 0) && h.Now().Marks() == [];
  }

  /** Every run, with power lost at any point of any storage call of any operation or of `begin` itself
      any number of times, has a history that agrees with the files at every moment; and every `begin`
      that is not cut succeeds. */
  lemma {:induction false} EveryRunHasAHistory(cs: Codecs, configs: seq<Config>, events: seq<Event>)
    returns (hs: seq<History>)
    requires Paired(cs) && IsRun(cs, configs, events)
    ensures IsHistoryOf(cs, hs, configs, events)
    ensures forall i :: 0 <= i < |events| && events[i].Start? ==> configs[i + 1].on
    decreases |events|
  {
    hide Explains, Extends, Next;
    var n := |events|;
    if n == 0 {
      hs := [History([], 0, 0, 0)];
      EmptyStorage(cs);
    } else {
      var before := EveryRunHasAHistory(cs, configs[..n], events[..n - 1]);
      assert configs[..n][n - 1] == configs[n - 1];
      assert Next(cs, configs[n - 1], events[n - 1], configs[n]);
      var last := EventExtends(cs, configs[n - 1], events[n - 1], configs[n], before[n - 1]);
      hs := before + [last];
      forall i | 0 <= i < n ensures Extends(cs, hs[i], events[i], hs[i + 1]) {
        if i < n - 1 {
          assert events[..n - 1][i] == events[i] && Extends(cs, before[i], events[..n - 1][i], before[i + 1]);
        }
      }
      forall i | 0 <= i <= n ensures Explains(cs, hs[i], configs[i]) {
        if i < n { assert configs[..n][i] == configs[i] && Explains(cs, before[i], configs[..n][i]); }
      }
      forall i | 0 <= i < n && events[i].Start? ensures configs[i + 1].on {
        if i < n - 1 { assert events[..n - 1][i].Start? && configs[..n][i + 1] == configs[i + 1]; }
      }
    }
  }

  lemma {:induction false} LogsGrow(cs: Codecs, hs: seq<History>, events: seq<Event>, i: nat, j: nat)
    requires |hs| == |events| + 1 && i <= j < |hs|
    requires forall k :: 0 <= k < |events| ==> Extends(cs, hs[k], events[k], hs[k + 1])
    ensures hs[i].log <= hs[j].log && hs[i].finished <= hs[j].finished
    decreases j - i
  {
    if i < j {
      LogsGrow(cs, hs, events, i, j - 1);
      assert Extends(cs, hs[j - 1], events[j - 1], hs[j]);
    }
  }

  /** No pending action is ever lost, reordered or doubled: whatever had been journalled by moment `i`
      and has not been completed by moment `j` is pending at `j`, in the order it was journalled, with
      nothing missing in between. */
  lemma {:induction false} NothingPendingIsLost(cs: Codecs, configs: seq<Config>, events: seq<Event>, hs: seq<History>,
                                                i: nat, j: nat, k: nat)
    requires Paired(cs) && IsHistoryOf(cs, hs, configs, events)
    requires i <= j < |hs| && hs[j].finished <= k < |hs[i].log|
    ensures hs[j].Valid() && UniqueIds(hs[j].Now().Pending())
    ensures var first := hs[j].dropped + hs[j].completed;
            && hs[j].Now().Pending() == hs[j].log[first..]
            && first <= hs[j].finished && k < |hs[j].log| && hs[j].Now().Pending()[k - first] == hs[i].log[k]
  {
    LogsGrow(cs, hs, events, i, j);
    var h := hs[j];
    assert Explains(cs, h, configs[j]);
    UniqueSuffix(h.Now().actions, h.completed);
    assert h.Now().Pending() == h.log[h.dropped + h.completed..];
  }
}
