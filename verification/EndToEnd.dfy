/** The terminal's queue and the service's tables together: messages are lost,
    repeated and late, power is lost, and no journalled action goes missing. */
module EndToEnd {
  import opened Bytes
  import opened OutboxFormat
  import opened OutboxQueue
  import opened OutboxRuns
  import D = Delivery
  import C = DeviceController

  /** `stored` are the actions ever journalled, `refused` those a definitive failure
      has arrived for, and `replies` the requests a definitive reply has been sent
      for. A reply stays: it may arrive any number of times, at any time, or never. */
  datatype System = System(queue: Queue, db: D.Db, stored: set<Item>, refused: set<Item>, replies: set<Bytes>)

  datatype Step =
    | Journal(x: Item) | Serve(id: Bytes) | WriteElsewhere
    | Refuse(x: Item, failure: C.Failure) | Settle(x: Item) | LosePower(op: Op)

  function KeyOf(terminal: string, id: Bytes): D.Key { (terminal, C.Text(id)) }

  function ActionsOf(q: Queue): set<Item> { set x | x in q.actions }

  /** A definitive answer for the action has arrived, or can. */
  predicate Answered(s: System, x: Item) { IdOf(x) in s.replies || x in s.refused }

  function WithQueue(s: System, queue: Queue): System { s.(queue := queue, stored := s.stored + ActionsOf(queue)) }

  ghost predicate Next(cs: Codecs, terminal: string, s: System, step: Step, t: System)
    requires s.queue.Valid()
  {
    match step
    case Journal(x) => t == WithQueue(s, OutboxRuns.Result(cs, s.queue, AppendOp(x)).0)
    case Serve(id) =>
      && t == s.(db := t.db, replies := t.replies) && D.Delivers(s.db, KeyOf(terminal, id), t.db)
      && t.replies == if KeyOf(terminal, id) in t.db.receipts then s.replies + {id} else s.replies
    case WriteElsewhere => t == s.(db := t.db) && D.OtherWrites(s.db, t.db)
    case Refuse(x, f) =>
      && !f.retryable && !f.transport && !f.timeout && !f.invalidResponse
      && t == s.(refused := s.refused + {x})
    case Settle(x) =>
      && x in s.queue.Pending() && Answered(s, x)
      && t == WithQueue(s, OutboxRuns.Result(cs, s.queue, CompleteOp(IdOf(x))).0)
    case LosePower(op) =>
      && (op.CompleteOp? ==> exists x :: x in s.queue.Pending() && IdOf(x) == op.id && Answered(s, x))
      && t.queue.Valid() && MayLeave(cs, s.queue, op, t.queue) && t == WithQueue(s, t.queue)
  }

  /** What became of an action: it waits, it was refused, or it has its receipt. */
  predicate Accounted(terminal: string, s: System, x: Item)
    requires s.queue.Valid()
  {
    x in s.queue.Pending() || x in s.refused || KeyOf(terminal, IdOf(x)) in s.db.receipts
  }

  ghost predicate Safe(terminal: string, s: System) {
    && s.queue.Valid() && D.Consistent(s.db) && ActionsOf(s.queue) <= s.stored
    && (forall id :: id in s.replies ==> KeyOf(terminal, id) in s.db.receipts)
    && forall x :: x in s.stored ==> Accounted(terminal, s, x)
  }

  ghost predicate IsRunOf(cs: Codecs, terminal: string, states: seq<System>, steps: seq<Step>) {
    && |states| == |steps| + 1
    && states[0] == System(Queue([], 0), D.Db([], [], map[]), {}, {}, {})
    && forall i :: 0 <= i < |steps| ==>
      states[i].queue.Valid() && Next(cs, terminal, states[i], steps[i], states[i + 1])
  }

  // The queue moves on, and only answered actions leave it.
  lemma {:induction false} QueueStep(terminal: string, s: System, queue: Queue, gone: set<Item>)
    requires Safe(terminal, s) && queue.Valid()
    requires C.PendingItems(s.queue) <= C.PendingItems(queue) + gone
    requires ActionsOf(queue) <= s.stored + C.PendingItems(queue)
    requires forall x :: x in gone ==> Answered(s, x)
    ensures Safe(terminal, WithQueue(s, queue))
  {
    hide D.Consistent, C.Text;
    var t := WithQueue(s, queue);
    forall x | x in t.stored ensures Accounted(terminal, t, x) {
      if x !in C.PendingItems(queue) {
        assert x in s.stored && Accounted(terminal, s, x);
        assert x in s.queue.Pending() ==> x in C.PendingItems(s.queue);
      }
    }
  }

  lemma {:induction false} JournalIsSafe(cs: Codecs, terminal: string, s: System, x: Item)
    requires Safe(terminal, s)
    ensures Safe(terminal, WithQueue(s, OutboxRuns.Result(cs, s.queue, AppendOp(x)).0))
  {
    hide Safe, UniqueIds, OutboxRuns.Result, ActionsOf, C.PendingItems, WithQueue;
    SafeQueue(terminal, s);
    C.AppendKeepsPending(cs, s.queue, x);
    JournalledActions(cs, s.queue, x);
    QueueStep(terminal, s, OutboxRuns.Result(cs, s.queue, AppendOp(x)).0, {});
  }

  // Appending leaves the actions there were, and the new one pending.
  lemma {:induction false} JournalledActions(cs: Codecs, q: Queue, x: Item)
    requires q.Valid() && OutboxRuns.Result(cs, q, AppendOp(x)).0.Valid()
    ensures var queue := OutboxRuns.Result(cs, q, AppendOp(x)).0;
      ActionsOf(queue) <= ActionsOf(q) + C.PendingItems(queue)
  {
    hide UniqueIds, OutboxRuns.Result;
    C.AppendedQueue(cs, q, x);
    var (queue, error) := OutboxRuns.Result(cs, q, AppendOp(x));
    if error == NoError && x !in q.actions {
      assert queue.Pending()[|q.Pending()|] == x;
      assert forall y :: y in q.Pending() ==> y in q.actions;
    }
  }

  lemma {:induction false} SafeQueue(terminal: string, s: System)
    requires Safe(terminal, s)
    ensures s.queue.Valid() && ActionsOf(s.queue) <= s.stored
  {
  }

  lemma {:induction false} SettleIsSafe(cs: Codecs, terminal: string, s: System, x: Item)
    requires Safe(terminal, s) && s.queue.Valid() && x in s.queue.Pending() && Answered(s, x)
    ensures Safe(terminal, WithQueue(s, OutboxRuns.Result(cs, s.queue, CompleteOp(IdOf(x))).0))
  {
    hide Safe, UniqueIds, OutboxRuns.Result, C.PendingItems, WithQueue;
    SafeQueue(terminal, s);
    C.CompleteKeepsPending(cs, s.queue, x);
    QueueStep(terminal, s, OutboxRuns.Result(cs, s.queue, CompleteOp(IdOf(x))).0, {x});
  }

  lemma {:induction false} PowerLossIsSafe(cs: Codecs, terminal: string, s: System, op: Op, left: Queue)
    requires Safe(terminal, s) && s.queue.Valid() && left.Valid() && MayLeave(cs, s.queue, op, left)
    requires op.CompleteOp? ==> exists x :: x in s.queue.Pending() && IdOf(x) == op.id && Answered(s, x)
    ensures Safe(terminal, WithQueue(s, left))
  {
    hide Safe, UniqueIds;
    SafeQueue(terminal, s);
    if left == OutboxRuns.Result(cs, s.queue, op).0 && !op.CompactOp? {
      match op {
        case AppendOp(x) => JournalIsSafe(cs, terminal, s, x);
        case CompleteOp(id) =>
          var x :| x in s.queue.Pending() && IdOf(x) == id && Answered(s, x);
          SettleIsSafe(cs, terminal, s, x);
      }
    } else {
      assert left in {s.queue, Reopened(s.queue), Compacted(s.queue)};
      assert forall y :: y in s.queue.Pending() ==> y in s.queue.actions;
      assert left.Pending() == s.queue.Pending() || left.Pending() == s.queue.actions;
      assert forall y :: y in left.actions ==> y in s.queue.actions;
      QueueStep(terminal, s, left, {});
    }
  }

  lemma {:induction false} ServiceIsSafe(terminal: string, s: System, db: D.Db, replies: set<Bytes>)
    requires Safe(terminal, s) && D.Consistent(db) && D.Extends(s.db, db)
    requires forall id :: id in replies ==> id in s.replies || KeyOf(terminal, id) in db.receipts
    ensures Safe(terminal, s.(db := db, replies := replies))
  {
    hide D.Consistent, C.Text;
    var t := s.(db := db, replies := replies);
    forall x | x in t.stored ensures Accounted(terminal, t, x) { assert Accounted(terminal, s, x); }
  }

  lemma {:induction false} StepIsSafe(cs: Codecs, terminal: string, s: System, step: Step, t: System)
    requires Safe(terminal, s) && s.queue.Valid() && Next(cs, terminal, s, step, t)
    ensures Safe(terminal, t)
  {
    hide Safe, D.Consistent, D.Delivers, D.OtherWrites, D.Extends;
    ConsistentTables(terminal, s);
    match step {
      case Journal(x) => JournalIsSafe(cs, terminal, s, x);
      case Serve(id) =>
        D.MoveExtends(s.db, D.Deliver(KeyOf(terminal, id)), t.db);
        D.DeliveryKeepsConsistency(s.db, KeyOf(terminal, id), t.db);
        ServiceIsSafe(terminal, s, t.db, t.replies);
      case WriteElsewhere =>
        D.MoveExtends(s.db, D.Other, t.db);
        D.OtherWritesKeepConsistency(s.db, t.db);
        ServiceIsSafe(terminal, s, t.db, s.replies);
        assert t == s.(db := t.db, replies := s.replies);
      case Refuse(x, _) => RefusalIsSafe(terminal, s, x);
      case Settle(x) => SettleIsSafe(cs, terminal, s, x);
      case LosePower(op) => PowerLossIsSafe(cs, terminal, s, op, t.queue);
    }
  }

  lemma {:induction false} ConsistentTables(terminal: string, s: System)
    requires Safe(terminal, s)
    ensures D.Consistent(s.db)
  {
  }

  lemma {:induction false} RefusalIsSafe(terminal: string, s: System, x: Item)
    requires Safe(terminal, s)
    ensures Safe(terminal, s.(refused := s.refused + {x}))
  {
    hide D.Consistent, C.Text;
    var t := s.(refused := s.refused + {x});
    forall y | y in t.stored ensures Accounted(terminal, t, y) { assert Accounted(terminal, s, y); }
  }

  lemma {:induction false} RunIsSafe(cs: Codecs, terminal: string, states: seq<System>, steps: seq<Step>, i: nat)
    requires IsRunOf(cs, terminal, states, steps) && i < |states|
    ensures Safe(terminal, states[i])
  {
    if i > 0 {
      hide Safe, Next;
      RunIsSafe(cs, terminal, states, steps, i - 1);
      StepIsSafe(cs, terminal, states[i - 1], steps[i - 1], states[i]);
    }
  }

  lemma {:induction false} StoredGrows(cs: Codecs, terminal: string, states: seq<System>, steps: seq<Step>, i: nat,
                                       j: nat)
    requires IsRunOf(cs, terminal, states, steps) && i <= j < |states|
    ensures states[i].stored <= states[j].stored
  {
    if i < j {
      StoredGrows(cs, terminal, states, steps, i, j - 1);
      assert Next(cs, terminal, states[j - 1], steps[j - 1], states[j]);
    }
  }

  /** An earlier answer refused the action: neither retryable, nor a failure of the
      transport, nor a timeout, nor an answer nobody could read. */
  predicate RefusedBefore(steps: seq<Step>, j: nat, x: Item)
    requires j <= |steps|
  {
    exists k :: 0 <= k < j && steps[k].Refuse? && steps[k].x == x
                && !steps[k].failure.retryable && !steps[k].failure.transport && !steps[k].failure.timeout
                && !steps[k].failure.invalidResponse
  }

  lemma {:induction false} RefusedByAnAnswer(cs: Codecs, terminal: string, states: seq<System>, steps: seq<Step>,
                                             j: nat, x: Item)
    requires IsRunOf(cs, terminal, states, steps) && j < |states| && x in states[j].refused
    ensures RefusedBefore(steps, j, x)
  {
    assert Next(cs, terminal, states[j - 1], steps[j - 1], states[j]);
    if x in states[j - 1].refused { RefusedByAnAnswer(cs, terminal, states, steps, j - 1, x); }
  }

  /** Over every run of the terminal and the service: an action once journalled still
      waits at every later time, or was refused for good, or its request has its one
      outcome at the service, exactly one event or exactly one incident. */
  lemma {:induction false} NoActionGoesMissing(cs: Codecs, terminal: string, states: seq<System>, steps: seq<Step>,
                                               i: nat, j: nat, x: Item)
    requires IsRunOf(cs, terminal, states, steps) && i <= j < |states| && terminal != ""
    requires states[i].queue.Valid() && x in states[i].queue.actions
    ensures states[j].queue.Valid() && D.HasOneOutcome(states[j].db, KeyOf(terminal, IdOf(x)))
    ensures x in states[j].queue.Pending() || RefusedBefore(steps, j, x)
      || KeyOf(terminal, IdOf(x)) in states[j].db.receipts
  {
    hide D.Consistent, D.HasOneOutcome, IsRunOf, C.Text, RefusedBefore;
    RunIsSafe(cs, terminal, states, steps, i);
    RunIsSafe(cs, terminal, states, steps, j);
    StoredGrows(cs, terminal, states, steps, i, j);
    assert x in ActionsOf(states[i].queue);
    assert Accounted(terminal, states[j], x);
    assert |states| == |steps| + 1 by { LengthOfRun(cs, terminal, states, steps); }
    if x in states[j].refused { RefusedByAnAnswer(cs, terminal, states, steps, j, x); }
    D.ConsistentOutcome(states[j].db, KeyOf(terminal, IdOf(x)));
  }

  lemma {:induction false} LengthOfRun(cs: Codecs, terminal: string, states: seq<System>, steps: seq<Step>)
    requires IsRunOf(cs, terminal, states, steps)
    ensures |states| == |steps| + 1
  {
  }
}
