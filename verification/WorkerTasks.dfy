/** The network worker's two tasks as methods over its shared fields. */
module WorkerTasks {
  import opened NetworkWorker

  /** The worker's shared data, and where each task stands. Every method is one
      step of one task; which task goes next is up to the scheduler. */
  class Worker {
    const call: Job -> int
    var inUse: seq<bool>
    var jobs: seq<Job>
    var replies: seq<Reply>
    var pending: seq<nat>
    var results: seq<nat>
    var caller: Caller
    var task: Task
    var stop: bool
    ghost var accepted: seq<Job>
    ghost var delivered: seq<Reply>

    ghost function Now(): State
      reads this
    {
      State(inUse, jobs, replies, pending, results, caller, task, stop, accepted, delivered)
    }

    ghost predicate Sound()
      reads this
    {
      Good(call, Now())
    }

    constructor (call: Job -> int, blank: Job, empty: Reply)
      ensures this.call == call && Initial(Now()) && Sound() && inUse == [false, false, false, false]
    {
      this.call := call;
      inUse := [false, false, false, false];
      jobs := [blank, blank, blank, blank];
      replies := [empty, empty, empty, empty];
      pending, results := [], [];
      caller, task, stop := Idle, Waiting, false;
      accepted, delivered := [], [];
      new;
      InitialIsGood(call, Now());
    }

    /** `claimFreeSlot`: the first slot not in use is reserved. */
    method ClaimFreeSlot(job: Job) returns (claimed: bool)
      requires Sound() && caller.Idle? && !stop
      modifies this
      ensures NetworkWorker.Claim(old(Now()), Now()) && Sound()
      ensures claimed <==> exists i :: 0 <= i < |old(inUse)| && !old(inUse)[i]
      ensures claimed ==>
        && caller.Claimed? && caller.job == job && caller.slot < |old(inUse)| && !old(inUse)[caller.slot]
        && forall i :: 0 <= i < caller.slot ==> old(inUse)[i]
    {
      ghost var before := Now();
      hide Good;
      var candidate := 0;
      while candidate < |inUse|
        invariant candidate <= |inUse| && Now() == before
        invariant forall i :: 0 <= i < candidate ==> inUse[i]
      {
        if !inUse[candidate] {
          assert FirstFree(before.inUse, candidate);
          inUse := inUse[candidate := true];
          caller := Claimed(candidate, job);
          StepKeepsGood(call, before, Now());
          return true;
        }
        candidate := candidate + 1;
      }
      return false;
    }

    /** The rest of `enqueue`: the job is copied into its slot, unless memory runs out. */
    method FillSlot(outOfMemory: bool)
      requires Sound() && caller.Claimed? && caller.slot < |jobs| && caller.slot < |inUse|
      modifies this
      ensures NetworkWorker.Fill(old(Now()), Now()) && Sound()
      ensures caller == if outOfMemory then Idle else Filled(old(caller).slot)
    {
      ghost var before := Now();
      hide Good;
      if outOfMemory {
        inUse := inUse[caller.slot := false];
        caller := Idle;
      } else {
        jobs := jobs[caller.slot := caller.job];
        caller := Filled(caller.slot);
      }
      StepKeepsGood(call, before, Now());
    }

    /** The send that makes `enqueue` succeed: it always finds room. */
    method Enqueue() returns (sent: bool)
      requires Sound() && caller.Filled? && caller.slot < |jobs|
      modifies this
      ensures NetworkWorker.SendPending(old(Now()), Now()) && Sound()
      ensures !old(stop) ==> sent && accepted == old(accepted) + [old(jobs)[old(caller).slot]]
    {
      ghost var before := Now();
      if !stop { SendsNeverFindAFullQueue(call, before); }
      hide Good;
      sent := |pending| < SLOTS;
      if sent {
        accepted := accepted + [jobs[caller.slot]];
        pending := pending + [caller.slot];
        caller := Idle;
      } else {
        caller := Refused(caller.slot);
      }
      StepKeepsGood(call, before, Now());
    }

    /** `poll`, first half: the number of the oldest answered slot. */
    method ReceiveResult() returns (received: bool)
      requires Sound() && caller.Idle?
      modifies this
      ensures NetworkWorker.ReceiveResult(old(Now()), Now()) && Sound()
      ensures received <==> old(results) != []
    {
      ghost var before := Now();
      hide Good;
      received := results != [];
      if received {
        caller := Taking(results[0]);
        results := results[1..];
      }
      StepKeepsGood(call, before, Now());
    }

    /** `poll`, second half: the reply is moved out and the slot freed. */
    method TakeResult() returns (output: Reply)
      requires Sound() && caller.Taking? && caller.slot < |inUse| && caller.slot < |replies|
      modifies this
      ensures NetworkWorker.TakeResult(old(Now()), Now()) && Sound()
      ensures delivered == old(delivered) + [output]
    {
      ghost var before := Now();
      hide Good;
      output := replies[caller.slot];
      delivered := delivered + [output];
      inUse := inUse[caller.slot := false];
      caller := Idle;
      StepKeepsGood(call, before, Now());
    }

    /** The worker task takes the oldest pending slot. */
    method ReceivePending() returns (received: bool)
      requires Sound() && task.Waiting?
      modifies this
      ensures NetworkWorker.ReceivePending(old(Now()), Now()) && Sound()
      ensures received <==> !stop && old(pending) != []
    {
      ghost var before := Now();
      hide Good;
      received := !stop && pending != [];
      if received {
        task := Received(pending[0]);
        pending := pending[1..];
      }
      StepKeepsGood(call, before, Now());
    }

    method CheckStop()
      requires Sound() && task.Received?
      modifies this
      ensures NetworkWorker.CheckStop(old(Now()), Now()) && Sound()
    {
      ghost var before := Now();
      hide Good;
      task := if stop then Stopped else Executing(task.slot);
      StepKeepsGood(call, before, Now());
    }

    /** `execute`, outside the lock: the slot is the worker's alone meanwhile. */
    method RunJob()
      requires Sound() && task.Executing? && task.slot < |jobs| && task.slot < |replies|
      modifies this
      ensures NetworkWorker.RunJob(call, old(Now()), Now()) && Sound()
    {
      ghost var before := Now();
      hide Good;
      replies := replies[task.slot := Execute(call, jobs[task.slot])];
      task := Sending(task.slot);
      StepKeepsGood(call, before, Now());
    }

    /** One try of the send loop: it always finds room. */
    method SendResult() returns (sent: bool)
      requires Sound() && task.Sending? && !stop
      modifies this
      ensures NetworkWorker.SendResult(old(Now()), Now()) && Sound() && sent
    {
      ghost var before := Now();
      SendsNeverFindAFullQueue(call, before);
      hide Good;
      sent := |results| < SLOTS;
      if sent {
        results := results + [task.slot];
        task := Sent(task.slot);
      }
      StepKeepsGood(call, before, Now());
    }

    /** The end of a round; once a stop is requested, the slot is given up. */
    method NextRound()
      requires Sound() && (task.Sent? || (task.Sending? && stop))
      modifies this
      ensures NetworkWorker.NextRound(old(Now()), Now()) && Sound()
    {
      ghost var before := Now();
      hide Good;
      if stop && task.slot < |inUse| {
        inUse := inUse[task.slot := false];
        task := Stopped;
      } else {
        task := Waiting;
      }
      StepKeepsGood(call, before, Now());
    }

    method RequestStop()
      requires Sound() && caller.Idle?
      modifies this
      ensures NetworkWorker.RequestStop(old(Now()), Now()) && Sound()
    {
      stop := true;
    }
  }
}
