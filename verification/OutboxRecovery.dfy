/** What `begin` does to one journal after a restart, and why it can be interrupted again at any point. */
module OutboxRecovery {
  import opened Bytes
  import opened OutboxFormat
  import opened Journal
  import opened Flash

  function CurrentPath(kind: Kind): Path { Path(kind, Current) }
  function FreshPath(kind: Kind): Path { Path(kind, Fresh) }
  function OldPath(kind: Kind): Path { Path(kind, Old) }
  function PathsOf(kind: Kind): set<Path> { {CurrentPath(kind), FreshPath(kind), OldPath(kind)} }

  /** What a reader finds at a path; a missing file is reported as NotFound. */
  ghost function Inspect(c: Codec, files: Files, path: Path): Inspection
    requires Lawful(c)
  {
    if path in files then ReadJournal(c, files[path], CAPACITY) else Inspection(NotFound, [], 0)
  }

  /** The storage calls an operation makes when no call fails, and the error it returns. */
  datatype Plan = Plan(calls: seq<Call>, error: OutboxError)

  ghost function ActivatePlan(kind: Kind, files: Files): seq<Call> {
    Drop(files, CurrentPath(kind)) + [Rename(FreshPath(kind), CurrentPath(kind))] + Drop(files, OldPath(kind))
  }

  /** The valid prefix of the current journal is copied aside, swapped in, and the torn file removed. */
  ghost function RepairPlan(kind: Kind, files: Files, prefix: Bytes): seq<Call> {
    CopyPlan(kind, files, prefix) + SwapPlan(kind)
  }

  ghost function CopyPlan(kind: Kind, files: Files, prefix: Bytes): seq<Call> {
    Drop(files, FreshPath(kind)) + Drop(files, OldPath(kind))
    + ([Write(FreshPath(kind), [])] + Blocks(FreshPath(kind), prefix))
  }

  ghost function SwapPlan(kind: Kind): seq<Call> {
    [Rename(CurrentPath(kind), OldPath(kind)), Rename(FreshPath(kind), CurrentPath(kind)), Remove(OldPath(kind))]
  }

  ghost function RestorePlan(kind: Kind, files: Files): seq<Call> {
    Drop(files, CurrentPath(kind)) + [Rename(OldPath(kind), CurrentPath(kind))] + Drop(files, FreshPath(kind))
  }

  ghost function PromotePlan(kind: Kind, files: Files, prefix: Bytes): seq<Call> {
    Drop(files, FreshPath(kind)) + ([Write(FreshPath(kind), [])] + Blocks(FreshPath(kind), prefix))
        + ActivatePlan(kind, files)
  }

  /** recoverJournal, branch by branch. */
  ghost function RecoverPlan(c: Codec, kind: Kind, files: Files): Plan
    requires Lawful(c)
  {
    var currentState := Inspect(c, files, CurrentPath(kind));
    var freshState := Inspect(c, files, FreshPath(kind));
    var oldState := Inspect(c, files, OldPath(kind));
    if currentState.error == NoError then
      Plan(Drop(files, FreshPath(kind)) + Drop(files, OldPath(kind)), NoError)
    else if currentState.error == Truncated && oldState.error != NoError then
      Plan(RepairPlan(kind, files, Content(files, CurrentPath(kind))[..currentState.validPrefix]), NoError)
    else if CurrentPath(kind) !in files && freshState.error == NoError then
      Plan(ActivatePlan(kind, files), NoError)
    else if oldState.error == NoError then
      Plan(RestorePlan(kind, files), NoError)
    else if freshState.error == NoError then
      Plan(ActivatePlan(kind, files), NoError)
    else if oldState.error == Truncated then
      Plan(PromotePlan(kind, files, Content(files, OldPath(kind))[..oldState.validPrefix]), NoError)
    else if CurrentPath(kind) !in files && FreshPath(kind) !in files && OldPath(kind) !in files then
      Plan([], NoError)
    else
      Plan([], if CurrentPath(kind) in files then currentState.error
               else if OldPath(kind) in files then oldState.error else freshState.error)
  }

  /** The items recovery settles on in the states that a loss of power can produce; None in others. */
  ghost function Settles(c: Codec, kind: Kind, files: Files): Option<seq<Item>>
    requires Lawful(c)
  {
    var currentState := Inspect(c, files, CurrentPath(kind));
    var freshState := Inspect(c, files, FreshPath(kind));
    var oldState := Inspect(c, files, OldPath(kind));
    if currentState.error == NoError then Some(currentState.items)
    else if currentState.error == Truncated && oldState.error != NoError then Some(currentState.items)
    else if CurrentPath(kind) !in files && freshState.error == NoError then Some(freshState.items)
    else if CurrentPath(kind) !in files && FreshPath(kind) !in files && OldPath(kind) !in files then Some([])
    else None
  }

  /** A journal at rest: one whole current file, or none at all for an empty journal. */
  ghost predicate Rested(c: Codec, kind: Kind, files: Files, items: seq<Item>) {
    && AllValid(c, items) && |items| <= CAPACITY
    && FreshPath(kind) !in files && OldPath(kind) !in files
    && (CurrentPath(kind) !in files ==> items == [])
    && Content(files, CurrentPath(kind)) == Encoded(c, items)
  }

  lemma {:induction false} InspectEncoded(c: Codec, files: Files, path: Path, items: seq<Item>)
    requires Lawful(c) && AllValid(c, items) && |items| <= CAPACITY
    requires path in files && files[path] == Encoded(c, items)
    ensures Inspect(c, files, path) == Inspection(NoError, items, |files[path]|)
  {
    ReadBack(c, items, [], CAPACITY);
    assert Encoded(c, items) + [] == Encoded(c, items);
  }

  lemma {:induction false} InspectClean(c: Codec, files: Files, path: Path)
    requires Lawful(c) && Inspect(c, files, path).error == NoError
    ensures path in files
    ensures var items := Inspect(c, files, path).items;
            AllValid(c, items) && |items| <= CAPACITY && files[path] == Encoded(c, items)
  {
    AcceptedBytes(c, files[path], CAPACITY);
    assert files[path][..|files[path]|] == files[path];
  }

  lemma {:induction false} RestedSettles(c: Codec, kind: Kind, files: Files, items: seq<Item>)
    requires Lawful(c) && Rested(c, kind, files, items)
    ensures Settles(c, kind, files) == Some(items)
  {
    if CurrentPath(kind) in files {
      InspectEncoded(c, files, CurrentPath(kind), items);
    }
  }

  /** Settling depends only on the three files of the journal. */
  lemma {:induction false} SettlesLocally(c: Codec, kind: Kind, a: Files, b: Files)
    requires Lawful(c)
    requires forall p :: p in PathsOf(kind) ==> (p in a <==> p in b) && Content(a, p) == Content(b, p)
    ensures Settles(c, kind, a) == Settles(c, kind, b)
  {
    assert CurrentPath(kind) in PathsOf(kind) && FreshPath(kind) in PathsOf(kind) && OldPath(kind) in PathsOf(kind);
  }

  /** While the current file is whole, nothing else matters. */
  lemma {:induction false} SettlesOnCurrent(c: Codec, kind: Kind, files: Files, after: Files)
    requires Lawful(c) && Inspect(c, files, CurrentPath(kind)).error == NoError
    requires Outside(after, {FreshPath(kind), OldPath(kind)}) == Outside(files, {FreshPath(kind), OldPath(kind)})
    ensures Settles(c, kind, after) == Settles(c, kind, files)
  {
    assert CurrentPath(kind) in Outside(files, {FreshPath(kind), OldPath(kind)});
    assert after[CurrentPath(kind)] == Outside(after, {FreshPath(kind), OldPath(kind)})[CurrentPath(kind)];
  }

  // ------------------------------------------------ recovery finishes and is idempotent

  /** What recovery guarantees: run to its end it leaves the settled journal at rest; interrupted
      anywhere it leaves a state that settles on the same items. Other files are never touched. */
  ghost predicate RecoversTo(c: Codec, kind: Kind, files: Files, calls: seq<Call>, items: seq<Item>)
    requires Lawful(c)
  {
    && Rested(c, kind, Run(files, calls), items)
    && Within(calls, PathsOf(kind))
    && forall after :: Interrupted(files, calls, after) ==> Settles(c, kind, after) == Some(items)
  }

  lemma {:induction false} KeepRecovers(c: Codec, kind: Kind, files: Files)
    requires Lawful(c) && Inspect(c, files, CurrentPath(kind)).error == NoError
    ensures RecoversTo(c, kind, files, Drop(files, FreshPath(kind)) + Drop(files, OldPath(kind)),
                       Inspect(c, files, CurrentPath(kind)).items)
  {
    var items := Inspect(c, files, CurrentPath(kind)).items;
    var calls := Drop(files, FreshPath(kind)) + Drop(files, OldPath(kind));
    InspectClean(c, files, CurrentPath(kind));
    RunAppend(files, Drop(files, FreshPath(kind)), Drop(files, OldPath(kind)));
    RunDrop(files, FreshPath(kind));
    var next := files - {FreshPath(kind)};
    assert Drop(files, OldPath(kind)) == Drop(next, OldPath(kind));
    RunDrop(next, OldPath(kind));
    forall after | Interrupted(files, calls, after)
      ensures Settles(c, kind, after) == Some(items)
    {
      UntouchedOutside(files, calls, {FreshPath(kind), OldPath(kind)}, after);
      SettlesOnCurrent(c, kind, files, after);
    }
  }

  lemma {:induction false} ActivateRecovers(c: Codec, kind: Kind, files: Files)
    requires Lawful(c) && CurrentPath(kind) !in files && Inspect(c, files, FreshPath(kind)).error == NoError
    ensures RecoversTo(c, kind, files, ActivatePlan(kind, files), Inspect(c, files, FreshPath(kind)).items)
  {
    var items := Inspect(c, files, FreshPath(kind)).items;
    InspectClean(c, files, FreshPath(kind));
    var swap := Rename(FreshPath(kind), CurrentPath(kind));
    var next := Apply(files, swap);
    var drop := Drop(files, OldPath(kind));
    var calls := ActivatePlan(kind, files);
    assert calls == [swap] + drop;
    assert drop == Drop(next, OldPath(kind));
    RunOne(files, swap);
    RunAppend(files, [swap], drop);
    RunDrop(next, OldPath(kind));
    forall after | Interrupted(files, calls, after)
      ensures Settles(c, kind, after) == Some(items)
    {
      InterruptedAppend(files, [swap], drop, after);
      InterruptedOne(files, swap, after);
      if after != files {
        if Interrupted(next, drop, after) {
          UntouchedOutside(next, drop, {FreshPath(kind), OldPath(kind)}, after);
        }
        assert Inspect(c, next, CurrentPath(kind)) == Inspect(c, files, FreshPath(kind));
        SettlesOnCurrent(c, kind, next, after);
      }
    }
  }

  // Copying the valid prefix aside at most removes the old file.
  lemma {:induction false} CopyKeepsOld(kind: Kind, files: Files, prefix: Bytes, after: Files)
    requires Interrupted(files, CopyPlan(kind, files, prefix), after)
    ensures OldPath(kind) in after ==> OldPath(kind) in files && after[OldPath(kind)] == files[OldPath(kind)]
  {
    hide Blocks;
    var dropFresh, dropOld := Drop(files, FreshPath(kind)), Drop(files, OldPath(kind));
    var copy := [Write(FreshPath(kind), [])] + Blocks(FreshPath(kind), prefix);
    BlocksWithin(FreshPath(kind), prefix);
    assert CopyPlan(kind, files, prefix) == dropFresh + (dropOld + copy);
    InterruptedAppend(files, dropFresh, dropOld + copy, after);
    RunDrop(files, FreshPath(kind));
    var second := files - {FreshPath(kind)};
    assert dropOld == Drop(second, OldPath(kind));
    InterruptedAppend(second, dropOld, copy, after);
    RunDrop(second, OldPath(kind));
    var third := second - {OldPath(kind)};
    if Interrupted(files, dropFresh, after) {
      UntouchedOutside(files, dropFresh, {FreshPath(kind)}, after);
      assert OldPath(kind) in after ==> OldPath(kind) in Outside(after, {FreshPath(kind)});
    } else if Interrupted(second, dropOld, after) {
      InterruptedOne(second, Remove(OldPath(kind)), after);
    } else {
      UntouchedOutside(third, copy, {FreshPath(kind)}, after);
      assert OldPath(kind) in after ==> OldPath(kind) in Outside(after, {FreshPath(kind)});
    }
  }

  /** Copying the valid prefix aside keeps the torn current file, and nothing valid is in the old one. */
  lemma {:induction false} CopyKeepsCurrent(c: Codec, kind: Kind, files: Files, prefix: Bytes, after: Files)
    requires Lawful(c)
    requires Inspect(c, files, CurrentPath(kind)).error == Truncated
    requires Inspect(c, files, OldPath(kind)).error != NoError
    requires Interrupted(files, CopyPlan(kind, files, prefix), after)
    ensures Settles(c, kind, after) == Settles(c, kind, files)
  {
    hide Blocks, Lawful, Interrupted;
    CopyKeepsOld(kind, files, prefix, after);
    BlocksWithin(FreshPath(kind), prefix);
    UntouchedOutside(files, CopyPlan(kind, files, prefix), {FreshPath(kind), OldPath(kind)}, after);
    assert CurrentPath(kind) in Outside(files, {FreshPath(kind), OldPath(kind)});
    assert after[CurrentPath(kind)] == Outside(after, {FreshPath(kind), OldPath(kind)})[CurrentPath(kind)];
  }

  lemma {:induction false} RunFreshCopy(files: Files, path: Path, prefix: Bytes)
    ensures Run(files, [Write(path, [])] + Blocks(path, prefix)) == files[path := prefix]
  {
    RunAppend(files, [Write(path, [])], Blocks(path, prefix));
    RunOne(files, Write(path, []));
    RunBlocks(files[path := []], path, prefix);
    assert [] + prefix == prefix;
  }

  lemma {:induction false} RunDrops(files: Files, p: Path, q: Path)
    requires p != q
    ensures Run(files, Drop(files, p) + Drop(files, q)) == files - {p} - {q}
  {
    RunAppend(files, Drop(files, p), Drop(files, q));
    RunDrop(files, p);
    assert Drop(files, q) == Drop(files - {p}, q);
    RunDrop(files - {p}, q);
  }

  lemma {:induction false} RunCopy(kind: Kind, files: Files, prefix: Bytes)
    ensures Run(files, CopyPlan(kind, files, prefix)) == (files - {OldPath(kind)})[FreshPath(kind) := prefix]
  {
    var drops := Drop(files, FreshPath(kind)) + Drop(files, OldPath(kind));
    var copy := [Write(FreshPath(kind), [])] + Blocks(FreshPath(kind), prefix);
    RunAppend(files, drops, copy);
    RunDrops(files, FreshPath(kind), OldPath(kind));
    RunFreshCopy(files - {FreshPath(kind)} - {OldPath(kind)}, FreshPath(kind), prefix);
  }

  /** Swapping a whole fresh file in: before the first rename nothing has changed, after it every
      state settles on the new items. */
  lemma {:induction false} SwapReplaces(c: Codec, kind: Kind, files: Files, items: seq<Item>)
    requires Lawful(c) && AllValid(c, items) && |items| <= CAPACITY
    requires CurrentPath(kind) in files && OldPath(kind) !in files
    requires FreshPath(kind) in files && files[FreshPath(kind)] == Encoded(c, items)
    ensures Rested(c, kind, Run(files, SwapPlan(kind)), items)
    ensures forall after :: Interrupted(files, SwapPlan(kind), after) ==>
              after == files || Settles(c, kind, after) == Some(items)
  {
    var first, second, third := Rename(CurrentPath(kind), OldPath(kind)), Rename(FreshPath(kind), CurrentPath(kind)),
        Remove(OldPath(kind));
    var a := Apply(files, first);
    var b := Apply(a, second);
    var d := Apply(b, third);
    assert SwapPlan(kind) == [first] + [second, third] && [second, third] == [second] + [third];
    RunAppend(files, [first], [second, third]);
    RunAppend(a, [second], [third]);
    RunOne(files, first); RunOne(a, second); RunOne(b, third);
    InspectEncoded(c, a, FreshPath(kind), items);
    InspectEncoded(c, b, CurrentPath(kind), items);
    InspectEncoded(c, d, CurrentPath(kind), items);
    forall after | Interrupted(files, SwapPlan(kind), after)
      ensures after == files || Settles(c, kind, after) == Some(items)
    {
      InterruptedAppend(files, [first], [second, third], after);
      InterruptedAppend(a, [second], [third], after);
      InterruptedOne(files, first, after); InterruptedOne(a, second, after); InterruptedOne(b, third, after);
      assert after in {files, a, b, d};
    }
  }

  lemma {:induction false} CopyWithin(kind: Kind, files: Files, prefix: Bytes)
    ensures Within(RepairPlan(kind, files, prefix), PathsOf(kind))
  {
    hide Blocks, Within;
    var paths := PathsOf(kind);
    var blocks := Blocks(FreshPath(kind), prefix);
    var drops := Drop(files, FreshPath(kind)) + Drop(files, OldPath(kind));
    BlocksWithin(FreshPath(kind), prefix);
    WithinLarger(blocks, {FreshPath(kind)}, paths);
    SmallPlansWithin(kind, files);
    WithinAppend([Write(FreshPath(kind), [])], blocks, paths);
    WithinAppend(drops, [Write(FreshPath(kind), [])] + blocks, paths);
    WithinAppend(CopyPlan(kind, files, prefix), SwapPlan(kind), paths);
  }

  lemma {:induction false} SmallPlansWithin(kind: Kind, files: Files)
    ensures Within(Drop(files, FreshPath(kind)) + Drop(files, OldPath(kind)), PathsOf(kind))
    ensures Within([Write(FreshPath(kind), [])], PathsOf(kind)) && Within(SwapPlan(kind), PathsOf(kind))
  {
  }

  lemma {:induction false} CopySettles(c: Codec, kind: Kind, files: Files, prefix: Bytes)
    requires Lawful(c)
    requires Inspect(c, files, CurrentPath(kind)).error == Truncated
    requires Inspect(c, files, OldPath(kind)).error != NoError
    requires prefix == files[CurrentPath(kind)][..Inspect(c, files, CurrentPath(kind)).validPrefix]
    ensures var state := Inspect(c, files, CurrentPath(kind));
            var copied := Run(files, CopyPlan(kind, files, prefix));
            && Settles(c, kind, copied) == Some(state.items)
            && Rested(c, kind, Run(copied, SwapPlan(kind)), state.items)
            && forall after :: Interrupted(copied, SwapPlan(kind), after) ==>
              Settles(c, kind, after) == Some(state.items)
  {
    var state := Inspect(c, files, CurrentPath(kind));
    var copied := Run(files, CopyPlan(kind, files, prefix));
    AcceptedBytes(c, files[CurrentPath(kind)], CAPACITY);
    RunCopy(kind, files, prefix);
    RunIsInterrupted(files, CopyPlan(kind, files, prefix));
    CopyKeepsCurrent(c, kind, files, prefix, copied);
    SwapReplaces(c, kind, copied, state.items);
  }

  lemma {:induction false} RepairRecovers(c: Codec, kind: Kind, files: Files)
    requires Lawful(c)
    requires Inspect(c, files, CurrentPath(kind)).error == Truncated
    requires Inspect(c, files, OldPath(kind)).error != NoError
    ensures var state := Inspect(c, files, CurrentPath(kind));
            RecoversTo(c, kind, files, RepairPlan(kind, files, files[CurrentPath(kind)][..state.validPrefix]),
                       state.items)
  {
    hide Rested, SwapPlan, CopyPlan;
    var state := Inspect(c, files, CurrentPath(kind));
    var prefix := files[CurrentPath(kind)][..state.validPrefix];
    var copy := CopyPlan(kind, files, prefix);
    CopyWithin(kind, files, prefix);
    CopySettles(c, kind, files, prefix);
    RunAppend(files, copy, SwapPlan(kind));
    forall after | Interrupted(files, RepairPlan(kind, files, prefix), after)
      ensures Settles(c, kind, after) == Some(state.items)
    {
      InterruptedAppend(files, copy, SwapPlan(kind), after);
      if Interrupted(files, copy, after) {
        CopyKeepsCurrent(c, kind, files, prefix, after);
      }
    }
  }

  /** In every state that settles, recovery succeeds and leaves the settled items at rest; and losing
      power anywhere inside it leaves a state that settles on the very same items. */
  lemma {:induction false} RecoveryIsIdempotent(c: Codec, kind: Kind, files: Files)
    requires Lawful(c) && Settles(c, kind, files).Some?
    ensures RecoverPlan(c, kind, files).error == NoError
    ensures RecoversTo(c, kind, files, RecoverPlan(c, kind, files).calls, Settles(c, kind, files).value)
  {
    var currentState := Inspect(c, files, CurrentPath(kind));
    if currentState.error == NoError {
      KeepRecovers(c, kind, files);
    } else if currentState.error == Truncated && Inspect(c, files, OldPath(kind)).error != NoError {
      RepairRecovers(c, kind, files);
    } else if CurrentPath(kind) !in files && Inspect(c, files, FreshPath(kind)).error == NoError {
      ActivateRecovers(c, kind, files);
    }
  }

  /** The branches that fall back to the old file are never taken in a state that settles. */
  lemma {:induction false} OldIsNeverRestored(c: Codec, kind: Kind, files: Files)
    requires Lawful(c) && Settles(c, kind, files).Some?
    ensures forall i :: 0 <= i < |RecoverPlan(c, kind, files).calls| ==>
              RecoverPlan(c, kind, files).calls[i] != Rename(OldPath(kind), CurrentPath(kind))
              && RecoverPlan(c, kind, files).calls[i] != Remove(CurrentPath(kind))
  {
    var prefix := Content(files, CurrentPath(kind))[..Inspect(c, files, CurrentPath(kind)).validPrefix];
    BlocksWithin(FreshPath(kind), prefix);
    assert forall i :: 0 <= i < |Blocks(FreshPath(kind), prefix)| ==>
      CallWithin(Blocks(FreshPath(kind), prefix)[i], {FreshPath(kind)});
  }

  // ------------------------------------------------------- states of any other origin

  /** What is left of a journal in any state of its files at all: the current file if it is
      whole, or torn beside no whole old one; else a fresh one with no current beside it;
      else the old one, a whole fresh one, or the old one torn; nothing if there is no
      file. None if none of them can be read. */
  ghost function Salvaged(c: Codec, kind: Kind, files: Files): Option<seq<Item>>
    requires Lawful(c)
  {
    var currentState := Inspect(c, files, CurrentPath(kind));
    var freshState := Inspect(c, files, FreshPath(kind));
    var oldState := Inspect(c, files, OldPath(kind));
    if currentState.error == NoError || (currentState.error == Truncated && oldState.error != NoError) then
      Some(currentState.items)
    else if freshState.error == NoError && (CurrentPath(kind) !in files || oldState.error != NoError) then
      Some(freshState.items)
    else if oldState.error in {NoError, Truncated} then Some(oldState.items)
    else if PathsOf(kind) !! files.Keys then Some([])
    else None
  }

  lemma {:induction false} RunOfRename(files: Files, from: Path, to: Path, drop: Path)
    requires from in files && from != to && drop != from && drop != to
    ensures Run(files, Drop(files, to) + [Rename(from, to)] + Drop(files, drop))
      == (files - {to, from, drop})[to := files[from]]
  {
    var first := files - {to};
    RunAppend(files, Drop(files, to), [Rename(from, to)]);
    RunDrop(files, to);
    RunOne(first, Rename(from, to));
    var second := (first - {from})[to := files[from]];
    RunAppend(files, Drop(files, to) + [Rename(from, to)], Drop(files, drop));
    assert Drop(files, drop) == Drop(second, drop);
    RunDrop(second, drop);
    assert second - {drop} == (files - {to, from, drop})[to := files[from]];
  }

  lemma {:induction false} RestsOn(c: Codec, kind: Kind, files: Files, others: Files, items: seq<Item>)
    requires AllValid(c, items) && |items| <= CAPACITY
    requires FreshPath(kind) !in others && OldPath(kind) !in others
    requires files == others[CurrentPath(kind) := Encoded(c, items)]
    ensures Rested(c, kind, files, items)
  {
  }

  lemma {:induction false} PromoteRests(c: Codec, kind: Kind, files: Files)
    requires Lawful(c) && Inspect(c, files, OldPath(kind)).error == Truncated
    ensures var state := Inspect(c, files, OldPath(kind));
      && state.validPrefix <= |files[OldPath(kind)]|
      && Rested(c, kind, Run(files, PromotePlan(kind, files, files[OldPath(kind)][..state.validPrefix])), state.items)
  {
    hide Blocks, Lawful;
    var state := Inspect(c, files, OldPath(kind));
    AcceptedBytes(c, files[OldPath(kind)], CAPACITY);
    var prefix := files[OldPath(kind)][..state.validPrefix];
    var drop := Drop(files, FreshPath(kind));
    var copy := [Write(FreshPath(kind), [])] + Blocks(FreshPath(kind), prefix);
    RunAppend(files, drop, copy);
    RunDrop(files, FreshPath(kind));
    RunFreshCopy(files - {FreshPath(kind)}, FreshPath(kind), prefix);
    var copied := (files - {FreshPath(kind)})[FreshPath(kind) := prefix];
    RunAppend(files, drop + copy, ActivatePlan(kind, files));
    assert ActivatePlan(kind, files) == ActivatePlan(kind, copied);
    RunOfRename(copied, FreshPath(kind), CurrentPath(kind), OldPath(kind));
    RestsOn(c, kind, Run(copied, ActivatePlan(kind, copied)), copied - PathsOf(kind), state.items);
  }

  /** From any state at all, recovery leaves what can be salvaged at rest, as the current
      file alone; where nothing can be, it reports an error and touches nothing. */
  lemma {:induction false} AnyStateRecovers(c: Codec, kind: Kind, files: Files)
    requires Lawful(c)
    ensures var plan := RecoverPlan(c, kind, files);
      match Salvaged(c, kind, files)
      case Some(items) => plan.error == NoError && Rested(c, kind, Run(files, plan.calls), items)
      case None => plan.error != NoError && plan.calls == []
  {
    hide Lawful, RepairPlan, PromotePlan, Rested;
    var currentState := Inspect(c, files, CurrentPath(kind));
    var freshState := Inspect(c, files, FreshPath(kind));
    var oldState := Inspect(c, files, OldPath(kind));
    if currentState.error == NoError {
      KeepRecovers(c, kind, files);
    } else if currentState.error == Truncated && oldState.error != NoError {
      RepairRecovers(c, kind, files);
    } else if oldState.error == NoError && (CurrentPath(kind) in files || freshState.error != NoError) {
      InspectClean(c, files, OldPath(kind));
      RunOfRename(files, OldPath(kind), CurrentPath(kind), FreshPath(kind));
      RestsOn(c, kind, Run(files, RestorePlan(kind, files)), files - PathsOf(kind), oldState.items);
    } else if freshState.error == NoError {
      InspectClean(c, files, FreshPath(kind));
      RunOfRename(files, FreshPath(kind), CurrentPath(kind), OldPath(kind));
      RestsOn(c, kind, Run(files, ActivatePlan(kind, files)), files - PathsOf(kind), freshState.items);
    } else if oldState.error == Truncated {
      PromoteRests(c, kind, files);
    } else if PathsOf(kind) !! files.Keys {
      NothingRests(c, kind, files);
    }
  }

  lemma {:induction false} NothingRests(c: Codec, kind: Kind, files: Files)
    requires PathsOf(kind) !! files.Keys
    ensures Rested(c, kind, Run(files, []), [])
  {
    assert CurrentPath(kind) in PathsOf(kind) && FreshPath(kind) in PathsOf(kind) && OldPath(kind) in PathsOf(kind);
  }
}
