/** The outbox operations as sequences of storage calls, and the queue they keep through any loss of power. */
module OutboxQueue {
  import opened Bytes
  import opened OutboxFormat
  import opened Journal
  import opened Flash
  import opened OutboxRecovery

  /** The codecs of the two journals. */
  datatype Codecs = Codecs(actions: Codec, completions: Codec)

  function CodecOf(cs: Codecs, kind: Kind): Codec {
    if kind == Actions then cs.actions else cs.completions
  }

  /** Every action has an id that can be recorded as completed. */
  ghost predicate Paired(cs: Codecs) {
    && Lawful(cs.actions) && Lawful(cs.completions)
    && forall x :: cs.actions.valid(x) ==> Completable(cs, x)
  }

  predicate Completable(cs: Codecs, x: Item) {
    cs.completions.valid(Done(IdOf(x)))
  }

  predicate UniqueIds(items: seq<Item>) {
    forall i, j :: 0 <= i < j < |items| ==> IdOf(items[i]) != IdOf(items[j])
  }

  /** The completion journal names the first actions, one by one; ids are never repeated. */
  predicate Consistent(actions: seq<Item>, done: seq<Item>) {
    && |done| <= |actions|
    && (forall i :: 0 <= i < |done| ==> IdOf(done[i]) == IdOf(actions[i]))
    && UniqueIds(actions)
  }

  /** Between operations of a started outbox. */
  ghost predicate Ready(cs: Codecs, files: Files, actions: seq<Item>, done: seq<Item>) {
    && Rested(cs.actions, Actions, files, actions)
    && Rested(cs.completions, Completions, files, done)
    && Consistent(actions, done)
  }

  /** What `begin` will find, whenever power was lost. */
  ghost predicate Recoverable(cs: Codecs, files: Files, actions: seq<Item>, done: seq<Item>)
    requires Paired(cs)
  {
    && Settles(cs.actions, Actions, files) == Some(actions)
    && Settles(cs.completions, Completions, files) == Some(done)
    && Consistent(actions, done)
  }

  lemma {:induction false} ReadyIsRecoverable(cs: Codecs, files: Files, actions: seq<Item>, done: seq<Item>)
    requires Paired(cs) && Ready(cs, files, actions, done)
    ensures Recoverable(cs, files, actions, done)
  {
    RestedSettles(cs.actions, Actions, files, actions);
    RestedSettles(cs.completions, Completions, files, done);
  }

  /** Calls on one journal leave the other as it was. */
  lemma {:induction false} OtherJournalKept(cs: Codecs, kind: Kind, other: Kind, files: Files, calls: seq<Call>,
                                            after: Files, items: seq<Item>)
    requires Paired(cs) && kind != other && Within(calls, PathsOf(kind)) && Interrupted(files, calls, after)
    ensures Settles(CodecOf(cs, other), other, after) == Settles(CodecOf(cs, other), other, files)
    ensures Rested(CodecOf(cs, other), other, files, items) ==> Rested(CodecOf(cs, other), other, after, items)
  {
    UntouchedOutside(files, calls, PathsOf(kind), after);
    forall p | p in PathsOf(other)
      ensures (p in files <==> p in after) && Content(files, p) == Content(after, p)
    {
      assert p !in PathsOf(kind);
      assert p in files <==> p in Outside(files, PathsOf(kind));
      assert p in after <==> p in Outside(after, PathsOf(kind));
      assert p in files ==> files[p] == Outside(files, PathsOf(kind))[p];
      assert p in after ==> after[p] == Outside(after, PathsOf(kind))[p];
    }
    SettlesLocally(CodecOf(cs, other), other, files, after);
    assert CurrentPath(other) in PathsOf(other) && FreshPath(other) in PathsOf(other)
        && OldPath(other) in PathsOf(other);
  }

  // ---------------------------------------------------------------- begin

  ghost function BeginPlan(cs: Codecs, files: Files): Plan
    requires Paired(cs)
  {
    var first := RecoverPlan(cs.actions, Actions, files);
    if first.error != NoError then first else
    var middle := Run(files, first.calls);
    var second := RecoverPlan(cs.completions, Completions, middle);
    Plan(first.calls + second.calls,
         if second.error != NoError then second.error else Scan(cs, Run(middle, second.calls)).error)
  }

  /** What scanQueue reports: why it stopped, the actions it visited and how many of them were completed. */
  datatype Scanned = Scanned(error: OutboxError, actions: seq<Item>, completed: nat)

  ghost function ReadOrEmpty(c: Codec, files: Files, path: Path): Inspection
    requires Lawful(c)
  {
    if path in files then ReadJournal(c, files[path], CAPACITY) else Inspection(NoError, [], 0)
  }

  ghost function Scan(cs: Codecs, files: Files): Scanned
    requires Paired(cs)
  {
    ScanFrom(ReadOrEmpty(cs.completions, files, CurrentPath(Completions)),
             ReadOrEmpty(cs.actions, files, CurrentPath(Actions)), 0)
  }

  ghost function ScanFrom(marks: Inspection, actions: Inspection, i: nat): (r: Scanned)
    requires i <= |marks.items| && i <= |actions.items|
    ensures r.completed <= |r.actions| && r.actions <= actions.items
    decreases |marks.items| - i
  {
    if i < |marks.items| then
      if i >= |actions.items| then
        Scanned(if actions.error != NoError then actions.error else InvalidData, actions.items, i)
      else if IdOf(actions.items[i]) != IdOf(marks.items[i]) then
        Scanned(InvalidData, actions.items[..i], i)
      else
        ScanFrom(marks, actions, i + 1)
    else if marks.error != NoError then Scanned(marks.error, actions.items[..i], i)
    else Scanned(actions.error, actions.items, i)
  }

  lemma {:induction false} ScanFromMatched(marks: Inspection, actions: Inspection, i: nat)
    requires i <= |marks.items| <= |actions.items| && marks.error == actions.error == NoError
    requires forall j :: 0 <= j < |marks.items| ==> IdOf(marks.items[j]) == IdOf(actions.items[j])
    ensures ScanFrom(marks, actions, i) == Scanned(NoError, actions.items, |marks.items|)
    decreases |marks.items| - i
  {
    if i < |marks.items| {
      ScanFromMatched(marks, actions, i + 1);
    }
  }

  /** In a ready outbox the scan succeeds and visits exactly the queue. */
  lemma {:induction false} ScanOfReady(cs: Codecs, files: Files, actions: seq<Item>, done: seq<Item>)
    requires Paired(cs) && Ready(cs, files, actions, done)
    ensures Scan(cs, files) == Scanned(NoError, actions, |done|)
  {
    if CurrentPath(Actions) in files { InspectEncoded(cs.actions, files, CurrentPath(Actions), actions); }
    if CurrentPath(Completions) in files { InspectEncoded(cs.completions, files, CurrentPath(Completions), done); }
    ScanFromMatched(ReadOrEmpty(cs.completions, files, CurrentPath(Completions)),
                    ReadOrEmpty(cs.actions, files, CurrentPath(Actions)), 0);
  }

  /** `begin` always succeeds on what a loss of power leaves, gives the settled queue, and can itself
      be interrupted any number of times without changing that queue. */
  lemma {:induction false} BeginRecovers(cs: Codecs, files: Files, actions: seq<Item>, done: seq<Item>)
    requires Paired(cs) && Recoverable(cs, files, actions, done)
    ensures BeginPlan(cs, files).error == NoError
    ensures Ready(cs, Run(files, BeginPlan(cs, files).calls), actions, done)
    ensures forall after :: Interrupted(files, BeginPlan(cs, files).calls, after) ==>
      Recoverable(cs, after, actions, done)
  {
    var first := RecoverPlan(cs.actions, Actions, files);
    var middle := Run(files, first.calls);
    var second := RecoverPlan(cs.completions, Completions, middle);
    RecoveryIsIdempotent(cs.actions, Actions, files);
    RunIsInterrupted(files, first.calls);
    OtherJournalKept(cs, Actions, Completions, files, first.calls, middle, done);
    RecoveryIsIdempotent(cs.completions, Completions, middle);
    RunAppend(files, first.calls, second.calls);
    var final := Run(middle, second.calls);
    RunIsInterrupted(middle, second.calls);
    OtherJournalKept(cs, Completions, Actions, middle, second.calls, final, actions);
    ScanOfReady(cs, final, actions, done);
    forall after | Interrupted(files, first.calls + second.calls, after)
      ensures Recoverable(cs, after, actions, done)
    {
      InterruptedAppend(files, first.calls, second.calls, after);
      if Interrupted(files, first.calls, after) {
        OtherJournalKept(cs, Actions, Completions, files, first.calls, after, done);
      } else {
        RestedSettles(cs.actions, Actions, middle, actions);
        OtherJournalKept(cs, Completions, Actions, middle, second.calls, after, actions);
      }
    }
  }

  // ---------------------------------------------------------------- appending one frame

  /** One more frame in a journal at rest: done, or lost, nothing in between. */
  lemma {:induction false} FrameAppended(c: Codec, kind: Kind, files: Files, items: seq<Item>, x: Item, after: Files)
    requires Lawful(c) && Rested(c, kind, files, items) && c.valid(x) && |items| < CAPACITY
    requires Interrupted(files, [Append(CurrentPath(kind), c.frame(x))], after)
    ensures Settles(c, kind, after) in {Some(items), Some(items + [x])}
  {
    var path, frame := CurrentPath(kind), c.frame(x);
    var call := Append(path, frame);
    InterruptedOne(files, call, after);
    assert frame[..|frame|] == frame;
    assert Cut(files, call, after);
    if after == files {
      RestedSettles(c, kind, files, items);
    } else {
      var n :| 0 <= n <= |frame| && after == files[path := Content(files, path) + frame[..n]];
      if n == |frame| {
        EncodedSnoc(c, items, x);
        InspectEncoded(c, after, path, items + [x]);
      } else {
        assert frame[..n] < frame;
        ReadBack(c, items, frame[..n], CAPACITY);
      }
    }
  }

  lemma {:induction false} FrameAppendedWhole(c: Codec, kind: Kind, files: Files, items: seq<Item>, x: Item)
    requires Lawful(c) && Rested(c, kind, files, items) && c.valid(x) && |items| < CAPACITY
    ensures Rested(c, kind, Run(files, [Append(CurrentPath(kind), c.frame(x))]), items + [x])
  {
    RunOne(files, Append(CurrentPath(kind), c.frame(x)));
    EncodedSnoc(c, items, x);
  }

  // ---------------------------------------------------------------- replacing a journal

  /** Frames appended one by one to the fresh file. */
  ghost function FrameCalls(c: Codec, path: Path, items: seq<Item>): seq<Call> {
    if items == [] then [] else [Append(path, c.frame(items[0]))] + FrameCalls(c, path, items[1..])
  }

  lemma {:induction false} FrameCallsWithin(c: Codec, path: Path, items: seq<Item>)
    ensures Within(FrameCalls(c, path, items), {path})
  {
    if items != [] { FrameCallsWithin(c, path, items[1..]); }
  }

  lemma {:induction false} RunFrameCalls(c: Codec, files: Files, path: Path, items: seq<Item>)
    requires path in files
    ensures Run(files, FrameCalls(c, path, items)) == files[path := files[path] + Encoded(c, items)]
    decreases |items|
  {
    if items == [] {
      assert files[path] + [] == files[path];
    } else {
      var next := Apply(files, Append(path, c.frame(items[0])));
      RunFrameCalls(c, next, path, items[1..]);
      assert files[path] + Encoded(c, items) == next[path] + Encoded(c, items[1..]);
    }
  }

  ghost function FillPlan(c: Codec, kind: Kind, files: Files, items: seq<Item>): seq<Call> {
    Drop(files, FreshPath(kind)) + [Write(FreshPath(kind), [])] + FrameCalls(c, FreshPath(kind), items)
  }

  ghost function ExchangePlan(kind: Kind, files: Files): seq<Call> {
    Drop(files, OldPath(kind))
    + if CurrentPath(kind) in files then SwapPlan(kind) else [Rename(FreshPath(kind), CurrentPath(kind))]
  }

  /** The fresh file holds the replacement; the current one still counts. */
  ghost predicate Filled(c: Codec, kind: Kind, files: Files, items: seq<Item>, replacement: seq<Item>) {
    && AllValid(c, items) && |items| <= CAPACITY && AllValid(c, replacement) && |replacement| <= CAPACITY
    && OldPath(kind) !in files
    && (CurrentPath(kind) !in files ==> items == [] && replacement == [])
    && Content(files, CurrentPath(kind)) == Encoded(c, items)
    && FreshPath(kind) in files && files[FreshPath(kind)] == Encoded(c, replacement)
  }

  lemma {:induction false} FillKeeps(c: Codec, kind: Kind, files: Files, items: seq<Item>, replacement: seq<Item>)
    requires Lawful(c) && Rested(c, kind, files, items) && AllValid(c, replacement) && |replacement| <= CAPACITY
    requires items == [] ==> replacement == []
    ensures Within(FillPlan(c, kind, files, replacement), PathsOf(kind))
    ensures Filled(c, kind, Run(files, FillPlan(c, kind, files, replacement)), items, replacement)
    ensures forall after :: Interrupted(files, FillPlan(c, kind, files, replacement), after) ==>
              Settles(c, kind, after) == Some(items)
  {
    var path := FreshPath(kind);
    var frames := FrameCalls(c, path, replacement);
    var calls := FillPlan(c, kind, files, replacement);
    FrameCallsWithin(c, path, replacement);
    assert calls == [Write(path, [])] + frames;
    RunAppend(files, [Write(path, [])], frames);
    RunOne(files, Write(path, []));
    RunFrameCalls(c, files[path := []], path, replacement);
    forall after | Interrupted(files, calls, after)
      ensures Settles(c, kind, after) == Some(items)
    {
      RestedSettles(c, kind, files, items);
      if CurrentPath(kind) in files {
        InspectEncoded(c, files, CurrentPath(kind), items);
        UntouchedOutside(files, calls, {path, OldPath(kind)}, after);
        SettlesOnCurrent(c, kind, files, after);
      } else {
        assert calls == [Write(path, [])];
        InterruptedOne(files, Write(path, []), after);
      }
    }
  }

  lemma {:induction false} ExchangeReplaces(c: Codec, kind: Kind, files: Files, items: seq<Item>,
                                            replacement: seq<Item>)
    requires Lawful(c) && Filled(c, kind, files, items, replacement)
    ensures Within(ExchangePlan(kind, files), PathsOf(kind))
    ensures Rested(c, kind, Run(files, ExchangePlan(kind, files)), replacement)
    ensures forall after :: Interrupted(files, ExchangePlan(kind, files), after) ==>
              Settles(c, kind, after) in {Some(items), Some(replacement)}
  {
    var calls := ExchangePlan(kind, files);
    InspectEncoded(c, files, FreshPath(kind), replacement);
    if CurrentPath(kind) in files {
      assert calls == SwapPlan(kind);
      InspectEncoded(c, files, CurrentPath(kind), items);
      SwapReplaces(c, kind, files, replacement);
    } else {
      var swap := Rename(FreshPath(kind), CurrentPath(kind));
      assert calls == [swap];
      RunOne(files, swap);
      InspectEncoded(c, Apply(files, swap), CurrentPath(kind), replacement);
      forall after | Interrupted(files, calls, after)
        ensures Settles(c, kind, after) in {Some(items), Some(replacement)}
      {
        InterruptedOne(files, swap, after);
      }
    }
  }

  // ---------------------------------------------------------------- the operations

  function PendingOf(actions: seq<Item>, done: seq<Item>): seq<Item>
    requires |done| <= |actions|
  {
    actions[|done|..]
  }

  ghost function CompactPlan(cs: Codecs, files: Files): Plan
    requires Paired(cs)
  {
    var scan := Scan(cs, files);
    var pending := scan.actions[scan.completed..];
    var fill := FillPlan(cs.actions, Actions, files, pending);
    if scan.error != NoError then Plan(fill, scan.error)
    else Plan(fill + ClearPlan(cs, files) + ExchangePlan(Actions, files), NoError)
  }

  /** atomicallyClearCompletions. */
  ghost function ClearPlan(cs: Codecs, files: Files): seq<Call> {
    FillPlan(cs.completions, Completions, files, []) + ExchangePlan(Completions, files)
  }

  ghost function AppendPlan(cs: Codecs, files: Files, x: Item): Plan
    requires Paired(cs)
  {
    var scan := Scan(cs, files);
    if !cs.actions.valid(x) then Plan([], InvalidData)
    else if scan.error != NoError then Plan([], scan.error)
    else if exists i :: 0 <= i < |scan.actions| && IdOf(scan.actions[i]) == IdOf(x) && scan.actions[i] != x then
      Plan([], InvalidData)
    else if x in scan.actions then Plan([], NoError)
    else
      var room := if |scan.actions| < CAPACITY then Plan([], NoError)
                  else if scan.completed == 0 then Plan([], Capacity)
                  else CompactPlan(cs, files);
      if room.error != NoError then room
      else Plan(room.calls + [Append(CurrentPath(Actions), cs.actions.frame(x))], NoError)
  }

  ghost function CompletePlan(cs: Codecs, files: Files, id: Bytes): Plan
    requires Paired(cs)
  {
    var scan := Scan(cs, files);
    if !cs.completions.valid(Done(id)) then Plan([], InvalidData)
    else if scan.error != NoError then Plan([], scan.error)
    else if exists i :: 0 <= i < scan.completed && IdOf(scan.actions[i]) == id then Plan([], NoError)
    else if scan.completed == |scan.actions| then Plan([], NotFound)
    else if IdOf(scan.actions[scan.completed]) != id then Plan([], InvalidData)
    else Plan([Append(CurrentPath(Completions), cs.completions.frame(Done(id)))], NoError)
  }

  lemma {:induction false} UniqueSuffix(items: seq<Item>, k: nat)
    requires UniqueIds(items) && k <= |items|
    ensures UniqueIds(items[k..])
  {
  }

  /** Clearing the completion marks: an interruption finds them all or none. */
  lemma {:induction false} ClearForgets(cs: Codecs, files: Files, done: seq<Item>)
    requires Paired(cs) && Rested(cs.completions, Completions, files, done)
    ensures Within(ClearPlan(cs, files), PathsOf(Completions))
    ensures Rested(cs.completions, Completions, Run(files, ClearPlan(cs, files)), [])
    ensures forall after :: Interrupted(files, ClearPlan(cs, files), after) ==>
              Settles(cs.completions, Completions, after) in {Some(done), Some([])}
  {
    var fill := FillPlan(cs.completions, Completions, files, []);
    var middle := Run(files, fill);
    FillKeeps(cs.completions, Completions, files, done, []);
    FillLeavesPresence(cs.completions, Completions, files, []);
    ExchangeReplaces(cs.completions, Completions, middle, done, []);
    RunAppend(files, fill, ExchangePlan(Completions, files));
    forall after | Interrupted(files, ClearPlan(cs, files), after)
      ensures Settles(cs.completions, Completions, after) in {Some(done), Some([])}
    {
      InterruptedAppend(files, fill, ExchangePlan(Completions, files), after);
    }
  }

  /** Filling the fresh file does not change whether the other two exist. */
  lemma {:induction false} FillLeavesPresence(c: Codec, kind: Kind, files: Files, items: seq<Item>)
    ensures ExchangePlan(kind, files) == ExchangePlan(kind, Run(files, FillPlan(c, kind, files, items)))
  {
    var calls := FillPlan(c, kind, files, items);
    FrameCallsWithin(c, FreshPath(kind), items);
    RunIsInterrupted(files, calls);
    UntouchedOutside(files, calls, {FreshPath(kind)}, Run(files, calls));
    var after := Run(files, calls);
    forall p | p in {CurrentPath(kind), OldPath(kind)}
      ensures p in files <==> p in after
    {
      assert p in files <==> p in Outside(files, {FreshPath(kind)});
      assert p in after <==> p in Outside(after, {FreshPath(kind)});
    }
  }

  /** Calls on one journal leave the call sequences that depend on the other as they were. */
  lemma {:induction false} OtherExchangeKept(kind: Kind, other: Kind, files: Files, calls: seq<Call>)
    requires kind != other && Within(calls, PathsOf(kind))
    ensures ExchangePlan(other, files) == ExchangePlan(other, Run(files, calls))
    ensures Drop(files, FreshPath(other)) == Drop(Run(files, calls), FreshPath(other))
  {
    var after := Run(files, calls);
    RunIsInterrupted(files, calls);
    UntouchedOutside(files, calls, PathsOf(kind), after);
    forall p: Path | p.kind == other
      ensures p in files <==> p in after
    {
      assert p !in PathsOf(kind);
      assert p in files <==> p in Outside(files, PathsOf(kind));
      assert p in after <==> p in Outside(after, PathsOf(kind));
    }
  }

  /** Compaction drops the completed actions. Interrupted anywhere, it leaves the queue as it was,
      or with its completed actions back in front, or already compacted. */
  lemma {:induction false} CompactIsSafe(cs: Codecs, files: Files, actions: seq<Item>, done: seq<Item>)
    requires Paired(cs) && Ready(cs, files, actions, done)
    ensures CompactPlan(cs, files).error == NoError
    ensures Ready(cs, Run(files, CompactPlan(cs, files).calls), PendingOf(actions, done), [])
    ensures forall after :: Interrupted(files, CompactPlan(cs, files).calls, after) ==>
              || Recoverable(cs, after, actions, done)
              || Recoverable(cs, after, actions, [])
              || Recoverable(cs, after, PendingOf(actions, done), [])
  {
    ScanOfReady(cs, files, actions, done);
    var pending := PendingOf(actions, done);
    UniqueSuffix(actions, |done|);
    var fill, clear, swap := FillPlan(cs.actions, Actions, files, pending), ClearPlan(cs, files),
        ExchangePlan(Actions, files);
    var filled := Run(files, fill);
    FillKeeps(cs.actions, Actions, files, actions, pending);
    FillLeavesPresence(cs.actions, Actions, files, pending);
    RunIsInterrupted(files, fill);
    OtherJournalKept(cs, Actions, Completions, files, fill, filled, done);
    OtherExchangeKept(Actions, Completions, files, fill);
    assert clear == ClearPlan(cs, filled);
    ClearForgets(cs, filled, done);
    var cleared := Run(filled, clear);
    FilledKept(cs, filled, clear, actions, pending);
    OtherExchangeKept(Completions, Actions, filled, clear);
    assert swap == ExchangePlan(Actions, cleared);
    ExchangeReplaces(cs.actions, Actions, cleared, actions, pending);
    var final := Run(cleared, swap);
    RunIsInterrupted(cleared, swap);
    OtherJournalKept(cs, Actions, Completions, cleared, swap, final, []);
    RunAppend(files, fill, clear);
    RunAppend(files, fill + clear, swap);
    RestedSettles(cs.completions, Completions, files, done);
    RestedSettles(cs.completions, Completions, cleared, []);
    forall after | Interrupted(files, fill + clear + swap, after)
      ensures || Recoverable(cs, after, actions, done)
              || Recoverable(cs, after, actions, [])
              || Recoverable(cs, after, pending, [])
    {
      InterruptedAppend(files, fill + clear, swap, after);
      InterruptedAppend(files, fill, clear, after);
      if Interrupted(files, fill, after) {
        OtherJournalKept(cs, Actions, Completions, files, fill, after, done);
      } else if Interrupted(filled, clear, after) {
        OtherJournalKept(cs, Completions, Actions, filled, clear, after, actions);
      } else {
        OtherJournalKept(cs, Actions, Completions, cleared, swap, after, []);
      }
    }
  }

  lemma {:induction false} FilledKept(cs: Codecs, files: Files, calls: seq<Call>, items: seq<Item>,
                                      replacement: seq<Item>)
    requires Filled(cs.actions, Actions, files, items, replacement) && Within(calls, PathsOf(Completions))
    ensures Filled(cs.actions, Actions, Run(files, calls), items, replacement)
    ensures Paired(cs) ==> Settles(cs.actions, Actions, Run(files, calls)) == Settles(cs.actions, Actions, files)
  {
    var after := Run(files, calls);
    RunIsInterrupted(files, calls);
    UntouchedOutside(files, calls, PathsOf(Completions), after);
    forall p: Path | p.kind == Actions
      ensures (p in files <==> p in after) && Content(files, p) == Content(after, p)
    {
      assert p !in PathsOf(Completions);
      assert p in files <==> p in Outside(files, PathsOf(Completions));
      assert p in after <==> p in Outside(after, PathsOf(Completions));
      assert p in files ==> files[p] == Outside(files, PathsOf(Completions))[p];
      assert p in after ==> after[p] == Outside(after, PathsOf(Completions))[p];
    }
    if Paired(cs) { SettlesLocally(cs.actions, Actions, files, after); }
  }
}
