/** Reading back a list that has been merged into other events, and the day of a
    replacement. */
module ReplacedDay {
  import opened Bytes
  import opened Sorting
  import opened Timesheet
  import opened WorkSpans
  import opened EditableDays
  import opened NoDoubleCounting
  import opened MergedSequence
  import E = EffectiveEvents
  import R = Replacement
  import P = ReplacementReplay

  // ------------------------------------------------------------ one step of the walk

  /** What the walk holds on to between events. */
  function Held(w: Walk): Walk { w.(groups := map[]) }

  /** The intervals an event closes on a date. */
  function Closes(zone: Zone, held: Walk, event: Event, date: int): seq<Interval> {
    var owner := if held.shiftDate.Some? then held.shiftDate.value else zone.day(event.mark.at);
    if owner != date then []
    else
      match event.mark.kind
      case BreakStart => Since(zone, date, true, held.workStart, event)
      case BreakEnd => Since(zone, date, false, held.breakStart, event)
      case ClockOut => Since(zone, date, true, held.workStart, event)
      case _ => []
  }

  function Since(zone: Zone, date: int, work: bool, start: Option<Event>, end: Event): seq<Interval> {
    match start case None => [] case Some(from) => [ReadInterval(zone, date, work, from.mark, end.mark)]
  }

  /** A step depends on what is held and adds to what is read. */
  lemma {:induction false} StepOfHeld(zone: Zone, w: Walk, event: Event, date: int)
    ensures Held(WalkStep(zone, w, event)) == Held(WalkStep(zone, Held(w), event))
    ensures IntervalsOn(WalkStep(zone, w, event), date) == IntervalsOn(w, date) + Closes(zone, Held(w), event, date)
  {
  }

  lemma {:induction false} WalkedSnoc(zone: Zone, events: seq<Event>, event: Event)
    ensures Walked(zone, events + [event]) == WalkStep(zone, Walked(zone, events), event)
  {
    assert (events + [event])[..|events|] == events;
  }

  lemma {:induction false} MarksOfPrefix(events: seq<Event>, i: nat)
    requires i <= |events|
    ensures MarksOf(events[..i]) == MarksOf(events)[..i]
  {
  }

  /** In a clean sequence nothing is held while nobody works. */
  lemma {:induction false} OffHoldsNothing(zone: Zone, events: seq<Event>, i: nat)
    requires Sequenced(zone, MarksOf(events)).dates == {} && i <= |events|
    ensures PhaseOf(zone, MarksOf(events)[..i]) == Off <==> Walked(zone, events[..i]).shiftDate == None
    ensures PhaseOf(zone, MarksOf(events)[..i]) == Off ==> Held(Walked(zone, events[..i])) == START
  {
    hide Sequenced, Walked;
    var marks := MarksOf(events);
    if i == 0 {
      assert events[..0] == [] && marks[..0] == [];
      Nothing(zone);
      NothingRead(zone);
    } else {
      OffHoldsNothing(zone, events, i - 1);
      WalkedOneMore(zone, events, i - 1);
      OneMoreInSequence(zone, marks, i - 1);
      PrefixesRaiseNoMore(zone, marks, i);
    }
  }

  lemma {:induction false} NothingRead(zone: Zone)
    ensures Walked(zone, []) == START
  {
  }

  // ---------------------------------------------------------------- the merged walk

  /** The merged walk holds what the side that works holds, and has read what both have. */
  ghost predicate ReadsBoth(zone: Zone, log: seq<Event>, added: seq<Event>, merged: seq<Event>, i: nat, j: nat,
                            date: int)
    requires i <= |log| && j <= |added|
  {
    var m, l, a := Walked(zone, merged), Walked(zone, log[..i]), Walked(zone, added[..j]);
    && Held(m) == (if a.shiftDate.Some? then Held(a) else Held(l))
    && multiset(IntervalsOn(m, date)) == multiset(IntervalsOn(l, date)) + multiset(IntervalsOn(a, date))
    && (IntervalsOn(l, date) == [] ==> IntervalsOn(m, date) == IntervalsOn(a, date))
  }

  // The side that takes the step holds what the merged walk holds.
  lemma {:induction false} StepAlike(zone: Zone, m: Walk, a: Walk, event: Event, date: int)
    requires Held(m) == Held(a)
    ensures Held(WalkStep(zone, m, event)) == Held(WalkStep(zone, a, event))
    ensures var closed := Closes(zone, Held(a), event, date);
      && IntervalsOn(WalkStep(zone, m, event), date) == IntervalsOn(m, date) + closed
      && IntervalsOn(WalkStep(zone, a, event), date) == IntervalsOn(a, date) + closed
  {
    hide WalkStep, IntervalsOn;
    StepOfHeld(zone, m, event, date);
    StepOfHeld(zone, a, event, date);
  }

  lemma {:induction false} AddedIsRead(zone: Zone, log: seq<Event>, added: seq<Event>, merged: seq<Event>, i: nat,
                                       j: nat, date: int)
    requires i <= |log| && j < |added| && ReadsBoth(zone, log, added, merged, i, j, date)
    requires Sequenced(zone, MarksOf(log)).dates == {} && Sequenced(zone, MarksOf(added)).dates == {}
    requires PhaseOf(zone, MarksOf(log)[..i]) == Off
    ensures ReadsBoth(zone, log, added, merged + [added[j]], i, j + 1, date)
  {
    hide Sequenced, Walked, WalkStep, IntervalsOn, Closes;
    OffHoldsNothing(zone, log, i);
    OffHoldsNothing(zone, added, j);
    OffHoldsNothing(zone, added, j + 1);
    WalkedOneMore(zone, added, j);
    WalkedSnoc(zone, merged, added[j]);
    StepAlike(zone, Walked(zone, merged), Walked(zone, added[..j]), added[j], date);
  }

  lemma {:induction false} LoggedIsRead(zone: Zone, log: seq<Event>, added: seq<Event>, merged: seq<Event>, i: nat,
                                        j: nat, date: int)
    requires i < |log| && j <= |added| && ReadsBoth(zone, log, added, merged, i, j, date)
    requires Sequenced(zone, MarksOf(log)).dates == {} && Sequenced(zone, MarksOf(added)).dates == {}
    requires !Both(zone, MarksOf(log), MarksOf(added), i, j) && !Both(zone, MarksOf(log), MarksOf(added), i + 1, j)
    ensures ReadsBoth(zone, log, added, merged + [log[i]], i + 1, j, date)
  {
    hide Sequenced, Walked, WalkStep, IntervalsOn;
    OffHoldsNothing(zone, log, i);
    OffHoldsNothing(zone, log, i + 1);
    OffHoldsNothing(zone, added, j);
    WalkedOneMore(zone, log, i);
    WalkedSnoc(zone, merged, log[i]);
    if Walked(zone, added[..j]).shiftDate.Some? {
      OneMoreInSequence(zone, MarksOf(log), i);
      PrefixesRaiseNoMore(zone, MarksOf(log), i + 1);
      IdleEvent(zone, Walked(zone, log[..i]), log[i], date);
      IdleEvent(zone, Walked(zone, merged), log[i], date);
    } else {
      StepAlike(zone, Walked(zone, merged), Walked(zone, log[..i]), log[i], date);
    }
  }

  // An event of no kind that counts is only listed.
  lemma {:induction false} IdleEvent(zone: Zone, w: Walk, event: Event, date: int)
    requires event.mark.kind == Correction
    ensures Held(WalkStep(zone, w, event)) == Held(w)
    ensures IntervalsOn(WalkStep(zone, w, event), date) == IntervalsOn(w, date)
  {
  }

  lemma {:induction false} MarksOfMerge(a: seq<Event>, b: seq<Event>)
    ensures MarksOf(Merge(E.EVENT_AT, a, b)) == Merge(AT_OF, MarksOf(a), MarksOf(b))
    decreases |a| + |b|
  {
    hide MarksOf;
    MarksAre(a);
    MarksAre(b);
    if b != [] && (a == [] || a[|a| - 1].mark.at <= b[|b| - 1].mark.at) {
      MarksOfMerge(a, b[..|b| - 1]);
      MarksOfPrefix(b, |b| - 1);
      MarksOfSnoc(Merge(E.EVENT_AT, a, b[..|b| - 1]), b[|b| - 1]);
    } else if a != [] {
      MarksOfMerge(a[..|a| - 1], b);
      MarksOfPrefix(a, |a| - 1);
      MarksOfSnoc(Merge(E.EVENT_AT, a[..|a| - 1], b), a[|a| - 1]);
    }
  }

  lemma {:induction false} MarksAre(events: seq<Event>)
    ensures |MarksOf(events)| == |events| && (events == [] <==> MarksOf(events) == [])
    ensures events != [] ==> MarksOf(events)[|events| - 1] == events[|events| - 1].mark
  {
  }

  lemma {:induction false} MarksOfSnoc(events: seq<Event>, event: Event)
    ensures MarksOf(events + [event]) == MarksOf(events) + [event.mark]
  {
  }

  /** An accepted list's events merged into the events of a clean log. */
  ghost predicate MayJoin(zone: Zone, log: seq<Event>, items: seq<Interval>, added: seq<Event>) {
    && Fits(MarksOf(log), items) && CleanSequence(zone, MarksOf(log)) && KeepsClear(zone, MarksOf(log), items)
    && MarksOf(added) == Compiled(items, |items|)
  }

  lemma {:induction false} LastMergedIsAdded(log: seq<Event>, added: seq<Event>, i: nat, j: nat)
    requires i <= |log| && 0 < j <= |added| && (i == 0 || log[i - 1].mark.at <= added[j - 1].mark.at)
    ensures Merge(E.EVENT_AT, log[..i], added[..j]) == Merge(E.EVENT_AT, log[..i], added[..j - 1]) + [added[j - 1]]
  {
    assert added[..j][..j - 1] == added[..j - 1];
  }

  lemma {:induction false} LastMergedIsLogged(log: seq<Event>, added: seq<Event>, i: nat, j: nat)
    requires 0 < i <= |log| && j <= |added| && (j == 0 || log[i - 1].mark.at > added[j - 1].mark.at)
    ensures Merge(E.EVENT_AT, log[..i], added[..j]) == Merge(E.EVENT_AT, log[..i - 1], added[..j]) + [log[i - 1]]
  {
    assert log[..i][..i - 1] == log[..i - 1];
  }

  // Nowhere in the merge are both sides at work.
  lemma {:induction false} NeverBothAtWork(zone: Zone, log: seq<Event>, items: seq<Interval>, added: seq<Event>,
                                           i: nat, j: nat)
    requires MayJoin(zone, log, items, added) && Cut(MarksOf(log), MarksOf(added), i, j)
    ensures !Both(zone, MarksOf(log), MarksOf(added), i, j)
  {
    hide Fits, CleanSequence, KeepsClear, Cut, Both, InStep, Merge;
    MergeInStep(zone, MarksOf(log), items, i, j);
    assert i <= |log| && j <= |added| by { CutFits(MarksOf(log), MarksOf(added), i, j); }
    NotBothOf(zone, MarksOf(log), MarksOf(added), Merge(AT_OF, MarksOf(log)[..i], MarksOf(added)[..j]), i, j);
  }

  lemma {:induction false} CutFits(log: seq<Mark>, added: seq<Mark>, i: nat, j: nat)
    requires Cut(log, added, i, j)
    ensures i <= |log| && j <= |added|
  {
  }

  lemma {:induction false} CleanSides(zone: Zone, log: seq<Event>, items: seq<Interval>, added: seq<Event>)
    requires MayJoin(zone, log, items, added)
    ensures Sequenced(zone, MarksOf(log)).dates == {} && Sequenced(zone, MarksOf(added)).dates == {}
    ensures Fits(MarksOf(log), items) && WellShaped(items)
  {
    CompiledIsClean(zone, items);
  }

  /** Every cut the merge goes through. */
  lemma {:induction false} MergeIsRead(zone: Zone, log: seq<Event>, items: seq<Interval>, added: seq<Event>, i: nat,
                                       j: nat, date: int)
    requires MayJoin(zone, log, items, added) && Cut(MarksOf(log), MarksOf(added), i, j)
    ensures ReadsBoth(zone, log, added, Merge(E.EVENT_AT, log[..i], added[..j]), i, j, date)
    decreases i + j
  {
    hide MayJoin, Fits, WellShaped, Merge, ReadsBoth, Both, Sequenced, Compiled;
    CleanSides(zone, log, items, added);
    NeverBothAtWork(zone, log, items, added, i, j);
    if i == 0 && j == 0 {
      NothingReadYet(zone, log, added, date);
      assert log[..0] == [] && added[..0] == [];
    } else if j > 0 && (i == 0 || log[i - 1].mark.at <= added[j - 1].mark.at) {
      LastMergedIsAdded(log, added, i, j);
      CompiledOf(zone, log, items, added);
      CutWithoutAdded(MarksOf(log), items, i, j);
      MergeIsRead(zone, log, items, added, i, j - 1, date);
      NeverBothAtWork(zone, log, items, added, i, j - 1);
      LogIsOff(zone, log, items, added, i, j);
      AddedIsRead(zone, log, added, Merge(E.EVENT_AT, log[..i], added[..j - 1]), i, j - 1, date);
    } else {
      LastMergedIsLogged(log, added, i, j);
      CompiledOf(zone, log, items, added);
      CutWithoutLogged(MarksOf(log), items, i, j);
      MergeIsRead(zone, log, items, added, i - 1, j, date);
      NeverBothAtWork(zone, log, items, added, i - 1, j);
      LoggedIsRead(zone, log, added, Merge(E.EVENT_AT, log[..i - 1], added[..j]), i - 1, j, date);
    }
  }

  lemma {:induction false} CompiledOf(zone: Zone, log: seq<Event>, items: seq<Interval>, added: seq<Event>)
    requires MayJoin(zone, log, items, added)
    ensures MarksOf(added) == Compiled(items, |items|)
  {
  }

  // Before and after an event of the list the list is at work or has just been: the log is off.
  lemma {:induction false} LogIsOff(zone: Zone, log: seq<Event>, items: seq<Interval>, added: seq<Event>, i: nat,
                                    j: nat)
    requires MayJoin(zone, log, items, added) && 0 < j <= |added| && i <= |log|
    requires !Both(zone, MarksOf(log), MarksOf(added), i, j - 1) && !Both(zone, MarksOf(log), MarksOf(added), i, j)
    ensures PhaseOf(zone, MarksOf(log)[..i]) == Off
  {
    hide MayJoin, Fits, WellShaped, Sequenced, Compiled;
    CleanSides(zone, log, items, added);
    CompiledOf(zone, log, items, added);
    OneMoreInSequence(zone, MarksOf(added), j - 1);
    PrefixesRaiseNoMore(zone, MarksOf(added), j);
    CompiledKinds(items, |items|);
  }

  lemma {:induction false} NothingReadYet(zone: Zone, log: seq<Event>, added: seq<Event>, date: int)
    ensures ReadsBoth(zone, log, added, Merge(E.EVENT_AT, [], []), 0, 0, date)
  {
    assert log[..0] == [] && added[..0] == [];
  }

  /** A list that keeps clear of a clean log reads back beside it: each date shows the
      log's intervals and the list's, and a date the log has none on shows the list's
      as they were submitted. */
  lemma {:induction false} MergedListReadsBack(zone: Zone, log: seq<Event>, items: seq<Interval>, added: seq<Event>,
                                               date: int)
    requires MayJoin(zone, log, items, added)
    ensures var shown := IntervalsOn(Walked(zone, Merge(E.EVENT_AT, log, added)), date);
      && multiset(shown)
           == multiset(IntervalsOn(Walked(zone, log), date)) + multiset(ShownOn(zone, date, items, |items|))
      && (IntervalsOn(Walked(zone, log), date) == [] ==> shown == ShownOn(zone, date, items, |items|))
  {
    hide Fits, WellShaped, Merge, Sequenced, Compiled, Walked, ShownOn, IntervalsOn, CleanSequence, KeepsClear;
    assert log[..|log|] == log && added[..|added|] == added;
    MergeIsRead(zone, log, items, added, |log|, |added|, date);
    CleanSides(zone, log, items, added);
    ReadBack(zone, items, added, date);
    IntervalsAre(zone, added, date);
  }

  lemma {:induction false} IntervalsAre(zone: Zone, events: seq<Event>, date: int)
    ensures IntervalsOn(Walked(zone, events), date) == GroupFor(Walked(zone, events).groups, date).intervals
  {
  }

  // ------------------------------------------------------------ how much is read

  predicate Closing(kind: Kind) { kind == BreakStart || kind == BreakEnd || kind == ClockOut }

  /** How many events end an interval. */
  function Ends(events: seq<Event>): nat {
    if events == [] then 0
    else Ends(events[..|events| - 1]) + if Closing(events[|events| - 1].mark.kind) then 1 else 0
  }

  /** How many more clock-ins than clock-outs. */
  function Surplus(events: seq<Event>): int {
    if events == [] then 0
    else
      Surplus(events[..|events| - 1])
      + match events[|events| - 1].mark.kind case ClockIn => 1 case ClockOut => -1 case _ => 0
  }

  /** The dates the walk reads intervals on, one for each interval. */
  function DatesRead(zone: Zone, events: seq<Event>): seq<int> {
    if events == [] then []
    else
      var held := Held(Walked(zone, events[..|events| - 1]));
      var event := events[|events| - 1];
      var owner := if held.shiftDate.Some? then held.shiftDate.value else zone.day(event.mark.at);
      DatesRead(zone, events[..|events| - 1]) + if Closes(zone, held, event, owner) != [] then [owner] else []
  }

  lemma {:induction false} DatesReadAre(zone: Zone, events: seq<Event>, date: int)
    ensures multiset(DatesRead(zone, events))[date] == |IntervalsOn(Walked(zone, events), date)|
  {
    if events != [] {
      hide WalkStep;
      var earlier, event := events[..|events| - 1], events[|events| - 1];
      assert events == earlier + [event];
      DatesReadAre(zone, earlier, date);
      StepOfHeld(zone, Walked(zone, earlier), event, date);
    }
  }

  // What the walk holds tells the phase, and what a flag costs: an end without a start,
  // or a start without an end.
  lemma {:induction false} FlagsLoseIntervals(zone: Zone, events: seq<Event>)
    ensures var s, held := Sequenced(zone, MarksOf(events)), Held(Walked(zone, events));
      var read := |DatesRead(zone, events)|;
      && (held.workStart.Some? <==> s.phase == Working)
      && (held.breakStart.Some? <==> s.phase in {OnBreak, OnPaidBreak})
      && read <= Ends(events) && read + (if s.phase != Off then 1 else 0) <= Ends(events) + Surplus(events)
      && (s.dates == {} ==> read == Ends(events))
      && (s.dates != {} ==>
            read < Ends(events) || read + (if s.phase != Off then 1 else 0) < Ends(events) + Surplus(events))
  {
    if events != [] {
      hide Sequenced, Walked, Ends, Surplus, DatesRead, MarksOf;
      var earlier, event := events[..|events| - 1], events[|events| - 1];
      FlagsLoseIntervals(zone, earlier);
      FlagsOneMore(zone, events);
    } else {
      NothingRead(zone);
    }
  }

  lemma {:induction false} FlagsOneMore(zone: Zone, events: seq<Event>)
    requires events != []
    ensures var earlier, event := events[..|events| - 1], events[|events| - 1];
      var held := Held(Walked(zone, earlier));
      && Held(Walked(zone, events)) == Held(WalkStep(zone, held, event))
      && Sequenced(zone, MarksOf(events)) == SequenceStep(zone, Sequenced(zone, MarksOf(earlier)), event.mark)
      && Ends(events) == Ends(earlier) + (if Closing(event.mark.kind) then 1 else 0)
      && Surplus(events)
           == Surplus(earlier) + (match event.mark.kind case ClockIn => 1 case ClockOut => -1 case _ => 0)
      && |DatesRead(zone, events)| == |DatesRead(zone, earlier)|
           + match event.mark.kind
             case BreakStart => if held.workStart.Some? then 1 else 0
             case BreakEnd => if held.breakStart.Some? then 1 else 0
             case ClockOut => if held.workStart.Some? then 1 else 0
             case _ => 0
  {
    hide WalkStep, SequenceStep;
    var earlier, event := events[..|events| - 1], events[|events| - 1];
    assert events == earlier + [event];
    StepOfHeld(zone, Walked(zone, earlier), event, 0);
    MarksOfPrefix(events, |events| - 1);
    OneMoreInSequence(zone, MarksOf(events), |events| - 1);
    assert MarksOf(events)[..|events|] == MarksOf(events);
  }

  lemma {:induction false} CountsOfMerge(a: seq<Event>, b: seq<Event>)
    ensures Ends(Merge(E.EVENT_AT, a, b)) == Ends(a) + Ends(b)
    ensures Surplus(Merge(E.EVENT_AT, a, b)) == Surplus(a) + Surplus(b)
    decreases |a| + |b|
  {
    if b != [] && (a == [] || a[|a| - 1].mark.at <= b[|b| - 1].mark.at) {
      CountsOfMerge(a, b[..|b| - 1]);
      CountsSnoc(Merge(E.EVENT_AT, a, b[..|b| - 1]), b[|b| - 1]);
    } else if a != [] {
      CountsOfMerge(a[..|a| - 1], b);
      CountsSnoc(Merge(E.EVENT_AT, a[..|a| - 1], b), a[|a| - 1]);
    }
  }

  lemma {:induction false} CountsSnoc(events: seq<Event>, event: Event)
    ensures Ends(events + [event]) == Ends(events) + if Closing(event.mark.kind) then 1 else 0
    ensures Surplus(events + [event])
      == Surplus(events) + match event.mark.kind case ClockIn => 1 case ClockOut => -1 case _ => 0
  {
    assert (events + [event])[..|events|] == events;
  }

  // A clean sequence clocks out as often as in.
  lemma {:induction false} CleanIsBalanced(zone: Zone, events: seq<Event>, n: nat)
    requires Sequenced(zone, MarksOf(events)).dates == {} && n <= |events|
    ensures Surplus(events[..n]) == if PhaseOf(zone, MarksOf(events)[..n]) != Off then 1 else 0
  {
    hide Sequenced;
    if n == 0 {
      assert events[..0] == [] && MarksOf(events)[..0] == [];
      Nothing(zone);
    } else {
      CleanIsBalanced(zone, events, n - 1);
      OneMoreInSequence(zone, MarksOf(events), n - 1);
      PrefixesRaiseNoMore(zone, MarksOf(events), n);
      assert events[..n] == events[..n - 1] + [events[n - 1]];
      CountsSnoc(events[..n - 1], events[n - 1]);
    }
  }

  /** On a date the merge shows what both sides show. */
  ghost predicate ShowsBoth(zone: Zone, log: seq<Event>, items: seq<Interval>, added: seq<Event>, date: int) {
    multiset(IntervalsOn(Walked(zone, Merge(E.EVENT_AT, log, added)), date))
      == multiset(IntervalsOn(Walked(zone, log), date)) + multiset(ShownOn(zone, date, items, |items|))
  }

  // If every date shows what both sides show, nothing was lost, so nothing was flagged.
  lemma {:induction false} NothingLostNothingFlagged(zone: Zone, log: seq<Event>, items: seq<Interval>,
                                                     added: seq<Event>)
    requires Fits(MarksOf(log), items) && CleanSequence(zone, MarksOf(log))
    requires MarksOf(added) == Compiled(items, |items|)
    requires forall date :: ShowsBoth(zone, log, items, added, date)
    ensures Sequenced(zone, MarksOf(Merge(E.EVENT_AT, log, added))).dates == {}
  {
    hide Fits, WellShaped, Merge, Sequenced, Compiled, Walked, ShownOn, IntervalsOn, Ends, Surplus, DatesRead, MarksOf;
    var merged := Merge(E.EVENT_AT, log, added);
    WellShapedOf(MarksOf(log), items);
    CompiledIsClean(zone, items);
    assert log[..|log|] == log && added[..|added|] == added;
    WholeMarks(log);
    WholeMarks(added);
    CleanIsBalanced(zone, log, |log|);
    CleanIsBalanced(zone, added, |added|);
    CountsOfMerge(log, added);
    FlagsLoseIntervals(zone, log);
    FlagsLoseIntervals(zone, added);
    FlagsLoseIntervals(zone, merged);
    forall date ensures multiset(DatesRead(zone, merged))[date]
      == multiset(DatesRead(zone, log))[date] + multiset(DatesRead(zone, added))[date]
    {
      assert ShowsBoth(zone, log, items, added, date);
      AsManyRead(zone, log, items, added, date);
    }
    assert multiset(DatesRead(zone, merged)) == multiset(DatesRead(zone, log) + DatesRead(zone, added));
    assert |multiset(DatesRead(zone, merged))| == |DatesRead(zone, merged)|;
    assert |multiset(DatesRead(zone, log) + DatesRead(zone, added))| == |DatesRead(zone, log) + DatesRead(zone, added)|;
  }

  lemma {:induction false} WholeMarks(events: seq<Event>)
    ensures MarksOf(events)[..|events|] == MarksOf(events)
  {
  }

  lemma {:induction false} AsManyRead(zone: Zone, log: seq<Event>, items: seq<Interval>, added: seq<Event>, date: int)
    requires WellShaped(items) && MarksOf(added) == Compiled(items, |items|) && ShowsBoth(zone, log, items, added, date)
    ensures multiset(DatesRead(zone, Merge(E.EVENT_AT, log, added)))[date]
      == multiset(DatesRead(zone, log))[date] + multiset(DatesRead(zone, added))[date]
  {
    hide WellShaped, Merge, Compiled, Walked, ShownOn, IntervalsOn, DatesRead;
    DatesReadAre(zone, Merge(E.EVENT_AT, log, added), date);
    DatesReadAre(zone, log, date);
    DatesReadAre(zone, added, date);
    ReadBack(zone, items, added, date);
    IntervalsAre(zone, added, date);
    SameSize(IntervalsOn(Walked(zone, Merge(E.EVENT_AT, log, added)), date),
             IntervalsOn(Walked(zone, log), date), IntervalsOn(Walked(zone, added), date));
  }

  lemma {:induction false} SameSize(m: seq<Interval>, a: seq<Interval>, b: seq<Interval>)
    requires multiset(m) == multiset(a) + multiset(b)
    ensures |m| == |a| + |b|
  {
    assert |multiset(m)| == |m| && |multiset(a)| == |a| && |multiset(b)| == |b|;
  }

  /** An accepted list merged into a clean log reads back beside it, on every date, exactly
      when it keeps clear of it: otherwise some interval is not shown. */
  lemma {:induction false} ShownBesideTheLog(zone: Zone, log: seq<Event>, items: seq<Interval>, added: seq<Event>)
    requires Fits(MarksOf(log), items) && CleanSequence(zone, MarksOf(log))
    requires MarksOf(added) == Compiled(items, |items|)
    ensures (forall date :: ShowsBoth(zone, log, items, added, date)) <==> KeepsClear(zone, MarksOf(log), items)
  {
    hide Fits, Merge, Sequenced, Compiled, Walked, ShownOn, IntervalsOn, CleanSequence, KeepsClear, MarksOf;
    if KeepsClear(zone, MarksOf(log), items) {
      forall date ensures ShowsBoth(zone, log, items, added, date) {
        MergedListReadsBack(zone, log, items, added, date);
      }
    } else if forall date :: ShowsBoth(zone, log, items, added, date) {
      NothingLostNothingFlagged(zone, log, items, added);
      MarksOfMerge(log, added);
      CleanKeepsClear(zone, MarksOf(log), items);
    }
  }

  // A step of the walk, by what it holds and how much it has read.
  lemma {:induction false} CountedStep(zone: Zone, events: seq<Event>, event: Event, date: int)
    ensures var w, next := Walked(zone, events), Walked(zone, events + [event]);
      && Held(next) == Held(WalkStep(zone, Held(w), event))
      && |IntervalsOn(next, date)| == |IntervalsOn(w, date)| + |Closes(zone, Held(w), event, date)|
  {
    hide WalkStep, IntervalsOn, Closes, Walked;
    WalkedSnoc(zone, events, event);
    StepOfHeld(zone, Walked(zone, events), event, date);
  }

  const BREAK_LOG := [Event("a", Mark(ClockIn, 0, "", false)), Event("b", Mark(BreakStart, 100, "", false)),
                      Event("c", Mark(BreakEnd, 400, "", false)), Event("d", Mark(ClockOut, 500, "", false))]

  const SHIFT_IN_BREAK := [Event("e", Mark(ClockIn, 200, "", false)), Event("f", Mark(ClockOut, 300, "", false))]

  predicate OneDay(zone: Zone, date: int) { forall at :: 0 <= at <= 500 ==> zone.day(at) == date }

  // A clock-in and a clock-out with nothing held before them.
  lemma {:induction false} ShiftAfter(zone: Zone, events: seq<Event>, date: int)
    requires OneDay(zone, date) && Held(Walked(zone, events)).shiftDate in {None, Some(date)}
    ensures var w := Walked(zone, events + SHIFT_IN_BREAK);
      Held(w) == START && |IntervalsOn(w, date)| == |IntervalsOn(Walked(zone, events), date)| + 1
  {
    hide Walked;
    var e, f := SHIFT_IN_BREAK[0], SHIFT_IN_BREAK[1];
    CountedStep(zone, events, e, date);
    CountedStep(zone, events + [e], f, date);
    assert events + [e] + [f] == events + SHIFT_IN_BREAK;
  }

  lemma {:induction false} BreakBegun(zone: Zone, date: int)
    requires OneDay(zone, date)
    ensures var w := Walked(zone, BREAK_LOG[..2]);
      Held(w) == Walk(map[], Some(date), None, Some(BREAK_LOG[1])) && |IntervalsOn(w, date)| == 1
  {
    var a, b := BREAK_LOG[0], BREAK_LOG[1];
    NothingRead(zone);
    hide Walked;
    CountedStep(zone, [], a, date);
    CountedStep(zone, [a], b, date);
    assert [] + [a] == [a] && [a] + [b] == BREAK_LOG[..2];
  }

  // The end of a break and of the shift read two intervals, or one if the break was dropped.
  lemma {:induction false} BreakEnds(zone: Zone, events: seq<Event>, date: int)
    requires OneDay(zone, date)
    requires Held(Walked(zone, events)) in {START, Walk(map[], Some(date), None, Some(BREAK_LOG[1]))}
    ensures |IntervalsOn(Walked(zone, events + BREAK_LOG[2..]), date)|
      == |IntervalsOn(Walked(zone, events), date)| + if Held(Walked(zone, events)) == START then 1 else 2
  {
    hide Walked;
    var c, d := BREAK_LOG[2], BREAK_LOG[3];
    CountedStep(zone, events, c, date);
    CountedStep(zone, events + [c], d, date);
    assert events + [c] + [d] == events + BREAK_LOG[2..];
  }

  /** Inside a break it is not so: the clock-in drops the break that is being read, and
      three intervals are shown where the log has three and the list one. */
  lemma {:induction false} BreakAroundIsDropped(zone: Zone, date: int)
    requires OneDay(zone, date)
    ensures |IntervalsOn(Walked(zone, BREAK_LOG), date)| == 3 && |IntervalsOn(Walked(zone, SHIFT_IN_BREAK), date)| == 1
    ensures |IntervalsOn(Walked(zone, BREAK_LOG[..2] + SHIFT_IN_BREAK + BREAK_LOG[2..]), date)| == 3
  {
    BreakBegun(zone, date);
    NothingRead(zone);
    hide Walked, IntervalsOn;
    BreakEnds(zone, BREAK_LOG[..2], date);
    assert BREAK_LOG[..2] + BREAK_LOG[2..] == BREAK_LOG;
    ShiftAfter(zone, [], date);
    assert [] + SHIFT_IN_BREAK == SHIFT_IN_BREAK && IntervalsOn(START, date) == [] by { NothingOn(date); }
    ShiftAfter(zone, BREAK_LOG[..2], date);
    BreakEnds(zone, BREAK_LOG[..2] + SHIFT_IN_BREAK, date);
  }

  lemma {:induction false} NothingOn(date: int)
    ensures IntervalsOn(START, date) == []
  {
  }

  // ------------------------------------------------------------------- a replaced day

  function AllBut(events: seq<Event>, ids: seq<string>): seq<Event> {
    if events == [] then []
    else AllBut(events[..|events| - 1], ids) + if events[|events| - 1].id in ids then [] else [events[|events| - 1]]
  }

  lemma {:induction false} AllButKeeps(events: seq<Event>, ids: seq<string>)
    ensures forall e :: e in AllBut(events, ids) <==> e in events && e.id !in ids
    ensures SortedBy(E.EVENT_AT, events) ==> SortedBy(E.EVENT_AT, AllBut(events, ids))
    ensures DistinctBy(E.EVENT_ID, events) ==> DistinctBy(E.EVENT_ID, AllBut(events, ids))
  {
    if events != [] {
      var earlier, last := events[..|events| - 1], events[|events| - 1];
      assert events == earlier + [last];
      AllButKeeps(earlier, ids);
      if last.id !in ids { KeepsLast(AllBut(earlier, ids), earlier, last); }
    }
  }

  lemma {:induction false} KeepsLast(kept: seq<Event>, events: seq<Event>, last: Event)
    requires forall e :: e in kept ==> e in events
    ensures SortedBy(E.EVENT_AT, events + [last]) && SortedBy(E.EVENT_AT, kept) ==> SortedBy(E.EVENT_AT, kept + [last])
    ensures DistinctBy(E.EVENT_ID, events + [last]) && DistinctBy(E.EVENT_ID, kept) ==>
      DistinctBy(E.EVENT_ID, kept + [last])
  {
    var more := events + [last];
    forall i | 0 <= i < |kept|
      ensures SortedBy(E.EVENT_AT, more) ==> E.EVENT_AT(kept[i]) <= E.EVENT_AT(last)
      ensures DistinctBy(E.EVENT_ID, more) ==> E.EVENT_ID(kept[i]) != E.EVENT_ID(last)
    {
      assert kept[i] in events;
      var k :| 0 <= k < |events| && events[k] == kept[i];
      assert more[k] == kept[i] && more[|events|] == last;
    }
  }

  /** A clean sequence without a clock-in on a date shows no interval on it. */
  lemma {:induction false} NoClockInNoInterval(zone: Zone, events: seq<Event>, n: nat, date: int)
    requires n <= |events| && Sequenced(zone, MarksOf(events)).dates == {}
    requires forall i :: 0 <= i < |events| && events[i].mark.kind == ClockIn ==> zone.day(events[i].mark.at) != date
    ensures IntervalsOn(Walked(zone, events[..n]), date) == [] && Walked(zone, events[..n]).shiftDate != Some(date)
  {
    hide Walked, Sequenced;
    if n == 0 {
      assert events[..0] == [];
      NothingRead(zone);
    } else {
      NoClockInNoInterval(zone, events, n - 1, date);
      WalkedOneMore(zone, events, n - 1);
      OffHoldsNothing(zone, events, n - 1);
      OneMoreInSequence(zone, MarksOf(events), n - 1);
      PrefixesRaiseNoMore(zone, MarksOf(events), n);
    }
  }

  function Generated(idAt: nat -> string, n: nat, marks: seq<Mark>): seq<Event> {
    seq(|marks|, i requires 0 <= i < |marks| => Event(idAt(n + i), marks[i]))
  }

  lemma {:induction false} MergedEvents(a: seq<Event>, b: seq<Event>)
    requires SortedBy(E.EVENT_AT, a) && SortedBy(E.EVENT_AT, b)
    ensures multiset(Merge(E.EVENT_AT, a, b)) == multiset(a) + multiset(b)
    ensures SortedBy(E.EVENT_AT, Merge(E.EVENT_AT, a, b))
  {
    hide Sort, Merge;
    SortOfConcatenation(E.EVENT_AT, a, b);
    SortSorts(E.EVENT_AT, a + b);
  }

  // With distinct times there is one way to list the kept and the new events.
  lemma {:induction false} ListedAsMerged(after: seq<Event>, kept: seq<Event>, added: seq<Event>)
    requires SortedBy(E.EVENT_AT, after) && DistinctBy(E.EVENT_AT, after) && DistinctBy(E.EVENT_ID, after)
    requires SortedBy(E.EVENT_AT, kept) && SortedBy(E.EVENT_AT, added)
    requires DistinctBy(E.EVENT_ID, kept) && DistinctBy(E.EVENT_ID, added)
    requires forall e :: e in after <==> e in kept || e in added
    requires forall e :: e in kept ==> e !in added
    ensures after == Merge(E.EVENT_AT, kept, added)
  {
    hide Merge;
    var merged := Merge(E.EVENT_AT, kept, added);
    MergedEvents(kept, added);
    forall e: Event ensures multiset(after)[e] == multiset(merged)[e] {
      OnceEach(E.EVENT_ID, after, e);
      OnceEach(E.EVENT_ID, kept, e);
      OnceEach(E.EVENT_ID, added, e);
    }
    assert multiset(after) == multiset(merged);
    forall i, j | 0 <= i < j < |after| ensures E.EVENT_AT(after[i]) < E.EVENT_AT(after[j]) {
      assert E.EVENT_AT(after[i]) <= E.EVENT_AT(after[j]) && E.EVENT_AT(after[i]) != E.EVENT_AT(after[j]);
    }
    OneStrictOrder(E.EVENT_AT, after, merged);
  }

  // The kept events and the new ones, once each, make up the new list.
  lemma {:induction false} ListedAsJoined(after: seq<Event>, kept: seq<Event>, added: seq<Event>)
    requires SortedBy(E.EVENT_AT, after) && DistinctBy(E.EVENT_ID, after) && DistinctBy(E.EVENT_AT, kept + added)
    requires SortedBy(E.EVENT_AT, kept) && SortedBy(E.EVENT_AT, added)
    requires DistinctBy(E.EVENT_ID, kept) && DistinctBy(E.EVENT_ID, added)
    requires forall e :: e in after <==> e in kept || e in added
    requires forall e :: e in kept ==> e !in added
    ensures after == Merge(E.EVENT_AT, kept, added)
  {
    hide Merge, SortedBy;
    forall e: Event ensures multiset(after)[e] == multiset(kept + added)[e] {
      OnceEach(E.EVENT_ID, after, e);
      OnceEach(E.EVENT_ID, kept, e);
      OnceEach(E.EVENT_ID, added, e);
    }
    PermutedStaysDistinct(E.EVENT_AT, kept + added, after);
    ListedAsMerged(after, kept, added);
  }

  /** What a replacement of a day starts from: the log, the day's events as they were
      requested, and the list that passed the checks against the other events. */
  ghost predicate Replaceable(idAt: nat -> string, createdAt: nat -> int, zone: Zone, log: seq<E.Row>, employee: string,
                              workDate: int, before: seq<Event>, day: Day, targets: seq<string>, items: seq<Interval>)
  {
    var kept, added := AllBut(before, targets), Generated(idAt, |log| + |targets|, Compiled(items, |items|));
    && P.WellKept(idAt, createdAt, log)
    && R.DayOf(zone, log, employee, workDate, before, day) && multiset(targets) == multiset(day.eventIds)
    && MayJoin(zone, kept, items, added) && DistinctBy(E.EVENT_AT, kept + added)
  }

  // The window a date is read in.
  function EndOf(zone: Zone, workDate: int): int { zone.instant(workDate, "00:00", 2) }

  lemma {:induction false} TargetsAreListed(zone: Zone, log: seq<E.Row>, employee: string, workDate: int,
                                            before: seq<Event>, day: Day, targets: seq<string>, idAt: nat -> string,
                                            createdAt: nat -> int)
    requires P.WellKept(idAt, createdAt, log) && R.DayOf(zone, log, employee, workDate, before, day)
    requires multiset(targets) == multiset(day.eventIds)
    ensures P.Targets(log, targets)
  {
    hide E.Effects, E.Find, Walked, GroupFor;
    R.TargetsExist(zone, log, employee, workDate, before, day, targets);
    forall i | 0 <= i < |targets| ensures targets[i] != "" {
      E.FindFinds(log, targets[i]);
      var row := E.Find(log, targets[i]).value;
      var k: nat :| k < |log| && log[k] == row;
    }
  }

  lemma {:induction false} NoClockInKept(zone: Zone, before: seq<Event>, day: Day, workDate: int, targets: seq<string>)
    requires day == GroupFor(Walked(zone, before).groups, workDate) && multiset(targets) == multiset(day.eventIds)
    ensures forall e :: e in AllBut(before, targets) && e.mark.kind == ClockIn ==> zone.day(e.mark.at) != workDate
  {
    hide Walked, AllBut;
    AllButKeeps(before, targets);
    assert before[..|before|] == before;
    forall e | e in AllBut(before, targets) && e.mark.kind == ClockIn ensures zone.day(e.mark.at) != workDate {
      ClockInsAreListed(zone, before, |before|, e);
      if zone.day(e.mark.at) == workDate {
        var i: nat :| i < |day.eventIds| && day.eventIds[i] == e.id;
        ElementsOf(day.eventIds, targets, i);
      }
    }
  }

  lemma {:induction false} NewEventsInOrder(idAt: nat -> string, createdAt: nat -> int, n: nat, items: seq<Interval>)
    requires WellShaped(items) && P.GoodKeys(idAt, createdAt)
    ensures var added := Generated(idAt, n, Compiled(items, |items|));
      SortedBy(E.EVENT_AT, added) && DistinctBy(E.EVENT_ID, added)
  {
    hide WellShaped, Compiled;
    CompiledIsOrdered(items, |items|);
    var marks := Compiled(items, |items|);
    var added := Generated(idAt, n, marks);
    forall i, j | 0 <= i < j < |added|
      ensures E.EVENT_AT(added[i]) <= E.EVENT_AT(added[j]) && E.EVENT_ID(added[i]) != E.EVENT_ID(added[j])
    {
      assert AT_OF(marks[i]) <= AT_OF(marks[j]);
    }
  }

  lemma {:induction false} IsNewIsAdded(idAt: nat -> string, createdAt: nat -> int, n: nat, employee: string,
                                        items: seq<Interval>, until: int, e: Event)
    requires WellShaped(items) && items[|items| - 1].endAt <= until + E.DAY
    ensures P.IsNew(idAt, createdAt, n, employee, Compiled(items, |items|), until, e)
      <==> e in Generated(idAt, n, Compiled(items, |items|))
  {
    hide WellShaped, Compiled;
    CompiledIsOrdered(items, |items|);
    var marks := Compiled(items, |items|);
    var added := Generated(idAt, n, marks);
    Shaped(items);
    if e in added {
      var k: nat :| k < |added| && added[k] == e;
      assert e == Event(idAt(n + k), marks[k]) && marks[k].at <= until + E.DAY;
    }
    if P.IsNew(idAt, createdAt, n, employee, marks, until, e) {
      var k: nat :| k < |marks| && e == Event(idAt(n + k), marks[k]) && marks[k].at <= until + E.DAY;
      assert added[k] == e;
    }
  }

  lemma {:induction false} KeptIsOld(idAt: nat -> string, createdAt: nat -> int, log: seq<E.Row>, employee: string,
                                     until: int, before: seq<Event>, n: nat, marks: seq<Mark>, e: Event)
    requires P.WellKept(idAt, createdAt, log)
    requires E.Lists(before, E.Effects(log, employee, until)) && n >= |log| && e in before
    ensures e !in Generated(idAt, n, marks)
  {
    hide E.Effects, E.Find;
    E.EffectsAreLogged(log, employee, until);
    var added := Generated(idAt, n, marks);
    if e in added {
      var k: nat :| k < |added| && added[k] == e;
      P.KeysOfKept(idAt, createdAt, log);
      P.OldIdsAreOld(idAt, log, n + k, e.id);
    }
  }

  lemma {:induction false} ReplaceableParts(idAt: nat -> string, createdAt: nat -> int, zone: Zone, log: seq<E.Row>,
                                            employee: string, workDate: int, before: seq<Event>, day: Day,
                                            targets: seq<string>, items: seq<Interval>)
    requires Replaceable(idAt, createdAt, zone, log, employee, workDate, before, day, targets, items)
    ensures WellShaped(items) && P.GoodKeys(idAt, createdAt) && P.Targets(log, targets)
    ensures E.Lists(before, E.Effects(log, employee, EndOf(zone, workDate)))
    ensures P.NoCorrections(Compiled(items, |items|))
  {
    hide E.Effects, E.Find, Walked, Compiled, CleanSequence, KeepsClear, WellShaped, MarksOf;
    TargetsAreListed(zone, log, employee, workDate, before, day, targets, idAt, createdAt);
    CompiledKinds(items, |items|);
  }

  /** The replacement is within what a replay of the day reads: one page, voids and new
      events stored within a day of its end. */
  ghost predicate IsRead(idAt: nat -> string, createdAt: nat -> int, zone: Zone, log: seq<E.Row>, employee: string,
                         workDate: int, targets: seq<string>, items: seq<Interval>)
  {
    var until := EndOf(zone, workDate);
    && P.OnePage(Replaced(idAt, createdAt, log, employee, targets, items), employee, until)
    && P.VoidsAreRead(log, employee, targets, until)
    && items != [] && items[|items| - 1].endAt <= until + E.DAY
  }

  /** What `materializeReplacement` makes of the log. */
  function Replaced(idAt: nat -> string, createdAt: nat -> int, log: seq<E.Row>, employee: string, targets: seq<string>,
                    items: seq<Interval>): seq<E.Row>
  {
    R.Grown(idAt, createdAt, log, employee, targets, Sort(AT_OF, Compiled(items, |items|)))
  }

  /** What the date is read from after the replacement: the kept events and the new ones. */
  lemma {:induction false} ListedAfter(idAt: nat -> string, createdAt: nat -> int, zone: Zone, log: seq<E.Row>,
                                       employee: string, workDate: int, before: seq<Event>, day: Day,
                                       targets: seq<string>, items: seq<Interval>, after: seq<Event>)
    requires Replaceable(idAt, createdAt, zone, log, employee, workDate, before, day, targets, items)
    requires IsRead(idAt, createdAt, zone, log, employee, workDate, targets, items)
    requires E.Lists(after, E.Effects(Replaced(idAt, createdAt, log, employee, targets, items), employee,
                                      EndOf(zone, workDate)))
    ensures after == Merge(E.EVENT_AT, AllBut(before, targets),
                           Generated(idAt, |log| + |targets|, Compiled(items, |items|)))
  {
    hide E.Effects, E.Find, Walked, Compiled, WellShaped, MarksOf, Merge, R.Grown, P.OnePage, P.WellKept,
         P.VoidsAreRead, AllBut, P.NoCorrections, P.Targets, MayJoin, P.GoodKeys, Generated, Sort;
    var until, marks, n := EndOf(zone, workDate), Compiled(items, |items|), |log| + |targets|;
    var kept, added := AllBut(before, targets), Generated(idAt, n, marks);
    ReplaceableParts(idAt, createdAt, zone, log, employee, workDate, before, day, targets, items);
    CompiledListReplaysExactly(zone, items);
    P.ReplacementInTimeOrder(idAt, createdAt, log, employee, targets, marks, until, before, after);
    AllButKeeps(before, targets);
    NewEventsInOrder(idAt, createdAt, n, items);
    forall e ensures e in after <==> e in kept || e in added {
      IsNewIsAdded(idAt, createdAt, n, employee, items, until, e);
    }
    forall e | e in kept ensures e !in added {
      KeptIsOld(idAt, createdAt, log, employee, until, before, n, marks, e);
    }
    ListedAsJoined(after, kept, added);
  }

  /** After a replacement that the day's replay reads, the date reads back as the submitted
      intervals whose shifts start on it: the very list if all of them do. */
  lemma {:induction false} ReplacedDayReadsBack(
    idAt: nat -> string, createdAt: nat -> int, zone: Zone, log: seq<E.Row>, employee: string, workDate: int,
    before: seq<Event>, day: Day, targets: seq<string>, items: seq<Interval>, after: seq<Event>, shown: Day)
    requires Replaceable(idAt, createdAt, zone, log, employee, workDate, before, day, targets, items)
    requires R.DayOf(zone, Replaced(idAt, createdAt, log, employee, targets, items), employee, workDate, after, shown)
    ensures IsRead(idAt, createdAt, zone, log, employee, workDate, targets, items) ==>
      && shown.intervals == ShownOn(zone, workDate, items, |items|)
      && (KeepsDates(zone, workDate) && (forall i :: 0 <= i < |items| ==> PlacedInterval(zone, workDate, items[i])) ==>
            (shown.intervals == Nameless(items)
             <==> forall i :: 0 <= i < |items| && !MidShift(items, i) ==> zone.day(items[i].startAt) == workDate))
  {
    hide E.Effects, E.Find, Walked, Compiled, WellShaped, MarksOf, Merge, Replaced, P.WellKept, IsRead, AllBut, MayJoin,
         Generated, ShownOn, MidShift, IntervalsOn, PlacedInterval;
    if !IsRead(idAt, createdAt, zone, log, employee, workDate, targets, items) { return; }
    var kept, added := AllBut(before, targets), Generated(idAt, |log| + |targets|, Compiled(items, |items|));
    ListedAfter(idAt, createdAt, zone, log, employee, workDate, before, day, targets, items, after);
    NoClockInKept(zone, before, day, workDate, targets);
    KeptShowsNothing(zone, kept, items, added, workDate);
    MergedListReadsBack(zone, kept, items, added, workDate);
    IntervalsAre(zone, after, workDate);
    ReplaceableParts(idAt, createdAt, zone, log, employee, workDate, before, day, targets, items);
    if KeepsDates(zone, workDate) && forall i :: 0 <= i < |items| ==> PlacedInterval(zone, workDate, items[i]) {
      NewHaveMarks(idAt, |log| + |targets|, items);
      ReadBackIsExact(zone, workDate, items, added);
      ReadBack(zone, items, added, workDate);
    }
  }

  lemma {:induction false} NewHaveMarks(idAt: nat -> string, n: nat, items: seq<Interval>)
    ensures HasMarks(Generated(idAt, n, Compiled(items, |items|)), Compiled(items, |items|))
  {
    hide Compiled;
  }

  lemma {:induction false} KeptShowsNothing(zone: Zone, kept: seq<Event>, items: seq<Interval>, added: seq<Event>,
                                            date: int)
    requires MayJoin(zone, kept, items, added)
    requires forall e :: e in kept && e.mark.kind == ClockIn ==> zone.day(e.mark.at) != date
    ensures IntervalsOn(Walked(zone, kept), date) == []
  {
    hide Walked, Compiled, MarksOf, WellShaped;
    CleanSides(zone, kept, items, added);
    NoClockInNoInterval(zone, kept, |kept|, date);
    assert kept[..|kept|] == kept;
  }
}
