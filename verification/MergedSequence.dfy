/** When a log with an accepted list merged into it raises no sequence anomaly. */
module MergedSequence {
  import opened Sorting
  import opened Timesheet
  import opened WorkSpans
  import opened NoDoubleCounting

  function PhaseOf(zone: Zone, marks: seq<Mark>): Phase { Sequenced(zone, marks).phase }

  /** No interval starts during a break of the log. */
  predicate BreaksAreFree(zone: Zone, log: seq<Mark>, items: seq<Interval>) {
    forall i, p :: 0 < i < |log| && 0 <= p < |items| && PhaseOf(zone, log[..i]) in {OnBreak, OnPaidBreak} ==>
      !(log[i - 1].at <= items[p].startAt < log[i].at)
  }

  /** Nor does any end on the instant a logged span starts. */
  predicate KeepsClear(zone: Zone, log: seq<Mark>, items: seq<Interval>) {
    && BreaksAreFree(zone, log, items)
    && forall p, k :: 0 <= p < |items| && 0 <= k < |Replayed(IDLE, log).spans| ==>
         items[p].endAt != Replayed(IDLE, log).spans[k].start
  }

  // ------------------------------------------------------------- clean sequences

  lemma {:induction false} OneMoreInSequence(zone: Zone, marks: seq<Mark>, i: nat)
    requires i < |marks|
    ensures Sequenced(zone, marks[..i + 1]) == SequenceStep(zone, Sequenced(zone, marks[..i]), marks[i])
  {
    assert marks[..i + 1][..i] == marks[..i];
  }

  lemma {:induction false} SequenceSnoc(zone: Zone, marks: seq<Mark>, mark: Mark)
    ensures Sequenced(zone, marks + [mark]) == SequenceStep(zone, Sequenced(zone, marks), mark)
    ensures Sequenced(zone, marks).dates <= Sequenced(zone, marks + [mark]).dates
  {
    assert (marks + [mark])[..|marks|] == marks;
  }

  lemma {:induction false} PrefixesRaiseNoMore(zone: Zone, marks: seq<Mark>, i: nat)
    requires i <= |marks|
    ensures Sequenced(zone, marks[..i]).dates <= Sequenced(zone, marks).dates
    decreases |marks| - i
  {
    if i < |marks| {
      OneMoreInSequence(zone, marks, i);
      PrefixesRaiseNoMore(zone, marks, i + 1);
    } else {
      assert marks[..i] == marks;
    }
  }

  /** Where neither detector objects, paid phases are those a shift runs in. */
  lemma {:induction false} PhaseIsRunning(zone: Zone, marks: seq<Mark>, i: nat)
    requires Sequenced(zone, marks).dates == {} && !Replayed(IDLE, marks).anomaly && i <= |marks|
    ensures Replayed(IDLE, marks[..i]).active.Some? <==> PhaseOf(zone, marks[..i]) in {Working, OnPaidBreak}
  {
    hide Replayed, Sequenced;
    if i == 0 {
      assert marks[..i] == [];
      Nothing(zone);
    } else {
      PhaseIsRunning(zone, marks, i - 1);
      OneMoreMark(marks, i - 1);
      OneMoreInSequence(zone, marks, i - 1);
      PrefixOfReplay(marks, i);
      PrefixesRaiseNoMore(zone, marks, i);
    }
  }

  lemma {:induction false} Nothing(zone: Zone)
    ensures Sequenced(zone, []) == FRESH && Replayed(IDLE, []) == IDLE
  {
  }

  /** A clean sequence: nothing flagged, and everybody out at the end. */
  predicate CleanSequence(zone: Zone, marks: seq<Mark>) {
    Sequenced(zone, marks).dates == {} && PhaseOf(zone, marks) == Off
  }

  lemma {:induction false} NoAnomalyDates(zone: Zone, marks: seq<Mark>)
    ensures AnomalyDates(zone, marks) == {} <==> CleanSequence(zone, marks)
  {
    var s := Sequenced(zone, marks);
    if s.phase != Off { SomethingHappened(zone, marks); assert s.last.value in s.dates + {s.last.value}; }
  }

  lemma {:induction false} SomethingHappened(zone: Zone, marks: seq<Mark>)
    ensures Sequenced(zone, marks).phase != Off ==> Sequenced(zone, marks).last.Some?
  {
    if marks != [] { SomethingHappened(zone, marks[..|marks| - 1]); }
  }

  // -------------------------------------------------------------- the merged phases

  ghost predicate Both(zone: Zone, log: seq<Mark>, added: seq<Mark>, i: nat, j: nat)
    requires i <= |log| && j <= |added|
  {
    PhaseOf(zone, log[..i]) != Off && PhaseOf(zone, added[..j]) != Off
  }

  /** The merged sequence is in the phase of the side that is not off. */
  ghost predicate InStep(zone: Zone, log: seq<Mark>, added: seq<Mark>, merged: seq<Mark>, i: nat, j: nat)
    requires i <= |log| && j <= |added|
  {
    var a := PhaseOf(zone, added[..j]);
    && !Both(zone, log, added, i, j) && Sequenced(zone, merged).dates == {}
    && PhaseOf(zone, merged) == if a != Off then a else PhaseOf(zone, log[..i])
  }

  // One more event of either side: in step, unless both sides are on at once.
  lemma {:induction false} AddedInStep(zone: Zone, log: seq<Mark>, added: seq<Mark>, merged: seq<Mark>, i: nat, j: nat)
    requires i <= |log| && j < |added| && Sequenced(zone, added).dates == {} && InStep(zone, log, added, merged, i, j)
    ensures var more := merged + [added[j]];
      if Both(zone, log, added, i, j + 1) then Sequenced(zone, more).dates != {}
      else InStep(zone, log, added, more, i, j + 1)
  {
    hide Sequenced;
    OneMoreInSequence(zone, added, j);
    PrefixesRaiseNoMore(zone, added, j + 1);
    SequenceSnoc(zone, merged, added[j]);
    FlagsItsDate(zone, merged, added[j]);
  }

  lemma {:induction false} LoggedInStep(zone: Zone, log: seq<Mark>, added: seq<Mark>, merged: seq<Mark>, i: nat, j: nat)
    requires i < |log| && j <= |added| && Sequenced(zone, log).dates == {} && InStep(zone, log, added, merged, i, j)
    ensures var more := merged + [log[i]];
      if Both(zone, log, added, i + 1, j) then Sequenced(zone, more).dates != {}
      else InStep(zone, log, added, more, i + 1, j)
  {
    hide Sequenced;
    OneMoreInSequence(zone, log, i);
    PrefixesRaiseNoMore(zone, log, i + 1);
    SequenceSnoc(zone, merged, log[i]);
    FlagsItsDate(zone, merged, log[i]);
  }

  lemma {:induction false} FlagsItsDate(zone: Zone, marks: seq<Mark>, mark: Mark)
    ensures mark.kind == ClockIn && PhaseOf(zone, marks) != Off ==>
      zone.day(mark.at) in Sequenced(zone, marks + [mark]).dates
  {
    SequenceSnoc(zone, marks, mark);
  }

  // ------------------------------------------------------------- keeping clear of it

  lemma {:induction false} ClearIsUntouched(zone: Zone, log: seq<Mark>, items: seq<Interval>)
    requires KeepsClear(zone, log, items)
    ensures Untouched(items, Replayed(IDLE, log).spans)
  {
  }

  lemma {:induction false} CompiledIsClean(zone: Zone, items: seq<Interval>)
    requires WellShaped(items)
    ensures CleanSequence(zone, Compiled(items, |items|)) && Clean(Compiled(items, |items|))
  {
    CompiledSequences(zone, items, |items|);
    CompiledReplays(items, |items|);
    NotMidShiftAtEnd(items);
  }

  // Off exactly after a clock-out, and at the start.
  lemma {:induction false} OnInsideItems(zone: Zone, items: seq<Interval>, j: nat)
    requires WellShaped(items) && j <= |Compiled(items, |items|)|
    ensures var added := Compiled(items, |items|);
      PhaseOf(zone, added[..j]) != Off <==> Inside(items, added, j)
  {
    hide Sequenced, Compiled, WellShaped;
    var added := Compiled(items, |items|);
    CompiledPairs(items, |items|);
    CompiledKinds(items, |items|);
    CompiledIsClean(zone, items);
    assert added[..|added|] == added;
    if j == 0 {
      assert added[..j] == [];
      Nothing(zone);
    } else {
      OneMoreInSequence(zone, added, j - 1);
      if j < |added| { assert Between(items, added, j); }
    }
  }

  lemma {:induction false} AddedComesAlone(zone: Zone, log: seq<Mark>, items: seq<Interval>, i: nat, j: nat)
    requires Fits(log, items) && CleanSequence(zone, log) && KeepsClear(zone, log, items)
    requires Cut(log, Compiled(items, |items|), i, j) && Cut(log, Compiled(items, |items|), i, j + 1)
    requires !Both(zone, log, Compiled(items, |items|), i, j)
    ensures !Both(zone, log, Compiled(items, |items|), i, j + 1)
  {
    hide Sequenced, Replayed, Compiled, WellShaped, NoConflict;
    var added := Compiled(items, |items|);
    if Both(zone, log, added, i, j + 1) {
      ClearIsUntouched(zone, log, items);
      AddedFindsNoShift(log, items, i, j);
      PhaseIsRunning(zone, log, i);
      OnInsideItems(zone, items, j + 1);
      var p :| 0 <= p < |items| && EndsOf(items, added, j + 1, p);
      assert log[..|log|] == log && log[..0] == [];
      Nothing(zone);
      OneMoreInSequence(zone, added, j);
    }
  }

  lemma {:induction false} LoggedComesAlone(zone: Zone, log: seq<Mark>, items: seq<Interval>, i: nat, j: nat)
    requires Fits(log, items) && CleanSequence(zone, log) && KeepsClear(zone, log, items)
    requires i < |log| && Cut(log, Compiled(items, |items|), i + 1, j)
    requires !Both(zone, log, Compiled(items, |items|), i, j)
    ensures !Both(zone, log, Compiled(items, |items|), i + 1, j)
  {
    hide Sequenced, Replayed, Compiled, WellShaped, NoConflict;
    var added := Compiled(items, |items|);
    if Both(zone, log, added, i + 1, j) {
      OneMoreInSequence(zone, log, i);
      PrefixesRaiseNoMore(zone, log, i + 1);
      PhaseIsRunning(zone, log, i + 1);
      OnInsideItems(zone, items, j);
      var p :| 0 <= p < |items| && EndsOf(items, added, j, p);
      BothRunningConflict(log, items, added, i + 1, j, p);
    }
  }

  /** Every cut the merge goes through: in step if the list keeps clear, or if
      nothing has been flagged so far. */
  lemma {:induction false} MergeInStep(zone: Zone, log: seq<Mark>, items: seq<Interval>, i: nat, j: nat)
    requires Fits(log, items) && CleanSequence(zone, log) && Cut(log, Compiled(items, |items|), i, j)
    ensures var added := Compiled(items, |items|);
      var merged := Merge(AT_OF, log[..i], added[..j]);
      KeepsClear(zone, log, items) || Sequenced(zone, merged).dates == {} ==> InStep(zone, log, added, merged, i, j)
    decreases i + j
  {
    hide Replayed, Sequenced, Compiled, WellShaped, NoConflict, Merge, Clean, KeepsClear, InStep, Both, Inside;
    var added := Compiled(items, |items|);
    var a, b := log[..i], added[..j];
    WellShapedOf(log, items);
    CompiledIsClean(zone, items);
    if i == 0 && j == 0 {
      NothingInStep(zone, log, added);
      assert a == [] && b == [];
    } else if j > 0 && (i == 0 || a[i - 1].at <= b[j - 1].at) {
      LastOfMergeIsAdded(log, added, i, j);
      CutWithoutAdded(log, items, i, j);
      MergeInStep(zone, log, items, i, j - 1);
      var merged := Merge(AT_OF, a, added[..j - 1]);
      SequenceSnoc(zone, merged, added[j - 1]);
      if InStep(zone, log, added, merged, i, j - 1) {
        AddedInStep(zone, log, added, merged, i, j - 1);
        if KeepsClear(zone, log, items) {
          NotBothOf(zone, log, added, merged, i, j - 1);
          AddedComesAlone(zone, log, items, i, j - 1);
        }
      }
    } else {
      LastOfMergeIsLogged(log, added, i, j);
      CutWithoutLogged(log, items, i, j);
      MergeInStep(zone, log, items, i - 1, j);
      var merged := Merge(AT_OF, log[..i - 1], b);
      SequenceSnoc(zone, merged, log[i - 1]);
      if InStep(zone, log, added, merged, i - 1, j) {
        LoggedInStep(zone, log, added, merged, i - 1, j);
        if KeepsClear(zone, log, items) {
          NotBothOf(zone, log, added, merged, i - 1, j);
          LoggedComesAlone(zone, log, items, i - 1, j);
        }
      }
    }
  }

  lemma {:induction false} WellShapedOf(log: seq<Mark>, items: seq<Interval>)
    requires Fits(log, items)
    ensures WellShaped(items)
  {
  }

  lemma {:induction false} NotBothOf(zone: Zone, log: seq<Mark>, added: seq<Mark>, merged: seq<Mark>, i: nat, j: nat)
    requires i <= |log| && j <= |added| && InStep(zone, log, added, merged, i, j)
    ensures !Both(zone, log, added, i, j)
  {
  }

  lemma {:induction false} NothingInStep(zone: Zone, log: seq<Mark>, added: seq<Mark>)
    ensures InStep(zone, log, added, Merge(AT_OF, [], []), 0, 0)
  {
    assert log[..0] == [] && added[..0] == [];
  }

  // ----------------------------------------------------------------- the other way

  /** A merge in step everywhere was kept clear of. */
  lemma {:induction false} CleanKeepsClear(zone: Zone, log: seq<Mark>, items: seq<Interval>)
    requires Fits(log, items) && CleanSequence(zone, log)
    requires Sequenced(zone, Merge(AT_OF, log, Compiled(items, |items|))).dates == {}
    ensures KeepsClear(zone, log, items)
  {
    hide Replayed, Sequenced, Compiled, WellShaped, NoConflict, Merge, Both;
    var added, spans := Compiled(items, |items|), Replayed(IDLE, log).spans;
    forall i, p | 0 < i < |log| && 0 <= p < |items| && PhaseOf(zone, log[..i]) in {OnBreak, OnPaidBreak}
      ensures !(log[i - 1].at <= items[p].startAt < log[i].at)
    {
      var r := ItemEnds(items, p);
      if log[i - 1].at <= items[p].startAt < log[i].at {
        WholeMerge(log, items);
        NeverBothOn(zone, log, items, i, r, p);
      }
    }
    forall p, k | 0 <= p < |items| && 0 <= k < |spans| ensures items[p].endAt != spans[k].start {
      var r := ItemEnds(items, p);
      if items[p].endAt == spans[k].start {
        WholeMerge(log, items);
        assert log[..|log|] == log;
        var q := SpanHasOpening(log, |log|, k);
        OpensAtItsTime(log, q);
        ItemForward(items, p);
        PhaseIsRunning(zone, log, q + 1);
        NeverBothOn(zone, log, items, q + 1, r, p);
      }
    }
  }

  // Inside an interval of the list the log is off.
  lemma {:induction false} NeverBothOn(zone: Zone, log: seq<Mark>, items: seq<Interval>, i: nat, r: nat, p: nat)
    requires Fits(log, items) && CleanSequence(zone, log)
    requires SortedByTime(Compiled(items, |items|)) && Cut(log, Compiled(items, |items|), i, r)
    requires p < |items| && EndsOf(items, Compiled(items, |items|), r, p)
    requires Sequenced(zone, Merge(AT_OF, log, Compiled(items, |items|))).dates == {}
    ensures PhaseOf(zone, log[..i]) == Off
  {
    hide Replayed, Sequenced, Compiled, WellShaped, NoConflict, Merge;
    var added := Compiled(items, |items|);
    var merged, whole := Merge(AT_OF, log[..i], added[..r]), Merge(AT_OF, log, added);
    MergeStartsWith(log, added, i, r);
    assert whole[..|merged|] == merged;
    PrefixesRaiseNoMore(zone, whole, |merged|);
    MergeInStep(zone, log, items, i, r);
    OnInsideItems(zone, items, r);
  }

  /** Merging an accepted list into a clean log raises no sequence anomaly exactly
      when no interval starts in a logged break and none ends on the instant a
      logged span starts. A list inside an unpaid break adds up, and is flagged. */
  lemma {:induction false} MergedSequenceIsClean(zone: Zone, log: seq<Mark>, items: seq<Interval>)
    requires Fits(log, items) && AnomalyDates(zone, log) == {}
    ensures AnomalyDates(zone, Sort(AT_OF, log + Compiled(items, |items|))) == {} <==> KeepsClear(zone, log, items)
  {
    hide Replayed, Sequenced, Compiled, WellShaped, NoConflict, Merge, Sort, KeepsClear, AnomalyDates;
    var added := Compiled(items, |items|);
    NoAnomalyDates(zone, log);
    WholeMerge(log, items);
    NoAnomalyDates(zone, Merge(AT_OF, log, added));
    WellShapedOf(log, items);
    CompiledIsClean(zone, items);
    assert log[..|log|] == log && added[..|added|] == added;
    MergeInStep(zone, log, items, |log|, |added|);
    if Sequenced(zone, Merge(AT_OF, log, added)).dates == {} { CleanKeepsClear(zone, log, items); }
  }
}
