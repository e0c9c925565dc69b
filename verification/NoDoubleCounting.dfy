/** Adding an accepted list of intervals to a log it does not conflict with. */
module NoDoubleCounting {
  import opened Bytes
  import opened Sorting
  import opened Timesheet
  import opened WorkSpans

  /** `intervalsOverlap`. */
  predicate Overlaps(item: Interval, span: Span) {
    item.startAt < span.end && item.endAt > span.start
  }

  predicate NoConflict(items: seq<Interval>, spans: seq<Span>) {
    forall i, k :: 0 <= i < |items| && 0 <= k < |spans| ==> !Overlaps(items[i], spans[k])
  }

  /** The comparison of `validateConflicts` with the recorded work. */
  method FindConflict(items: seq<Interval>, spans: seq<Span>) returns (conflict: bool)
    ensures conflict <==> !NoConflict(items, spans)
    ensures conflict <==> exists i, k :: 0 <= i < |items| && 0 <= k < |spans|
                                         && items[i].startAt < spans[k].end && spans[k].start < items[i].endAt
  {
    for i := 0 to |items|
      invariant forall p, k :: 0 <= p < i && 0 <= k < |spans| ==> !Overlaps(items[p], spans[k])
    {
      for k := 0 to |spans|
        invariant forall p, q :: 0 <= p < i && 0 <= q < |spans| ==> !Overlaps(items[p], spans[q])
        invariant forall q :: 0 <= q < k ==> !Overlaps(items[i], spans[q])
      {
        if Overlaps(items[i], spans[k]) { return true; }
      }
    }
    return false;
  }

  /** Replays without anomaly: every shift is closed and none opens twice. */
  predicate Clean(marks: seq<Mark>) {
    var r := Replayed(IDLE, marks);
    r.active == None && !r.anomaly
  }

  /** A clean log, and an accepted list that passes the conflict check. */
  predicate Fits(log: seq<Mark>, items: seq<Interval>) {
    && SortedByTime(log) && Clean(log) && WellShaped(items)
    && NoConflict(items, Replayed(IDLE, log).spans)
  }

  /** Time that counts: work, or a paid break. */
  predicate Paid(item: Interval) { item.work || item.breakPaid }

  /** No work and no paid break of the list ends on the instant a logged span starts. */
  predicate Untouched(items: seq<Interval>, spans: seq<Span>) {
    forall p, k :: 0 <= p < |items| && 0 <= k < |spans| && Paid(items[p]) ==> items[p].endAt != spans[k].start
  }

  predicate SortedByTime(marks: seq<Mark>) {
    forall i, j :: 0 <= i < j < |marks| ==> marks[i].at <= marks[j].at
  }

  // -------------------------------------------------------------- clean prefixes

  lemma {:induction false} PrefixOfReplay(marks: seq<Mark>, i: nat)
    requires i <= |marks|
    ensures Replayed(IDLE, marks[..i]).spans <= Replayed(IDLE, marks).spans
    ensures Replayed(IDLE, marks[..i]).anomaly ==> Replayed(IDLE, marks).anomaly
  {
    hide Replayed;
    assert marks == marks[..i] + marks[i..];
    ReplayedInPieces(IDLE, marks[..i], marks[i..]);
    ReplayForgets(Replayed(IDLE, marks[..i]), marks[i..]);
  }

  lemma {:induction false} OneMoreMark(marks: seq<Mark>, i: nat)
    requires i < |marks|
    ensures Replayed(IDLE, marks[..i + 1]) == Step(Replayed(IDLE, marks[..i]), marks[i])
  {
    assert marks[..i + 1][..i] == marks[..i];
  }

  /** A shift running after i events of a clean log started before them and
      ends in a span that reaches past the next event. */
  lemma {:induction false} RunningShiftIsASpan(log: seq<Mark>, i: nat)
    requires SortedByTime(log) && Clean(log) && i <= |log|
    requires Replayed(IDLE, log[..i]).active.Some?
    ensures 0 < i < |log| && Replayed(IDLE, log[..i]).active.value <= log[i - 1].at
    ensures exists span ::
      && span in Replayed(IDLE, log).spans
      && span.start == Replayed(IDLE, log[..i]).active.value && log[i].at <= span.end
    decreases |log| - i
  {
    hide Replayed;
    RunningSince(log, i);
    assert log[..|log|] == log;
    if i < |log| {
      var r, next := Replayed(IDLE, log[..i]), Replayed(IDLE, log[..i + 1]);
      OneMoreMark(log, i);
      PrefixOfReplay(log, i + 1);
      if next.active.None? {
        var span := Span(r.active.value, log[i].at, false);
        assert next.spans == r.spans + [span] && next.spans[|r.spans|] == span;
        assert span == Replayed(IDLE, log).spans[|r.spans|];
      } else {
        RunningShiftIsASpan(log, i + 1);
      }
    }
  }

  lemma {:induction false} RunningSince(log: seq<Mark>, i: nat)
    requires SortedByTime(log) && i <= |log| && Replayed(IDLE, log[..i]).active.Some?
    ensures 0 < i && Replayed(IDLE, log[..i]).active.value <= log[i - 1].at
  {
    if i > 0 {
      OneMoreMark(log, i - 1);
      if Replayed(IDLE, log[..i - 1]).active.Some? { RunningSince(log, i - 1); }
    }
  }

  // ---------------------------------------------------- between two compiled marks

  predicate UnpaidStart(mark: Mark) { mark.kind == BreakStart && !mark.breakPaid }

  /** Events j - 1 and j are the two ends of interval p. */
  predicate EndsOf(items: seq<Interval>, marks: seq<Mark>, j: nat, p: nat) {
    && 0 < j < |marks| && p < |items|
    && items[p].startAt == marks[j - 1].at && items[p].endAt == marks[j].at
    && marks[j - 1].kind != ClockOut && (UnpaidStart(marks[j - 1]) <==> !Paid(items[p]))
  }

  /** Events j - 1 and j are the two ends of one interval. */
  predicate Inside(items: seq<Interval>, marks: seq<Mark>, j: nat) {
    exists p :: 0 <= p < |items| && EndsOf(items, marks, j, p)
  }

  predicate Between(items: seq<Interval>, marks: seq<Mark>, j: nat)
    requires 0 < j < |marks|
  {
    Inside(items, marks, j) || (marks[j - 1].kind == ClockOut && marks[j].kind == ClockIn)
  }

  predicate LastMark(items: seq<Interval>, n: nat, last: Mark)
    requires 0 < n <= |items|
  {
    if !MidShift(items, n) then last.kind == ClockOut
    else
      && (last.kind == ClockIn || last.kind == BreakEnd)
      && last.at == if items[n - 1].work then items[n - 1].startAt else items[n - 1].endAt
  }

  predicate Paired(items: seq<Interval>, marks: seq<Mark>) {
    forall j: nat :: 0 < j < |marks| ==> Between(items, marks, j)
  }

  lemma {:induction false} PairedOneMore(items: seq<Interval>, marks: seq<Mark>, mark: Mark)
    requires Paired(items, marks)
    requires marks != [] ==>
      || (marks[|marks| - 1].kind == ClockOut && mark.kind == ClockIn)
      || exists p :: 0 <= p < |items| && EndsOf(items, marks + [mark], |marks|, p)
    ensures Paired(items, marks + [mark])
  {
    var more := marks + [mark];
    forall j: nat | 0 < j < |more| ensures Between(items, more, j) {
      if j < |marks| {
        assert Between(items, marks, j);
        if Inside(items, marks, j) {
          var p :| 0 <= p < |items| && EndsOf(items, marks, j, p);
          assert EndsOf(items, more, j, p);
        }
      }
    }
  }

  lemma {:induction false} ItemIsPaired(items: seq<Interval>, marks: seq<Mark>, i: nat)
    requires WellShaped(items) && i < |items| && Paired(items, marks)
    requires if i == 0 then marks == []
             else marks != [] && marks[0].kind == ClockIn && LastMark(items, i, marks[|marks| - 1])
    ensures var more := marks + ItemMarks(items[i], MidShift(items, i), MidShift(items, i + 1));
      Paired(items, more) && more != [] && more[0].kind == ClockIn && LastMark(items, i + 1, more[|more| - 1])
  {
    hide Paired;
    var item := items[i];
    MarksByShift(items, i);
    if !item.work { assert BreakIsAttached(items, i); }
    if i > 0 && !items[i - 1].work { assert BreakIsAttached(items, i - 1); }
    var added := ItemMarks(item, MidShift(items, i), MidShift(items, i + 1));
    if |added| == 0 {
      assert marks + added == marks;
    } else {
      assert item.work && MidShift(items, i) ==> EndsOf(items, marks + [added[0]], |marks|, i);
      assert !item.work ==> EndsOf(items, marks + [added[0]], |marks|, i - 1);
      PairedOneMore(items, marks, added[0]);
      if |added| == 2 {
        assert EndsOf(items, marks + [added[0]] + [added[1]], |marks| + 1, i);
        PairedOneMore(items, marks + [added[0]], added[1]);
        assert marks + added == marks + [added[0]] + [added[1]];
      }
    }
  }

  /** Consecutive compiled events are the ends of an interval, or the end of one
      shift and the start of the next. */
  lemma {:induction false} CompiledPairs(items: seq<Interval>, n: nat)
    requires WellShaped(items) && n <= |items|
    ensures var marks := Compiled(items, n);
      && Paired(items, marks)
      && if n == 0 then marks == []
         else marks != [] && marks[0].kind == ClockIn && LastMark(items, n, marks[|marks| - 1])
  {
    hide WellShaped, MarksOfItem, ItemMarks, LastMark, Paired, MidShift;
    if n == 0 {
      assert Paired(items, Compiled(items, n)) by { NothingIsPaired(items); }
    } else {
      CompiledPairs(items, n - 1);
      MarksByShift(items, n - 1);
      ItemIsPaired(items, Compiled(items, n - 1), n - 1);
    }
  }

  lemma {:induction false} NothingIsPaired(items: seq<Interval>)
    ensures Paired(items, [])
  {
  }

  /** Every compiled event ends or starts an interval; outside the intervals no
      shift is running. */
  lemma {:induction false} CompiledStructure(items: seq<Interval>, j: nat)
    requires WellShaped(items)
    requires j <= |Compiled(items, |items|)|
    ensures var marks := Compiled(items, |items|);
      && (j < |marks| ==> Inside(items, marks, j) || Inside(items, marks, j + 1))
      && (!Inside(items, marks, j) ==> Replayed(IDLE, marks[..j]).active == None)
  {
    hide WellShaped, Compiled, Inside, Replayed;
    var marks := Compiled(items, |items|);
    CompiledPairs(items, |items|);
    CompiledReplays(items, |items|);
    assert 0 < |items| by { Shaped(items); }
    if 0 < j < |marks| { assert Between(items, marks, j); }
    if j + 1 < |marks| { var k: nat := j + 1; assert Between(items, marks, k); }
    if j == 0 {
      NothingReplayed(IDLE);
      assert marks[..j] == [];
    } else if j == |marks| {
      assert marks[..j] == marks;
    } else if !Inside(items, marks, j) {
      OneMoreMark(marks, j - 1);
    }
  }

  lemma {:induction false} Shaped(items: seq<Interval>)
    requires WellShaped(items)
    ensures items != []
  {
  }

  // --------------------------------------------------------------- the merged log

  /** A place the stable merge passes through: of equal times, the logged ones come first. */
  ghost predicate Cut(log: seq<Mark>, added: seq<Mark>, i: nat, j: nat) {
    && i <= |log| && j <= |added|
    && (0 < i && j < |added| ==> log[i - 1].at <= added[j].at)
    && (0 < j && i < |log| ==> added[j - 1].at < log[i].at)
  }

  /** No logged shift is running while one of the list is. */
  ghost predicate NotBoth(log: seq<Mark>, added: seq<Mark>, i: nat, j: nat)
    requires i <= |log| && j <= |added|
  {
    Replayed(IDLE, added[..j]).active == None || Replayed(IDLE, log[..i]).active == None
  }

  lemma {:induction false} RunningInsidePaid(items: seq<Interval>, j: nat) returns (p: nat)
    requires WellShaped(items) && j <= |Compiled(items, |items|)|
    requires Replayed(IDLE, Compiled(items, |items|)[..j]).active.Some?
    ensures p < |items| && EndsOf(items, Compiled(items, |items|), j, p) && Paid(items[p])
  {
    hide Replayed, Compiled, WellShaped;
    var added := Compiled(items, |items|);
    CompiledStructure(items, j);
    p :| p < |items| && EndsOf(items, added, j, p);
    OneMoreMark(added, j - 1);
  }

  /** A logged shift running during an interval of the list is a conflict, unless
      it starts on the instant the interval ends. */
  lemma {:induction false} BothRunningConflict(log: seq<Mark>, items: seq<Interval>, marks: seq<Mark>, i: nat, j: nat,
                                               p: nat)
    requires SortedByTime(log) && Clean(log) && Cut(log, marks, i, j)
    requires p < |items| && EndsOf(items, marks, j, p) && Replayed(IDLE, log[..i]).active.Some?
    requires NoConflict(items, Replayed(IDLE, log).spans)
    ensures i > 0 && Replayed(IDLE, log[..i]).active.value == log[i - 1].at == marks[j].at
    ensures exists k :: 0 <= k < |Replayed(IDLE, log).spans| && Replayed(IDLE, log).spans[k].start == marks[j].at
  {
    hide Replayed;
    RunningShiftIsASpan(log, i);
    var spans := Replayed(IDLE, log).spans;
    var span :| span in spans && span.start == Replayed(IDLE, log[..i]).active.value && log[i].at <= span.end;
    var k :| 0 <= k < |spans| && spans[k] == span;
    assert !Overlaps(items[p], spans[k]);
  }

  /** The merged log's replay after i logged and j added events: it runs when
      either side does, and has the spans of both. */
  ghost predicate Joint(log: seq<Mark>, added: seq<Mark>, merged: seq<Mark>, i: nat, j: nat)
    requires i <= |log| && j <= |added|
  {
    var m, l, a := Replayed(IDLE, merged), Replayed(IDLE, log[..i]), Replayed(IDLE, added[..j]);
    && !m.anomaly
    && m.active == (if a.active.Some? then a.active else l.active)
    && multiset(m.spans) == multiset(l.spans) + multiset(a.spans)
  }

  // Equal shifts take the same step.
  lemma {:induction false} SameStep(m: Replay, l: Replay, mark: Mark)
    requires m.active == l.active
    ensures Step(m, mark).active == Step(l, mark).active
    ensures !Step(l, mark).anomaly ==> Step(m, mark).anomaly == m.anomaly
    ensures exists more :: Step(m, mark).spans == m.spans + more && Step(l, mark).spans == l.spans + more
  {
    var more := Step(Replay(l.active, [], false), mark).spans;
    assert Step(m, mark).spans == m.spans + more && Step(l, mark).spans == l.spans + more;
  }

  // An event that finds no shift, leaves none and is no anomaly does nothing.
  lemma {:induction false} IdleStep(l: Replay, mark: Mark)
    requires l.active == None && Step(l, mark).active == None && !Step(l, mark).anomaly
    ensures mark.kind == Correction && Step(l, mark) == l
  {
  }

  lemma {:induction false} IdleStepKeeps(m: Replay, mark: Mark)
    requires mark.kind == Correction
    ensures Step(m, mark) == m
  {
  }

  lemma {:induction false} AddedStep(log: seq<Mark>, added: seq<Mark>, merged: seq<Mark>, i: nat, j: nat)
    requires i <= |log| && j < |added| && !Replayed(IDLE, added).anomaly
    requires Replayed(IDLE, log[..i]).active == None && Joint(log, added, merged, i, j)
    ensures Joint(log, added, merged + [added[j]], i, j + 1)
  {
    hide Replayed, Step;
    OneMoreMark(added, j);
    PrefixOfReplay(added, j + 1);
    ReplayedInPieces(IDLE, merged, [added[j]]);
    ShortReplays(Replayed(IDLE, merged), added[j], added[j]);
    SameStep(Replayed(IDLE, merged), Replayed(IDLE, added[..j]), added[j]);
  }

  lemma {:induction false} LoggedStep(log: seq<Mark>, added: seq<Mark>, merged: seq<Mark>, i: nat, j: nat)
    requires Clean(log) && i < |log| && j <= |added|
    requires NotBoth(log, added, i, j) && NotBoth(log, added, i + 1, j) && Joint(log, added, merged, i, j)
    ensures Joint(log, added, merged + [log[i]], i + 1, j)
  {
    hide Replayed, Step;
    OneMoreMark(log, i);
    PrefixOfReplay(log, i + 1);
    ReplayedInPieces(IDLE, merged, [log[i]]);
    ShortReplays(Replayed(IDLE, merged), log[i], log[i]);
    if Replayed(IDLE, added[..j]).active.Some? {
      IdleStep(Replayed(IDLE, log[..i]), log[i]);
      IdleStepKeeps(Replayed(IDLE, merged), log[i]);
    } else {
      SameStep(Replayed(IDLE, merged), Replayed(IDLE, log[..i]), log[i]);
    }
  }

  /** Nowhere in the merge are a logged shift and one of the list running together. */
  lemma {:induction false} NeverBoth(log: seq<Mark>, items: seq<Interval>, i: nat, j: nat)
    requires Fits(log, items) && Untouched(items, Replayed(IDLE, log).spans)
    requires Cut(log, Compiled(items, |items|), i, j)
    ensures NotBoth(log, Compiled(items, |items|), i, j)
  {
    hide Replayed, Compiled, NoConflict, WellShaped;
    var added := Compiled(items, |items|);
    if !NotBoth(log, added, i, j) {
      var p := RunningInsidePaid(items, j);
      BothRunningConflict(log, items, added, i, j, p);
    }
  }

  /** Every event of the list comes where no logged shift is running. */
  lemma {:induction false} AddedFindsNoShift(log: seq<Mark>, items: seq<Interval>, i: nat, j: nat)
    requires Fits(log, items) && Untouched(items, Replayed(IDLE, log).spans)
    requires Cut(log, Compiled(items, |items|), i, j) && Cut(log, Compiled(items, |items|), i, j + 1)
    ensures Replayed(IDLE, log[..i]).active == None
  {
    hide Replayed, Compiled, NoConflict, WellShaped, Inside;
    var added := Compiled(items, |items|);
    if Replayed(IDLE, log[..i]).active.Some? {
      RunningShiftIsASpan(log, i);
      var spans := Replayed(IDLE, log).spans;
      var span :| span in spans && span.start == Replayed(IDLE, log[..i]).active.value && log[i].at <= span.end;
      var k :| 0 <= k < |spans| && spans[k] == span;
      CompiledStructure(items, j);
      var p := TouchingItem(items, j, span.start);
      NoOverlap(items, spans, p, k);
    }
  }

  lemma {:induction false} NoOverlap(items: seq<Interval>, spans: seq<Span>, p: nat, k: nat)
    requires NoConflict(items, spans) && p < |items| && k < |spans|
    ensures !Overlaps(items[p], spans[k])
  {
  }

  // An interval that starts at the event, or ends there after `start`, or is paid and ends there.
  lemma {:induction false} TouchingItem(items: seq<Interval>, j: nat, start: int) returns (p: nat)
    requires WellShaped(items) && j < |Compiled(items, |items|)|
    ensures p < |items| && items[p].startAt < items[p].endAt
    ensures var at := Compiled(items, |items|)[j].at;
      items[p].startAt == at || (items[p].endAt == at && (at != start || Paid(items[p])))
  {
    hide Compiled;
    var added := Compiled(items, |items|);
    CompiledStructure(items, j);
    if Inside(items, added, j + 1) {
      p :| p < |items| && EndsOf(items, added, j + 1, p);
    } else {
      p :| p < |items| && EndsOf(items, added, j, p);
      if !Paid(items[p]) {
        assert BreakIsAttached(items, p);
        p := p + 1;
      }
    }
  }

  /** Every cut the merge goes through. */
  lemma {:induction false} MergeReplays(log: seq<Mark>, items: seq<Interval>, i: nat, j: nat)
    requires Fits(log, items) && Untouched(items, Replayed(IDLE, log).spans)
    requires Cut(log, Compiled(items, |items|), i, j)
    ensures Joint(log, Compiled(items, |items|), Merge(AT_OF, log[..i], Compiled(items, |items|)[..j]), i, j)
    decreases i + j
  {
    hide Replayed, Compiled, WellShaped, NoConflict, Joint, Merge, Clean, Untouched, NotBoth;
    var added := Compiled(items, |items|);
    var a, b := log[..i], added[..j];
    CompiledReplays(items, |items|);
    if i == 0 && j == 0 {
      NothingIsJoint(log, added);
      assert a == [] && b == [];
    } else if j > 0 && (i == 0 || a[i - 1].at <= b[j - 1].at) {
      LastOfMergeIsAdded(log, added, i, j);
      CutWithoutAdded(log, items, i, j);
      MergeReplays(log, items, i, j - 1);
      AddedFindsNoShift(log, items, i, j - 1);
      AddedStep(log, added, Merge(AT_OF, a, added[..j - 1]), i, j - 1);
    } else {
      LastOfMergeIsLogged(log, added, i, j);
      CutWithoutLogged(log, items, i, j);
      MergeReplays(log, items, i - 1, j);
      NeverBoth(log, items, i - 1, j);
      NeverBoth(log, items, i, j);
      LoggedStep(log, added, Merge(AT_OF, log[..i - 1], b), i - 1, j);
    }
  }

  lemma {:induction false} NothingIsJoint(log: seq<Mark>, added: seq<Mark>)
    ensures Joint(log, added, Merge(AT_OF, [], []), 0, 0)
  {
    assert log[..0] == [] && added[..0] == [];
  }

  lemma {:induction false} LastOfMergeIsAdded(log: seq<Mark>, added: seq<Mark>, i: nat, j: nat)
    requires i <= |log| && 0 < j <= |added| && (i == 0 || log[i - 1].at <= added[j - 1].at)
    ensures Merge(AT_OF, log[..i], added[..j]) == Merge(AT_OF, log[..i], added[..j - 1]) + [added[j - 1]]
  {
    assert added[..j][..j - 1] == added[..j - 1];
  }

  lemma {:induction false} LastOfMergeIsLogged(log: seq<Mark>, added: seq<Mark>, i: nat, j: nat)
    requires 0 < i <= |log| && j <= |added| && (j == 0 || log[i - 1].at > added[j - 1].at)
    ensures Merge(AT_OF, log[..i], added[..j]) == Merge(AT_OF, log[..i - 1], added[..j]) + [log[i - 1]]
  {
    assert log[..i][..i - 1] == log[..i - 1];
  }

  lemma {:induction false} CutWithoutAdded(log: seq<Mark>, items: seq<Interval>, i: nat, j: nat)
    requires Fits(log, items) && Cut(log, Compiled(items, |items|), i, j) && j > 0
    requires i == 0 || log[i - 1].at <= Compiled(items, |items|)[j - 1].at
    ensures Cut(log, Compiled(items, |items|), i, j - 1)
  {
    hide Replayed, Compiled, WellShaped, NoConflict;
    CompiledIsOrdered(items, |items|);
    var added := Compiled(items, |items|);
    if j > 1 { assert AT_OF(added[j - 2]) <= AT_OF(added[j - 1]); }
  }

  lemma {:induction false} CutWithoutLogged(log: seq<Mark>, items: seq<Interval>, i: nat, j: nat)
    requires Fits(log, items) && Cut(log, Compiled(items, |items|), i, j) && i > 0
    requires j == 0 || log[i - 1].at > Compiled(items, |items|)[j - 1].at
    ensures Cut(log, Compiled(items, |items|), i - 1, j)
  {
    hide Replayed, Compiled, WellShaped, NoConflict;
    if i > 1 { assert log[i - 2].at <= log[i - 1].at; }
  }

  ghost predicate DisjointInOrder(spans: seq<Span>) {
    && (forall i :: 0 <= i < |spans| ==> spans[i].start <= spans[i].end)
    && (forall i, j :: 0 <= i < j < |spans| ==> spans[i].end <= spans[j].start)
  }

  /** The closed spans lie in order before `at`, and so does the running one. */
  ghost predicate Follows(r: Replay, at: int) {
    && DisjointInOrder(r.spans)
    && (r.spans != [] ==> r.spans[|r.spans| - 1].end <= at)
    && (r.active.Some? ==> r.active.value <= at)
    && (r.active.Some? && r.spans != [] ==> r.spans[|r.spans| - 1].end <= r.active.value)
  }

  lemma {:induction false} FollowStep(r: Replay, mark: Mark, at: int)
    requires Follows(r, at) && at <= mark.at && !Step(r, mark).anomaly
    ensures Follows(Step(r, mark), mark.at)
  {
  }

  /** The spans of a clean time-ordered log follow one another. */
  lemma {:induction false} SpansFollow(log: seq<Mark>, i: nat)
    requires SortedByTime(log) && !Replayed(IDLE, log).anomaly && i <= |log|
    ensures i == 0 ==> Replayed(IDLE, log[..i]) == IDLE
    ensures i > 0 ==> Follows(Replayed(IDLE, log[..i]), log[i - 1].at)
    ensures DisjointInOrder(Replayed(IDLE, log[..i]).spans)
  {
    hide Replayed, Step;
    if i == 0 {
      NothingReplayed(IDLE);
      assert log[..i] == [];
    } else {
      SpansFollow(log, i - 1);
      OneMoreMark(log, i - 1);
      PrefixOfReplay(log, i);
      FollowStep(Replayed(IDLE, log[..i - 1]), log[i - 1], if i > 1 then log[i - 2].at else log[i - 1].at);
    }
  }

  /** The log with the new events merged in by time replays without anomaly, and
      its spans are those of the log and those of the list, side by side. */
  ghost predicate AddsUp(log: seq<Mark>, items: seq<Interval>) {
    var added := Compiled(items, |items|);
    var merged := Replayed(IDLE, Sort(AT_OF, log + added));
    && merged.active == None && !merged.anomaly
    && multiset(merged.spans) == multiset(Replayed(IDLE, log).spans) + multiset(Replayed(IDLE, added).spans)
    && DisjointInOrder(merged.spans)
  }

  lemma {:induction false} AtIsKey(marks: seq<Mark>)
    ensures SortedBy(AT_OF, marks) <==> SortedByTime(marks)
  {
    forall i, j | 0 <= i < j < |marks| ensures AT_OF(marks[i]) <= AT_OF(marks[j]) <==> marks[i].at <= marks[j].at {}
  }

  lemma {:induction false} WholeMerge(log: seq<Mark>, items: seq<Interval>)
    requires Fits(log, items)
    ensures var added := Compiled(items, |items|);
      && Sort(AT_OF, log + added) == Merge(AT_OF, log, added) && SortedByTime(Merge(AT_OF, log, added))
      && SortedByTime(added) && Clean(added)
  {
    hide Replayed, Compiled, WellShaped, NoConflict, Merge, Sort;
    var added := Compiled(items, |items|);
    CompiledIsOrdered(items, |items|);
    CompiledReplays(items, |items|);
    AtIsKey(log);
    AtIsKey(added);
    SortOfConcatenation(AT_OF, log, added);
    SortSorts(AT_OF, log + added);
    AtIsKey(Sort(AT_OF, log + added));
    NotMidShiftAtEnd(items);
  }

  lemma {:induction false} NotMidShiftAtEnd(items: seq<Interval>)
    requires WellShaped(items)
    ensures !MidShift(items, |items|)
  {
  }

  lemma {:induction false} UntouchedAddsUp(log: seq<Mark>, items: seq<Interval>)
    requires Fits(log, items) && Untouched(items, Replayed(IDLE, log).spans)
    ensures AddsUp(log, items)
  {
    hide Replayed, Compiled, WellShaped, NoConflict, Merge, Sort, Untouched;
    var added := Compiled(items, |items|);
    WholeMerge(log, items);
    assert log[..|log|] == log && added[..|added|] == added;
    MergeReplays(log, items, |log|, |added|);
    var merged := Sort(AT_OF, log + added);
    assert merged[..|merged|] == merged;
    SpansFollow(merged, |merged|);
  }

  // ------------------------------------------------------------- what a touch loses

  /** Where each interval's two ends stand among the events. */
  lemma {:induction false} ItemEnds(items: seq<Interval>, p: nat) returns (r: nat)
    requires WellShaped(items) && p < |items|
    ensures r < |Compiled(items, |items|)| && EndsOf(items, Compiled(items, |items|), r, p)
  {
    hide WellShaped, Paired, MidShift, MarksOfItem, EndsOf, Compiled;
    CompiledGrows(items, p + 1);
    if items[p].work && MidShift(items, p + 1) {
      NextIsBreak(items, p);
      CompiledGrows(items, p + 2);
      r := EndsInBreak(items, p);
      EndsInLonger(items, Compiled(items, p + 2), Compiled(items, |items|), r, p);
    } else {
      r := EndsByItself(items, p);
      EndsInLonger(items, Compiled(items, p + 1), Compiled(items, |items|), r, p);
    }
  }

  // The ends of an interval stay where they are in a longer list.
  lemma {:induction false} EndsInLonger(items: seq<Interval>, marks: seq<Mark>, more: seq<Mark>, r: nat, p: nat)
    requires marks <= more && EndsOf(items, marks, r, p)
    ensures EndsOf(items, more, r, p)
  {
  }

  lemma {:induction false} EndsByItself(items: seq<Interval>, p: nat) returns (r: nat)
    requires WellShaped(items) && p < |items| && !(items[p].work && MidShift(items, p + 1))
    ensures EndsOf(items, Compiled(items, p + 1), r, p)
  {
    hide WellShaped, Paired, MidShift, MarksOfItem;
    var before := Compiled(items, p);
    CompiledPairs(items, p);
    MarksByShift(items, p);
    r := if items[p].work && MidShift(items, p) then |before| else |before| + 1;
    if items[p].work && MidShift(items, p) { LastBeforeWork(items, p); }
  }

  // A work interval before a break ends with the break's start.
  lemma {:induction false} EndsInBreak(items: seq<Interval>, p: nat) returns (r: nat)
    requires WellShaped(items) && p + 1 < |items| && items[p].work && MidShift(items, p + 1)
    requires !items[p + 1].work && items[p + 1].startAt == items[p].endAt
    ensures EndsOf(items, Compiled(items, p + 2), r, p)
  {
    hide WellShaped, Paired, MidShift, MarksOfItem;
    var before := Compiled(items, p);
    CompiledPairs(items, p);
    MarksByShift(items, p);
    MarksByShift(items, p + 1);
    r := if MidShift(items, p) then |before| else |before| + 1;
    if MidShift(items, p) { LastBeforeWork(items, p); }
  }

  lemma {:induction false} LastBeforeWork(items: seq<Interval>, q: nat)
    requires WellShaped(items) && q < |items| && items[q].work && MidShift(items, q)
    ensures q > 0 && !items[q - 1].work && items[q - 1].endAt == items[q].startAt
  {
    MarksByShift(items, q);
  }

  lemma {:induction false} NextIsBreak(items: seq<Interval>, p: nat)
    requires WellShaped(items) && p < |items| && items[p].work && MidShift(items, p + 1)
    ensures p + 1 < |items| && !items[p + 1].work && items[p + 1].startAt == items[p].endAt
  {
    MarksByShift(items, p);
    if p + 1 < |items| && !items[p + 1].work { assert BreakIsAttached(items, p + 1); }
  }

  lemma {:induction false} CompiledGrows(items: seq<Interval>, n: nat)
    requires n <= |items|
    ensures Compiled(items, n) <= Compiled(items, |items|)
    decreases |items| - n
  {
    hide MarksOfItem;
    if n < |items| { CompiledGrows(items, n + 1); }
  }

  /** Inside a paid interval its shift is running. */
  lemma {:induction false} PaidIsRunning(items: seq<Interval>, p: nat, r: nat)
    requires WellShaped(items) && p < |items| && Paid(items[p])
    requires EndsOf(items, Compiled(items, |items|), r, p)
    ensures Replayed(IDLE, Compiled(items, |items|)[..r]).active.Some?
  {
    hide Replayed, Compiled, WellShaped;
    var added := Compiled(items, |items|);
    CompiledReplays(items, |items|);
    OneMoreMark(added, r - 1);
    PrefixOfReplay(added, r);
    CompiledKinds(items, |items|);
  }

  lemma {:induction false} CompiledKinds(items: seq<Interval>, n: nat)
    requires n <= |items|
    ensures forall k :: 0 <= k < |Compiled(items, n)| ==> Compiled(items, n)[k].kind != Correction
  {
    if n > 0 { CompiledKinds(items, n - 1); }
  }

  /** How many logged events are not after t. */
  function UpTo(log: seq<Mark>, t: int): (i: nat)
    requires SortedByTime(log)
    ensures i <= |log| && (0 < i ==> log[i - 1].at <= t) && (i < |log| ==> log[i].at > t)
  {
    if log == [] || log[|log| - 1].at <= t then |log| else UpTo(log[..|log| - 1], t)
  }

  /** The whole merge starts with the merge up to any cut. */
  lemma {:induction false} MergeStartsWith(log: seq<Mark>, added: seq<Mark>, i: nat, j: nat)
    requires SortedByTime(log) && SortedByTime(added) && Cut(log, added, i, j)
    ensures Merge(AT_OF, log[..i], added[..j]) <= Merge(AT_OF, log, added)
    ensures |Merge(AT_OF, log[..i], added[..j])| == i + j
    decreases |log| + |added| - i - j
  {
    hide Merge;
    assert log[..|log|] == log && added[..|added|] == added;
    MergeLength(log[..i], added[..j]);
    if j < |added| && (i == |log| || added[j].at < log[i].at) {
      LastOfMergeIsAdded(log, added, i, j + 1);
      MergeStartsWith(log, added, i, j + 1);
    } else if i < |log| {
      LastOfMergeIsLogged(log, added, i + 1, j);
      MergeStartsWith(log, added, i + 1, j);
    }
  }

  lemma {:induction false} MergeLength(a: seq<Mark>, b: seq<Mark>)
    ensures |Merge(AT_OF, a, b)| == |a| + |b|
    decreases |a| + |b|
  {
    if b != [] && (a == [] || a[|a| - 1].at <= b[|b| - 1].at) {
      MergeLength(a, b[..|b| - 1]);
    } else if a != [] {
      MergeLength(a[..|a| - 1], b);
    }
  }

  // Closed spans lie before the last event.
  lemma {:induction false} EndsBefore(marks: seq<Mark>, n: nat, t: int)
    requires SortedByTime(marks) && n <= |marks| && (n > 0 ==> marks[n - 1].at <= t)
    ensures forall span :: span in Replayed(IDLE, marks[..n]).spans ==> span.end <= t
  {
    hide Replayed;
    if n == 0 {
      NothingReplayed(IDLE);
      assert marks[..n] == [];
    } else {
      OneMoreMark(marks, n - 1);
      EndsBefore(marks, n - 1, t);
    }
  }

  /** Where no shift runs after all events up to t, no span reaches across t. */
  lemma {:induction false} NoSpanAcross(marks: seq<Mark>, n: nat, m: nat, t: int)
    requires SortedByTime(marks) && n <= m <= |marks| && Replayed(IDLE, marks[..n]).active == None
    requires (n > 0 ==> marks[n - 1].at <= t) && (n < |marks| ==> marks[n].at > t)
    ensures forall span :: span in Replayed(IDLE, marks[..m]).spans ==> !(span.start <= t < span.end)
    ensures Replayed(IDLE, marks[..m]).active.Some? ==> Replayed(IDLE, marks[..m]).active.value > t
    decreases m
  {
    hide Replayed;
    if m == n {
      EndsBefore(marks, n, t);
    } else {
      OneMoreMark(marks, m - 1);
      NoSpanAcross(marks, n, m - 1, t);
    }
  }

  /** The p-th logged event starts a span. */
  predicate Opens(log: seq<Mark>, p: nat) {
    p < |log| && Replayed(IDLE, log[..p]).active.None? && Replayed(IDLE, log[..p + 1]).active.Some?
  }

  lemma {:induction false} OpensAtItsTime(log: seq<Mark>, p: nat)
    requires Opens(log, p)
    ensures Replayed(IDLE, log[..p + 1]).active == Some(log[p].at)
    ensures log[p].kind == ClockIn || log[p].kind == BreakEnd
  {
    hide Replayed;
    OneMoreMark(log, p);
  }

  /** The spans of a clean log start exactly where an event opens one. */
  lemma {:induction false} SpanHasOpening(log: seq<Mark>, n: nat, k: nat) returns (p: nat)
    requires !Replayed(IDLE, log).anomaly && n <= |log|
    requires k <= |Replayed(IDLE, log[..n]).spans|
    requires k == |Replayed(IDLE, log[..n]).spans| ==> Replayed(IDLE, log[..n]).active.Some?
    ensures p < n && Opens(log, p)
    ensures var r := Replayed(IDLE, log[..n]);
      log[p].at == if k < |r.spans| then r.spans[k].start else r.active.value
  {
    hide Replayed;
    p := 0;
    NothingReplayed(IDLE);
    assert log[..0] == [];
    if n > 0 {
      OneMoreMark(log, n - 1);
      PrefixOfReplay(log, n);
      PrefixOfReplay(log, n - 1);
      var r := Replayed(IDLE, log[..n - 1]);
      if k <= |r.spans| && (k == |r.spans| ==> r.active.Some?) {
        p := SpanHasOpening(log, n - 1, k);
      } else {
        p := n - 1;
      }
    }
  }

  /** After the p-th event opened a span, any replay that takes the same events
      runs when the log's own does, or has an anomaly. */
  lemma {:induction false} AlikeAfterOpening(log: seq<Mark>, p: nat, n: nat, front: seq<Mark>)
    requires !Replayed(IDLE, log).anomaly && Opens(log, p) && p < n <= |log|
    ensures var m := Replayed(IDLE, front + log[p..n]);
      m.anomaly || (m.active.Some? <==> Replayed(IDLE, log[..n]).active.Some?)
    decreases n
  {
    hide Replayed;
    var earlier := front + log[p..n - 1];
    OneMoreMark(log, n - 1);
    PrefixOfReplay(log, n);
    assert front + log[p..n] == earlier + [log[n - 1]];
    ReplayedInPieces(IDLE, earlier, [log[n - 1]]);
    ShortReplays(Replayed(IDLE, earlier), log[n - 1], log[n - 1]);
    OpensAtItsTime(log, p);
    if n > p + 1 { AlikeAfterOpening(log, p, n - 1, front); }
  }

  // Logged events after the j-th added one end a merge as they are.
  lemma {:induction false} MergeEndsWith(log: seq<Mark>, added: seq<Mark>, p: nat, i: nat, j: nat)
    requires p <= i <= |log| && j <= |added|
    requires forall k :: p <= k < i && j > 0 ==> log[k].at > added[j - 1].at
    ensures Merge(AT_OF, log[..i], added[..j]) == Merge(AT_OF, log[..p], added[..j]) + log[p..i]
    decreases i
  {
    hide Merge;
    if i > p {
      LastOfMergeIsLogged(log, added, i, j);
      MergeEndsWith(log, added, p, i - 1, j);
      assert log[p..i] == log[p..i - 1] + [log[i - 1]];
    } else {
      assert Merge(AT_OF, log[..p], added[..j]) + log[p..i] == Merge(AT_OF, log[..p], added[..j]);
    }
  }

  predicate Across(span: Span, t: int) { span.start < t < span.end }

  // Two spans of one replay never overlap.
  lemma {:induction false} AcrossIsNotDisjoint(spans: seq<Span>, a: Span, b: Span)
    requires Across(a, b.start) && b.start <= b.end
    ensures a in multiset(spans) && b in multiset(spans) ==> !DisjointInOrder(spans)
  {
    if a in spans && b in spans {
      var i :| 0 <= i < |spans| && spans[i] == a;
      var j :| 0 <= j < |spans| && spans[j] == b;
      assert DisjointInOrder(spans) ==> i < j || j < i;
    }
  }

  lemma {:induction false} AddsUpMeans(log: seq<Mark>, items: seq<Interval>, a: Span)
    ensures var added := Compiled(items, |items|);
      var merged := Replayed(IDLE, Sort(AT_OF, log + added));
      AddsUp(log, items) ==>
        && !merged.anomaly && DisjointInOrder(merged.spans)
        && (a in Replayed(IDLE, log).spans || a in Replayed(IDLE, added).spans ==> a in multiset(merged.spans))
  {
    hide Replayed, Compiled, Sort, DisjointInOrder;
    var added := Compiled(items, |items|);
    var both := multiset(Replayed(IDLE, log).spans) + multiset(Replayed(IDLE, added).spans);
    if a in Replayed(IDLE, log).spans || a in Replayed(IDLE, added).spans {
      assert a in multiset(Replayed(IDLE, log).spans) || a in multiset(Replayed(IDLE, added).spans);
      assert a in both;
    }
  }

  // An interval that ends within its shift's span: the logged span lies across it.
  lemma {:induction false} TouchWithin(log: seq<Mark>, items: seq<Interval>, p: nat, r: nat, k: nat)
    requires Fits(log, items) && p < |items| && Paid(items[p]) && k < |Replayed(IDLE, log).spans|
    requires items[p].endAt == Replayed(IDLE, log).spans[k].start
    requires EndsOf(items, Compiled(items, |items|), r, p)
    requires Replayed(IDLE, Compiled(items, |items|)[..r + 1]).active.Some?
    ensures !AddsUp(log, items)
  {
    hide Replayed, Compiled, WellShaped, NoConflict, AddsUp, DisjointInOrder, Sort, Merge;
    var added := Compiled(items, |items|);
    var t := items[p].endAt;
    WholeMerge(log, items);
    PaidIsRunning(items, p, r);
    var next := RunningInsidePaid(items, r + 1);
    ItemForward(items, next);
    ItemForward(items, p);
    RunningSince(added, r);
    StaysRunning(added, r);
    RunningShiftIsASpan(added, r + 1);
    var a :| a in Replayed(IDLE, added).spans && a.start == Replayed(IDLE, added[..r + 1]).active.value
        && added[r + 1].at <= a.end;
    var b := Replayed(IDLE, log).spans[k];
    assert b in Replayed(IDLE, log).spans;
    SpansForward(log, k);
    AddsUpMeans(log, items, a);
    AddsUpMeans(log, items, b);
    AcrossIsNotDisjoint(Replayed(IDLE, Sort(AT_OF, log + added)).spans, a, b);
  }

  lemma {:induction false} ItemForward(items: seq<Interval>, p: nat)
    requires WellShaped(items) && p < |items|
    ensures items[p].startAt < items[p].endAt
  {
  }

  lemma {:induction false} SpansForward(log: seq<Mark>, k: nat)
    requires SortedByTime(log) && Clean(log) && k < |Replayed(IDLE, log).spans|
    ensures Replayed(IDLE, log).spans[k].start <= Replayed(IDLE, log).spans[k].end
  {
    hide Replayed;
    SpansFollow(log, |log|);
    assert log[..|log|] == log;
  }

  // A shift that runs before and after a clean event is the same shift.
  lemma {:induction false} StaysRunning(marks: seq<Mark>, r: nat)
    requires Clean(marks) && r < |marks|
    requires Replayed(IDLE, marks[..r]).active.Some? && Replayed(IDLE, marks[..r + 1]).active.Some?
    ensures Replayed(IDLE, marks[..r + 1]).active == Replayed(IDLE, marks[..r]).active
  {
    hide Replayed;
    OneMoreMark(marks, r);
    PrefixOfReplay(marks, r + 1);
  }

  // An interval that ends its span: the logged span is lost, or the end finds no shift.
  lemma {:induction false} TouchAtEnd(log: seq<Mark>, items: seq<Interval>, p: nat, r: nat, k: nat)
    requires Fits(log, items) && p < |items| && Paid(items[p]) && k < |Replayed(IDLE, log).spans|
    requires items[p].endAt == Replayed(IDLE, log).spans[k].start
    requires EndsOf(items, Compiled(items, |items|), r, p)
    requires Replayed(IDLE, Compiled(items, |items|)[..r + 1]).active.None?
    ensures !AddsUp(log, items)
  {
    hide Replayed, Compiled, WellShaped, NoConflict, AddsUp, DisjointInOrder, Sort, Merge;
    var added := Compiled(items, |items|);
    var t := items[p].endAt;
    var i := UpTo(log, t);
    WholeMerge(log, items);
    var whole := Merge(AT_OF, log, added);
    PaidIsRunning(items, p, r);
    ItemForward(items, p);
    MergeStartsWith(log, added, i, r);
    MergeStartsWith(log, added, i, r + 1);
    LastOfMergeIsAdded(log, added, i, r + 1);
    var n := i + r;
    assert whole[..n] == Merge(AT_OF, log[..i], added[..r]) && whole[..n + 1] == Merge(AT_OF, log[..i], added[..r + 1]);
    assert whole[n] == added[r];
    AlikeAtTouch(log, added, r, i, k, t);
    ClosesOrFails(added, whole, r, n);
    if Replayed(IDLE, log[..i]).active.Some? {
      RunningShiftIsASpan(log, i);
      SpanAcrossTouch(log, items, r, i, t);
    } else {
      AddsUpMeans(log, items, Replayed(IDLE, log).spans[k]);
      PrefixOfReplay(whole, n + 1);
    }
  }

  // A logged shift that runs across the touch has no span in the merged replay.
  lemma {:induction false} SpanAcrossTouch(log: seq<Mark>, items: seq<Interval>, r: nat, i: nat, t: int)
    requires Fits(log, items) && r < |Compiled(items, |items|)| && Compiled(items, |items|)[r].at == t
    requires i == UpTo(log, t) && i < |log| && Replayed(IDLE, log[..i]).active.Some?
    requires SortedByTime(Compiled(items, |items|)) && Cut(log, Compiled(items, |items|), i, r + 1)
    requires var whole := Merge(AT_OF, log, Compiled(items, |items|));
      && SortedByTime(whole) && Sort(AT_OF, log + Compiled(items, |items|)) == whole && i + r < |whole|
      && whole[i + r].at == t && Replayed(IDLE, whole[..i + r + 1]).active == None
    ensures !AddsUp(log, items)
  {
    hide Replayed, Compiled, WellShaped, NoConflict, AddsUp, DisjointInOrder, Sort, Merge;
    var added := Compiled(items, |items|);
    var whole, n := Merge(AT_OF, log, added), i + r;
    RunningShiftIsASpan(log, i);
    RunningSince(log, i);
    var b :| b in Replayed(IDLE, log).spans && b.start == Replayed(IDLE, log[..i]).active.value && log[i].at <= b.end;
    AddsUpMeans(log, items, b);
    NothingStartsWithin(log, items, r, t, b);
    assert whole[n].at <= t && (n + 1 < |whole| ==> whole[n + 1].at > t) by {
      if n + 1 < |whole| { NextOfMerge(log, added, i, r + 1, t); }
    }
    assert whole[..|whole|] == whole;
    NoSpanAcross(whole, n + 1, |whole|, t);
  }

  // At the touch the merged replay runs when the log's own does, unless it has failed.
  lemma {:induction false} AlikeAtTouch(log: seq<Mark>, added: seq<Mark>, r: nat, i: nat, k: nat, t: int)
    requires SortedByTime(log) && Clean(log) && k < |Replayed(IDLE, log).spans|
    requires Replayed(IDLE, log).spans[k].start == t
    requires i == UpTo(log, t) && 0 < r <= |added| && added[r - 1].at < t
    ensures var m := Replayed(IDLE, Merge(AT_OF, log[..i], added[..r]));
      m.anomaly || (m.active.Some? <==> Replayed(IDLE, log[..i]).active.Some?)
  {
    hide Replayed, Merge;
    assert log[..|log|] == log;
    var q := SpanHasOpening(log, |log|, k);
    assert q < i;
    MergeEndsWith(log, added, q, i, r);
    AlikeAfterOpening(log, q, i, Merge(AT_OF, log[..q], added[..r]));
  }

  // The event that stops the list's shift stops the merged one, or is an anomaly.
  lemma {:induction false} ClosesOrFails(added: seq<Mark>, whole: seq<Mark>, r: nat, n: nat)
    requires r < |added| && n < |whole| && whole[n] == added[r]
    requires Replayed(IDLE, added[..r]).active.Some? && Replayed(IDLE, added[..r + 1]).active.None?
    ensures Replayed(IDLE, whole[..n + 1]).active == None
    ensures Replayed(IDLE, whole[..n]).anomaly || Replayed(IDLE, whole[..n]).active == None ==>
      Replayed(IDLE, whole[..n + 1]).anomaly
  {
    hide Replayed;
    OneMoreMark(added, r);
    OneMoreMark(whole, n);
  }

  // No interval starts inside a logged span, so the next event is later.
  lemma {:induction false} NothingStartsWithin(log: seq<Mark>, items: seq<Interval>, r: nat, t: int, b: Span)
    requires Fits(log, items) && r < |Compiled(items, |items|)| && Compiled(items, |items|)[r].at == t
    requires b in Replayed(IDLE, log).spans && b.start <= t < b.end
    ensures r + 1 < |Compiled(items, |items|)| ==> Compiled(items, |items|)[r + 1].at > t
  {
    hide Replayed, Compiled, WellShaped;
    var added := Compiled(items, |items|);
    WholeMerge(log, items);
    var k :| 0 <= k < |Replayed(IDLE, log).spans| && Replayed(IDLE, log).spans[k] == b;
    if r + 1 < |added| {
      var p := NextStart(items, r);
      ItemForward(items, p);
      assert !Overlaps(items[p], Replayed(IDLE, log).spans[k]);
    }
  }

  // Two events in a row never both lack an interval that starts there.
  lemma {:induction false} NextStart(items: seq<Interval>, r: nat) returns (p: nat)
    requires WellShaped(items) && r + 1 < |Compiled(items, |items|)|
    ensures var added := Compiled(items, |items|);
      p < |items| && (items[p].startAt == added[r].at || items[p].startAt == added[r + 1].at)
  {
    hide Replayed, Compiled, WellShaped;
    var added := Compiled(items, |items|);
    CompiledStructure(items, r + 1);
    if Inside(items, added, r + 1) {
      p :| p < |items| && EndsOf(items, added, r + 1, p);
    } else {
      p :| p < |items| && EndsOf(items, added, r + 2, p);
    }
  }

  // What follows a cut is one of the next two events.
  lemma {:induction false} NextOfMerge(log: seq<Mark>, added: seq<Mark>, i: nat, j: nat, t: int)
    requires SortedByTime(log) && SortedByTime(added) && Cut(log, added, i, j) && i + j < |Merge(AT_OF, log, added)|
    requires (i < |log| ==> log[i].at > t) && (j < |added| ==> added[j].at > t)
    ensures Merge(AT_OF, log, added)[i + j].at > t
  {
    hide Merge;
    MergeStartsWith(log, added, i, j);
    assert log[..|log|] == log && added[..|added|] == added;
    MergeLength(log, added);
    if j < |added| && (i == |log| || added[j].at < log[i].at) {
      MergeStartsWith(log, added, i, j + 1);
      LastOfMergeIsAdded(log, added, i, j + 1);
    } else {
      MergeStartsWith(log, added, i + 1, j);
      LastOfMergeIsLogged(log, added, i + 1, j);
    }
  }

  /** Where paid time of the list ends on the instant a logged span starts, the
      spans never add up. */
  lemma {:induction false} TouchLoses(log: seq<Mark>, items: seq<Interval>)
    requires Fits(log, items) && !Untouched(items, Replayed(IDLE, log).spans)
    ensures !AddsUp(log, items)
  {
    hide Replayed, Compiled, WellShaped, NoConflict, AddsUp, SortedByTime, Clean;
    var spans := Replayed(IDLE, log).spans;
    var p: nat, k: nat :| p < |items| && k < |spans| && Paid(items[p]) && items[p].endAt == spans[k].start;
    var r := ItemEnds(items, p);
    if Replayed(IDLE, Compiled(items, |items|)[..r + 1]).active.Some? {
      TouchWithin(log, items, p, r, k);
    } else {
      TouchAtEnd(log, items, p, r, k);
    }
  }

  /** No double counting, and nothing lost, exactly when no paid time of the list
      ends on the instant a logged span starts. The list may lie before, after or
      between the logged shifts, or inside an unpaid break. */
  lemma {:induction false} SpansAddUp(log: seq<Mark>, items: seq<Interval>)
    requires Fits(log, items)
    ensures AddsUp(log, items) <==> Untouched(items, Replayed(IDLE, log).spans)
  {
    hide Fits, Replayed, Compiled, Untouched, AddsUp;
    if Untouched(items, Replayed(IDLE, log).spans) {
      UntouchedAddsUp(log, items);
    } else {
      TouchLoses(log, items);
    }
  }

  /** A touch: a list that ends on the very second a logged shift starts passes
      the conflict check, and with the logged event first its own work is lost. */
  lemma {:induction false} TouchingShiftsLoseTime()
    ensures var log := [Mark(ClockIn, 100, "", false), Mark(ClockOut, 200, "", false)];
      var items := [Interval(true, "", "", false, 40, 100, "", "", false)];
      && Clean(log) && SortedByTime(log) && WellShaped(items) && NoConflict(items, Replayed(IDLE, log).spans)
      && Replayed(IDLE, Sort(AT_OF, log + Compiled(items, 1))) == Replay(None, [Span(100, 100, false)], true)
  {
    hide Sort, Insert, Merge, Compiled, Replayed;
    var log := [Mark(ClockIn, 100, "", false), Mark(ClockOut, 200, "", false)];
    var items := [Interval(true, "", "", false, 40, 100, "", "", false)];
    var added := [Mark(ClockIn, 40, "", false), Mark(ClockOut, 100, "", false)];
    OneShiftCompiles(items[0]);
    ShortReplays(IDLE, log[0], log[1]);
    SortOfConcatenation(AT_OF, log, added);
    TouchingMerge(log[0], log[1], added[0], added[1]);
    ReplayedInPieces(IDLE, [added[0], log[0]], [added[1], log[1]]);
    ShortReplays(IDLE, added[0], log[0]);
    ShortReplays(Step(Step(IDLE, added[0]), log[0]), added[1], log[1]);
  }

  lemma {:induction false} OneShiftCompiles(item: Interval)
    requires item.work
    ensures Compiled([item], 1) == [Mark(ClockIn, item.startAt, "", false), Mark(ClockOut, item.endAt, "", false)]
  {
    assert Compiled([item], 0) == [];
  }

  lemma {:induction false} TouchingMerge(a: Mark, b: Mark, c: Mark, d: Mark)
    requires c.at < a.at == d.at < b.at
    ensures Merge(AT_OF, [a, b], [c, d]) == [c, a] + [d, b]
  {
    assert [a, b][..1] == [a] && [c, d][..1] == [c] && [a][..0] == [] && [c][..0] == [];
    assert Merge(AT_OF, [], []) == [] && Merge(AT_OF, [], [c]) == [c];
    assert Merge(AT_OF, [a], [c]) == [c, a];
    assert Merge(AT_OF, [a], [c, d]) == [c, a, d];
  }
}
