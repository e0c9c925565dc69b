/** Replaying clock events as spans of paid time, and the two anomaly detectors. */
module WorkSpans {
  import opened Bytes
  import opened Sorting
  import opened Timesheet

  datatype Span = Span(start: int, end: int, open: bool)

  /** The variables of `workSpans`' loop. */
  datatype Replay = Replay(active: Option<int>, spans: seq<Span>, anomaly: bool)

  const IDLE := Replay(None, [], false)

  function Step(r: Replay, m: Mark): Replay {
    match m.kind
    case ClockIn => Replay(Some(m.at), r.spans, r.anomaly || r.active.Some?)
    case BreakStart =>
      if r.active.None? then r.(anomaly := true)
      else if m.breakPaid then r
      else Replay(None, r.spans + [Span(r.active.value, m.at, false)], r.anomaly)
    case BreakEnd => if r.active.None? then r.(active := Some(m.at)) else r
    case ClockOut =>
      if r.active.None? then r.(anomaly := true)
      else Replay(None, r.spans + [Span(r.active.value, m.at, false)], r.anomaly)
    case Correction => r
  }

  function Replayed(from: Replay, marks: seq<Mark>): Replay {
    if marks == [] then from else Step(Replayed(from, marks[..|marks| - 1]), marks[|marks| - 1])
  }

  /** An open shift counts up to `openUntil` and is an anomaly. */
  function Finished(r: Replay, openUntil: int): Replay {
    match r.active
    case None => r
    case Some(at) => Replay(None, r.spans + [Span(at, if at < openUntil then openUntil else at, true)], true)
  }

  method WorkSpans(marks: seq<Mark>, openUntil: int) returns (spans: seq<Span>, anomaly: bool)
    ensures Replay(None, spans, anomaly) == Finished(Replayed(IDLE, marks), openUntil)
  {
    var activeAt: Option<int> := None;
    spans, anomaly := [], false;
    for i := 0 to |marks|
      invariant Replay(activeAt, spans, anomaly) == Replayed(IDLE, marks[..i])
    {
      assert marks[..i + 1][..i] == marks[..i];
      var event := marks[i];
      if event.kind == ClockIn {
        if activeAt.Some? { anomaly := true; }
        activeAt := Some(event.at);
      } else if event.kind == BreakStart {
        if activeAt.None? {
          anomaly := true;
        } else if !event.breakPaid {
          spans := spans + [Span(activeAt.value, event.at, false)];
          activeAt := None;
        }
      } else if event.kind == BreakEnd {
        if activeAt.None? { activeAt := Some(event.at); }
      } else if event.kind == ClockOut {
        if activeAt.None? {
          anomaly := true;
        } else {
          spans := spans + [Span(activeAt.value, event.at, false)];
          activeAt := None;
        }
      }
    }
    assert marks[..|marks|] == marks;
    if activeAt.Some? {
      anomaly := true;
      spans := spans + [Span(activeAt.value, if activeAt.value < openUntil then openUntil else activeAt.value, true)];
    }
  }

  // ---------------------------------------------------------- sequence anomalies

  datatype Phase = Off | Working | OnBreak | OnPaidBreak

  datatype Sequence = Sequence(phase: Phase, dates: set<int>, last: Option<int>)

  const FRESH := Sequence(Off, {}, None)

  function SequenceStep(zone: Zone, s: Sequence, m: Mark): Sequence {
    var date := zone.day(m.at);
    var flagged := s.dates + {date};
    match m.kind
    case ClockIn => Sequence(Working, if s.phase != Off then flagged else s.dates, Some(date))
    case BreakStart =>
      Sequence(if m.breakPaid then OnPaidBreak else OnBreak, if s.phase != Working then flagged else s.dates,
               Some(date))
    case BreakEnd =>
      Sequence(Working, if s.phase != OnBreak && s.phase != OnPaidBreak then flagged else s.dates, Some(date))
    case ClockOut => Sequence(Off, if s.phase != Working then flagged else s.dates, Some(date))
    case Correction => s.(last := Some(date))
  }

  function Sequenced(zone: Zone, marks: seq<Mark>): Sequence {
    if marks == [] then FRESH else SequenceStep(zone, Sequenced(zone, marks[..|marks| - 1]), marks[|marks| - 1])
  }

  function AnomalyDates(zone: Zone, marks: seq<Mark>): set<int> {
    var s := Sequenced(zone, marks);
    if s.phase != Off && s.last.Some? then s.dates + {s.last.value} else s.dates
  }

  method SequenceAnomalyDates(zone: Zone, marks: seq<Mark>) returns (dates: set<int>)
    ensures dates == AnomalyDates(zone, marks)
  {
    dates := {};
    var state := Off;
    var lastDate: Option<int> := None;
    for i := 0 to |marks|
      invariant Sequence(state, dates, lastDate) == Sequenced(zone, marks[..i])
    {
      assert marks[..i + 1][..i] == marks[..i];
      var event := marks[i];
      var date := zone.day(event.at);
      lastDate := Some(date);
      if event.kind == ClockIn {
        if state != Off { dates := dates + {date}; }
        state := Working;
      } else if event.kind == BreakStart {
        if state != Working { dates := dates + {date}; }
        state := if event.breakPaid then OnPaidBreak else OnBreak;
      } else if event.kind == BreakEnd {
        if state != OnBreak && state != OnPaidBreak { dates := dates + {date}; }
        state := Working;
      } else if event.kind == ClockOut {
        if state != Working { dates := dates + {date}; }
        state := Off;
      }
    }
    assert marks[..|marks|] == marks;
    if state != Off && lastDate.Some? {
      dates := dates + {lastDate.value};
    }
  }

  // -------------------------------------------------- what the detectors detect

  /** A shift is running after the events: of those that are neither a correction nor the
      start of a paid break, the last is a clock-in or the end of a break. */
  predicate IsRunning(marks: seq<Mark>) {
    marks != [] &&
    var last := marks[|marks| - 1];
    if last.kind == Correction || (last.kind == BreakStart && last.breakPaid) then IsRunning(marks[..|marks| - 1])
    else last.kind in {ClockIn, BreakEnd}
  }

  /** A clock-in during a shift, or a break's start or a clock-out outside of one. */
  predicate IsMisplaced(marks: seq<Mark>, i: nat)
    requires i < |marks|
  {
    if marks[i].kind == ClockIn then IsRunning(marks[..i])
    else marks[i].kind in {BreakStart, ClockOut} && !IsRunning(marks[..i])
  }

  lemma {:induction false} ReplayedRuns(marks: seq<Mark>)
    ensures var r := Replayed(IDLE, marks);
      && (r.active.Some? <==> IsRunning(marks))
      && (r.anomaly <==> exists i :: 0 <= i < |marks| && IsMisplaced(marks, i))
      && forall k :: 0 <= k < |r.spans| ==> !r.spans[k].open
  {
    if marks != [] {
      var n := |marks| - 1;
      var earlier := marks[..n];
      ReplayedRuns(earlier);
      forall i: nat | i < n ensures IsMisplaced(earlier, i) <==> IsMisplaced(marks, i) {
        assert earlier[..i] == marks[..i];
      }
      if Replayed(IDLE, marks).anomaly && !IsMisplaced(marks, n) {
        var i :| 0 <= i < |earlier| && IsMisplaced(earlier, i);
        assert IsMisplaced(marks, i);
      }
    }
  }

  /** The replay reports an anomaly exactly if an event is misplaced or a shift is still
      running; only that one's span is open, and it ends at the given time, or where it
      starts if that is later. */
  lemma {:induction false} ReplayAnomalies(marks: seq<Mark>, openUntil: int)
    ensures var r := Finished(Replayed(IDLE, marks), openUntil);
      && (r.anomaly <==> IsRunning(marks) || exists i :: 0 <= i < |marks| && IsMisplaced(marks, i))
      && (forall k :: 0 <= k < |r.spans| ==> (r.spans[k].open <==> IsRunning(marks) && k == |r.spans| - 1))
      && (IsRunning(marks) ==>
            && r.spans != []
            && var last := r.spans[|r.spans| - 1];
               last.start <= last.end && openUntil <= last.end && last.end in {last.start, openUntil})
  {
    ReplayedRuns(marks);
  }

  /** The last event's kind, corrections apart. */
  function LastClock(marks: seq<Mark>): Option<Kind> {
    if marks == [] then None
    else if marks[|marks| - 1].kind == Correction then LastClock(marks[..|marks| - 1])
    else Some(marks[|marks| - 1].kind)
  }

  /** A clock-in follows none or a clock-out, the end of a break its start, and the
      others a clock-in or the end of a break. */
  predicate IsInPlace(last: Option<Kind>, kind: Kind) {
    match kind
    case ClockIn => last in {None, Some(ClockOut)}
    case BreakEnd => last == Some(BreakStart)
    case Correction => true
    case _ => last in {Some(ClockIn), Some(BreakEnd)}
  }

  lemma {:induction false} PhaseIsLastClock(zone: Zone, marks: seq<Mark>)
    ensures LastClock(marks) != Some(Correction)
    ensures var s := Sequenced(zone, marks);
      && s.last == (if marks == [] then None else Some(zone.day(marks[|marks| - 1].at)))
      && match LastClock(marks)
         case None => s.phase == Off
         case Some(ClockOut) => s.phase == Off
         case Some(BreakStart) => s.phase in {OnBreak, OnPaidBreak}
         case Some(_) => s.phase == Working
  {
    if marks != [] { PhaseIsLastClock(zone, marks[..|marks| - 1]); }
  }

  /** A date on which an event out of its place happens. */
  predicate HasMisplaced(zone: Zone, marks: seq<Mark>, date: int) {
    exists i :: 0 <= i < |marks| && zone.day(marks[i].at) == date && !IsInPlace(LastClock(marks[..i]), marks[i].kind)
  }

  lemma {:induction false} StepFlags(zone: Zone, marks: seq<Mark>, m: Mark, date: int)
    ensures date in SequenceStep(zone, Sequenced(zone, marks), m).dates
      <==> date in Sequenced(zone, marks).dates || (zone.day(m.at) == date && !IsInPlace(LastClock(marks), m.kind))
  {
    PhaseIsLastClock(zone, marks);
  }

  lemma {:induction false} OneMoreMisplaced(zone: Zone, marks: seq<Mark>, m: Mark, date: int)
    ensures HasMisplaced(zone, marks + [m], date)
      <==> HasMisplaced(zone, marks, date) || (zone.day(m.at) == date && !IsInPlace(LastClock(marks), m.kind))
  {
    hide LastClock, IsInPlace;
    var more := marks + [m];
    assert more[..|marks|] == marks;
    forall i | 0 <= i < |marks| ensures more[..i] == marks[..i] && more[i] == marks[i] {
    }
    if HasMisplaced(zone, marks, date) {
      var i :| 0 <= i < |marks| && zone.day(marks[i].at) == date && !IsInPlace(LastClock(marks[..i]), marks[i].kind);
      assert zone.day(more[i].at) == date && !IsInPlace(LastClock(more[..i]), more[i].kind);
    }
  }

  lemma {:induction false} FlaggedDates(zone: Zone, marks: seq<Mark>, date: int)
    ensures date in Sequenced(zone, marks).dates <==> HasMisplaced(zone, marks, date)
  {
    if marks != [] {
      hide HasMisplaced, SequenceStep, IsInPlace, LastClock;
      var earlier, last := marks[..|marks| - 1], marks[|marks| - 1];
      assert marks == earlier + [last];
      FlaggedDates(zone, earlier, date);
      StepFlags(zone, earlier, last, date);
      OneMoreMisplaced(zone, earlier, last, date);
    }
  }

  /** The dates of the other detector, exactly: those of an event that may not follow the
      last one before it, and that of the last event if no clock-out ends the log. */
  lemma {:induction false} AnomaliesAreLocal(zone: Zone, marks: seq<Mark>, date: int)
    ensures date in AnomalyDates(zone, marks)
      <==> HasMisplaced(zone, marks, date)
           || (LastClock(marks) !in {None, Some(ClockOut)} && zone.day(marks[|marks| - 1].at) == date)
  {
    hide HasMisplaced, SequenceStep;
    FlaggedDates(zone, marks, date);
    PhaseIsLastClock(zone, marks);
  }

  // ------------------------------------------------------------ replay in pieces

  lemma {:induction false} ReplayedInPieces(from: Replay, a: seq<Mark>, b: seq<Mark>)
    ensures Replayed(from, a + b) == Replayed(Replayed(from, a), b)
  {
    if b == [] {
      assert a + b == a;
    } else {
      ReplayedInPieces(from, a, b[..|b| - 1]);
      assert (a + b)[..|a + b| - 1] == a + b[..|b| - 1];
    }
  }

  /** What happened before only decides whether a shift is running. */
  lemma {:induction false} ReplayForgets(from: Replay, marks: seq<Mark>)
    ensures var alone := Replayed(Replay(from.active, [], false), marks);
      Replayed(from, marks) == Replay(alone.active, from.spans + alone.spans, from.anomaly || alone.anomaly)
  {
    if marks != [] {
      ReplayForgets(from, marks[..|marks| - 1]);
    }
  }

  // -------------------------------------------------------- accepted lists replay

  function Total(spans: seq<Span>): int {
    if spans == [] then 0
    else Total(spans[..|spans| - 1]) + spans[|spans| - 1].end - spans[|spans| - 1].start
  }

  /** Work, and breaks of a paid type. */
  function PaidSeconds(items: seq<Interval>): int {
    if items == [] then 0
    else
      var last := items[|items| - 1];
      PaidSeconds(items[..|items| - 1]) + if last.work || last.breakPaid then last.endAt - last.startAt else 0
  }

  /** Between item n - 1 and item n a shift is running. */
  predicate MidShift(items: seq<Interval>, n: nat)
    requires n <= |items|
  {
    0 < n < |items| && (!items[n - 1].work || !items[n].work)
  }

  /** The events of an item, by whether a shift runs before and after it. */
  function ItemMarks(item: Interval, before: bool, after: bool): seq<Mark> {
    var clockIn, clockOut := Mark(ClockIn, item.startAt, "", false), Mark(ClockOut, item.endAt, "", false);
    if !item.work then
      [Mark(BreakStart, item.startAt, item.breakType, item.breakPaid),
       Mark(BreakEnd, item.endAt, item.breakType, item.breakPaid)]
    else if before then (if after then [] else [clockOut])
    else (if after then [clockIn] else [clockIn, clockOut])
  }

  lemma {:induction false} MarksByShift(items: seq<Interval>, i: nat)
    requires WellShaped(items) && i < |items|
    ensures MarksOfItem(items, i) == ItemMarks(items[i], MidShift(items, i), MidShift(items, i + 1))
    ensures !items[i].work ==> MidShift(items, i) && MidShift(items, i + 1)
    ensures MidShift(items, i) ==> items[i - 1].endAt == items[i].startAt
  {
    if !items[i].work { assert BreakIsAttached(items, i); }
    if i > 0 && !items[i - 1].work { assert BreakIsAttached(items, i - 1); }
    if i + 1 < |items| && !items[i + 1].work { assert BreakIsAttached(items, i + 1); }
  }

  lemma {:induction false} ShortReplays(r: Replay, m: Mark, n: Mark)
    ensures Replayed(r, []) == r && Replayed(r, [m]) == Step(r, m) && Replayed(r, [m, n]) == Step(Step(r, m), n)
  {
    assert [m][..0] == [] && [m, n][..1] == [m];
  }

  lemma {:induction false} TotalOfOneMore(spans: seq<Span>, span: Span)
    ensures Total(spans + [span]) == Total(spans) + span.end - span.start
  {
    assert (spans + [span])[..|spans|] == spans;
  }

  lemma {:induction false} NothingReplayed(r: Replay)
    ensures Replayed(r, []) == r && Total([]) == 0
  {
  }

  // Closed spans, and the running one counted up to `now`.
  function Counted(r: Replay, now: int): int {
    Total(r.spans) + if r.active.Some? then now - r.active.value else 0
  }

  lemma {:induction false} OneItemReplays(r: Replay, item: Interval, before: bool, after: bool)
    requires r.active.Some? <==> before
    requires !item.work ==> before && after
    ensures var q := Replayed(r, ItemMarks(item, before, after));
      && (q.active.Some? <==> after) && q.anomaly == r.anomaly
      && Counted(q, item.endAt)
         == Counted(r, item.startAt) + if item.work || item.breakPaid then item.endAt - item.startAt else 0
  {
    var marks := ItemMarks(item, before, after);
    if |marks| == 1 { ShortReplays(r, marks[0], marks[0]); }
    if |marks| == 2 { ShortReplays(r, marks[0], marks[1]); assert marks == [marks[0], marks[1]]; }
    if before { TotalOfOneMore(r.spans, Span(r.active.value, item.startAt, false)); }
    TotalOfOneMore(r.spans, Span(if before then r.active.value else item.startAt, item.endAt, false));
  }

  lemma {:induction false} CompiledReplays(items: seq<Interval>, n: nat)
    requires WellShaped(items) && n <= |items|
    ensures var r := Replayed(IDLE, Compiled(items, n));
      && !r.anomaly && (r.active.Some? <==> MidShift(items, n))
      && Counted(r, if n > 0 then items[n - 1].endAt else 0) == PaidSeconds(items[..n])
  {
    hide WellShaped, ItemMarks, MarksOfItem, Replayed, Total;
    if n == 0 {
      NothingReplayed(IDLE);
    } else {
      CompiledReplays(items, n - 1);
      ReplayedInPieces(IDLE, Compiled(items, n - 1), MarksOfItem(items, n - 1));
      MarksByShift(items, n - 1);
      var before := Replayed(IDLE, Compiled(items, n - 1));
      OneItemReplays(before, items[n - 1], MidShift(items, n - 1), MidShift(items, n));
      assert items[..n][..n - 1] == items[..n - 1];
    }
  }

  lemma {:induction false} ShortSequences(zone: Zone, a: seq<Mark>, m: Mark, n: Mark)
    ensures Sequenced(zone, a + []) == Sequenced(zone, a)
    ensures Sequenced(zone, a + [m]) == SequenceStep(zone, Sequenced(zone, a), m)
    ensures Sequenced(zone, a + [m, n]) == SequenceStep(zone, SequenceStep(zone, Sequenced(zone, a), m), n)
  {
    assert a + [] == a;
    assert (a + [m])[..|a|] == a;
    assert (a + [m, n])[..|a| + 1] == a + [m];
  }

  lemma {:induction false} OneItemSequences(zone: Zone, a: seq<Mark>, item: Interval, before: bool, after: bool)
    requires Sequenced(zone, a).phase == (if before then Working else Off)
    requires !item.work ==> before && after
    ensures var s := Sequenced(zone, a + ItemMarks(item, before, after));
      s.phase == (if after then Working else Off) && s.dates == Sequenced(zone, a).dates
  {
    var marks := ItemMarks(item, before, after);
    if |marks| == 0 { assert a + marks == a; }
    if |marks| == 1 { ShortSequences(zone, a, marks[0], marks[0]); }
    if |marks| == 2 { ShortSequences(zone, a, marks[0], marks[1]); assert marks == [marks[0], marks[1]]; }
  }

  lemma {:induction false} CompiledSequences(zone: Zone, items: seq<Interval>, n: nat)
    requires WellShaped(items) && n <= |items|
    ensures var s := Sequenced(zone, Compiled(items, n));
      s.phase == (if MidShift(items, n) then Working else Off) && s.dates == {}
  {
    if n > 0 {
      hide WellShaped, MidShift, ItemMarks, MarksOfItem, Sequenced;
      CompiledSequences(zone, items, n - 1);
      MarksByShift(items, n - 1);
      OneItemSequences(zone, Compiled(items, n - 1), items[n - 1], MidShift(items, n - 1), MidShift(items, n));
    }
  }

  /** Compiling an accepted list and replaying the events raises no anomaly of
      either kind and pays exactly the work and the paid breaks. */
  lemma {:induction false} CompiledListReplaysExactly(zone: Zone, items: seq<Interval>)
    requires WellShaped(items)
    ensures var marks := Compiled(items, |items|);
      && SortedBy(AT_OF, marks) && Sort(AT_OF, marks) == marks
      && AnomalyDates(zone, marks) == {}
      && Replayed(IDLE, marks).active == None && !Replayed(IDLE, marks).anomaly
      && Total(Replayed(IDLE, marks).spans) == PaidSeconds(items)
  {
    CompiledIsOrdered(items, |items|);
    SortOfSorted(AT_OF, Compiled(items, |items|));
    CompiledReplays(items, |items|);
    CompiledSequences(zone, items, |items|);
    assert items[..|items|] == items;
  }
}
