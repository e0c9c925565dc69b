/** The working day as the terminal service sees it: which commands are allowed,
    what the state shows, and which logs accepted actions can build. Times are
    whole seconds. */
module WorkDay {
  import opened Bytes

  datatype Command = ClockIn | BreakStart | BreakEnd | ClockOut

  datatype Event = Event(kind: Command, at: int)

  datatype StateKind = Idle | Working | OnBreak

  datatype WorkState = WorkState(
    kind: StateKind, since: Option<int>, worked: int, onBreak: int,
    longShift: bool, staleBreak: bool, allowed: seq<Command>)

  const STALE_BREAK := 25 * 60
  const LONG_SHIFT := 4 * 3600
  const MAX_OFFLINE := 24 * 3600
  const CLOCK_SLACK := 5 * 60

  function AllowedCommands(previous: Option<Command>): seq<Command> {
    match previous
    case None => [ClockIn]
    case Some(ClockOut) => [ClockIn]
    case Some(ClockIn) => [BreakStart, ClockOut]
    case Some(BreakStart) => [BreakEnd]
    case Some(BreakEnd) => [BreakStart, ClockOut]
  }

  function LastKind(events: seq<Event>): Option<Command> {
    if events == [] then None else Some(events[|events| - 1].kind)
  }

  function MaxSeconds(seconds: int): int {
    if seconds < 0 then 0 else seconds
  }

  // ------------------------------------------------------------- terminalState

  /** The variables of `terminalState`'s loop. */
  datatype Clocks = Clocks(workStart: Option<int>, breakStart: Option<int>, worked: int, onBreak: int)

  function Since(start: Option<int>, until: int): int {
    match start case None => 0 case Some(at) => MaxSeconds(until - at)
  }

  function ClocksStep(c: Clocks, e: Event): Clocks {
    match e.kind
    case ClockIn => c.(workStart := Some(e.at))
    case BreakStart => Clocks(None, Some(e.at), c.worked + Since(c.workStart, e.at), c.onBreak)
    case BreakEnd => Clocks(Some(e.at), None, c.worked, c.onBreak + Since(c.breakStart, e.at))
    case ClockOut => c.(workStart := None, worked := c.worked + Since(c.workStart, e.at))
  }

  function ClocksAfter(events: seq<Event>): Clocks {
    if events == [] then Clocks(None, None, 0, 0)
    else ClocksStep(ClocksAfter(events[..|events| - 1]), events[|events| - 1])
  }

  function StateOf(events: seq<Event>, now: int): WorkState {
    match LastKind(events)
    case None => WorkState(Idle, None, 0, 0, false, false, [ClockIn])
    case Some(ClockOut) => WorkState(Idle, None, 0, 0, false, false, [ClockIn])
    case Some(kind) =>
      var c := ClocksAfter(events);
      var worked := c.worked + Since(c.workStart, now);
      var shown := if kind == BreakStart then OnBreak else Working;
      WorkState(shown, Some(events[|events| - 1].at), worked, c.onBreak + Since(c.breakStart, now),
                shown == Working && worked >= LONG_SHIFT,
                c.breakStart.Some? && now - c.breakStart.value > STALE_BREAK,
                AllowedCommands(Some(kind)))
  }

  method TerminalState(events: seq<Event>, now: int) returns (state: WorkState)
    ensures state == StateOf(events, now)
    ensures events == [] || events[|events| - 1].kind == ClockOut ==>
      state == WorkState(Idle, None, 0, 0, false, false, [ClockIn])
  {
    state := WorkState(Idle, None, 0, 0, false, false, [ClockIn]);
    if |events| == 0 { return; }
    var last := events[|events| - 1];
    state := state.(allowed := AllowedCommands(Some(last.kind)));
    match last.kind {
      case ClockIn => state := state.(kind := Working, since := Some(last.at));
      case BreakEnd => state := state.(kind := Working, since := Some(last.at));
      case BreakStart => state := state.(kind := OnBreak, since := Some(last.at));
      case ClockOut => return;
    }
    var workStart, breakStart: Option<int> := None, None;
    var worked, onBreak := 0, 0;
    for i := 0 to |events|
      invariant Clocks(workStart, breakStart, worked, onBreak) == ClocksAfter(events[..i])
    {
      assert events[..i + 1][..i] == events[..i];
      var event := events[i];
      match event.kind {
        case ClockIn =>
          workStart := Some(event.at);
        case BreakStart =>
          if workStart.Some? {
            worked := worked + MaxSeconds(event.at - workStart.value);
            workStart := None;
          }
          breakStart := Some(event.at);
        case BreakEnd =>
          if breakStart.Some? {
            onBreak := onBreak + MaxSeconds(event.at - breakStart.value);
            breakStart := None;
          }
          workStart := Some(event.at);
        case ClockOut =>
          if workStart.Some? {
            worked := worked + MaxSeconds(event.at - workStart.value);
            workStart := None;
          }
      }
    }
    assert events[..|events|] == events;
    if workStart.Some? {
      worked := worked + MaxSeconds(now - workStart.value);
    }
    if breakStart.Some? {
      onBreak := onBreak + MaxSeconds(now - breakStart.value);
      state := state.(staleBreak := now - breakStart.value > STALE_BREAK);
    }
    state := state.(worked := worked, onBreak := onBreak, longShift := state.kind == Working && worked >= LONG_SHIFT);
  }

  /** The events after the last clock-out. */
  function OpenShift(events: seq<Event>): seq<Event> {
    if events == [] || events[|events| - 1].kind == ClockOut then []
    else OpenShift(events[..|events| - 1]) + [events[|events| - 1]]
  }

  lemma {:induction false} OpenShiftIsSuffix(events: seq<Event>, lastClockOut: int)
    requires -1 <= lastClockOut < |events|
    requires lastClockOut >= 0 ==> events[lastClockOut].kind == ClockOut
    requires forall i :: lastClockOut < i < |events| ==> events[i].kind != ClockOut
    ensures OpenShift(events) == events[lastClockOut + 1..]
  {
    if events != [] && lastClockOut < |events| - 1 {
      OpenShiftIsSuffix(events[..|events| - 1], lastClockOut);
      assert events[lastClockOut + 1..] == events[..|events| - 1][lastClockOut + 1..] + [events[|events| - 1]];
    }
  }

  /** `employeeState` on the effective events. */
  method EmployeeState(effective: seq<Event>, now: int) returns (state: WorkState)
    ensures state == StateOf(OpenShift(effective), now)
  {
    var events := effective;
    var lastClockOut := -1;
    for i := 0 to |events|
      invariant -1 <= lastClockOut < i
      invariant lastClockOut >= 0 ==> events[lastClockOut].kind == ClockOut
      invariant forall k :: lastClockOut < k < i ==> events[k].kind != ClockOut
    {
      if events[i].kind == ClockOut { lastClockOut := i; }
    }
    OpenShiftIsSuffix(events, lastClockOut);
    if lastClockOut >= 0 { events := events[lastClockOut + 1..]; }
    state := TerminalState(events, now);
  }

  // -------------------------------------------------------- one requested action

  /** What the service reads of a request; `appliedAt` is the adjusted end. */
  datatype Request = Request(id: string, command: Command, capturedAt: int, appliedAt: Option<int>, syncedAt: int)

  datatype Refusal = ClockUntrusted | StateConflict | NotAClosing | BadAppliedTime | DuplicateId

  datatype Decision = Accept(event: Event, adjustment: int) | Refuse(reason: Refusal)

  /** The checks of `recordTerminalAction` after the receipt, on the effective
      events in time order. */
  function Decide(effective: seq<Event>, r: Request, offline: bool, now: int): Decision {
    if r.syncedAt > r.capturedAt || r.capturedAt - r.syncedAt > MAX_OFFLINE then Refuse(ClockUntrusted)
    else if r.capturedAt > now + CLOCK_SLACK then Refuse(ClockUntrusted)
    else
      var state := StateOf(OpenShift(effective), now);
      if r.command !in state.allowed then Refuse(StateConflict)
      else if r.appliedAt.Some? && r.command != BreakEnd && r.command != ClockOut then Refuse(NotAClosing)
      else if r.appliedAt.Some? && r.appliedAt.value > r.capturedAt then Refuse(BadAppliedTime)
      else if r.appliedAt.Some? && state.since.Some? && r.appliedAt.value < state.since.value then
        Refuse(BadAppliedTime)
      else
        var at := if r.appliedAt.Some? then r.appliedAt.value else if offline then r.capturedAt else now;
        if effective != [] && at < effective[|effective| - 1].at then Refuse(StateConflict)
        else Accept(Event(r.command, at), if r.appliedAt.Some? then r.capturedAt - at else 0)
  }

  // ---------------------------------------------------------- the shape of a log

  /** k breaks inside a shift. */
  function Breaks(k: nat): seq<Command> {
    if k == 0 then [] else Breaks(k - 1) + [BreakStart, BreakEnd]
  }

  function Shift(breaks: nat): seq<Command> {
    [ClockIn] + Breaks(breaks) + [ClockOut]
  }

  /** Whole shifts, the i-th with breaks[i] breaks. */
  function Shifts(breaks: seq<nat>): seq<Command> {
    if breaks == [] then [] else Shifts(breaks[..|breaks| - 1]) + Shift(breaks[|breaks| - 1])
  }

  function Kinds(events: seq<Event>): seq<Command> {
    seq(|events|, i requires 0 <= i < |events| => events[i].kind)
  }

  /** Each event was allowed after the ones before it. */
  predicate StepByStep(kinds: seq<Command>) {
    forall i :: 0 <= i < |kinds| ==> AllowedAt(kinds, i)
  }

  predicate AllowedAt(kinds: seq<Command>, i: nat)
    requires i < |kinds|
  {
    kinds[i] in AllowedCommands(if i == 0 then None else Some(kinds[i - 1]))
  }

  lemma {:induction false} StepByStepOneMore(kinds: seq<Command>)
    requires kinds != []
    ensures StepByStep(kinds) <==> StepByStep(kinds[..|kinds| - 1]) && AllowedAt(kinds, |kinds| - 1)
  {
    var earlier := kinds[..|kinds| - 1];
    assert forall i :: 0 <= i < |earlier| ==> AllowedAt(earlier, i) == AllowedAt(kinds, i);
  }

  lemma {:induction false} StepByStepPrefix(kinds: seq<Command>, n: nat)
    requires StepByStep(kinds) && n <= |kinds|
    ensures StepByStep(kinds[..n])
  {
    forall i | 0 <= i < n ensures AllowedAt(kinds[..n], i) { assert AllowedAt(kinds, i); }
  }

  /** Some number of whole shifts, and the start of another one. */
  ghost predicate IsLogShape(kinds: seq<Command>) {
    exists breaks: seq<nat> :: kinds <= Shifts(breaks)
  }

  // The whole shifts so far, and the breaks of the open one.
  ghost predicate Parsed(kinds: seq<Command>, shifts: seq<nat>, open: Option<(nat, bool)>) {
    match open
    case None => kinds == Shifts(shifts)
    case Some((k, onBreak)) => kinds == Shifts(shifts) + [ClockIn] + Breaks(k) + if onBreak then [BreakStart] else []
  }

  lemma {:induction false} BreaksEnd(k: nat)
    ensures |Breaks(k)| == 2 * k
    ensures k > 0 ==> Breaks(k)[2 * k - 1] == BreakEnd
  {
    if k > 0 { BreaksEnd(k - 1); }
  }

  lemma {:induction false} ShiftsEnd(shifts: seq<nat>)
    ensures shifts != [] ==> Shifts(shifts) != [] && Shifts(shifts)[|Shifts(shifts)| - 1] == ClockOut
  {
  }

  lemma {:induction false} ShiftsOneMore(shifts: seq<nat>, k: nat)
    ensures Shifts(shifts + [k]) == Shifts(shifts) + ([ClockIn] + Breaks(k) + [ClockOut])
  {
    assert (shifts + [k])[..|shifts|] == shifts;
  }

  // What follows the parsed part decides what is allowed next.
  lemma {:induction false} LastOfParsed(kinds: seq<Command>, shifts: seq<nat>, open: Option<(nat, bool)>)
    requires Parsed(kinds, shifts, open)
    ensures kinds == [] ==> open.None?
    ensures kinds != [] ==>
      match open
      case None => kinds[|kinds| - 1] == ClockOut
      case Some((k, true)) => kinds[|kinds| - 1] == BreakStart
      case Some((k, false)) => kinds[|kinds| - 1] in {ClockIn, BreakEnd}
  {
    ShiftsEnd(shifts);
    if open.Some? { BreaksEnd(open.value.0); }
  }

  lemma {:induction false} ParseStep(kinds: seq<Command>, shifts: seq<nat>, open: Option<(nat, bool)>, next: Command)
    returns (shifts': seq<nat>, open': Option<(nat, bool)>)
    requires Parsed(kinds, shifts, open)
    requires next in AllowedCommands(if kinds == [] then None else Some(kinds[|kinds| - 1]))
    ensures Parsed(kinds + [next], shifts', open')
  {
    hide Shifts, Breaks;
    LastOfParsed(kinds, shifts, open);
    shifts', open' := shifts, open;
    match open
    case None =>
      open' := Some((0, false));
      NoBreaks();
    case Some((k, onBreak)) =>
      if onBreak {
        open' := Some((k + 1, false));
        OneBreakMore(k);
        assert kinds + [next] == Shifts(shifts) + [ClockIn] + (Breaks(k) + [BreakStart, BreakEnd]);
      } else if next == BreakStart {
        open' := Some((k, true));
      } else {
        shifts', open' := shifts + [k], None;
        ShiftsOneMore(shifts, k);
      }
  }

  lemma {:induction false} NoBreaks()
    ensures Breaks(0) == []
  {
  }

  lemma {:induction false} OneBreakMore(k: nat)
    ensures Breaks(k + 1) == Breaks(k) + [BreakStart, BreakEnd]
  {
  }

  lemma {:induction false} Parse(kinds: seq<Command>) returns (shifts: seq<nat>, open: Option<(nat, bool)>)
    requires StepByStep(kinds)
    ensures Parsed(kinds, shifts, open)
  {
    if kinds == [] {
      shifts, open := [], None;
    } else {
      var earlier := kinds[..|kinds| - 1];
      StepByStepOneMore(kinds);
      shifts, open := Parse(earlier);
      shifts, open := ParseStep(earlier, shifts, open, kinds[|kinds| - 1]);
      assert kinds == earlier + [kinds[|kinds| - 1]];
    }
  }

  lemma {:induction false} BreaksStepByStep(k: nat)
    ensures StepByStep([ClockIn] + Breaks(k))
    ensures |Breaks(k)| == 2 * k && ([ClockIn] + Breaks(k))[2 * k] in {ClockIn, BreakEnd}
  {
    if k > 0 {
      BreaksStepByStep(k - 1);
      var before := [ClockIn] + Breaks(k - 1);
      assert [ClockIn] + Breaks(k) == before + [BreakStart] + [BreakEnd];
      StepByStepExtends(before, BreakStart);
      StepByStepExtends(before + [BreakStart], BreakEnd);
    } else {
      assert AllowedAt([ClockIn], 0);
    }
  }

  lemma {:induction false} StepByStepExtends(kinds: seq<Command>, next: Command)
    requires StepByStep(kinds)
    requires next in AllowedCommands(if kinds == [] then None else Some(kinds[|kinds| - 1]))
    ensures StepByStep(kinds + [next])
  {
    assert (kinds + [next])[..|kinds|] == kinds;
    StepByStepOneMore(kinds + [next]);
  }

  /** A shift may follow whole shifts, event by event. */
  lemma {:induction false} StepByStepAppend(a: seq<Command>, b: seq<Command>)
    requires StepByStep(a) && StepByStep(b)
    requires a == [] || a[|a| - 1] == ClockOut
    ensures StepByStep(a + b)
  {
    forall i | 0 <= i < |a + b| ensures AllowedAt(a + b, i) {
      if i < |a| { assert AllowedAt(a, i); } else { assert AllowedAt(b, i - |a|); }
    }
  }

  lemma {:induction false} ShiftsStepByStep(breaks: seq<nat>)
    ensures StepByStep(Shifts(breaks))
  {
    if breaks != [] {
      var k := breaks[|breaks| - 1];
      ShiftsStepByStep(breaks[..|breaks| - 1]);
      ShiftsEnd(breaks[..|breaks| - 1]);
      BreaksStepByStep(k);
      StepByStepExtends([ClockIn] + Breaks(k), ClockOut);
      StepByStepAppend(Shifts(breaks[..|breaks| - 1]), Shift(k));
    }
  }

  /** The allowed-command table admits exactly the prefixes of repeated shifts,
      each a clock-in, any number of whole breaks and a clock-out. */
  lemma {:induction false} AllowedLogsAreShifts(kinds: seq<Command>)
    ensures StepByStep(kinds) <==> IsLogShape(kinds)
  {
    if StepByStep(kinds) {
      var shifts, open := Parse(kinds);
      ParsedIsPrefix(kinds, shifts, open);
    }
    if IsLogShape(kinds) {
      var breaks: seq<nat> :| kinds <= Shifts(breaks);
      ShiftsStepByStep(breaks);
      StepByStepPrefix(Shifts(breaks), |kinds|);
      assert Shifts(breaks)[..|kinds|] == kinds;
    }
  }

  lemma {:induction false} ParsedIsPrefix(kinds: seq<Command>, shifts: seq<nat>, open: Option<(nat, bool)>)
    requires Parsed(kinds, shifts, open)
    ensures IsLogShape(kinds)
  {
    match open
    case None => assert kinds <= Shifts(shifts);
    case Some((k, onBreak)) =>
      var k' := if onBreak then k + 1 else k;
      ShiftsOneMore(shifts, k');
      OneBreakMore(k);
      assert Shifts(shifts + [k'])
        == kinds + (if onBreak then [BreakEnd] else []) + [ClockOut];
  }

  // ------------------------------------------------------- runs of the service

  predicate TimesRise(log: seq<Event>) {
    forall i, j :: 0 <= i < j < |log| ==> log[i].at <= log[j].at
  }

  /** Each event was accepted on the log before it, by some request at some time. */
  ghost predicate BuiltByActions(log: seq<Event>) {
    forall n :: 0 <= n < |log| ==> AcceptedAfter(log[..n], log[n])
  }

  ghost predicate AcceptedAfter(log: seq<Event>, e: Event) {
    exists r: Request, offline: bool, now: int ::
        Decide(log, r, offline, now).Accept? && Decide(log, r, offline, now).event == e
  }

  /** Counting only from the last clock-out changes neither what is shown as the
      kind of state nor what is allowed. */
  lemma {:induction false} OpenShiftAllowsTheSame(log: seq<Event>, now: int)
    ensures StateOf(OpenShift(log), now).allowed == AllowedCommands(LastKind(log))
    ensures StateOf(OpenShift(log), now).kind == StateOf(log, now).kind
    ensures StateOf(OpenShift(log), now).since == StateOf(log, now).since
  {
    if log != [] && log[|log| - 1].kind != ClockOut {
      assert OpenShift(log)[|OpenShift(log)| - 1] == log[|log| - 1];
    }
  }

  /** Every log that accepted actions build is in time order and is whole shifts
      followed by the start of one. */
  lemma {:induction false} BuiltLogsAreShifts(log: seq<Event>)
    requires BuiltByActions(log)
    ensures TimesRise(log) && StepByStep(Kinds(log)) && IsLogShape(Kinds(log))
  {
    hide AcceptedAfter, IsLogShape, StepByStep;
    AllowedLogsAreShifts(Kinds(log));
    if log == [] {
      NothingIsStepByStep();
      assert Kinds(log) == [];
    } else {
      var n := |log| - 1;
      var earlier := log[..n];
      BuiltPrefix(log);
      BuiltLogsAreShifts(earlier);
      AcceptedExtends(earlier, log[n]);
      assert Kinds(log) == Kinds(earlier) + [log[n].kind];
      StepByStepExtends(Kinds(earlier), log[n].kind);
    }
  }

  lemma {:induction false} NothingIsStepByStep()
    ensures StepByStep([])
  {
  }

  lemma {:induction false} BuiltPrefix(log: seq<Event>)
    requires BuiltByActions(log) && log != []
    ensures BuiltByActions(log[..|log| - 1]) && AcceptedAfter(log[..|log| - 1], log[|log| - 1])
  {
    hide AcceptedAfter;
    var n := |log| - 1;
    forall m | 0 <= m < n ensures AcceptedAfter(log[..n][..m], log[..n][m]) {
      assert AcceptedAfter(log[..m], log[m]);
      assert log[..n][..m] == log[..m];
    }
    assert AcceptedAfter(log[..n], log[n]);
  }

  lemma {:induction false} AcceptedExtends(log: seq<Event>, e: Event)
    requires AcceptedAfter(log, e)
    ensures e.kind in AllowedCommands(LastKind(log))
    ensures log != [] ==> log[|log| - 1].at <= e.at
  {
    var r: Request, offline: bool, now: int :|
      Decide(log, r, offline, now).Accept? && Decide(log, r, offline, now).event == e;
    OpenShiftAllowsTheSame(log, now);
  }

  // ----------------------------------------------------- what is accepted, and when

  /** The command may come after the last effective event. */
  predicate MayFollow(last: Option<Command>, command: Command) {
    match command
    case ClockIn => last == None || last == Some(ClockOut)
    case BreakEnd => last == Some(BreakStart)
    case _ => last == Some(ClockIn) || last == Some(BreakEnd)
  }

  /** Set at most a day before the action, which is at most five minutes ahead. */
  predicate TrustedClock(r: Request, now: int) {
    r.syncedAt <= r.capturedAt <= r.syncedAt + 86400 && r.capturedAt <= now + 300
  }

  /** The time an accepted action is recorded at: the adjusted one if it has one, else
      its own if it waited offline, else the service's. */
  function RecordedAt(r: Request, offline: bool, now: int): int {
    match r.appliedAt case Some(at) => at case None => if offline then r.capturedAt else now
  }

  predicate Acceptable(log: seq<Event>, r: Request, offline: bool, now: int) {
    && TrustedClock(r, now) && MayFollow(LastKind(log), r.command)
    && (log != [] ==> log[|log| - 1].at <= RecordedAt(r, offline, now))
    && (r.appliedAt.Some? ==> r.command in {BreakEnd, ClockOut} && r.appliedAt.value <= r.capturedAt)
  }

  /** Of a log that is whole shifts and the start of one, a command may follow exactly
      if the log is still that with it. */
  lemma {:induction false} MayFollowKeepsShape(kinds: seq<Command>, command: Command)
    requires IsLogShape(kinds)
    ensures IsLogShape(kinds + [command])
      <==> MayFollow(if kinds == [] then None else Some(kinds[|kinds| - 1]), command)
  {
    hide IsLogShape, StepByStep;
    AllowedLogsAreShifts(kinds);
    AllowedLogsAreShifts(kinds + [command]);
    assert (kinds + [command])[..|kinds|] == kinds;
    StepByStepOneMore(kinds + [command]);
  }

  /** What an accepted action becomes, and the exact condition of acceptance and of
      each refusal, on the effective events in time order. */
  lemma {:induction false} DecidesExactly(log: seq<Event>, r: Request, offline: bool, now: int)
    ensures var d, open, closing := Decide(log, r, offline, now), MayFollow(LastKind(log), r.command),
                                    r.command in {BreakEnd, ClockOut};
      && (d.Accept? <==> Acceptable(log, r, offline, now))
      && (d.Accept? ==> d.event == Event(r.command, RecordedAt(r, offline, now)))
      && (d.Accept? ==> d.adjustment == if r.appliedAt.Some? then r.capturedAt - r.appliedAt.value else 0)
      && (d == Refuse(ClockUntrusted) <==> !TrustedClock(r, now))
      && (d == Refuse(NotAClosing) <==> TrustedClock(r, now) && open && r.appliedAt.Some? && !closing)
      && (d == Refuse(BadAppliedTime) <==>
            && TrustedClock(r, now) && open && r.appliedAt.Some? && closing
            && !(log[|log| - 1].at <= r.appliedAt.value <= r.capturedAt))
      && (d == Refuse(StateConflict) <==>
            && TrustedClock(r, now)
            && (!open || (r.appliedAt == None && log != [] && RecordedAt(r, offline, now) < log[|log| - 1].at)))
  {
    OpenShiftAllowsTheSame(log, now);
  }

  /** An action that waited offline is recorded as the same event whenever it arrives. */
  lemma {:induction false} OfflineEventIsFixed(log: seq<Event>, later: seq<Event>, r: Request, now: int,
                                               afterwards: int)
    requires Acceptable(log, r, true, now) && Acceptable(later, r, true, afterwards)
    ensures Decide(log, r, true, now) == Decide(later, r, true, afterwards)
  {
    hide Decide;
    DecidesExactly(log, r, true, now);
    DecidesExactly(later, r, true, afterwards);
  }

  // --------------------------------------------------------- what the state shows

  /** While a shift is open, its clocks account for all the time since its start. */
  lemma {:induction false} ClocksAddUp(shift: seq<Event>)
    requires shift != [] && TimesRise(shift) && StepByStep(Kinds(shift))
    requires forall i :: 0 <= i < |shift| ==> shift[i].kind != ClockOut
    ensures var c := ClocksAfter(shift);
      var last := shift[|shift| - 1];
      && c.worked + c.onBreak == last.at - shift[0].at
      && (if last.kind == BreakStart then c.workStart == None && c.breakStart == Some(last.at)
          else c.workStart == Some(last.at) && c.breakStart == None)
  {
    var n := |shift| - 1;
    StepByStepOneMore(Kinds(shift));
    assert AllowedAt(Kinds(shift), n);
    if n == 0 {
      assert ClocksAfter(shift[..0]) == Clocks(None, None, 0, 0);
    } else {
      assert Kinds(shift)[..n] == Kinds(shift[..n]);
      ClocksAddUp(shift[..n]);
    }
  }

  lemma {:induction false} OpenShiftStarts(log: seq<Event>)
    requires StepByStep(Kinds(log)) && TimesRise(log) && OpenShift(log) != []
    ensures var shift := OpenShift(log);
      && shift[0].kind == ClockIn && |shift| <= |log| && shift == log[|log| - |shift|..]
      && StepByStep(Kinds(shift)) && TimesRise(shift)
      && forall i :: 0 <= i < |shift| ==> shift[i].kind != ClockOut
  {
    hide StepByStep, OpenShift;
    OpenShiftSlice(log);
    ShiftByItself(log, |log| - |OpenShift(log)|);
  }

  lemma {:induction false} ShiftByItself(log: seq<Event>, start: nat)
    requires StepByStep(Kinds(log)) && start < |log| && (start > 0 ==> log[start - 1].kind == ClockOut)
    ensures StepByStep(Kinds(log[start..])) && log[start].kind == ClockIn
  {
    var shift := log[start..];
    assert AllowedAt(Kinds(log), start);
    forall i | 0 <= i < |shift| ensures AllowedAt(Kinds(shift), i) {
      assert AllowedAt(Kinds(log), start + i);
    }
  }

  lemma {:induction false} OpenShiftSlice(log: seq<Event>)
    ensures var shift := OpenShift(log);
      && |shift| <= |log| && shift == log[|log| - |shift|..]
      && (forall i :: 0 <= i < |shift| ==> shift[i].kind != ClockOut)
      && (|shift| < |log| ==> log[|log| - |shift| - 1].kind == ClockOut)
  {
    if log != [] && log[|log| - 1].kind != ClockOut {
      OpenShiftSlice(log[..|log| - 1]);
      var shift := OpenShift(log);
      assert shift == log[|log| - |shift|..];
    }
  }

  /** In an open shift, worked and break seconds together are the time since its
      clock-in: up to now, or up to its last event while that is still ahead. */
  lemma {:induction false} ShownTimeIsShiftTime(log: seq<Event>, now: int)
    requires BuiltByActions(log) && OpenShift(log) != []
    ensures var state := StateOf(OpenShift(log), now);
      var last := log[|log| - 1].at;
      && OpenShift(log)[0].kind == ClockIn
      && state.worked + state.onBreak == (if now < last then last else now) - OpenShift(log)[0].at
  {
    hide BuiltByActions, StepByStep, IsLogShape, ClocksAfter, OpenShift;
    BuiltLogsAreShifts(log);
    OpenShiftStarts(log);
    var shift := OpenShift(log);
    ClocksAddUp(shift);
    assert shift[|shift| - 1] == log[|log| - 1];
  }

  /** The seconds of a shift that follow events of the given kinds, each until the next
      event and the last until the given time. */
  function SecondsAfter(shift: seq<Event>, kinds: set<Command>, until: int): int {
    if shift == [] then 0
    else
      SecondsAfter(shift[..|shift| - 1], kinds, shift[|shift| - 1].at)
      + if shift[|shift| - 1].kind in kinds then until - shift[|shift| - 1].at else 0
  }

  lemma {:induction false} OneStretchMore(c: Clocks, previous: Event, e: Event)
    requires previous.at <= e.at && e.kind in AllowedCommands(Some(previous.kind))
    requires ClockOut !in {previous.kind, e.kind}
    requires if previous.kind == BreakStart then c.workStart == None && c.breakStart == Some(previous.at)
             else c.workStart == Some(previous.at) && c.breakStart == None
    ensures var d, gap := ClocksStep(c, e), e.at - previous.at;
      && d.worked == c.worked + (if previous.kind in {ClockIn, BreakEnd} then gap else 0)
      && d.onBreak == c.onBreak + (if previous.kind in {BreakStart} then gap else 0)
  {
  }

  lemma {:induction false} SecondsOneMore(shift: seq<Event>, kinds: set<Command>, until: int)
    requires shift != []
    ensures var last := shift[|shift| - 1];
      SecondsAfter(shift, kinds, until)
        == SecondsAfter(shift[..|shift| - 1], kinds, last.at) + if last.kind in kinds then until - last.at else 0
  {
  }

  lemma {:induction false} ClocksByKind(shift: seq<Event>)
    requires shift != [] && TimesRise(shift) && StepByStep(Kinds(shift))
    requires forall i :: 0 <= i < |shift| ==> shift[i].kind != ClockOut
    ensures var c, last := ClocksAfter(shift), shift[|shift| - 1].at;
      && c.worked == SecondsAfter(shift[..|shift| - 1], {ClockIn, BreakEnd}, last)
      && c.onBreak == SecondsAfter(shift[..|shift| - 1], {BreakStart}, last)
  {
    var n := |shift| - 1;
    StepByStepOneMore(Kinds(shift));
    assert AllowedAt(Kinds(shift), n);
    if n == 0 {
      assert shift[..0] == [] && ClocksAfter(shift[..0]) == Clocks(None, None, 0, 0);
    } else {
      hide StepByStep, ClocksStep, SecondsAfter;
      var earlier := shift[..n];
      assert Kinds(shift)[..n] == Kinds(earlier);
      ClocksByKind(earlier);
      ClocksAddUp(earlier);
      OneStretchMore(ClocksAfter(earlier), shift[n - 1], shift[n]);
      assert earlier[..n - 1] == shift[..n - 1] && earlier[n - 1] == shift[n - 1];
      SecondsOneMore(earlier, {ClockIn, BreakEnd}, shift[n].at);
      SecondsOneMore(earlier, {BreakStart}, shift[n].at);
    }
  }

  /** In an open shift the worked seconds are those after its clock-in and after its
      breaks, the break seconds those after their starts; a break is stale after
      twenty-five minutes, a shift long from four worked hours on. Without one
      there is nothing to show and only a clock-in to offer. */
  lemma {:induction false} ShownTimeByKind(log: seq<Event>, now: int)
    requires BuiltByActions(log)
    ensures OpenShift(log) == [] ==>
      StateOf(OpenShift(log), now) == WorkState(Idle, None, 0, 0, false, false, [ClockIn])
      && (log != [] ==> log[|log| - 1].kind == ClockOut)
    ensures OpenShift(log) != [] ==>
      var state, shift, last := StateOf(OpenShift(log), now), OpenShift(log), log[|log| - 1];
      var until := if now < last.at then last.at else now;
      && state.worked == SecondsAfter(shift, {ClockIn, BreakEnd}, until)
      && state.onBreak == SecondsAfter(shift, {BreakStart}, until)
      && state.since == Some(last.at) && (state.kind == OnBreak <==> last.kind == BreakStart) && state.kind != Idle
      && (state.staleBreak <==> last.kind == BreakStart && now - last.at > 1500)
      && (state.longShift <==> last.kind != BreakStart && state.worked >= 14400)
  {
    hide BuiltByActions, StepByStep, IsLogShape, ClocksAfter, OpenShift;
    if OpenShift(log) == [] {
      NothingOpen(log);
    } else {
      BuiltLogsAreShifts(log);
      OpenShiftStarts(log);
      var shift := OpenShift(log);
      ClocksAddUp(shift);
      ClocksByKind(shift);
      assert shift[|shift| - 1] == log[|log| - 1];
    }
  }

  lemma {:induction false} NothingOpen(log: seq<Event>)
    ensures OpenShift(log) == [] && log != [] ==> log[|log| - 1].kind == ClockOut
  {
  }
}
