/** Reading effective events back as editable intervals, one group per date. */
module EditableDays {
  import opened Bytes
  import opened Timesheet
  import opened WorkSpans

  datatype Event = Event(id: string, mark: Mark)

  function MarksOf(events: seq<Event>): seq<Mark> {
    seq(|events|, i requires 0 <= i < |events| => events[i].mark)
  }

  datatype Day = Day(events: seq<Event>, eventIds: seq<string>, intervals: seq<Interval>, closed: bool)

  const NO_DAY := Day([], [], [], false)

  /** The variables of `editableDays`' loop. */
  datatype Walk = Walk(groups: map<int, Day>, shiftDate: Option<int>, workStart: Option<Event>,
                       breakStart: Option<Event>)

  const START := Walk(map[], None, None, None)

  function GroupFor(groups: map<int, Day>, date: int): Day {
    if date in groups then groups[date] else NO_DAY
  }

  function WithEvent(day: Day, event: Event): Day {
    if event.id in day.eventIds then day
    else day.(events := day.events + [event], eventIds := day.eventIds + [event.id])
  }

  /** The interval from one event to another, as the group of `date` shows it. */
  function ReadInterval(zone: Zone, date: int, work: bool, start: Mark, end: Mark): Interval {
    Interval(work, zone.clock(start.at), zone.clock(end.at), zone.day(start.at) > date, start.at, end.at,
             if work then "" else start.breakType, "", !work && start.breakPaid)
  }

  function WithInterval(zone: Zone, date: int, day: Day, work: bool, start: Option<Event>, end: Event): Day {
    match start
    case None => day
    case Some(from) => day.(intervals := day.intervals + [ReadInterval(zone, date, work, from.mark, end.mark)])
  }

  function WalkStep(zone: Zone, w: Walk, event: Event): Walk {
    var date := zone.day(event.mark.at);
    if event.mark.kind == ClockIn then
      var group := WithEvent(GroupFor(w.groups, date).(closed := false), event);
      Walk(w.groups[date := group], Some(date), Some(event), None)
    else
      var owner := if w.shiftDate.Some? then w.shiftDate.value else date;
      var group := WithEvent(GroupFor(w.groups, owner), event);
      match event.mark.kind
      case BreakStart =>
        Walk(w.groups[owner := WithInterval(zone, owner, group, true, w.workStart, event)], w.shiftDate, None,
             Some(event))
      case BreakEnd =>
        Walk(w.groups[owner := WithInterval(zone, owner, group, false, w.breakStart, event)], w.shiftDate, Some(event),
             None)
      case ClockOut =>
        Walk(w.groups[owner := WithInterval(zone, owner, group, true, w.workStart, event).(closed := true)], None,
             None, None)
      case _ => w.(groups := w.groups[owner := group])
  }

  function Walked(zone: Zone, events: seq<Event>): Walk {
    if events == [] then START else WalkStep(zone, Walked(zone, events[..|events| - 1]), events[|events| - 1])
  }

  method EditableDays(zone: Zone, events: seq<Event>) returns (groups: map<int, Day>)
    ensures groups == Walked(zone, events).groups
  {
    groups := map[];
    var shiftDate: Option<int> := None;
    var workStart: Option<Event> := None;
    var breakStart: Option<Event> := None;
    for i := 0 to |events|
      invariant Walk(groups, shiftDate, workStart, breakStart) == Walked(zone, events[..i])
    {
      assert events[..i + 1][..i] == events[..i];
      var event := events[i];
      var eventDate := zone.day(event.mark.at);
      if event.mark.kind == ClockIn {
        shiftDate, workStart, breakStart := Some(eventDate), Some(event), None;
        groups := groups[eventDate := WithEvent(GroupFor(groups, eventDate).(closed := false), event)];
      } else {
        var ownerDate := if shiftDate.Some? then shiftDate.value else eventDate;
        var group := WithEvent(GroupFor(groups, ownerDate), event);
        if event.mark.kind == BreakStart {
          group := WithInterval(zone, ownerDate, group, true, workStart, event);
          workStart, breakStart := None, Some(event);
        } else if event.mark.kind == BreakEnd {
          group := WithInterval(zone, ownerDate, group, false, breakStart, event);
          workStart, breakStart := Some(event), None;
        } else if event.mark.kind == ClockOut {
          group := WithInterval(zone, ownerDate, group, true, workStart, event).(closed := true);
          workStart, breakStart, shiftDate := None, None, None;
        }
        groups := groups[ownerDate := group];
      }
    }
    assert events[..|events|] == events;
  }

  // ------------------------------------------------------------ what is read back

  /** The date the shift of interval i started on. */
  function ShiftDate(zone: Zone, items: seq<Interval>, i: nat): int
    requires i < |items|
  {
    if i > 0 && MidShift(items, i) then ShiftDate(zone, items, i - 1) else zone.day(items[i].startAt)
  }

  /** The interval as the group of `date` shows it. */
  function Shown(zone: Zone, date: int, item: Interval): Interval {
    Interval(item.work, zone.clock(item.startAt), zone.clock(item.endAt), zone.day(item.startAt) > date,
             item.startAt, item.endAt, if item.work then "" else item.breakType, "", !item.work && item.breakPaid)
  }

  /** Of the first n intervals, those whose shift started on `date`. */
  function ShownOn(zone: Zone, date: int, items: seq<Interval>, n: nat): seq<Interval>
    requires n <= |items|
  {
    if n == 0 then []
    else
      ShownOn(zone, date, items, n - 1)
      + if ShiftDate(zone, items, n - 1) == date then [Shown(zone, date, items[n - 1])] else []
  }

  // A work interval is read when the event after it comes.
  function ReadSoFar(items: seq<Interval>, n: nat): nat
    requires n <= |items|
  {
    if MidShift(items, n) && items[n - 1].work then n - 1 else n
  }

  function Short(zone: Zone, w: Walk, events: seq<Event>): Walk
    requires |events| <= 2
  {
    if |events| == 0 then w
    else if |events| == 1 then WalkStep(zone, w, events[0])
    else WalkStep(zone, WalkStep(zone, w, events[0]), events[1])
  }

  predicate HasMarks(events: seq<Event>, marks: seq<Mark>) {
    |events| == |marks| && forall k :: 0 <= k < |events| ==> events[k].mark == marks[k]
  }

  lemma {:induction false} ShiftDateCarries(zone: Zone, items: seq<Interval>, i: nat)
    requires i < |items|
    ensures ShiftDate(zone, items, i)
      == if MidShift(items, i) then ShiftDate(zone, items, i - 1) else zone.day(items[i].startAt)
  {
  }

  lemma {:induction false} ShownOneMore(zone: Zone, date: int, items: seq<Interval>, n: nat)
    requires n < |items|
    ensures ShownOn(zone, date, items, n + 1)
      == ShownOn(zone, date, items, n) + if ShiftDate(zone, items, n) == date then [Shown(zone, date, items[n])] else []
  {
  }

  /** In a running shift the walk knows its date and where its open interval began. */
  ghost predicate Running(w: Walk, date: int, since: int) {
    && w.shiftDate == Some(date) && w.workStart.Some? && w.workStart.value.mark.at == since && w.breakStart == None
  }

  ghost predicate Resting(w: Walk) {
    w.shiftDate == None && w.workStart == None && w.breakStart == None
  }

  function IntervalsOn(w: Walk, date: int): seq<Interval> {
    GroupFor(w.groups, date).intervals
  }

  lemma {:induction false} WorkWalks(zone: Zone, w: Walk, item: Interval, before: bool, after: bool,
                                     events: seq<Event>, owner: int, date: int)
    requires item.work && HasMarks(events, ItemMarks(item, before, after))
    requires if before then Running(w, owner, item.startAt) else Resting(w) && owner == zone.day(item.startAt)
    ensures var q := Short(zone, w, events);
      && IntervalsOn(q, date)
         == IntervalsOn(w, date) + (if !after && owner == date then [Shown(zone, date, item)] else [])
      && if after then Running(q, owner, item.startAt) else Resting(q)
  {
  }

  lemma {:induction false} BreakWalks(zone: Zone, w: Walk, previous: Interval, item: Interval, events: seq<Event>,
                                      owner: int, date: int)
    requires previous.work && !item.work && previous.endAt == item.startAt
    requires HasMarks(events, ItemMarks(item, true, true)) && Running(w, owner, previous.startAt)
    ensures var q := Short(zone, w, events);
      && IntervalsOn(q, date)
         == IntervalsOn(w, date)
            + (if owner == date then [Shown(zone, date, previous), Shown(zone, date, item)] else [])
      && Running(q, owner, item.endAt)
  {
  }

  ghost predicate WalkHolds(zone: Zone, items: seq<Interval>, n: nat, w: Walk)
    requires n <= |items|
  {
    && (forall date :: IntervalsOn(w, date) == ShownOn(zone, date, items, ReadSoFar(items, n)))
    && if MidShift(items, n) then
         Running(w, ShiftDate(zone, items, n - 1),
                 if items[n - 1].work then items[n - 1].startAt else items[n - 1].endAt)
       else Resting(w)
  }

  lemma {:induction false} AtMostTwo(item: Interval, before: bool, after: bool, events: seq<Event>)
    requires HasMarks(events, ItemMarks(item, before, after))
    ensures |events| <= 2
  {
  }

  lemma {:induction false} OneItemWalks(zone: Zone, items: seq<Interval>, i: nat, w: Walk, events: seq<Event>)
    requires WellShaped(items) && i < |items| && WalkHolds(zone, items, i, w)
    requires HasMarks(events, ItemMarks(items[i], MidShift(items, i), MidShift(items, i + 1)))
    ensures WalkHolds(zone, items, i + 1, Short(zone, w, events))
  {
    hide ShownOn, ShiftDate, WithEvent, Short, ItemMarks, IntervalsOn, HasMarks, Shown;
    var item := items[i];
    var before, after, owner := MidShift(items, i), MidShift(items, i + 1), ShiftDate(zone, items, i);
    MarksByShift(items, i);
    ShiftDateCarries(zone, items, i);
    if !item.work { assert BreakIsAttached(items, i); }
    if 0 < i && !items[i - 1].work { assert BreakIsAttached(items, i - 1); }
    if i + 1 < |items| && !items[i + 1].work { assert BreakIsAttached(items, i + 1); }
    AtMostTwo(item, before, after, events);
    var q := Short(zone, w, events);
    if item.work {
      WorkWalks(zone, w, item, before, after, events, owner, 0);
    } else {
      BreakWalks(zone, w, items[i - 1], item, events, owner, 0);
    }
    forall date ensures IntervalsOn(q, date) == ShownOn(zone, date, items, ReadSoFar(items, i + 1)) {
      ShownOneMore(zone, date, items, i);
      if item.work {
        WorkWalks(zone, w, item, before, after, events, owner, date);
      } else {
        ShownOneMore(zone, date, items, i - 1);
        BreakWalks(zone, w, items[i - 1], item, events, owner, date);
      }
    }
  }

  lemma {:induction false} CompiledPrefix(items: seq<Interval>, n: nat, m: nat)
    requires n <= m <= |items|
    ensures Compiled(items, n) <= Compiled(items, m)
  {
    if n < m { CompiledPrefix(items, n, m - 1); }
  }

  lemma {:induction false} WalkedByItem(zone: Zone, events: seq<Event>, a: nat, b: nat)
    requires a <= b <= |events| && b - a <= 2
    ensures Walked(zone, events[..b]) == Short(zone, Walked(zone, events[..a]), events[a..b])
  {
    if b > a { assert events[..b][..b - 1] == events[..b - 1]; }
    if b > a + 1 { assert events[..b - 1][..a] == events[..a]; }
  }

  /** The events of item i are those between two lengths of the compiled list. */
  function EventsOfItem(items: seq<Interval>, events: seq<Event>, i: nat): seq<Event>
    requires i < |items| && HasMarks(events, Compiled(items, |items|))
  {
    CompiledPrefix(items, i, i + 1);
    CompiledPrefix(items, i + 1, |items|);
    events[|Compiled(items, i)|..|Compiled(items, i + 1)|]
  }

  lemma {:induction false} SliceHasMarks(events: seq<Event>, all: seq<Mark>, a: nat, marks: seq<Mark>)
    requires HasMarks(events, all) && a + |marks| <= |all| && all[a..a + |marks|] == marks
    ensures HasMarks(events[a..a + |marks|], marks)
  {
    forall k | 0 <= k < |marks| ensures events[a..a + |marks|][k].mark == marks[k] {
      assert events[a + k].mark == all[a..a + |marks|][k];
    }
  }

  lemma {:induction false} EventsOfItemHaveItsMarks(items: seq<Interval>, events: seq<Event>, i: nat)
    requires WellShaped(items) && i < |items| && HasMarks(events, Compiled(items, |items|))
    ensures HasMarks(EventsOfItem(items, events, i), ItemMarks(items[i], MidShift(items, i), MidShift(items, i + 1)))
    ensures |Compiled(items, i)| <= |Compiled(items, i + 1)| <= |events|
    ensures |EventsOfItem(items, events, i)| <= 2
  {
    hide WellShaped, MidShift, ItemMarks, MarksOfItem;
    CompiledPrefix(items, i, i + 1);
    CompiledPrefix(items, i + 1, |items|);
    MarksByShift(items, i);
    var marks := MarksOfItem(items, i);
    var all, a := Compiled(items, |items|), |Compiled(items, i)|;
    assert Compiled(items, i + 1) == Compiled(items, i) + marks;
    assert all[a..a + |marks|] == Compiled(items, i + 1)[a..];
    SliceHasMarks(events, all, a, marks);
    AtMostTwo(items[i], MidShift(items, i), MidShift(items, i + 1), EventsOfItem(items, events, i));
  }

  lemma {:induction false} WalkOfCompiled(zone: Zone, items: seq<Interval>, events: seq<Event>, n: nat)
    requires WellShaped(items) && n <= |items| && HasMarks(events, Compiled(items, |items|))
    ensures |Compiled(items, n)| <= |events|
    ensures WalkHolds(zone, items, n, Walked(zone, events[..|Compiled(items, n)|]))
  {
    hide WellShaped, MarksOfItem, HasMarks, Short, ItemMarks, WalkStep, WalkHolds;
    if n == 0 {
      NothingWalked(zone, items);
      assert events[..0] == [];
    } else {
      WalkOfCompiled(zone, items, events, n - 1);
      EventsOfItemHaveItsMarks(items, events, n - 1);
      OneItemWalks(zone, items, n - 1, Walked(zone, events[..|Compiled(items, n - 1)|]),
                   EventsOfItem(items, events, n - 1));
      WalkedByItem(zone, events, |Compiled(items, n - 1)|, |Compiled(items, n)|);
    }
  }

  lemma {:induction false} NothingWalked(zone: Zone, items: seq<Interval>)
    ensures WalkHolds(zone, items, 0, Walked(zone, [])) && Compiled(items, 0) == []
  {
  }

  /** Reading back: each date shows exactly the intervals of the shifts that
      started on it, in order, with the zone's readings of their instants. */
  lemma {:induction false} ReadBack(zone: Zone, items: seq<Interval>, events: seq<Event>, date: int)
    requires WellShaped(items) && HasMarks(events, Compiled(items, |items|))
    ensures GroupFor(Walked(zone, events).groups, date).intervals == ShownOn(zone, date, items, |items|)
  {
    hide WellShaped, Compiled, Walked;
    WalkOfCompiled(zone, items, events, |items|);
    assert events[..|events|] == events;
  }

  ghost predicate AllOn(zone: Zone, date: int, items: seq<Interval>, n: nat)
    requires n <= |items|
  {
    forall i :: 0 <= i < n ==> ShiftDate(zone, items, i) == date
  }

  lemma {:induction false} AllOnOneMore(zone: Zone, date: int, items: seq<Interval>, n: nat)
    requires n < |items|
    ensures AllOn(zone, date, items, n + 1) <==> AllOn(zone, date, items, n) && ShiftDate(zone, items, n) == date
  {
    hide ShiftDate;
  }

  lemma {:induction false} HowManyShown(zone: Zone, date: int, items: seq<Interval>, n: nat)
    requires n <= |items|
    ensures |ShownOn(zone, date, items, n)| <= n
    ensures |ShownOn(zone, date, items, n)| == n <==> AllOn(zone, date, items, n)
    ensures |ShownOn(zone, date, items, n)| == n ==>
      forall i :: 0 <= i < n ==> ShownOn(zone, date, items, n)[i] == Shown(zone, date, items[i])
  {
    hide ShiftDate, Shown;
    if n > 0 {
      HowManyShown(zone, date, items, n - 1);
      AllOnOneMore(zone, date, items, n - 1);
    }
  }

  lemma {:induction false} ShiftsOnOneDate(zone: Zone, date: int, items: seq<Interval>, n: nat)
    requires n <= |items|
    ensures AllOn(zone, date, items, n)
      <==> (forall i :: 0 <= i < n && !MidShift(items, i) ==> zone.day(items[i].startAt) == date)
  {
    hide ShiftDate, MidShift;
    if n > 0 {
      ShiftsOnOneDate(zone, date, items, n - 1);
      ShiftDateCarries(zone, items, n - 1);
      AllOnOneMore(zone, date, items, n - 1);
      assert MidShift(items, n - 1) ==> n > 1 by { FirstIsNotMidShift(items); }
    }
  }

  lemma {:induction false} FirstIsNotMidShift(items: seq<Interval>)
    ensures !MidShift(items, 0)
  {
  }

  /** The submitted list without the names of its break types, which events do not keep. */
  function Nameless(items: seq<Interval>): seq<Interval> {
    seq(|items|, i requires 0 <= i < |items| => items[i].(breakTypeName := ""))
  }

  /** The zone puts midnight of a date and of the next one on those dates. */
  predicate KeepsDates(zone: Zone, date: int) {
    zone.day(zone.instant(date, "00:00", 0)) == date && zone.day(zone.instant(date, "00:00", 1)) == date + 1
  }

  /** An accepted list reads back on its work date as exactly the intervals
      submitted, if and only if every one of its shifts starts on that date. */
  lemma {:induction false} ReadBackIsExact(zone: Zone, workDate: int, items: seq<Interval>, events: seq<Event>)
    requires WellShaped(items) && HasMarks(events, Compiled(items, |items|)) && KeepsDates(zone, workDate)
    requires forall i :: 0 <= i < |items| ==> PlacedInterval(zone, workDate, items[i])
    ensures GroupFor(Walked(zone, events).groups, workDate).intervals == Nameless(items)
      <==> forall i :: 0 <= i < |items| && !MidShift(items, i) ==> zone.day(items[i].startAt) == workDate
  {
    hide WellShaped, Walked, Compiled, HasMarks, ShownOn, ShiftDate, MidShift;
    ReadBack(zone, items, events, workDate);
    HowManyShown(zone, workDate, items, |items|);
    ShiftsOnOneDate(zone, workDate, items, |items|);
    forall i | 0 <= i < |items| ensures Shown(zone, workDate, items[i]) == Nameless(items)[i] {
      assert PlacedInterval(zone, workDate, items[i]);
    }
  }

  // ------------------------------------------------- which events a date lists

  function EventsOn(zone: Zone, date: int, items: seq<Interval>, events: seq<Event>, n: nat): seq<Event>
    requires n <= |items| && HasMarks(events, Compiled(items, |items|))
  {
    if n == 0 then []
    else
      EventsOn(zone, date, items, events, n - 1)
      + if ShiftDate(zone, items, n - 1) == date then EventsOfItem(items, events, n - 1) else []
  }

  function Ids(events: seq<Event>): seq<string> {
    seq(|events|, i requires 0 <= i < |events| => events[i].id)
  }

  predicate DistinctIds(events: seq<Event>) {
    forall i, j :: 0 <= i < j < |events| ==> events[i].id != events[j].id
  }

  predicate Lists(day: Day, events: seq<Event>) {
    day.events == events && day.eventIds == Ids(events)
  }

  predicate NewTo(events: seq<Event>, more: seq<Event>) {
    forall i, j :: 0 <= i < |events| && 0 <= j < |more| ==> events[i].id != more[j].id
  }

  // One event of a known owner date.
  lemma {:induction false} EventListed(zone: Zone, w: Walk, event: Event, owner: int, date: int, events: seq<Event>)
    requires owner
      == if event.mark.kind == ClockIn || w.shiftDate == None then zone.day(event.mark.at) else w.shiftDate.value
    requires NewTo(events, [event]) && Lists(GroupFor(w.groups, date), events)
    ensures Lists(GroupFor(WalkStep(zone, w, event).groups, date), events + if owner == date then [event] else [])
    ensures event.mark.kind == ClockIn ==> WalkStep(zone, w, event).shiftDate == Some(owner)
    ensures event.mark.kind == BreakStart || event.mark.kind == BreakEnd ==>
      WalkStep(zone, w, event).shiftDate == w.shiftDate
  {
    IdsOneMore(events, event);
    assert events + [] == events;
    forall i | 0 <= i < |events| ensures Ids(events)[i] != event.id { assert events[i].id != [event][0].id; }
  }

  lemma {:induction false} ItemListed(zone: Zone, w: Walk, item: Interval, before: bool, after: bool, more: seq<Event>,
                                      owner: int, date: int, events: seq<Event>)
    requires HasMarks(more, ItemMarks(item, before, after)) && DistinctIds(more) && NewTo(events, more)
    requires !item.work ==> before && after
    requires if before then w.shiftDate == Some(owner) else w.shiftDate == None && owner == zone.day(item.startAt)
    requires Lists(GroupFor(w.groups, date), events)
    ensures |more| <= 2
    ensures Lists(GroupFor(Short(zone, w, more).groups, date), events + if owner == date then more else [])
  {
    hide WalkStep, Lists;
    AtMostTwo(item, before, after, more);
    assert events + [] == events;
    if |more| > 0 {
      assert NewTo(events, [more[0]]);
      EventListed(zone, w, more[0], owner, date, events);
      if |more| > 1 {
        var one := events + if owner == date then [more[0]] else [];
        assert NewTo(one, [more[1]]);
        EventListed(zone, WalkStep(zone, w, more[0]), more[1], owner, date, one);
        assert more == [more[0]] + [more[1]];
        assert events + more == events + [more[0]] + [more[1]];
      } else {
        assert more == [more[0]];
      }
    }
  }

  lemma {:induction false} IdsOneMore(events: seq<Event>, event: Event)
    ensures Ids(events + [event]) == Ids(events) + [event.id]
  {
  }

  // Every event listed on a date is one of the first items' events.
  lemma {:induction false} EventsOnComeFrom(zone: Zone, date: int, items: seq<Interval>, events: seq<Event>, n: nat)
    requires WellShaped(items) && n <= |items| && HasMarks(events, Compiled(items, |items|))
    ensures |Compiled(items, n)| <= |events|
    ensures forall e :: e in EventsOn(zone, date, items, events, n) ==> e in events[..|Compiled(items, n)|]
  {
    hide WellShaped, MarksOfItem, HasMarks, ShiftDate, ItemMarks;
    if n == 0 {
      CompiledPrefix(items, 0, |items|);
    } else {
      EventsOnComeFrom(zone, date, items, events, n - 1);
      EventsOfItemHaveItsMarks(items, events, n - 1);
      var a, b := |Compiled(items, n - 1)|, |Compiled(items, n)|;
      assert events[..b] == events[..a] + events[a..b];
    }
  }

  lemma {:induction false} SlicesStayDistinct(events: seq<Event>, a: nat, b: nat, earlier: seq<Event>)
    requires a <= b <= |events| && DistinctIds(events)
    requires forall e :: e in earlier ==> e in events[..a]
    ensures DistinctIds(events[a..b]) && NewTo(earlier, events[a..b])
  {
    forall i, j | 0 <= i < |earlier| && 0 <= j < b - a ensures earlier[i].id != events[a..b][j].id {
      assert earlier[i] in events[..a];
    }
  }

  // The date the walk holds on to before item n is the date of the shift item n belongs to.
  lemma {:induction false} WalkKnowsTheDate(zone: Zone, items: seq<Interval>, n: nat, w: Walk)
    requires WellShaped(items) && n < |items| && WalkHolds(zone, items, n, w)
    ensures if MidShift(items, n) then w.shiftDate == Some(ShiftDate(zone, items, n))
            else w.shiftDate == None && ShiftDate(zone, items, n) == zone.day(items[n].startAt)
    ensures !items[n].work ==> MidShift(items, n) && MidShift(items, n + 1)
  {
    hide ShiftDate, WellShaped, IntervalsOn, ShownOn;
    ShiftDateCarries(zone, items, n);
    MarksByShift(items, n);
  }

  /** Each date lists the events of the shifts that started on it, in order and once. */
  lemma {:induction false} DatesListTheirEvents(zone: Zone, date: int, items: seq<Interval>, events: seq<Event>, n: nat)
    requires WellShaped(items) && n <= |items|
    requires HasMarks(events, Compiled(items, |items|)) && DistinctIds(events)
    ensures |Compiled(items, n)| <= |events|
    ensures Lists(GroupFor(Walked(zone, events[..|Compiled(items, n)|]).groups, date),
                  EventsOn(zone, date, items, events, n))
  {
    hide WellShaped, MarksOfItem, HasMarks, Short, ItemMarks, WalkStep, DistinctIds, NewTo, ShiftDate, Lists, MidShift,
         WalkHolds, Walked, GroupFor, Compiled;
    if n == 0 {
      NothingListed(zone, date);
      NothingWalked(zone, items);
      assert events[..0] == [];
    } else {
      DatesListTheirEvents(zone, date, items, events, n - 1);
      EventsOfItemHaveItsMarks(items, events, n - 1);
      var a, b := |Compiled(items, n - 1)|, |Compiled(items, n)|;
      var before, w := EventsOn(zone, date, items, events, n - 1), Walked(zone, events[..a]);
      EventsOnComeFrom(zone, date, items, events, n - 1);
      SlicesStayDistinct(events, a, b, before);
      WalkOfCompiled(zone, items, events, n - 1);
      WalkKnowsTheDate(zone, items, n - 1, w);
      ItemListed(zone, w, items[n - 1], MidShift(items, n - 1), MidShift(items, n),
                 events[a..b], ShiftDate(zone, items, n - 1), date, before);
      WalkedByItem(zone, events, a, b);
    }
  }

  lemma {:induction false} NothingListed(zone: Zone, date: int)
    ensures Lists(GroupFor(Walked(zone, []).groups, date), [])
  {
  }

  /** A group lists only ids of the events it was made from. */
  lemma {:induction false} GroupIdsAreEvents(zone: Zone, events: seq<Event>, date: int, id: string)
    requires id in GroupFor(Walked(zone, events).groups, date).eventIds
    ensures exists k :: 0 <= k < |events| && events[k].id == id
  {
    if events != [] {
      var last := |events| - 1;
      var before, step := Walked(zone, events[..last]), Walked(zone, events);
      StepListsOneMore(zone, before, events[last], date);
      if id in GroupFor(before.groups, date).eventIds {
        GroupIdsAreEvents(zone, events[..last], date, id);
        var k :| 0 <= k < last && events[..last][k].id == id;
        assert events[k].id == id;
      } else {
        assert events[last].id == id;
      }
    }
  }

  lemma {:induction false} StepListsOneMore(zone: Zone, w: Walk, event: Event, date: int)
    ensures forall id :: id in GroupFor(WalkStep(zone, w, event).groups, date).eventIds ==>
      id in GroupFor(w.groups, date).eventIds || id == event.id
  {
  }

  lemma {:induction false} WalkedOneMore(zone: Zone, events: seq<Event>, i: nat)
    requires i < |events|
    ensures Walked(zone, events[..i + 1]) == WalkStep(zone, Walked(zone, events[..i]), events[i])
  {
    assert events[..i + 1][..i] == events[..i];
  }

  /** A date lists the clock-ins that fall on it. */
  lemma {:induction false} ClockInsAreListed(zone: Zone, events: seq<Event>, n: nat, e: Event)
    requires n <= |events| && e in events[..n] && e.mark.kind == ClockIn
    ensures e.id in GroupFor(Walked(zone, events[..n]).groups, zone.day(e.mark.at)).eventIds
  {
    hide Walked;
    WalkedOneMore(zone, events, n - 1);
    if e in events[..n - 1] {
      ClockInsAreListed(zone, events, n - 1, e);
    } else {
      assert e == events[n - 1];
    }
  }

  /** Of the clock-ins and clock-outs in the list, the last is a clock-out. */
  predicate EndsClosed(events: seq<Event>) {
    events != [] &&
    var last := events[|events| - 1].mark.kind;
    last == ClockOut || (last != ClockIn && EndsClosed(events[..|events| - 1]))
  }

  lemma {:induction false} EndsClosedOneMore(events: seq<Event>, event: Event)
    ensures EndsClosed(events + [event])
      <==> event.mark.kind == ClockOut || (event.mark.kind != ClockIn && EndsClosed(events))
  {
    assert (events + [event])[..|events|] == events;
  }

  lemma {:induction false} StepCloses(zone: Zone, w: Walk, event: Event, date: int)
    requires event.id !in GroupFor(w.groups, date).eventIds
    requires GroupFor(w.groups, date).closed <==> EndsClosed(GroupFor(w.groups, date).events)
    ensures var day := GroupFor(WalkStep(zone, w, event).groups, date); day.closed <==> EndsClosed(day.events)
  {
    hide ReadInterval, EndsClosed;
    EndsClosedOneMore(GroupFor(w.groups, date).events, event);
  }

  /** A date is shown as closed exactly if the last shift listed on it was clocked out. */
  lemma {:induction false} ClosedByClockOut(zone: Zone, events: seq<Event>, date: int)
    requires DistinctIds(events)
    ensures var day := GroupFor(Walked(zone, events).groups, date); day.closed <==> EndsClosed(day.events)
  {
    if events != [] {
      hide WalkStep, EndsClosed;
      var earlier, last := events[..|events| - 1], events[|events| - 1];
      ClosedByClockOut(zone, earlier, date);
      var day := GroupFor(Walked(zone, earlier).groups, date);
      if last.id in day.eventIds { GroupIdsAreEvents(zone, earlier, date, last.id); }
      assert last.id !in day.eventIds;
      StepCloses(zone, Walked(zone, earlier), last, date);
    } else {
      NothingClosed(zone, date);
    }
  }

  lemma {:induction false} NothingClosed(zone: Zone, date: int)
    ensures !GroupFor(Walked(zone, []).groups, date).closed && GroupFor(Walked(zone, []).groups, date).events == []
  {
  }
}
