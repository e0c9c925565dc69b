/** Manual working-day intervals: how they are checked, and how an accepted
    list is turned into clock events. Instants are Unix seconds and dates are
    day numbers; the zone's arithmetic is a parameter. */
module Timesheet {
  import opened Sorting

  datatype Kind = ClockIn | BreakStart | BreakEnd | ClockOut | Correction

  /** What replay reads of a clock event. */
  datatype Mark = Mark(kind: Kind, at: int, breakType: string, breakPaid: bool)

  datatype Interval = Interval(
    work: bool, start: string, end: string, nextDay: bool, startAt: int, endAt: int,
    breakType: string, breakTypeName: string, breakPaid: bool)

  /** An interval as the request carries it. */
  datatype Item = Item(kind: string, start: string, end: string, startNextDay: bool, breakType: string)

  datatype BreakType = BreakType(organization: string, active: bool, name: string, paid: bool)

  /** `instant(date, time, days)` is the local time on the date plus days;
      `day` and `clock` are the local date and the local "HH:MM" of an instant. */
  datatype Zone = Zone(instant: (int, string, int) -> int, day: int -> int, clock: int -> string)

  datatype IntervalError =
    | NoError | FutureDay | WrongCount | InvalidItem | TwoDaysLater | NoSuchTime | BadDuration
    | NoSuchBreakType | BreakTypeUnavailable
    | NotWorkAtEnds | Overlap | LooseBreak | TooMuchWork | NotFinished

  datatype Outcome<T> = Accepted(value: T) | Refused(error: IntervalError)

  const MAX_ITEMS := 24
  const MAX_MINUTES := 16 * 60
  const MAX_WORK := 24 * 3600

  // ------------------------------------------------------------------ one item

  predicate Digit(c: char) { '0' <= c <= '9' }

  function DigitValue(c: char): int { c as int - '0' as int }

  /** Minutes after midnight of an "HH:MM" text; -1 when it is not one. */
  function TimeMinutes(value: string): int {
    if |value| == 5 && Digit(value[0]) && Digit(value[1]) && value[2] == ':' && Digit(value[3]) && Digit(value[4]) then
      var hours := 10 * DigitValue(value[0]) + DigitValue(value[1]);
      var minutes := 10 * DigitValue(value[3]) + DigitValue(value[4]);
      if hours > 23 || minutes > 59 then -1 else hours * 60 + minutes
    else -1
  }

  /** `Math.round(seconds / 60)`. */
  function RoundedMinutes(seconds: int): (minutes: int)
    ensures 60 * minutes - 30 <= seconds < 60 * minutes + 30
  {
    (seconds + 30) / 60
  }

  function ParseItem(zone: Zone, breakTypes: map<string, BreakType>, organization: string, workDate: int, item: Item)
    : (r: Outcome<Interval>)
    ensures r.Accepted? ==> PlacedInterval(zone, workDate, r.value) && r.value.startAt < r.value.endAt
  {
    var startMinutes, endMinutes := TimeMinutes(item.start), TimeMinutes(item.end);
    if (item.kind != "work" && item.kind != "break") || startMinutes < 0 || endMinutes < 0 then Refused(InvalidItem)
    else
      var startOffset := if item.startNextDay then 1 else 0;
      var endOffset := startOffset + if endMinutes < startMinutes then 1 else 0;
      if endOffset > 1 then Refused(TwoDaysLater)
      else
        var startAt := zone.instant(workDate, item.start, startOffset);
        var endAt := zone.instant(workDate, item.end, endOffset);
        if zone.day(startAt) != zone.day(zone.instant(workDate, "00:00", startOffset))
           || zone.clock(startAt) != item.start
           || zone.day(endAt) != zone.day(zone.instant(workDate, "00:00", endOffset))
           || zone.clock(endAt) != item.end
        then Refused(NoSuchTime)
        else if RoundedMinutes(endAt - startAt) <= 0 || RoundedMinutes(endAt - startAt) > MAX_MINUTES then
          Refused(BadDuration)
        else if item.kind == "work" then
          Accepted(Interval(true, item.start, item.end, item.startNextDay, startAt, endAt, "", "", false))
        else if item.breakType !in breakTypes then Refused(NoSuchBreakType)
        else
          var breakType := breakTypes[item.breakType];
          if breakType.organization != organization || !breakType.active then Refused(BreakTypeUnavailable)
          else
            Accepted(Interval(false, item.start, item.end, item.startNextDay, startAt, endAt,
                              item.breakType, breakType.name, breakType.paid))
  }

  // ------------------------------------------------------- what one item comes to

  function TwoDigits(n: nat): string
    requires n < 100
  {
    [('0' as int + n / 10) as char, ('0' as int + n % 10) as char]
  }

  /** A time of day as a text. */
  function ClockText(minutes: nat): string
    requires minutes < 24 * 60
  {
    TwoDigits(minutes / 60) + ":" + TwoDigits(minutes % 60)
  }

  /** Exactly the times of day are read, each as its minutes. */
  lemma {:induction false} ClockTextsAreRead(value: string, minutes: nat)
    requires minutes < 24 * 60
    ensures TimeMinutes(value) == minutes <==> value == ClockText(minutes)
    ensures TimeMinutes(value) < 24 * 60
  {
    var h, m := minutes / 60, minutes % 60;
    var text := ClockText(minutes);
    assert text == [text[0], text[1], text[2], text[3], text[4]];
    assert DigitValue(text[0]) == h / 10 && DigitValue(text[1]) == h % 10;
    assert DigitValue(text[3]) == m / 10 && DigitValue(text[4]) == m % 10;
    if TimeMinutes(value) == minutes {
      var hours := 10 * DigitValue(value[0]) + DigitValue(value[1]);
      var rest := 10 * DigitValue(value[3]) + DigitValue(value[4]);
      assert hours == h && rest == m;
      assert value == [value[0], value[1], ':', value[3], value[4]];
    }
  }

  /** The instant's local reading is the time, on the date so many days after the work date. */
  predicate ReadsAs(zone: Zone, workDate: int, at: int, time: string, days: int) {
    && at == zone.instant(workDate, time, days)
    && zone.clock(at) == time && zone.day(at) == zone.day(zone.instant(workDate, "00:00", days))
  }

  /** The interval an item stands for: from its start to the next time its end comes,
      at most one midnight after the work date, at times that exist, rounded a minute at
      least and sixteen hours at most; a break of a type the organization has now. */
  predicate StandsFor(zone: Zone, breakTypes: map<string, BreakType>, organization: string, workDate: int, item: Item,
                      i: Interval, start: nat, end: nat)
  {
    && start < 24 * 60 && end < 24 * 60 && item.start == ClockText(start) && item.end == ClockText(end)
    && i.start == item.start && i.end == item.end && i.nextDay == item.startNextDay
    && item.kind == (if i.work then "work" else "break")
    && !(item.startNextDay && end < start)
    && ReadsAs(zone, workDate, i.startAt, item.start, if item.startNextDay then 1 else 0)
    && ReadsAs(zone, workDate, i.endAt, item.end, if item.startNextDay || end < start then 1 else 0)
    && 30 <= i.endAt - i.startAt < 57630
    && if i.work then i.breakType == "" && i.breakTypeName == "" && !i.breakPaid
       else
         && i.breakType == item.breakType && item.breakType in breakTypes
         && breakTypes[item.breakType] == BreakType(organization, true, i.breakTypeName, i.breakPaid)
  }

  /** An item is accepted exactly as the interval it stands for. */
  lemma {:induction false} ItemsAreParsed(zone: Zone, breakTypes: map<string, BreakType>, organization: string,
                                          workDate: int, item: Item, i: Interval)
    ensures ParseItem(zone, breakTypes, organization, workDate, item) == Accepted(i)
      <==> exists start: nat, end: nat :: StandsFor(zone, breakTypes, organization, workDate, item, i, start, end)
  {
    hide ClockText, TimeMinutes;
    var start, end := TimeMinutes(item.start), TimeMinutes(item.end);
    ClockTextsAreRead(item.start, 0);
    ClockTextsAreRead(item.end, 0);
    if start >= 0 { ClockTextsAreRead(item.start, start); }
    if end >= 0 { ClockTextsAreRead(item.end, end); }
    if ParseItem(zone, breakTypes, organization, workDate, item) == Accepted(i) {
      assert StandsFor(zone, breakTypes, organization, workDate, item, i, start, end);
    }
    if exists s: nat, e: nat :: StandsFor(zone, breakTypes, organization, workDate, item, i, s, e) {
      var s: nat, e: nat :| StandsFor(zone, breakTypes, organization, workDate, item, i, s, e);
      ClockTextsAreRead(item.start, s);
      ClockTextsAreRead(item.end, e);
    }
  }

  /** The texts of an accepted interval are the zone's readings of its instants. */
  predicate PlacedInterval(zone: Zone, workDate: int, i: Interval) {
    && i.start == zone.clock(i.startAt) && i.end == zone.clock(i.endAt)
    && zone.day(i.startAt) == zone.day(zone.instant(workDate, "00:00", if i.nextDay then 1 else 0))
    && (i.work ==> i.breakType == "" && i.breakTypeName == "" && !i.breakPaid)
  }

  // ------------------------------------------------------------ the whole list

  /** What the checks after parsing demand, said of the sorted list. */
  predicate WellShaped(items: seq<Interval>) {
    && items != [] && items[0].work && items[|items| - 1].work
    && (forall i :: 0 <= i < |items| ==> items[i].startAt < items[i].endAt)
    && (forall i :: 1 <= i < |items| ==> items[i - 1].endAt <= items[i].startAt)
    && (forall i :: 0 <= i < |items| && !items[i].work ==> BreakIsAttached(items, i))
  }

  predicate BreakIsAttached(items: seq<Interval>, i: nat) {
    && 0 < i < |items| - 1
    && items[i - 1].work && items[i + 1].work
    && items[i - 1].endAt == items[i].startAt && items[i].endAt == items[i + 1].startAt
  }

  function WorkSeconds(items: seq<Interval>): int {
    if items == [] then 0
    else
      var last := items[|items| - 1];
      WorkSeconds(items[..|items| - 1]) + if last.work then last.endAt - last.startAt else 0
  }

  predicate Allowed(items: seq<Interval>, now: int) {
    WellShaped(items) && WorkSeconds(items) <= MAX_WORK && items[|items| - 1].endAt <= now
  }

  /** One shift: work, and any number of breaks with work after each, without a gap. */
  predicate OneShift(s: seq<Interval>) {
    && |s| % 2 == 1
    && forall i :: 0 <= i < |s| ==>
      && s[i].startAt < s[i].endAt && (s[i].work <==> i % 2 == 0)
      && (i > 0 ==> s[i - 1].endAt == s[i].startAt)
  }

  /** Whole shifts, one after another. */
  ghost predicate WholeShifts(items: seq<Interval>)
    decreases |items|, 1
  {
    exists n: nat :: ShiftThenShifts(items, n)
  }

  ghost predicate ShiftThenShifts(items: seq<Interval>, n: nat)
    decreases |items|, 0
  {
    && 1 <= n <= |items| && OneShift(items[..n])
    && (n < |items| ==> items[n - 1].endAt <= items[n].startAt && WholeShifts(items[n..]))
  }

  // Work and a break it leads into, before a shift that starts where the break ends.
  lemma {:induction false} LongerShift(items: seq<Interval>, n: nat)
    requires 2 < n <= |items| && OneShift(items[2..n]) && items[0].work && !items[1].work
    requires items[0].startAt < items[0].endAt == items[1].startAt < items[1].endAt == items[2].startAt
    ensures OneShift(items[..n])
  {
    var longer, shift := items[..n], items[2..n];
    forall i | 0 <= i < n
      ensures longer[i].startAt < longer[i].endAt && (longer[i].work <==> i % 2 == 0)
      ensures i > 0 ==> longer[i - 1].endAt == longer[i].startAt
    {
      if i >= 2 {
        var k := i - 2;
        assert longer[i] == shift[k] && k % 2 == i % 2;
        if i > 2 { assert longer[i - 1] == shift[k - 1]; }
      }
    }
  }

  lemma {:induction false} LongerFirstShift(items: seq<Interval>, n: nat)
    requires |items| > 2 && ShiftThenShifts(items[2..], n) && items[0].work && !items[1].work
    requires items[0].startAt < items[0].endAt == items[1].startAt < items[1].endAt == items[2].startAt
    ensures ShiftThenShifts(items, n + 2)
  {
    hide OneShift, WholeShifts;
    var rest := items[2..];
    assert rest[..n] == items[2..n + 2] && rest[n..] == items[n + 2..];
    LongerShift(items, n + 2);
  }

  lemma {:induction false} WellShapedIsWholeShifts(items: seq<Interval>)
    requires WellShaped(items)
    ensures WholeShifts(items)
  {
    hide BreakIsAttached;
    if |items| == 1 {
      assert ShiftThenShifts(items, 1);
    } else if items[1].work {
      ShapeOfRest(items, 1);
      WellShapedIsWholeShifts(items[1..]);
      assert ShiftThenShifts(items, 1);
    } else {
      AttachedBreak(items);
      ShapeOfRest(items, 2);
      WellShapedIsWholeShifts(items[2..]);
      var n: nat :| ShiftThenShifts(items[2..], n);
      LongerFirstShift(items, n);
    }
  }

  lemma {:induction false} AttachedBreak(items: seq<Interval>)
    requires WellShaped(items) && |items| > 1 && !items[1].work
    ensures |items| > 2 && items[0].work && items[2].work
    ensures items[0].startAt < items[0].endAt == items[1].startAt < items[1].endAt == items[2].startAt
  {
    assert BreakIsAttached(items, 1);
  }

  lemma {:induction false} ShapeOfRest(items: seq<Interval>, n: nat)
    requires WellShaped(items) && n < |items| && items[n].work
    ensures WellShaped(items[n..])
  {
    var rest := items[n..];
    forall i | 0 <= i < |rest| && !rest[i].work ensures BreakIsAttached(rest, i) {
      assert BreakIsAttached(items, i + n);
    }
  }

  lemma {:induction false} ShiftIsWellShaped(s: seq<Interval>)
    requires OneShift(s)
    ensures WellShaped(s)
  {
    forall i | 0 <= i < |s| && !s[i].work ensures BreakIsAttached(s, i) {
      assert s[i + 1].work;
    }
  }

  // Well-shaped lists, one after the other.
  lemma {:induction false} WellShapedAppend(a: seq<Interval>, b: seq<Interval>)
    requires WellShaped(a) && WellShaped(b) && a[|a| - 1].endAt <= b[0].startAt
    ensures WellShaped(a + b)
  {
    var items := a + b;
    forall i | 0 <= i < |items| && !items[i].work ensures BreakIsAttached(items, i) {
      if i < |a| { assert BreakIsAttached(a, i); } else { assert BreakIsAttached(b, i - |a|); }
    }
    forall i | 1 <= i < |items| ensures items[i - 1].endAt <= items[i].startAt {
      if i > |a| { assert b[i - |a| - 1].endAt <= b[i - |a|].startAt; }
    }
  }

  lemma {:induction false} WholeShiftsAreWellShaped(items: seq<Interval>)
    requires WholeShifts(items)
    ensures WellShaped(items)
  {
    hide OneShift, WellShaped;
    var n: nat :| ShiftThenShifts(items, n);
    var shift, rest := items[..n], items[n..];
    assert items == shift + rest;
    ShiftIsWellShaped(shift);
    if rest == [] {
      assert items == shift;
    } else {
      WholeShiftsAreWellShaped(rest);
      WellShapedAppend(shift, rest);
    }
  }

  /** What the checks of a sorted list allow is exactly a series of whole shifts of
      at most twenty-four hours of work, all of it past. */
  lemma {:induction false} AllowedListsAreShifts(items: seq<Interval>, now: int)
    ensures Allowed(items, now)
      <==> items != [] && WholeShifts(items) && WorkSeconds(items) <= 86400 && items[|items| - 1].endAt <= now
  {
    hide WorkSeconds, WholeShifts;
    if WholeShifts(items) { WholeShiftsAreWellShaped(items); }
    if WellShaped(items) { WellShapedIsWholeShifts(items); }
  }

  const START_OF: Interval -> int := (i: Interval) => i.startAt

  function ParsedUpTo(zone: Zone, breakTypes: map<string, BreakType>, organization: string, workDate: int,
                      items: seq<Item>): Outcome<seq<Interval>>
  {
    if items == [] then Accepted([])
    else
      match ParsedUpTo(zone, breakTypes, organization, workDate, items[..|items| - 1])
      case Refused(error) => Refused(error)
      case Accepted(earlier) =>
        match ParseItem(zone, breakTypes, organization, workDate, items[|items| - 1])
        case Refused(error) => Refused(error)
        case Accepted(interval) => Accepted(earlier + [interval])
  }

  /** The items are parsed one by one, each by itself, up to the first that is refused. */
  lemma {:induction false} ParsedOneByOne(zone: Zone, breakTypes: map<string, BreakType>, organization: string,
                                          workDate: int, items: seq<Item>)
    ensures var parsed := ParsedUpTo(zone, breakTypes, organization, workDate, items);
      && (parsed.Accepted? ==> |parsed.value| == |items| && forall k :: 0 <= k < |items| ==>
            ParseItem(zone, breakTypes, organization, workDate, items[k]) == Accepted(parsed.value[k]))
      && (parsed.Refused? ==> exists k ::
            && 0 <= k < |items|
            && ParseItem(zone, breakTypes, organization, workDate, items[k]) == Refused(parsed.error)
            && forall j :: 0 <= j < k ==> ParseItem(zone, breakTypes, organization, workDate, items[j]).Accepted?)
  {
    hide ParseItem;
    if items != [] {
      var n := |items| - 1;
      var earlier := ParsedUpTo(zone, breakTypes, organization, workDate, items[..n]);
      ParsedOneByOne(zone, breakTypes, organization, workDate, items[..n]);
      assert forall k :: 0 <= k < n ==> items[..n][k] == items[k];
      if earlier.Accepted? {
        assert forall j :: 0 <= j < n ==> ParseItem(zone, breakTypes, organization, workDate, items[j]).Accepted?;
        assert ParseItem(zone, breakTypes, organization, workDate, items[n]).Accepted? || items[n] in items;
      } else {
        var k :| 0 <= k < n
          && ParseItem(zone, breakTypes, organization, workDate, items[..n][k]) == Refused(earlier.error)
          && forall j :: 0 <= j < k ==> ParseItem(zone, breakTypes, organization, workDate, items[..n][j]).Accepted?;
        assert ParseItem(zone, breakTypes, organization, workDate, items[k]) == Refused(earlier.error);
        assert forall j :: 0 <= j < k ==> items[..n][j] == items[j];
      }
    }
  }

  /** `normalizeIntervals`. A list is accepted exactly when every item parses
      and the parsed intervals, in order of their starts, form whole shifts:
      work at both ends, no overlap, every break attached on both sides, at most
      a day of work, all of it past. */
  method NormalizeIntervals(zone: Zone, breakTypes: map<string, BreakType>, organization: string,
                            workDate: int, today: int, now: int, items: seq<Item>)
    returns (r: Outcome<seq<Interval>>)
    ensures var parsed := ParsedUpTo(zone, breakTypes, organization, workDate, items);
      r.Accepted? <==>
        && workDate <= today && 1 <= |items| <= 24
        && parsed.Accepted? && Allowed(Sort(START_OF, parsed.value), now)
    ensures r.Accepted? ==>
      && r.value == Sort(START_OF, ParsedUpTo(zone, breakTypes, organization, workDate, items).value)
      && forall i :: 0 <= i < |r.value| ==> PlacedInterval(zone, workDate, r.value[i])
  {
    hide Insert, ParseItem, PlacedInterval;
    if workDate > today { return Refused(FutureDay); }
    if |items| == 0 || |items| > MAX_ITEMS { return Refused(WrongCount); }
    var normalized := [];
    for i := 0 to |items|
      invariant ParsedUpTo(zone, breakTypes, organization, workDate, items[..i]) == Accepted(normalized)
      invariant |normalized| == i
      invariant forall k :: 0 <= k < i ==>
        PlacedInterval(zone, workDate, normalized[k]) && normalized[k].startAt < normalized[k].endAt
    {
      assert items[..i + 1][..i] == items[..i];
      var parsed := ParseItem(zone, breakTypes, organization, workDate, items[i]);
      if parsed.Refused? {
        RefusedStays(zone, breakTypes, organization, workDate, items, i + 1);
        return Refused(parsed.error);
      }
      normalized := normalized + [parsed.value];
    }
    assert items[..|items|] == items;
    SortSorts(START_OF, normalized);
    var sorted := Sort(START_OF, normalized);
    forall k | 0 <= k < |sorted|
      ensures PlacedInterval(zone, workDate, sorted[k]) && sorted[k].startAt < sorted[k].endAt
    {
      ElementsOf(sorted, normalized, k);
    }
    var error := ShapeError(sorted, now);
    if error != NoError { return Refused(error); }
    return Accepted(sorted);
  }

  lemma {:induction false} RefusedStays(zone: Zone, breakTypes: map<string, BreakType>, organization: string,
                                        workDate: int, items: seq<Item>, n: nat)
    requires n <= |items| && ParsedUpTo(zone, breakTypes, organization, workDate, items[..n]).Refused?
    ensures ParsedUpTo(zone, breakTypes, organization, workDate, items).Refused?
  {
    if n < |items| {
      assert items[..|items| - 1][..n] == items[..n];
      RefusedStays(zone, breakTypes, organization, workDate, items[..|items| - 1], n);
    } else {
      assert items[..n] == items;
    }
  }

  lemma {:induction false} NoWorkYet()
    ensures WorkSeconds([]) == 0
  {
  }

  lemma {:induction false} WorkSecondsOneMore(items: seq<Interval>, i: nat)
    requires i < |items|
    ensures WorkSeconds(items[..i + 1])
      == WorkSeconds(items[..i]) + if items[i].work then items[i].endAt - items[i].startAt else 0
  {
    assert items[..i + 1][..i] == items[..i];
  }

  /** The checks over the sorted list, in the code's order. */
  method ShapeError(items: seq<Interval>, now: int) returns (error: IntervalError)
    requires items != [] && forall i :: 0 <= i < |items| ==> items[i].startAt < items[i].endAt
    ensures error == NoError <==> Allowed(items, now)
  {
    hide WorkSeconds;
    NoWorkYet();
    var n := |items|;
    if !items[0].work || !items[n - 1].work { return NotWorkAtEnds; }
    var worked := 0;
    for i := 0 to n
      invariant worked == WorkSeconds(items[..i])
      invariant forall k :: 1 <= k < i ==> items[k - 1].endAt <= items[k].startAt
      invariant forall k :: 0 <= k < i && !items[k].work ==> BreakIsAttached(items, k)
    {
      assert items[..i + 1][..i] == items[..i];
      WorkSecondsOneMore(items, i);
      if i > 0 && items[i].startAt < items[i - 1].endAt { return Overlap; }
      if items[i].work { worked := worked + (items[i].endAt - items[i].startAt); }
      if !items[i].work
        && (i == 0 || i == n - 1 || !items[i - 1].work || !items[i + 1].work
            || items[i - 1].endAt != items[i].startAt || items[i].endAt != items[i + 1].startAt)
      {
        return LooseBreak;
      }
    }
    assert items[..n] == items;
    if worked > MAX_WORK { return TooMuchWork; }
    if items[n - 1].endAt > now { return NotFinished; }
    return NoError;
  }

  // -------------------------------------------------------- from list to events

  predicate JoinsPrevious(items: seq<Interval>, i: nat)
    requires i < |items|
  {
    i > 0 && !items[i - 1].work && items[i - 1].endAt == items[i].startAt
  }

  predicate JoinsNext(items: seq<Interval>, i: nat)
    requires i < |items|
  {
    i + 1 < |items| && !items[i + 1].work && items[i].endAt == items[i + 1].startAt
  }

  function MarksOfItem(items: seq<Interval>, i: nat): seq<Mark>
    requires i < |items|
  {
    var item := items[i];
    if item.work then
      (if JoinsPrevious(items, i) then [] else [Mark(ClockIn, item.startAt, "", false)])
      + (if JoinsNext(items, i) then [] else [Mark(ClockOut, item.endAt, "", false)])
    else
      [Mark(BreakStart, item.startAt, item.breakType, item.breakPaid),
       Mark(BreakEnd, item.endAt, item.breakType, item.breakPaid)]
  }

  /** The events of the first n items. */
  function Compiled(items: seq<Interval>, n: nat): seq<Mark>
    requires n <= |items|
  {
    if n == 0 then [] else Compiled(items, n - 1) + MarksOfItem(items, n - 1)
  }

  const AT_OF: Mark -> int := (m: Mark) => m.at

  /** The compiled events in time order; for an accepted list, as they were compiled. */
  ghost predicate SpecifiedBy(items: seq<Interval>, specifications: seq<Mark>) {
    && specifications == Sort(AT_OF, Compiled(items, |items|))
    && (WellShaped(items) ==> specifications == Compiled(items, |items|))
  }

  /** The specification list of `materializeRequest`, after its sort. */
  method Specifications(items: seq<Interval>) returns (specifications: seq<Mark>)
    ensures SpecifiedBy(items, specifications)
  {
    specifications := [];
    for i := 0 to |items|
      invariant specifications == Compiled(items, i)
    {
      var item := items[i];
      if item.work {
        if i == 0 || items[i - 1].work || items[i - 1].endAt != item.startAt {
          specifications := specifications + [Mark(ClockIn, item.startAt, "", false)];
        }
        if i + 1 == |items| || items[i + 1].work || item.endAt != items[i + 1].startAt {
          specifications := specifications + [Mark(ClockOut, item.endAt, "", false)];
        }
      } else {
        specifications := specifications + [Mark(BreakStart, item.startAt, item.breakType, item.breakPaid)];
        specifications := specifications + [Mark(BreakEnd, item.endAt, item.breakType, item.breakPaid)];
      }
    }
    if WellShaped(items) {
      CompiledIsOrdered(items, |items|);
      SortOfSorted(AT_OF, specifications);
    }
    specifications := Sort(AT_OF, specifications);
  }

  predicate Within(marks: seq<Mark>, low: int, high: int) {
    forall k :: 0 <= k < |marks| ==> low <= marks[k].at <= high
  }

  lemma {:induction false} ItemMarksInOrder(items: seq<Interval>, i: nat)
    requires i < |items| && items[i].startAt < items[i].endAt
    ensures SortedBy(AT_OF, MarksOfItem(items, i)) && Within(MarksOfItem(items, i), items[i].startAt, items[i].endAt)
  {
  }

  /** An accepted list is already compiled in time order, inside its own extent. */
  lemma {:induction false} CompiledIsOrdered(items: seq<Interval>, n: nat)
    requires WellShaped(items) && n <= |items|
    ensures SortedBy(AT_OF, Compiled(items, n))
    ensures n > 0 ==> Within(Compiled(items, n), items[0].startAt, items[n - 1].endAt)
  {
    hide MarksOfItem;
    if n > 0 {
      CompiledIsOrdered(items, n - 1);
      StartsRise(items, n - 1);
      ItemMarksInOrder(items, n - 1);
    }
  }

  lemma {:induction false} StartsRise(items: seq<Interval>, n: nat)
    requires WellShaped(items) && n < |items|
    ensures items[0].startAt <= items[n].startAt
  {
    if n > 0 { StartsRise(items, n - 1); }
  }
}
