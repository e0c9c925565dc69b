/** Closing a month: worked, planned, ordinary, complementary and overtime
    minutes, day by day. Days are day numbers and `midnight` gives the instant
    each one starts at. */
module MonthClosing {
  import opened Bytes
  import opened Timesheet
  import opened WorkSpans
  import Calendar

  datatype Absence = NoAbsence | FullDay | HalfDay

  /** The employee's terms and what the month's records say about each day. */
  datatype Terms = Terms(
    weekly: bool, partTime: bool, agreement: bool, quota: nat,
    planned: int -> nat, absence: int -> Absence, anomalous: int -> bool)

  datatype DayRecord = DayRecord(day: int, planned: int, worked: int, ordinary: int, complementary: int, overtime: int)

  datatype Totals = Totals(planned: int, worked: int, ordinary: int, complementary: int, overtime: int)

  datatype Closing = Closed(days: seq<DayRecord>, totals: Totals) | AnomalousDay | NoAgreement

  const NOTHING := Totals(0, 0, 0, 0, 0)

  function Max(a: int, b: int): int { if a < b then b else a }
  function Min(a: int, b: int): int { if a < b then a else b }

  // ------------------------------------------------------------------- minutes

  /** The minutes of one span that fall between two instants. */
  function Overlap(span: Span, from: int, until: int): int {
    var start, end := Max(span.start, from), Min(span.end, until);
    if end > start then RoundedMinutes(end - start) else 0
  }

  function MinutesIn(spans: seq<Span>, from: int, until: int): int {
    if spans == [] then 0
    else MinutesIn(spans[..|spans| - 1], from, until) + Overlap(spans[|spans| - 1], from, until)
  }

  /** The overlap loop. */
  method CountMinutes(spans: seq<Span>, from: int, until: int) returns (minutes: int)
    ensures minutes == MinutesIn(spans, from, until)
  {
    minutes := 0;
    for i := 0 to |spans|
      invariant minutes == MinutesIn(spans[..i], from, until)
    {
      assert spans[..i + 1][..i] == spans[..i];
      var overlapStart, overlapEnd := Max(spans[i].start, from), Min(spans[i].end, until);
      if overlapEnd > overlapStart {
        minutes := minutes + RoundedMinutes(overlapEnd - overlapStart);
      }
    }
    assert spans[..|spans|] == spans;
  }

  // --------------------------------------------------------------------- one day

  /** Sunday is 0; day number 0 is a Thursday. */
  function WeekdayOf(day: int): int { (day + 4) % 7 }

  function MondayOf(day: int): int { day - (WeekdayOf(day) + 6) % 7 }

  /** The plan's weekday formula and the quota's week agree on every date, and
      the quota's week runs from the Monday at or before the date. */
  lemma {:induction false} PlanAndQuotaShareTheWeek(date: Calendar.Date)
    requires Calendar.Valid(date)
    ensures var day := Calendar.DayNumber(date);
      && Calendar.Weekday(date) == WeekdayOf(day)
      && MondayOf(day) <= day < MondayOf(day) + 7 && WeekdayOf(MondayOf(day)) == 1
  {
    hide Calendar.DayNumber, Calendar.Weekday;
    Calendar.WeekdayFromDayNumber(date);
  }

  function PlannedOn(t: Terms, day: int): int {
    match t.absence(day)
    case FullDay => 0
    case HalfDay => (t.planned(day) + 1) / 2
    case NoAbsence => t.planned(day)
  }

  function WorkedOn(spans: seq<Span>, midnight: int -> int, day: int): int {
    MinutesIn(spans, midnight(day), midnight(day + 1))
  }

  function WorkedBefore(spans: seq<Span>, midnight: int -> int, day: int): int {
    MinutesIn(spans, midnight(MondayOf(day)), midnight(day))
  }

  function OrdinaryOn(t: Terms, spans: seq<Span>, midnight: int -> int, day: int): int {
    var worked := WorkedOn(spans, midnight, day);
    if t.weekly then Min(worked, Max(0, t.quota - WorkedBefore(spans, midnight, day)))
    else Min(worked, PlannedOn(t, day))
  }

  function RecordOn(t: Terms, spans: seq<Span>, midnight: int -> int, day: int): DayRecord {
    var worked, ordinary := WorkedOn(spans, midnight, day), OrdinaryOn(t, spans, midnight, day);
    var excess := Max(0, worked - ordinary);
    DayRecord(day, PlannedOn(t, day), worked, ordinary, if t.partTime then excess else 0,
              if t.partTime then 0 else excess)
  }

  function AddDay(totals: Totals, r: DayRecord): Totals {
    Totals(totals.planned + r.planned, totals.worked + r.worked, totals.ordinary + r.ordinary,
           totals.complementary + r.complementary, totals.overtime + r.overtime)
  }

  function Records(t: Terms, spans: seq<Span>, midnight: int -> int, first: int, days: nat): seq<DayRecord> {
    if days == 0 then []
    else Records(t, spans, midnight, first, days - 1) + [RecordOn(t, spans, midnight, first + days - 1)]
  }

  function Summed(records: seq<DayRecord>): Totals {
    if records == [] then NOTHING else AddDay(Summed(records[..|records| - 1]), records[|records| - 1])
  }

  predicate Refused(t: Terms, spans: seq<Span>, midnight: int -> int, day: int) {
    t.anomalous(day) || (t.partTime && !t.agreement && RecordOn(t, spans, midnight, day).complementary > 0)
  }

  // ------------------------------------------------------- what a record has to say

  predicate IsLesser(x: int, a: int, b: int) { x <= a && x <= b && (x == a || x == b) }

  /** The plan of a day with an absence: none of it, or half of it rounded up. */
  predicate IsPlanned(t: Terms, day: int, planned: int) {
    match t.absence(day)
    case FullDay => planned == 0
    case HalfDay => t.planned(day) <= 2 * planned <= t.planned(day) + 1
    case NoAbsence => planned == t.planned(day)
  }

  /** The ordinary minutes of a day: what fits its plan, or in weekly mode what the days
      since Monday have left of the quota. */
  predicate IsOrdinary(t: Terms, spans: seq<Span>, midnight: int -> int, day: int, planned: int, ordinary: int) {
    var worked := MinutesIn(spans, midnight(day), midnight(day + 1));
    var before := MinutesIn(spans, midnight(MondayOf(day)), midnight(day));
    if !t.weekly then IsLesser(ordinary, worked, planned)
    else if before >= t.quota then ordinary == 0
    else IsLesser(ordinary, worked, t.quota - before)
  }

  /** A day's record: what a part-timer works beyond the ordinary minutes is
      complementary, what anybody else does is overtime. */
  predicate IsRecord(t: Terms, spans: seq<Span>, midnight: int -> int, r: DayRecord) {
    && r.worked == MinutesIn(spans, midnight(r.day), midnight(r.day + 1))
    && IsPlanned(t, r.day, r.planned) && IsOrdinary(t, spans, midnight, r.day, r.planned, r.ordinary)
    && (t.partTime ==> r.overtime == 0 && r.complementary == r.worked - r.ordinary)
    && (!t.partTime ==> r.complementary == 0 && r.overtime == r.worked - r.ordinary)
  }

  /** A part-timer without an agreement who worked more than the ordinary minutes. */
  ghost predicate LacksAgreement(t: Terms, spans: seq<Span>, midnight: int -> int, day: int) {
    && t.partTime && !t.agreement
    && exists r :: IsRecord(t, spans, midnight, r) && r.day == day && r.worked > r.ordinary
  }

  lemma {:induction false} RecordIs(t: Terms, spans: seq<Span>, midnight: int -> int, day: int)
    ensures IsRecord(t, spans, midnight, RecordOn(t, spans, midnight, day))
    ensures RecordOn(t, spans, midnight, day).day == day
  {
    hide MinutesIn;
    MinutesNotNegative(spans, midnight(day), midnight(day + 1));
  }

  /** There is one such record for each day. */
  lemma {:induction false} OneRecord(t: Terms, spans: seq<Span>, midnight: int -> int, r: DayRecord)
    requires IsRecord(t, spans, midnight, r)
    ensures r == RecordOn(t, spans, midnight, r.day)
  {
    hide MinutesIn;
    RecordIs(t, spans, midnight, r.day);
  }

  lemma {:induction false} WhoLacksAgreement(t: Terms, spans: seq<Span>, midnight: int -> int, day: int)
    ensures LacksAgreement(t, spans, midnight, day)
      <==> t.partTime && !t.agreement && RecordOn(t, spans, midnight, day).complementary > 0
  {
    hide IsRecord, RecordOn;
    RecordIs(t, spans, midnight, day);
    var mine := RecordOn(t, spans, midnight, day);
    if t.partTime { PartTimeRecord(t, spans, midnight, mine); }
    if LacksAgreement(t, spans, midnight, day) {
      var r :| IsRecord(t, spans, midnight, r) && r.day == day && r.worked > r.ordinary;
      OneRecord(t, spans, midnight, r);
    }
  }

  lemma {:induction false} PartTimeRecord(t: Terms, spans: seq<Span>, midnight: int -> int, r: DayRecord)
    requires t.partTime && IsRecord(t, spans, midnight, r)
    ensures r.complementary == r.worked - r.ordinary
  {
  }

  /** One of the totals, by itself. */
  function SumOf(part: DayRecord -> int, records: seq<DayRecord>): int {
    if records == [] then 0 else part(records[0]) + SumOf(part, records[1..])
  }

  lemma {:induction false} SumOfOneMore(part: DayRecord -> int, records: seq<DayRecord>, r: DayRecord)
    ensures SumOf(part, records + [r]) == SumOf(part, records) + part(r)
  {
    if records == [] {
      assert [] + [r] == [r] && SumOf(part, [r][1..]) == 0;
    } else {
      assert (records + [r])[1..] == records[1..] + [r];
      SumOfOneMore(part, records[1..], r);
    }
  }

  /** Each of the month's totals is the sum of that part over its days. */
  lemma {:induction false} TotalsAreSums(records: seq<DayRecord>)
    ensures Summed(records).planned == SumOf((r: DayRecord) => r.planned, records)
    ensures Summed(records).worked == SumOf((r: DayRecord) => r.worked, records)
    ensures Summed(records).ordinary == SumOf((r: DayRecord) => r.ordinary, records)
    ensures Summed(records).complementary == SumOf((r: DayRecord) => r.complementary, records)
    ensures Summed(records).overtime == SumOf((r: DayRecord) => r.overtime, records)
  {
    if records != [] {
      hide SumOf;
      var earlier, last := records[..|records| - 1], records[|records| - 1];
      assert records == earlier + [last];
      TotalsAreSums(earlier);
      SumOfOneMore((r: DayRecord) => r.planned, earlier, last);
      SumOfOneMore((r: DayRecord) => r.worked, earlier, last);
      SumOfOneMore((r: DayRecord) => r.ordinary, earlier, last);
      SumOfOneMore((r: DayRecord) => r.complementary, earlier, last);
      SumOfOneMore((r: DayRecord) => r.overtime, earlier, last);
    } else {
      NoSums();
    }
  }

  lemma {:induction false} NoSums()
    ensures forall part :: SumOf(part, []) == 0
  {
  }

  /** One round of the day loop; nothing for an excess without its agreement. */
  method CloseDay(t: Terms, spans: seq<Span>, midnight: int -> int, day: int) returns (r: Option<DayRecord>)
    ensures r.None? <==> t.partTime && !t.agreement && RecordOn(t, spans, midnight, day).complementary > 0
    ensures r.Some? ==> r.value == RecordOn(t, spans, midnight, day)
    ensures r.None? <==> LacksAgreement(t, spans, midnight, day)
    ensures r.Some? ==> r.value.day == day && IsRecord(t, spans, midnight, r.value)
  {
    hide MinutesIn, LacksAgreement, IsRecord;
    RecordIs(t, spans, midnight, day);
    WhoLacksAgreement(t, spans, midnight, day);
    MinutesNotNegative(spans, midnight(day), midnight(day + 1));
    var worked := CountMinutes(spans, midnight(day), midnight(day + 1));
    var planned: int := t.planned(day);
    var absence := t.absence(day);
    if absence.FullDay? {
      planned := 0;
    } else if absence.HalfDay? {
      planned := (planned + 1) / 2;
    }
    var ordinary := Min(worked, planned);
    if t.weekly {
      var workedBefore := CountMinutes(spans, midnight(MondayOf(day)), midnight(day));
      ordinary := Min(worked, Max(0, t.quota - workedBefore));
    }
    var excess := Max(0, worked - ordinary);
    var complementary, overtime := 0, 0;
    if t.partTime {
      if excess != 0 && !t.agreement { return None; }
      complementary := excess;
    } else {
      overtime := excess;
    }
    r := Some(DayRecord(day, planned, worked, ordinary, complementary, overtime));
  }

  ghost predicate Obstacle(t: Terms, spans: seq<Span>, midnight: int -> int, day: int) {
    t.anomalous(day) || LacksAgreement(t, spans, midnight, day)
  }

  /** The first day that keeps the month from being closed, and what is said of it. */
  ghost predicate FirstObstacle(t: Terms, spans: seq<Span>, midnight: int -> int, first: int, day: int, c: Closing) {
    && Obstacle(t, spans, midnight, day) && (forall d :: first <= d < day ==> !Obstacle(t, spans, midnight, d))
    && c == if t.anomalous(day) then AnomalousDay else NoAgreement
  }

  /** The day loop of `monthlyStatementData`. The month is closed exactly when no
      day is anomalous and no excess lacks its agreement. */
  method CloseMonth(t: Terms, spans: seq<Span>, midnight: int -> int, first: int, days: nat) returns (c: Closing)
    ensures c.Closed? <==> forall d :: first <= d < first + days ==> !Refused(t, spans, midnight, d)
    ensures c.Closed? ==>
      c.days == Records(t, spans, midnight, first, days) && c.totals == Summed(Records(t, spans, midnight, first, days))
    ensures c.Closed? <==> forall d :: first <= d < first + days ==> !Obstacle(t, spans, midnight, d)
    ensures c.Closed? ==> |c.days| == days && forall i :: 0 <= i < days ==>
      c.days[i].day == first + i && IsRecord(t, spans, midnight, c.days[i])
    ensures !c.Closed? ==> exists d :: first <= d < first + days && FirstObstacle(t, spans, midnight, first, d, c)
  {
    hide RecordOn, MinutesIn, Records, Summed, Refused, LacksAgreement, IsRecord, Obstacle;
    NothingClosed(t, spans, midnight, first);
    var dailyRecords: seq<DayRecord> := [];
    var contracted, total, ordinaryTotal, complementaryTotal, overtimeTotal := 0, 0, 0, 0, 0;
    for i := 0 to days
      invariant dailyRecords == Records(t, spans, midnight, first, i)
      invariant Totals(contracted, total, ordinaryTotal, complementaryTotal, overtimeTotal) == Summed(dailyRecords)
      invariant forall d :: first <= d < first + i ==> !Refused(t, spans, midnight, d)
      invariant forall d :: first <= d < first + i ==> !Obstacle(t, spans, midnight, d)
      invariant |dailyRecords| == i && forall k :: 0 <= k < i ==>
        dailyRecords[k].day == first + k && IsRecord(t, spans, midnight, dailyRecords[k])
    {
      var day := first + i;
      WhenRefused(t, spans, midnight, day);
      WhenObstacle(t, spans, midnight, day);
      if t.anomalous(day) {
        assert FirstObstacle(t, spans, midnight, first, day, AnomalousDay);
        return AnomalousDay;
      }
      var closed := CloseDay(t, spans, midnight, day);
      if closed.None? {
        assert FirstObstacle(t, spans, midnight, first, day, NoAgreement);
        return NoAgreement;
      }
      var record := closed.value;
      contracted, total := contracted + record.planned, total + record.worked;
      ordinaryTotal := ordinaryTotal + record.ordinary;
      complementaryTotal, overtimeTotal := complementaryTotal + record.complementary, overtimeTotal + record.overtime;
      SummedOneMore(dailyRecords, record);
      RecordsOneMore(t, spans, midnight, first, i);
      dailyRecords := dailyRecords + [record];
    }
    c := Closed(dailyRecords, Totals(contracted, total, ordinaryTotal, complementaryTotal, overtimeTotal));
  }

  lemma {:induction false} WhenObstacle(t: Terms, spans: seq<Span>, midnight: int -> int, day: int)
    ensures Obstacle(t, spans, midnight, day) <==> t.anomalous(day) || LacksAgreement(t, spans, midnight, day)
  {
  }

  lemma {:induction false} NothingClosed(t: Terms, spans: seq<Span>, midnight: int -> int, first: int)
    ensures Records(t, spans, midnight, first, 0) == [] && Summed([]) == NOTHING
  {
  }

  lemma {:induction false} RecordsOneMore(t: Terms, spans: seq<Span>, midnight: int -> int, first: int, days: nat)
    ensures Records(t, spans, midnight, first, days + 1)
      == Records(t, spans, midnight, first, days) + [RecordOn(t, spans, midnight, first + days)]
  {
  }

  lemma {:induction false} SummedOneMore(records: seq<DayRecord>, r: DayRecord)
    ensures Summed(records + [r]) == AddDay(Summed(records), r)
  {
    assert (records + [r])[..|records|] == records;
  }

  lemma {:induction false} WhenRefused(t: Terms, spans: seq<Span>, midnight: int -> int, day: int)
    ensures Refused(t, spans, midnight, day) <==>
      t.anomalous(day) || (t.partTime && !t.agreement && RecordOn(t, spans, midnight, day).complementary > 0)
  {
  }

  // ------------------------------------------------------------ what adds up

  /** Midnights on whole minutes and in order, spans not backwards, and a span that
      a midnight cuts on a whole minute at one of its ends at least. */
  ghost predicate WholeCuts(spans: seq<Span>, midnight: int -> int) {
    && (forall i :: 0 <= i < |spans| ==> spans[i].start <= spans[i].end)
    && (forall d :: midnight(d) % 60 == 0)
    && (forall d, e :: d < e ==> midnight(d) < midnight(e))
    && (forall i, d :: 0 <= i < |spans| ==> CutWell(spans[i], midnight(d)))
  }

  predicate CutWell(span: Span, at: int) {
    span.start < at < span.end ==> span.start % 60 == 0 || span.end % 60 == 0
  }

  predicate OnWholeMinutes(spans: seq<Span>) {
    forall i :: 0 <= i < |spans| ==> spans[i].start % 60 == 0 && spans[i].end % 60 == 0
  }

  lemma {:induction false} RoundedPieces(a: int, b: int)
    requires a % 60 == 0 || b % 60 == 0
    ensures RoundedMinutes(a + b) == RoundedMinutes(a) + RoundedMinutes(b)
  {
  }

  // The seconds of a span between two instants.
  function Length(span: Span, from: int, until: int): int {
    Max(0, Min(span.end, until) - Max(span.start, from))
  }

  lemma {:induction false} OverlapOfLength(span: Span, from: int, until: int)
    ensures Overlap(span, from, until) == RoundedMinutes(Length(span, from, until))
    ensures Overlap(span, from, until) >= 0
  {
  }

  lemma {:induction false} OverlapAddsUp(span: Span, from: int, middle: int, until: int)
    requires span.start <= span.end && from % 60 == 0 && middle % 60 == 0 && until % 60 == 0 && from <= middle <= until
    requires CutWell(span, middle)
    ensures Overlap(span, from, until) == Overlap(span, from, middle) + Overlap(span, middle, until)
  {
    hide RoundedMinutes;
    var a, b := Length(span, from, middle), Length(span, middle, until);
    OverlapOfLength(span, from, middle);
    OverlapOfLength(span, middle, until);
    OverlapOfLength(span, from, until);
    assert Length(span, from, until) == a + b;
    if span.start < middle < span.end {
      WholeDifference(middle, Max(span.start, from));
      WholeDifference(Min(span.end, until), middle);
      assert a % 60 == 0 || b % 60 == 0;
    } else {
      assert a == 0 || b == 0;
    }
    RoundedPieces(a, b);
  }

  lemma {:induction false} WholeDifference(a: int, b: int)
    ensures a % 60 == 0 && b % 60 == 0 ==> (a - b) % 60 == 0
  {
  }

  lemma {:induction false} MinutesAddUp(spans: seq<Span>, from: int, middle: int, until: int)
    requires forall i :: 0 <= i < |spans| ==> spans[i].start <= spans[i].end && CutWell(spans[i], middle)
    requires from % 60 == 0 && middle % 60 == 0 && until % 60 == 0 && from <= middle <= until
    ensures MinutesIn(spans, from, until) == MinutesIn(spans, from, middle) + MinutesIn(spans, middle, until)
  {
    hide Overlap, CutWell;
    if spans != [] {
      MinutesAddUp(spans[..|spans| - 1], from, middle, until);
      OverlapAddsUp(spans[|spans| - 1], from, middle, until);
    }
  }

  lemma {:induction false} MinutesNotNegative(spans: seq<Span>, from: int, until: int)
    ensures MinutesIn(spans, from, until) >= 0
  {
    hide Overlap;
    if spans != [] {
      MinutesNotNegative(spans[..|spans| - 1], from, until);
      OverlapOfLength(spans[|spans| - 1], from, until);
    }
  }

  /** The spans' time between two instants. */
  function Seconds(spans: seq<Span>, from: int, until: int): int {
    if spans == [] then 0 else Seconds(spans[..|spans| - 1], from, until) + Length(spans[|spans| - 1], from, until)
  }

  /** How many pieces of spans lie between two instants: each is rounded by itself. */
  function Pieces(spans: seq<Span>, from: int, until: int): nat {
    if spans == [] then 0
    else Pieces(spans[..|spans| - 1], from, until) + if Length(spans[|spans| - 1], from, until) > 0 then 1 else 0
  }

  lemma {:induction false} MinutesRoundSeconds(spans: seq<Span>, from: int, until: int)
    ensures -30 * Pieces(spans, from, until) <= 60 * MinutesIn(spans, from, until) - Seconds(spans, from, until)
      <= 30 * Pieces(spans, from, until)
    ensures OnWholeMinutes(spans) && from % 60 == 0 && until % 60 == 0 ==>
      60 * MinutesIn(spans, from, until) == Seconds(spans, from, until)
  {
    hide Overlap, Length;
    if spans != [] {
      var span := spans[|spans| - 1];
      MinutesRoundSeconds(spans[..|spans| - 1], from, until);
      OverlapOfLength(span, from, until);
      LengthIsWhole(span, from, until);
    }
  }

  lemma {:induction false} LengthIsWhole(span: Span, from: int, until: int)
    ensures Length(span, from, until) >= 0
    ensures span.start % 60 == 0 && span.end % 60 == 0 && from % 60 == 0 && until % 60 == 0 ==>
      Length(span, from, until) % 60 == 0
  {
    WholeDifference(Min(span.end, until), Max(span.start, from));
  }

  lemma {:induction false} SecondsAddUp(spans: seq<Span>, from: int, middle: int, until: int)
    requires from <= middle <= until
    ensures Seconds(spans, from, until) == Seconds(spans, from, middle) + Seconds(spans, middle, until)
  {
    if spans != [] { SecondsAddUp(spans[..|spans| - 1], from, middle, until); }
  }

  lemma {:induction false} NoSeconds(spans: seq<Span>, at: int)
    ensures Seconds(spans, at, at) == 0
  {
    if spans != [] { NoSeconds(spans[..|spans| - 1], at); }
  }

  lemma {:induction false} MidnightsInOrder(spans: seq<Span>, midnight: int -> int, d: int, e: int)
    requires WholeCuts(spans, midnight) && d <= e
    ensures midnight(d) <= midnight(e) && midnight(d) % 60 == 0
  {
  }

  lemma {:induction false} NoMinutes(spans: seq<Span>, at: int)
    requires forall i :: 0 <= i < |spans| ==> spans[i].start <= spans[i].end
    ensures MinutesIn(spans, at, at) == 0
  {
    if spans != [] { NoMinutes(spans[..|spans| - 1], at); }
  }

  /** The pieces of the spans in each of the days. */
  function PiecesByDay(spans: seq<Span>, midnight: int -> int, first: int, days: nat): nat {
    if days == 0 then 0
    else
      PiecesByDay(spans, midnight, first, days - 1)
      + Pieces(spans, midnight(first + days - 1), midnight(first + days))
  }

  /** The days' minutes are together the spans' time inside the month, to half a
      minute for each piece a day has of a span and exactly where all is on whole
      minutes; and in the month as on each day ordinary, complementary and overtime
      make up what was worked. */
  lemma {:induction false} MonthAddsUp(t: Terms, spans: seq<Span>, midnight: int -> int, first: int, days: nat)
    requires forall d, e :: d < e ==> midnight(d) < midnight(e)
    ensures var records := Records(t, spans, midnight, first, days);
      var totals := Summed(records);
      var error := 60 * totals.worked - Seconds(spans, midnight(first), midnight(first + days));
      && -30 * PiecesByDay(spans, midnight, first, days) <= error <= 30 * PiecesByDay(spans, midnight, first, days)
      && (OnWholeMinutes(spans) && (forall d :: midnight(d) % 60 == 0) ==> error == 0)
      && totals.ordinary + totals.complementary + totals.overtime == totals.worked
      && forall i :: 0 <= i < |records| ==> AddsUp(records[i])
  {
    hide Records, Summed, Seconds, MinutesIn, Pieces, RecordOn;
    DaysAddUp(t, spans, midnight, first, days);
    if days == 0 {
      NothingClosed(t, spans, midnight, first);
      NoSeconds(spans, midnight(first));
    } else {
      var last := first + days - 1;
      MonthAddsUp(t, spans, midnight, first, days - 1);
      RecordsOneMore(t, spans, midnight, first, days - 1);
      SummedOneMore(Records(t, spans, midnight, first, days - 1), RecordOn(t, spans, midnight, last));
      RecordWorked(t, spans, midnight, last);
      MinutesRoundSeconds(spans, midnight(last), midnight(last + 1));
      assert midnight(first) <= midnight(last) < midnight(last + 1);
      SecondsAddUp(spans, midnight(first), midnight(last), midnight(last + 1));
    }
  }

  lemma {:induction false} SpansForward(spans: seq<Span>, midnight: int -> int)
    requires WholeCuts(spans, midnight)
    ensures forall i :: 0 <= i < |spans| ==> spans[i].start <= spans[i].end
    ensures forall i, d :: 0 <= i < |spans| ==> CutWell(spans[i], midnight(d))
  {
  }

  lemma {:induction false} RecordWorked(t: Terms, spans: seq<Span>, midnight: int -> int, day: int)
    ensures RecordOn(t, spans, midnight, day).worked == MinutesIn(spans, midnight(day), midnight(day + 1))
    ensures RecordOn(t, spans, midnight, day).ordinary == OrdinaryOn(t, spans, midnight, day)
  {
    hide MinutesIn;
  }

  lemma {:induction false} OrdinaryWithinWorked(t: Terms, spans: seq<Span>, midnight: int -> int, day: int)
    ensures OrdinaryOn(t, spans, midnight, day) <= WorkedOn(spans, midnight, day)
  {
    hide MinutesIn;
  }

  predicate AddsUp(r: DayRecord) {
    r.ordinary + r.complementary + r.overtime == r.worked
  }

  lemma {:induction false} RecordAddsUp(t: Terms, spans: seq<Span>, midnight: int -> int, day: int)
    ensures AddsUp(RecordOn(t, spans, midnight, day))
  {
    hide MinutesIn;
    OrdinaryWithinWorked(t, spans, midnight, day);
  }

  lemma {:induction false} DaysAddUp(t: Terms, spans: seq<Span>, midnight: int -> int, first: int, days: nat)
    ensures var records := Records(t, spans, midnight, first, days);
      var totals := Summed(records);
      && totals.ordinary + totals.complementary + totals.overtime == totals.worked
      && forall i :: 0 <= i < |records| ==> AddsUp(records[i])
  {
    hide RecordOn, Summed;
    if days > 0 {
      DaysAddUp(t, spans, midnight, first, days - 1);
      RecordAddsUp(t, spans, midnight, first + days - 1);
      SummedOneMore(Records(t, spans, midnight, first, days - 1), RecordOn(t, spans, midnight, first + days - 1));
    } else {
      NothingSummed();
    }
  }

  lemma {:induction false} NothingSummed()
    ensures Summed([]) == NOTHING
  {
  }

  // ----------------------------------------------------------- the weekly quota

  /** Work from the week's Monday up to a midnight of that week or its end. */
  function WorkedUpTo(spans: seq<Span>, midnight: int -> int, monday: int, day: int): int {
    MinutesIn(spans, midnight(monday), midnight(day))
  }

  lemma {:induction false} DayUsesQuota(t: Terms, spans: seq<Span>, midnight: int -> int, day: int)
    requires WholeCuts(spans, midnight) && t.weekly
    ensures var monday := MondayOf(day);
      OrdinaryOn(t, spans, midnight, day)
        == Min(t.quota, WorkedUpTo(spans, midnight, monday, day + 1))
           - Min(t.quota, WorkedUpTo(spans, midnight, monday, day))
  {
    hide MinutesIn, WholeCuts;
    var monday := MondayOf(day);
    MidnightsInOrder(spans, midnight, monday, day);
    MidnightsInOrder(spans, midnight, day, day + 1);
    MidnightsInOrder(spans, midnight, day + 1, day + 1);
    SpansForward(spans, midnight);
    MinutesNotNegative(spans, midnight(day), midnight(day + 1));
    MinutesAddUp(spans, midnight(monday), midnight(day), midnight(day + 1));
  }

  /** In weekly mode the ordinary minutes of any run of days of one week, as one
      replay shows them, are what the quota still had to give. */
  lemma {:induction false} QuotaIsUsedOnce(t: Terms, spans: seq<Span>, midnight: int -> int, first: int, days: nat)
    requires WholeCuts(spans, midnight) && t.weekly
    requires forall d :: first <= d < first + days ==> MondayOf(d) == MondayOf(first)
    ensures var monday := MondayOf(first);
      Summed(Records(t, spans, midnight, first, days)).ordinary
        == Min(t.quota, WorkedUpTo(spans, midnight, monday, first + days))
           - Min(t.quota, WorkedUpTo(spans, midnight, monday, first))
  {
    hide MinutesIn, WholeCuts, OrdinaryOn, RecordOn, MondayOf, Records, Summed;
    if days == 0 {
      NothingClosed(t, spans, midnight, first);
    } else {
      QuotaIsUsedOnce(t, spans, midnight, first, days - 1);
      var day := first + days - 1;
      RecordsOneMore(t, spans, midnight, first, days - 1);
      SummedOneMore(Records(t, spans, midnight, first, days - 1), RecordOn(t, spans, midnight, day));
      RecordWorked(t, spans, midnight, day);
      DayUsesQuota(t, spans, midnight, day);
    }
  }

  /** A week split between two months, each closed on its own replay: the two
      months' ordinary minutes in it are together the quota or all the work the
      later replay shows, whichever is less, if and only if both replays have used
      the same of the quota by the months' boundary. */
  lemma {:induction false} SplitWeek(t: Terms, earlier: seq<Span>, later: seq<Span>, midnight: int -> int, monday: int,
                                     before: nat)
    requires WholeCuts(earlier, midnight) && WholeCuts(later, midnight) && t.weekly
    requires MondayOf(monday) == monday && before <= 7
    ensures Summed(Records(t, earlier, midnight, monday, before)).ordinary
        + Summed(Records(t, later, midnight, monday + before, 7 - before)).ordinary
      == Min(t.quota, MinutesIn(later, midnight(monday), midnight(monday + 7)))
      <==> Min(t.quota, MinutesIn(earlier, midnight(monday), midnight(monday + before)))
           == Min(t.quota, MinutesIn(later, midnight(monday), midnight(monday + before)))
  {
    hide MinutesIn, Records, Summed, WholeCuts, MondayOf;
    SpansForward(earlier, midnight);
    NoMinutes(earlier, midnight(monday));
    WeekOf(monday);
    QuotaIsUsedOnce(t, earlier, midnight, monday, before);
    if before < 7 {
      QuotaIsUsedOnce(t, later, midnight, monday + before, 7 - before);
    } else {
      NothingRecorded(t, later, midnight, monday + before);
    }
  }

  lemma {:induction false} WeekOf(monday: int)
    requires MondayOf(monday) == monday
    ensures forall d :: monday <= d < monday + 7 ==> MondayOf(d) == monday
  {
  }

  lemma {:induction false} NothingRecorded(t: Terms, spans: seq<Span>, midnight: int -> int, first: int)
    ensures Summed(Records(t, spans, midnight, first, 0)).ordinary == 0
  {
  }

  // --------------------------------------------------------- the flexible plan

  const WEEK: seq<int> := [1, 2, 3, 4, 5, 6, 0]

  function Chosen(selected: set<int>, week: seq<int>): seq<int> {
    if week == [] then []
    else Chosen(selected, week[..|week| - 1]) + if week[|week| - 1] in selected then [week[|week| - 1]] else []
  }

  /** The selected weekdays from Monday on; Monday to Friday when none is selected. */
  function FlexibleWeekdays(selected: set<int>): seq<int> {
    var chosen := Chosen(selected, WEEK);
    if chosen == [] then [1, 2, 3, 4, 5] else chosen
  }

  function PositionOf(s: seq<int>, x: int): int {
    if s == [] then -1
    else if s[0] == x then 0
    else if PositionOf(s[1..], x) < 0 then -1
    else 1 + PositionOf(s[1..], x)
  }

  /** `flexibleMinutesForWeekday`. */
  function FlexibleMinutes(selected: set<int>, weeklyMinutes: nat, weekday: int): int {
    DayShare(FlexibleWeekdays(selected), weeklyMinutes, weekday)
  }

  function DayShare(weekdays: seq<int>, weeklyMinutes: nat, weekday: int): int {
    var position := PositionOf(weekdays, weekday);
    if position < 0 || weekdays == [] then 0
    else weeklyMinutes / |weekdays| + if position < weeklyMinutes % |weekdays| then 1 else 0
  }

  function Shares(n: nat, minutes: nat, upTo: nat): int
    requires n > 0 && upTo <= n
  {
    if upTo == 0 then 0
    else Shares(n, minutes, upTo - 1) + minutes / n + if upTo - 1 < minutes % n then 1 else 0
  }

  lemma {:induction false} SharesAddUp(n: nat, minutes: nat, upTo: nat)
    requires n > 0 && upTo <= n
    ensures Shares(n, minutes, upTo) == upTo * (minutes / n) + Min(upTo, minutes % n)
  {
    if upTo > 0 { SharesAddUp(n, minutes, upTo - 1); }
  }

  predicate Ascending(week: seq<int>) {
    forall i, j :: 0 <= i < j < |week| ==> week[i] != week[j]
  }

  lemma {:induction false} PositionInFront(a: seq<int>, b: seq<int>, x: int)
    ensures x !in a ==> PositionOf(a + b, x) == if PositionOf(b, x) < 0 then -1 else |a| + PositionOf(b, x)
  {
    if a == [] {
      assert a + b == b;
    } else {
      assert (a + b)[1..] == a[1..] + b;
      PositionInFront(a[1..], b, x);
    }
  }

  lemma {:induction false} PositionNowhere(s: seq<int>, x: int)
    ensures PositionOf(s, x) < 0 <==> x !in s
    ensures PositionOf(s, x) >= -1
  {
    if s != [] { PositionNowhere(s[1..], x); }
  }

  lemma {:induction false} ChosenAre(selected: set<int>, week: seq<int>)
    ensures forall x :: x in Chosen(selected, week) <==> x in week && x in selected
  {
    if week != [] {
      ChosenAre(selected, week[..|week| - 1]);
      assert week == week[..|week| - 1] + [week[|week| - 1]];
    }
  }

  lemma {:induction false} ChosenOfConcatenation(selected: set<int>, a: seq<int>, b: seq<int>)
    ensures Chosen(selected, a + b) == Chosen(selected, a) + Chosen(selected, b)
  {
    if b == [] {
      assert a + b == a;
    } else {
      ChosenOfConcatenation(selected, a, b[..|b| - 1]);
      assert (a + b)[..|a + b| - 1] == a + b[..|b| - 1];
    }
  }

  lemma {:induction false} ChosenOne(selected: set<int>, x: int)
    ensures Chosen(selected, [x]) == if x in selected then [x] else []
  {
    assert [x][..0] == [];
  }

  lemma {:induction false} PositionAtFront(s: seq<int>, x: int)
    ensures PositionOf([x] + s, x) == 0
  {
  }

  // The k-th weekday of the week, if selected, comes after the selected ones before it.
  lemma {:induction false} PositionOfChosen(selected: set<int>, week: seq<int>, k: nat)
    requires Ascending(week) && k < |week|
    ensures PositionOf(Chosen(selected, week), week[k])
      == if week[k] in selected then |Chosen(selected, week[..k])| else -1
  {
    hide Chosen, PositionOf;
    var x, front := week[k], Chosen(selected, week[..k]);
    PositionNowhere(Chosen(selected, week), x);
    ChosenAre(selected, week);
    if x in selected {
      var rest := Chosen(selected, week[k + 1..]);
      assert week == week[..k] + ([x] + week[k + 1..]);
      ChosenOfConcatenation(selected, week[..k], [x] + week[k + 1..]);
      ChosenOfConcatenation(selected, [x], week[k + 1..]);
      ChosenOne(selected, x);
      assert x !in week[..k];
      ChosenAre(selected, week[..k]);
      PositionInFront(front, [x] + rest, x);
      PositionAtFront(rest, x);
    }
  }

  // The minutes planned over the first k days of the week.
  function PlannedOver(weekdays: seq<int>, weeklyMinutes: nat, week: seq<int>): int {
    if week == [] then 0
    else PlannedOver(weekdays, weeklyMinutes, week[..|week| - 1]) + DayShare(weekdays, weeklyMinutes, week[|week| - 1])
  }

  lemma {:induction false} PlannedOverShares(selected: set<int>, weeklyMinutes: nat, week: seq<int>, k: nat)
    requires Ascending(week) && k <= |week| && Chosen(selected, week) != []
    ensures var weekdays := Chosen(selected, week);
      && |Chosen(selected, week[..k])| <= |weekdays|
      && PlannedOver(weekdays, weeklyMinutes, week[..k])
          == Shares(|weekdays|, weeklyMinutes, |Chosen(selected, week[..k])|)
  {
    assert week == week[..k] + week[k..];
    ChosenOfConcatenation(selected, week[..k], week[k..]);
    if k > 0 {
      assert week[..k][..k - 1] == week[..k - 1];
      PlannedOverShares(selected, weeklyMinutes, week, k - 1);
      PositionOfChosen(selected, week, k - 1);
    }
  }

  /** Over a full week the flexible plan comes to exactly the contracted minutes,
      whichever weekdays are selected. */
  lemma {:induction false} FlexiblePlanAddsUp(selected: set<int>, weeklyMinutes: nat)
    ensures FlexibleMinutes(selected, weeklyMinutes, 0) + FlexibleMinutes(selected, weeklyMinutes, 1)
      + FlexibleMinutes(selected, weeklyMinutes, 2) + FlexibleMinutes(selected, weeklyMinutes, 3)
      + FlexibleMinutes(selected, weeklyMinutes, 4) + FlexibleMinutes(selected, weeklyMinutes, 5)
      + FlexibleMinutes(selected, weeklyMinutes, 6) == weeklyMinutes
  {
    hide PositionOf, Shares;
    var weekdays := FlexibleWeekdays(selected);
    var chosen := if Chosen(selected, WEEK) == [] then {1, 2, 3, 4, 5} else selected;
    WorkingDaysAreChosen();
    assert weekdays == Chosen(chosen, WEEK);
    PlannedOverShares(chosen, weeklyMinutes, WEEK, 7);
    assert WEEK[..7] == WEEK;
    SharesAddUp(|weekdays|, weeklyMinutes, |weekdays|);
    WholeDivision(weeklyMinutes, |weekdays|);
    PlannedDayByDay(weekdays, weeklyMinutes);
  }

  /** The weekdays a flexible week is worked on: those selected, Monday to Friday if
      none of the week is. */
  predicate IsWorkday(selected: set<int>, weekday: int) {
    if forall x :: x in selected ==> !(0 <= x <= 6) then 1 <= weekday <= 5 else weekday in selected
  }

  /** The week's minutes are shared out over its workdays and no others, no day getting
      more than a minute more than another, and none more than an earlier one of the week. */
  lemma {:induction false} FlexiblePlanIsEven(selected: set<int>, weeklyMinutes: nat, x: int, y: int)
    requires 0 <= x <= 6 && 0 <= y <= 6
    ensures !IsWorkday(selected, x) ==> FlexibleMinutes(selected, weeklyMinutes, x) == 0
    ensures IsWorkday(selected, x) && IsWorkday(selected, y) && (x + 6) % 7 < (y + 6) % 7 ==>
      var mine, later := FlexibleMinutes(selected, weeklyMinutes, x), FlexibleMinutes(selected, weeklyMinutes, y);
      later <= mine <= later + 1
  {
    hide PositionOf, Chosen;
    var weekdays := FlexibleWeekdays(selected);
    var chosen := if Chosen(selected, WEEK) == [] then {1, 2, 3, 4, 5} else selected;
    WorkingDaysAreChosen();
    assert weekdays == Chosen(chosen, WEEK);
    SomeDayIsChosen(selected);
    ShareOfPlace(chosen, weeklyMinutes, x);
    ShareOfPlace(chosen, weeklyMinutes, y);
    if x in chosen && (x + 6) % 7 < (y + 6) % 7 { FewerBefore(chosen, (x + 6) % 7, (y + 6) % 7); }
  }

  lemma {:induction false} SomeDayIsChosen(selected: set<int>)
    ensures Chosen(selected, WEEK) == [] <==> forall x :: x in selected ==> !(0 <= x <= 6)
  {
    hide Chosen;
    ChosenAre(selected, WEEK);
    DaysOfTheWeek();
    if Chosen(selected, WEEK) == [] {
      forall x | x in selected ensures !(0 <= x <= 6) {
        assert x !in Chosen(selected, WEEK);
      }
    } else {
      var x := Chosen(selected, WEEK)[0];
      assert x in Chosen(selected, WEEK) && x in WEEK;
    }
  }

  lemma {:induction false} DaysOfTheWeek()
    ensures Ascending(WEEK) && forall k :: 0 <= k <= 6 ==> WEEK[(k + 6) % 7] == k && k in WEEK
  {
    assert WEEK[0] == 1 && WEEK[1] == 2 && WEEK[2] == 3 && WEEK[3] == 4 && WEEK[4] == 5 && WEEK[5] == 6 && WEEK[6] == 0;
    forall k | 0 <= k <= 6 ensures WEEK[(k + 6) % 7] == k && k in WEEK {
      assert k in {0, 1, 2, 3, 4, 5, 6};
    }
  }

  // A day's share depends on how many workdays are before it in the week.
  lemma {:induction false} ShareOfPlace(chosen: set<int>, weeklyMinutes: nat, day: int)
    requires 0 <= day <= 6 && Chosen(chosen, WEEK) != []
    ensures var weekdays := Chosen(chosen, WEEK);
      DayShare(weekdays, weeklyMinutes, day)
        == if day !in chosen then 0
           else weeklyMinutes / |weekdays|
                + if |Chosen(chosen, WEEK[..(day + 6) % 7])| < weeklyMinutes % |weekdays| then 1 else 0
  {
    hide PositionOf, Chosen;
    DaysOfTheWeek();
    PositionOfChosen(chosen, WEEK, (day + 6) % 7);
  }

  lemma {:induction false} FewerBefore(chosen: set<int>, i: nat, j: nat)
    requires i <= j <= 7
    ensures |Chosen(chosen, WEEK[..i])| <= |Chosen(chosen, WEEK[..j])|
  {
    assert WEEK[..j] == WEEK[..i] + WEEK[i..j];
    ChosenOfConcatenation(chosen, WEEK[..i], WEEK[i..j]);
  }

  lemma {:induction false} WholeDivision(n: nat, k: nat)
    requires k > 0
    ensures k * (n / k) + n % k == n
  {
  }

  lemma {:induction false} WorkingDaysAreChosen()
    ensures Chosen({1, 2, 3, 4, 5}, WEEK) == [1, 2, 3, 4, 5]
  {
    var c: set<int> := {1, 2, 3, 4, 5};
    assert WEEK[..6] == [1, 2, 3, 4, 5, 6] && WEEK[..6][..5] == [1, 2, 3, 4, 5];
    assert [1, 2, 3, 4, 5][..4] == [1, 2, 3, 4] && [1, 2, 3, 4][..3] == [1, 2, 3] && [1, 2, 3][..2] == [1, 2];
    assert [1, 2][..1] == [1] && [1][..0] == [];
    assert Chosen(c, [1]) == [1];
    assert Chosen(c, [1, 2]) == [1, 2];
    assert Chosen(c, [1, 2, 3]) == [1, 2, 3];
    assert Chosen(c, [1, 2, 3, 4]) == [1, 2, 3, 4];
    assert Chosen(c, [1, 2, 3, 4, 5]) == [1, 2, 3, 4, 5];
    assert Chosen(c, WEEK[..6]) == [1, 2, 3, 4, 5];
  }

  lemma {:induction false} PlannedOneDayMore(weekdays: seq<int>, weeklyMinutes: nat, week: seq<int>, day: int)
    ensures PlannedOver(weekdays, weeklyMinutes, week + [day])
      == PlannedOver(weekdays, weeklyMinutes, week) + DayShare(weekdays, weeklyMinutes, day)
  {
    assert (week + [day])[..|week|] == week;
  }

  lemma {:induction false} PlannedDayByDay(weekdays: seq<int>, weeklyMinutes: nat)
    ensures PlannedOver(weekdays, weeklyMinutes, WEEK)
      == DayShare(weekdays, weeklyMinutes, 0) + DayShare(weekdays, weeklyMinutes, 1)
         + DayShare(weekdays, weeklyMinutes, 2) + DayShare(weekdays, weeklyMinutes, 3)
         + DayShare(weekdays, weeklyMinutes, 4) + DayShare(weekdays, weeklyMinutes, 5)
         + DayShare(weekdays, weeklyMinutes, 6)
  {
    hide DayShare;
    assert PlannedOver(weekdays, weeklyMinutes, []) == 0;
    hide PlannedOver;
    PlannedOneDayMore(weekdays, weeklyMinutes, [], 1);
    PlannedOneDayMore(weekdays, weeklyMinutes, [1], 2);
    PlannedOneDayMore(weekdays, weeklyMinutes, [1, 2], 3);
    PlannedOneDayMore(weekdays, weeklyMinutes, [1, 2, 3], 4);
    PlannedOneDayMore(weekdays, weeklyMinutes, [1, 2, 3, 4], 5);
    PlannedOneDayMore(weekdays, weeklyMinutes, [1, 2, 3, 4, 5], 6);
    PlannedOneDayMore(weekdays, weeklyMinutes, [1, 2, 3, 4, 5, 6], 0);
    assert [] + [1] == [1] && [1] + [2] == [1, 2] && [1, 2] + [3] == [1, 2, 3] && [1, 2, 3] + [4] == [1, 2, 3, 4];
    assert [1, 2, 3, 4] + [5] == [1, 2, 3, 4, 5] && [1, 2, 3, 4, 5] + [6] == [1, 2, 3, 4, 5, 6];
    assert [1, 2, 3, 4, 5, 6] + [0] == WEEK;
  }
}
