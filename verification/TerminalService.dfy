/** The terminal service's operations on the tables: replay of one employee's
    rows, the recording transaction, incidents and offline batches. */
module TerminalService {
  import opened Bytes
  import opened Sorting
  import opened WorkDay
  import opened Delivery

  const PAGE := 10000
  const MAX_BATCH := 500
  const MAX_ID := 64
  const MAX_STORED_ID := 128

  // --------------------------------------------------------------------- replay

  function TimeOf(r: Row): int {
    match r.entry case Plain(event) => event.at case Correcting(_, _, at, _) => at
  }

  const ROW_TIME: Row -> int := (r: Row) => TimeOf(r)
  const EVENT_TIME: Event -> int := (e: Event) => e.at

  function RowsOfEmployee(rows: seq<Row>, employee: string): seq<Row> {
    if rows == [] then []
    else
      RowsOfEmployee(rows[..|rows| - 1], employee)
      + if rows[|rows| - 1].employee == employee then [rows[|rows| - 1]] else []
  }

  function FirstPage<T>(s: seq<T>): seq<T> { if |s| <= PAGE then s else s[..PAGE] }

  /** The query by `occurredAt`: the oldest ten thousand rows. */
  function Queried(rows: seq<Row>, employee: string): seq<Row> {
    FirstPage(Sort(ROW_TIME, RowsOfEmployee(rows, employee)))
  }

  function Plains(rows: seq<Row>): map<string, Event> {
    if rows == [] then map[]
    else
      var last, earlier := rows[|rows| - 1], Plains(rows[..|rows| - 1]);
      if last.entry.Plain? then earlier[last.id := last.entry.event] else earlier
  }

  function Corrections(rows: seq<Row>): seq<Row> {
    if rows == [] then []
    else
      Corrections(rows[..|rows| - 1])
      + if rows[|rows| - 1].entry.Correcting? then [rows[|rows| - 1]] else []
  }

  function Corrected(events: map<string, Event>, c: Row): map<string, Event> {
    match c.entry
    case Plain(_) => events
    case Correcting(target, command, at, voids) =>
      if target !in events then events
      else if voids then events - {target}
      else if command.Some? then events[target := Event(command.value, at)]
      else events
  }

  function AllCorrected(events: map<string, Event>, corrections: seq<Row>): map<string, Event> {
    if corrections == [] then events
    else Corrected(AllCorrected(events, corrections[..|corrections| - 1]), corrections[|corrections| - 1])
  }

  function Effects(rows: seq<Row>, employee: string): map<string, Event> {
    var page := Queried(rows, employee);
    AllCorrected(Plains(page), Corrections(page))
  }

  /** Some correction of the event takes it away. */
  predicate IsVoided(corrections: seq<Row>, id: string) {
    exists i :: 0 <= i < |corrections| && Moves(corrections[i], id) && corrections[i].entry.voids
  }

  predicate Moves(c: Row, id: string) { c.entry.Correcting? && c.entry.target == id }

  /** The last correction of the event that names a command, if there is one. */
  function LastMove(corrections: seq<Row>, id: string): Option<Event> {
    if corrections == [] then None
    else
      var c := corrections[|corrections| - 1];
      if Moves(c, id) && c.entry.command.Some? then Some(Event(c.entry.command.value, c.entry.at))
      else LastMove(corrections[..|corrections| - 1], id)
  }

  /** The terminal's replay of one event: gone for good once a correction voids it,
      otherwise as its last correction that names a command has it; and what has no
      event of its own on the page is never shown. */
  lemma {:induction false} CorrectedEvent(events: map<string, Event>, corrections: seq<Row>, id: string)
    ensures var shown := AllCorrected(events, corrections);
      && (id in shown <==> id in events && !IsVoided(corrections, id))
      && (id in shown ==>
            shown[id] == match LastMove(corrections, id) case Some(event) => event case None => events[id])
  {
    if corrections != [] {
      var earlier, c := corrections[..|corrections| - 1], corrections[|corrections| - 1];
      CorrectedEvent(events, earlier, id);
      assert corrections == earlier + [c];
      if IsVoided(earlier, id) {
        var i :| 0 <= i < |earlier| && Moves(earlier[i], id) && earlier[i].entry.voids;
        assert corrections[i] == earlier[i];
      }
      assert Moves(c, id) && c.entry.voids ==> IsVoided(corrections, id) by { assert corrections[|earlier|] == c; }
    }
  }

  lemma {:induction false} CorrectionsOneMore(page: seq<Row>, r: Row)
    ensures Corrections(page + [r]) == Corrections(page) + if r.entry.Correcting? then [r] else []
  {
    assert (page + [r])[..|page|] == page;
  }

  lemma {:induction false} LastMoveOneMore(rows: seq<Row>, r: Row, id: string)
    ensures LastMove(rows + [r], id) ==
      if Moves(r, id) && r.entry.command.Some? then Some(Event(r.entry.command.value, r.entry.at))
      else LastMove(rows, id)
  {
    assert (rows + [r])[..|rows|] == rows;
  }

  // Rows that correct nothing change nothing.
  lemma {:induction false} CorrectionsOf(page: seq<Row>, id: string)
    ensures IsVoided(Corrections(page), id) <==> IsVoided(page, id)
    ensures LastMove(Corrections(page), id) == LastMove(page, id)
  {
    if page == [] {
      assert Corrections([]) == [];
    } else {
      hide IsVoided, LastMove, Corrections;
      var earlier, last := page[..|page| - 1], page[|page| - 1];
      assert page == earlier + [last];
      CorrectionsOf(earlier, id);
      CorrectionsOneMore(earlier, last);
      VoidedByOneMore(earlier, last, id);
      LastMoveOneMore(earlier, last, id);
      if last.entry.Correcting? {
        VoidedByOneMore(Corrections(earlier), last, id);
        LastMoveOneMore(Corrections(earlier), last, id);
      } else {
        assert Corrections(earlier) + [] == Corrections(earlier);
      }
    }
  }

  lemma {:induction false} VoidedByOneMore(rows: seq<Row>, r: Row, id: string)
    ensures IsVoided(rows + [r], id) <==> IsVoided(rows, id) || (Moves(r, id) && r.entry.voids)
  {
    var more := rows + [r];
    assert forall i :: 0 <= i < |rows| ==> more[i] == rows[i];
    assert more[|rows|] == r;
  }

  /** Some row is the event itself. */
  predicate HasRow(page: seq<Row>, id: string, event: Event) {
    exists k :: 0 <= k < |page| && page[k].id == id && page[k].entry == Plain(event)
  }

  lemma {:induction false} PlainsAreRows(page: seq<Row>, id: string)
    ensures id in Plains(page) ==> HasRow(page, id, Plains(page)[id])
    ensures forall event :: HasRow(page, id, event) ==> id in Plains(page)
  {
    if page != [] {
      var earlier, last := page[..|page| - 1], page[|page| - 1];
      PlainsAreRows(earlier, id);
      assert forall k :: 0 <= k < |earlier| ==> earlier[k] == page[k];
      if id in Plains(earlier) {
        var k :| 0 <= k < |earlier| && earlier[k].id == id && earlier[k].entry == Plain(Plains(earlier)[id]);
        assert page[k].id == id;
      }
      forall event | HasRow(page, id, event) ensures id in Plains(page) {
        var k :| 0 <= k < |page| && page[k].id == id && page[k].entry == Plain(event);
        if k < |earlier| { assert HasRow(earlier, id, event); }
      }
    }
  }

  /** The terminal's replay of one event, on the page of rows it reads: it is shown if it
      has a row of its own there and none that voids it, as the last row that moves it and
      names a command has it, or else as its own. */
  lemma {:induction false} ShownEvent(rows: seq<Row>, employee: string, id: string)
    ensures var page, shown := Queried(rows, employee), Effects(rows, employee);
      && (id in shown <==> (exists event :: HasRow(page, id, event)) && !IsVoided(page, id))
      && (id in shown ==>
            match LastMove(page, id)
            case Some(event) => shown[id] == event
            case None => HasRow(page, id, shown[id]))
  {
    hide Queried, AllCorrected, Corrections, Plains, IsVoided, LastMove, HasRow;
    var page := Queried(rows, employee);
    CorrectedEvent(Plains(page), Corrections(page), id);
    CorrectionsOf(page, id);
    PlainsAreRows(page, id);
  }

  lemma {:induction false} OwnRows(rows: seq<Row>, employee: string, r: Row)
    ensures r in RowsOfEmployee(rows, employee) <==> r in rows && r.employee == employee
  {
    if rows != [] {
      OwnRows(rows[..|rows| - 1], employee, r);
      assert rows == rows[..|rows| - 1] + [rows[|rows| - 1]];
    }
  }

  /** What replay reads are the employee's own rows and nobody else's: all of them in
      time order, or the ten thousand oldest. */
  lemma {:induction false} PageOfRows(rows: seq<Row>, employee: string, r: Row)
    ensures var page := Queried(rows, employee);
      && |page| <= 10000 && SortedBy(ROW_TIME, page)
      && (r in page ==> r in rows && r.employee == employee)
      && (r in rows && r.employee == employee && r !in page ==>
            |page| == 10000 && forall k :: 0 <= k < |page| ==> TimeOf(page[k]) <= TimeOf(r))
  {
    hide Sort, RowsOfEmployee;
    var own := RowsOfEmployee(rows, employee);
    OwnRows(rows, employee, r);
    SortSorts(ROW_TIME, own);
    var sorted := Sort(ROW_TIME, own);
    assert r in sorted <==> r in multiset(own);
    var page := Queried(rows, employee);
    assert forall i :: 0 <= i < |page| ==> page[i] == sorted[i] && page[i] in page;
    if r in own && r !in page {
      var i :| 0 <= i < |sorted| && sorted[i] == r;
      assert ROW_TIME(sorted[i]) == TimeOf(r);
    }
  }

  ghost function Pick(m: map<string, Event>): (k: string)
    requires m != map[]
    ensures k in m
  {
    var k :| k in m; k
  }

  ghost function ValuesOf(m: map<string, Event>): multiset<Event>
    decreases m.Keys
  {
    if m == map[] then multiset{} else multiset{m[Pick(m)]} + ValuesOf(m - {Pick(m)})
  }

  lemma {:induction false} ValuesUnfold(m: map<string, Event>)
    requires m != map[]
    ensures ValuesOf(m) == multiset{m[Pick(m)]} + ValuesOf(m - {Pick(m)})
  {
  }

  lemma {:induction false} ValuesWithout(m: map<string, Event>, k: string)
    requires k in m
    ensures ValuesOf(m) == multiset{m[k]} + ValuesOf(m - {k})
    decreases m.Keys
  {
    hide Pick, ValuesOf;
    ValuesUnfold(m);
    var l := Pick(m);
    if l != k {
      ValuesWithout(m - {l}, k);
      ValuesWithout(m - {k}, l);
      assert m - {l} - {k} == m - {k} - {l};
    }
  }

  /** The values of the map in time order; equal times come in any order. */
  ghost predicate InTimeOrder(events: seq<Event>, effects: map<string, Event>) {
    SortedBy(EVENT_TIME, events) && multiset(events) == ValuesOf(effects)
  }

  method EffectiveEvents(rows: seq<Row>, employee: string) returns (result: seq<Event>)
    ensures InTimeOrder(result, Effects(rows, employee))
  {
    hide Sort, RowsOfEmployee, Queried, ValuesOf;
    var records := Queried(rows, employee);
    var events: map<string, Event> := map[];
    var corrections: seq<Row> := [];
    for i := 0 to |records|
      invariant events == Plains(records[..i]) && corrections == Corrections(records[..i])
    {
      assert records[..i + 1][..i] == records[..i];
      var record := records[i];
      if record.entry.Correcting? {
        corrections := corrections + [record];
      } else {
        events := events[record.id := record.entry.event];
      }
    }
    assert records[..|records|] == records;
    ghost var start := events;
    for i := 0 to |corrections|
      invariant events == AllCorrected(start, corrections[..i])
    {
      assert corrections[..i + 1][..i] == corrections[..i];
      events := Corrected(events, corrections[i]);
    }
    assert corrections[..|corrections|] == corrections;
    result := [];
    var rest := events;
    NoValues();
    while rest != map[]
      invariant multiset(result) + ValuesOf(rest) == ValuesOf(events)
      decreases rest.Keys
    {
      var id :| id in rest;
      ValuesWithout(rest, id);
      result := result + [rest[id]];
      rest := rest - {id};
    }
    SortSorts(EVENT_TIME, result);
    result := Sort(EVENT_TIME, result);
  }

  lemma {:induction false} NoValues()
    ensures ValuesOf(map[]) == multiset{}
  {
  }

  // ------------------------------------------------- logs of terminal actions only

  /** Events without corrections. The times of the first page rise strictly, and
      everything else is later. */
  predicate PlainRows(rows: seq<Row>) {
    && (forall i :: 0 <= i < |rows| ==> rows[i].entry.Plain?)
    && (forall i, j :: 0 <= i < j < |rows| ==> rows[i].id != rows[j].id)
    && (forall i, j :: 0 <= i < j < |rows| && i < PAGE ==> TimeOf(rows[i]) < TimeOf(rows[j]))
  }

  function EventsOf(rows: seq<Row>): seq<Event>
    requires PlainRows(rows)
  {
    seq(|rows|, i requires 0 <= i < |rows| => rows[i].entry.event)
  }

  lemma {:induction false} NoCorrectionsAmongPlain(rows: seq<Row>)
    requires PlainRows(rows)
    ensures Corrections(rows) == []
  {
    if rows != [] { NoCorrectionsAmongPlain(rows[..|rows| - 1]); }
  }

  lemma {:induction false} OtherIdsOfPlains(rows: seq<Row>, id: string)
    requires forall i :: 0 <= i < |rows| ==> rows[i].id != id
    ensures id !in Plains(rows)
  {
    if rows != [] { OtherIdsOfPlains(rows[..|rows| - 1], id); }
  }

  lemma {:induction false} PlainsOneMore(rows: seq<Row>)
    requires PlainRows(rows) && rows != []
    ensures var earlier, last := rows[..|rows| - 1], rows[|rows| - 1];
      && PlainRows(earlier) && last.id !in Plains(earlier)
      && Plains(rows) == Plains(earlier)[last.id := last.entry.event]
      && EventsOf(rows) == EventsOf(earlier) + [last.entry.event]
  {
    OtherIdsOfPlains(rows[..|rows| - 1], rows[|rows| - 1].id);
  }

  lemma {:induction false} PlainsOfPlain(rows: seq<Row>)
    requires PlainRows(rows)
    ensures ValuesOf(Plains(rows)) == multiset(EventsOf(rows))
  {
    hide ValuesOf, Plains, PlainRows, EventsOf;
    if rows == [] {
      NoValues();
      NothingPlain();
    } else {
      PlainsOneMore(rows);
      var earlier, last := rows[..|rows| - 1], rows[|rows| - 1];
      PlainsOfPlain(earlier);
      ValuesWithout(Plains(rows), last.id);
      assert Plains(rows) - {last.id} == Plains(earlier);
    }
  }

  lemma {:induction false} NothingPlain()
    ensures PlainRows([]) && Plains([]) == map[] && EventsOf([]) == []
  {
  }

  lemma {:induction false} PageOfPlain(rows: seq<Row>)
    requires PlainRows(rows)
    ensures FirstPage(Sort(ROW_TIME, rows)) == FirstPage(rows)
    ensures PlainRows(FirstPage(rows)) && EventsOf(FirstPage(rows)) == FirstPage(EventsOf(rows))
    ensures StrictlySortedBy(EVENT_TIME, FirstPage(EventsOf(rows)))
  {
    hide Sort;
    var page := FirstPage(rows);
    SortOfSorted(ROW_TIME, page);
    if |rows| > PAGE {
      assert rows == page + rows[PAGE..];
      SortInTwo(ROW_TIME, page, rows[PAGE..]);
    }
  }

  /** Where a person's rows are terminal actions at distinct rising times, replay
      is the events of the first page, in their order: beyond the page it is frozen. */
  lemma {:induction false} ReplayOfActions(rows: seq<Row>, employee: string, events: seq<Event>)
    requires PlainRows(RowsOfEmployee(rows, employee))
    requires InTimeOrder(events, Effects(rows, employee))
    ensures events == FirstPage(EventsOf(RowsOfEmployee(rows, employee)))
  {
    hide ValuesOf, Plains, Corrections, RowsOfEmployee, Sort, FirstPage, PlainRows, EventsOf;
    var own := RowsOfEmployee(rows, employee);
    PageOfPlain(own);
    PlainsOfPlain(FirstPage(own));
    NoCorrectionsAmongPlain(FirstPage(own));
    NothingCorrected(Plains(FirstPage(own)));
    OneStrictOrder(EVENT_TIME, FirstPage(EventsOf(own)), events);
  }

  lemma {:induction false} NothingCorrected(events: map<string, Event>)
    ensures AllCorrected(events, []) == events
  {
  }

  /** Each event was accepted on the first page of the log before it. */
  ghost predicate BuiltByService(log: seq<Event>) {
    forall n :: 0 <= n < |log| ==> AcceptedAfter(FirstPage(log[..n]), log[n])
  }

  /** An accepted action extends its employee's log by an event accepted on the
      log's first page, so such logs stay built by the service. */
  lemma {:induction false} AcceptedActionExtendsTheLog(db: Db, employee: string, request: Request, offline: bool,
                                                       now: int, event: Event, adjustment: int)
    requires PlainRows(RowsOfEmployee(db.rows, employee))
    requires DecidedAs(db, employee, request, offline, now, Accept(event, adjustment))
    ensures var log := EventsOf(RowsOfEmployee(db.rows, employee));
      AcceptedAfter(FirstPage(log), event) && (BuiltByService(log) ==> BuiltByService(log + [event]))
  {
    hide Effects, InTimeOrder, Decide, RowsOfEmployee, FirstPage, PlainRows, EventsOf, AcceptedAfter;
    var log := EventsOf(RowsOfEmployee(db.rows, employee));
    var events :| InTimeOrder(events, Effects(db.rows, employee))
        && Accept(event, adjustment) == Decide(events, request, offline, now);
    ReplayOfActions(db.rows, employee, events);
    assert AcceptedAfter(FirstPage(log), event) by { IsAccepted(events, request, offline, now); }
    if BuiltByService(log) {
      var more := log + [event];
      forall n | 0 <= n < |more| ensures AcceptedAfter(FirstPage(more[..n]), more[n]) {
        if n < |log| { assert more[..n] == log[..n]; } else { assert more[..n] == log; }
      }
    }
  }

  lemma {:induction false} IsAccepted(log: seq<Event>, request: Request, offline: bool, now: int)
    requires Decide(log, request, offline, now).Accept?
    ensures AcceptedAfter(log, Decide(log, request, offline, now).event)
  {
  }

  // Up to the event after the page, the service sees the whole log.
  lemma {:induction false} BuiltUpToThePage(log: seq<Event>)
    requires BuiltByService(log) && |log| <= PAGE + 1
    ensures BuiltByActions(log)
  {
    hide AcceptedAfter;
    forall n | 0 <= n < |log| ensures AcceptedAfter(log[..n], log[n]) {
      assert AcceptedAfter(FirstPage(log[..n]), log[n]);
    }
  }

  /** The log is whole shifts and the start of one up to the first event after the
      page, and never again after: from then on the service decides on a log that
      no longer moves, and no command may follow itself. */
  lemma {:induction false} ShapeEndsWithThePage(log: seq<Event>)
    requires BuiltByService(log)
    ensures IsLogShape(Kinds(log)) <==> |log| <= 10001
  {
    hide AcceptedAfter, IsLogShape;
    if |log| <= PAGE + 1 {
      BuiltUpToThePage(log);
      BuiltLogsAreShifts(log);
    } else {
      var page := log[..PAGE];
      assert log[..PAGE + 1][..PAGE] == page;
      assert AcceptedAfter(FirstPage(log[..PAGE]), log[PAGE]);
      assert AcceptedAfter(FirstPage(log[..PAGE + 1]), log[PAGE + 1]);
      AcceptedExtends(page, log[PAGE]);
      AcceptedExtends(page, log[PAGE + 1]);
      AllowedLogsAreShifts(Kinds(log));
      NotTwice(LastKind(page), log[PAGE].kind, log[PAGE + 1].kind);
      assert !AllowedAt(Kinds(log), PAGE + 1);
    }
  }

  /** Shifts of two seconds; after the page, one clock-in after the other. */
  function SteadyLog(n: nat): seq<Event> {
    seq(n, k requires 0 <= k < n => Event(if k < PAGE && k % 2 == 1 then ClockOut else ClockIn, k))
  }

  /** The service accepts every one of them. */
  lemma {:induction false} ClockInsWithoutEnd(n: nat)
    ensures BuiltByService(SteadyLog(n))
    ensures n > 10001 ==> !IsLogShape(Kinds(SteadyLog(n)))
  {
    hide AcceptedAfter, IsLogShape, StateOf, OpenShift;
    var log := SteadyLog(n);
    forall k | 0 <= k < n ensures AcceptedAfter(FirstPage(log[..k]), log[k]) {
      var seen := FirstPage(log[..k]);
      var request := Request("", log[k].kind, k, None, k);
      OpenShiftAllowsTheSame(seen, k);
      assert LastKind(seen) == if k == 0 then None else Some(if k < PAGE && k % 2 == 1 then ClockIn else ClockOut);
      IsAccepted(seen, request, true, k);
    }
    ShapeEndsWithThePage(log);
  }

  // Of two commands allowed at the same point, neither is allowed after the other.
  lemma {:induction false} NotTwice(previous: Option<Command>, first: Command, second: Command)
    requires first in AllowedCommands(previous) && second in AllowedCommands(previous)
    ensures second !in AllowedCommands(Some(first))
  {
  }

  // ------------------------------------------------------------------ operations

  datatype Status = Accepted(row: nat) | Duplicate(receipt: Receipt) | MadeIncident(incident: nat) | Rejected

  datatype Outcome = Outcome(requestId: string, status: Status)

  datatype Recorded = Done(outcome: Outcome) | Failed(reason: Refusal)

  /** What the transaction decides for a request without a receipt. */
  ghost predicate DecidedAs(db: Db, employee: string, request: Request, offline: bool, now: int, decision: Decision) {
    exists events :: InTimeOrder(events, Effects(db.rows, employee))
        && decision == Decide(events, request, offline, now)
  }

  /** What the identifier columns of incidents and receipts take. */
  predicate Storable(requestId: string) {
    requestId != "" && |requestId| <= MAX_STORED_ID
  }

  /** The request can become an event: its identifier is one to sixty-four characters
      that no event has, and it is acceptable after the listed events. */
  predicate Recordable(db: Db, events: seq<Event>, request: Request, offline: bool, now: int) {
    && 1 <= |request.id| <= 64 && (forall i :: 0 <= i < |db.rows| ==> db.rows[i].requestId != request.id)
    && Acceptable(events, request, offline, now)
  }

  /** One event of the request's command, at the time the request is recorded at, and
      its receipt. */
  ghost predicate MakesEvent(before: Db, terminal: string, employee: string, request: Request, offline: bool, now: int,
                             after: Db, status: Status)
  {
    var n := |before.rows|;
    && status == Accepted(n) && after.incidents == before.incidents
    && after.receipts == before.receipts[(terminal, request.id) := ForEvent(n)]
    && |after.rows| == n + 1 && after.rows[..n] == before.rows
    && after.rows[n].employee == employee && after.rows[n].requestId == request.id && after.rows[n].terminal == terminal
    && after.rows[n].entry == Plain(Event(request.command, RecordedAt(request, offline, now)))
  }

  /** One incident and its receipt; nothing if the identifier cannot be stored. */
  ghost predicate MakesIncident(before: Db, terminal: string, requestId: string, reason: IncidentReason, after: Db,
                                status: Status)
  {
    if 1 <= |requestId| <= 128 then
      && status == MadeIncident(|before.incidents|) && after.rows == before.rows
      && after.incidents == before.incidents + [Incident(terminal, requestId, reason)]
      && after.receipts == before.receipts[(terminal, requestId) := ForIncident(|before.incidents|)]
    else status == Rejected && after == before
  }

  class Service {
    var rows: seq<Row>
    var incidents: seq<Incident>
    var receipts: map<Key, Receipt>
    const idAt: nat -> string

    ghost function Tables(): Db
      reads this
    {
      Db(rows, incidents, receipts)
    }

    constructor (idAt: nat -> string)
      ensures Tables() == Db([], [], map[]) && this.idAt == idAt
    {
      rows, incidents, receipts := [], [], map[];
      this.idAt := idAt;
    }

    predicate TakenId(requestId: string)
      reads this
    {
      exists i :: 0 <= i < |rows| && rows[i].requestId == requestId
    }

    /** `recordTerminalAction`. A request with a receipt is answered from it. A
        request the checks accept becomes an event with its receipt, in one
        transaction; any failure, a taken identifier included, leaves the tables
        as they were. */
    method RecordTerminalAction(terminal: string, employee: string, request: Request, offline: bool, now: int)
      returns (r: Recorded)
      requires terminal != ""
      modifies this
      ensures Delivers(old(Tables()), (terminal, request.id), Tables())
      ensures incidents == old(incidents)
      ensures r.Failed? ==> Tables() == old(Tables())
      ensures r.Done? ==> r.outcome.requestId == request.id
      ensures r.Done? && (terminal, request.id) in old(receipts) ==>
        Tables() == old(Tables()) && r.outcome.status == Duplicate(old(receipts)[(terminal, request.id)])
      ensures r.Done? && (terminal, request.id) !in old(receipts) ==>
        && |old(rows)| < |rows| && r.outcome.status == Accepted(|old(rows)|)
        && rows[|old(rows)|].employee == employee && rows[|old(rows)|].entry.Plain?
        && exists adjustment :: DecidedAs(old(Tables()), employee, request, offline, now,
                                          Accept(rows[|old(rows)|].entry.event, adjustment))
      ensures r.Failed? && 1 <= |request.id| <= 64 && (terminal, request.id) !in old(receipts) ==>
        (r.reason == DuplicateId && old(TakenId(request.id)))
        || DecidedAs(old(Tables()), employee, request, offline, now, Refuse(r.reason))
      ensures !(1 <= |request.id| <= 64) ==> r == Failed(StateConflict)
      ensures 1 <= |request.id| <= 64 && (terminal, request.id) !in old(receipts) ==> exists events ::
        && InTimeOrder(events, Effects(old(rows), employee))
        && (r.Done? <==> Recordable(old(Tables()), events, request, offline, now))
        && (r.Done? ==>
              MakesEvent(old(Tables()), terminal, employee, request, offline, now, Tables(), r.outcome.status))
        && (r == Failed(ClockUntrusted) <==> !TrustedClock(request, now))
      ensures 1 <= |request.id| <= 64 && (terminal, request.id) in old(receipts) ==> r.Done?
    {
      hide Effects, InTimeOrder, Decide, Acceptable;
      if request.id == "" || |request.id| > MAX_ID { return Failed(StateConflict); }
      var key := (terminal, request.id);
      if key in receipts { return Done(Outcome(request.id, Duplicate(receipts[key]))); }
      var events := EffectiveEvents(rows, employee);
      DecidesExactly(events, request, offline, now);
      var decision := Decide(events, request, offline, now);
      assert DecidedAs(Tables(), employee, request, offline, now, decision);
      if decision.Refuse? { return Failed(decision.reason); }
      if TakenId(request.id) { return Failed(DuplicateId); }
      var row := Row(idAt(|rows|), employee, request.id, terminal, Plain(decision.event));
      rows := rows + [row];
      receipts := receipts[key := ForEvent(|rows| - 1)];
      return Done(Outcome(request.id, Accepted(|rows| - 1)));
    }

    /** `createIncident`. The receipt is looked up outside the transaction, and
        the unique indexes decide inside it. */
    method CreateIncident(terminal: string, requestId: string, reason: IncidentReason) returns (outcome: Outcome)
      requires terminal != "" && Consistent(Tables())
      modifies this
      ensures Delivers(old(Tables()), (terminal, requestId), Tables())
      ensures rows == old(rows) && outcome.requestId == requestId
      ensures if (terminal, requestId) in old(receipts)
              then Tables() == old(Tables()) && outcome.status == Duplicate(old(receipts)[(terminal, requestId)])
              else if !(1 <= |requestId| <= 128) then Tables() == old(Tables()) && outcome.status == Rejected
              else outcome.status == MadeIncident(|old(incidents)|)
                   && |incidents| == |old(incidents)| + 1
                   && incidents[|old(incidents)|] == Incident(terminal, requestId, reason)
    {
      var key := (terminal, requestId);
      if key in receipts { return Outcome(requestId, Duplicate(receipts[key])); }
      outcome := SaveIncident(terminal, requestId, reason);
    }

    /** The transaction of `createIncident`, as it runs even if a receipt has
        appeared since the lookup: then the index refuses and it is rolled back. */
    method SaveIncident(terminal: string, requestId: string, reason: IncidentReason) returns (outcome: Outcome)
      requires terminal != "" && Consistent(Tables())
      modifies this
      ensures Delivers(old(Tables()), (terminal, requestId), Tables())
      ensures rows == old(rows) && outcome.requestId == requestId
      ensures if (terminal, requestId) in old(receipts) || !(1 <= |requestId| <= 128)
              then Tables() == old(Tables()) && outcome.status == Rejected
              else outcome.status == MadeIncident(|old(incidents)|)
                   && |incidents| == |old(incidents)| + 1
                   && incidents[|old(incidents)|] == Incident(terminal, requestId, reason)
    {
      var key := (terminal, requestId);
      if !Storable(requestId) { return Outcome(requestId, Rejected); }
      if exists j :: 0 <= j < |incidents| && KeyOfIncident(incidents[j]) == key {
        return Outcome(requestId, Rejected);
      }
      if key in receipts { return Outcome(requestId, Rejected); }
      incidents := incidents + [Incident(terminal, requestId, reason)];
      receipts := receipts[key := ForIncident(|incidents| - 1)];
      return Outcome(requestId, MadeIncident(|incidents| - 1));
    }
  }

  // --------------------------------------------------------------------- batches

  /** A signed action of an offline batch, with its place in the request. */
  datatype QueuedAction = QueuedAction(
    request: Request, uid: string, sequence: int, rebootId: string, previousLocalHash: string, signature: string,
    index: nat)

  /** By captured time, then by device sequence. */
  predicate Before(a: QueuedAction, b: QueuedAction) {
    if a.request.capturedAt == b.request.capturedAt then a.sequence < b.sequence
    else a.request.capturedAt < b.request.capturedAt
  }

  function InsertQueued(s: seq<QueuedAction>, x: QueuedAction): seq<QueuedAction> {
    if s == [] || !Before(x, s[|s| - 1]) then s + [x] else InsertQueued(s[..|s| - 1], x) + [s[|s| - 1]]
  }

  /** `sortQueuedActions`: a stable sort. */
  function SortQueued(s: seq<QueuedAction>): seq<QueuedAction> {
    if s == [] then [] else InsertQueued(SortQueued(s[..|s| - 1]), s[|s| - 1])
  }

  /** Each action names the one before it of the same boot and has a later
      sequence number; the first of a boot names none. */
  predicate ChainHolds(s: seq<QueuedAction>) {
    forall i :: 1 <= i < |s| ==> LinkHolds(s[i - 1], s[i])
  }

  predicate LinkHolds(previous: QueuedAction, current: QueuedAction) {
    if current.rebootId == previous.rebootId then
      current.previousLocalHash == previous.signature && current.sequence > previous.sequence
    else current.previousLocalHash == ""
  }

  method CheckChain(s: seq<QueuedAction>) returns (ok: bool)
    ensures ok <==> ChainHolds(s)
    ensures ok <==> forall k :: 1 <= k < |s| ==>
      && (s[k].rebootId == s[k - 1].rebootId ==>
            s[k].previousLocalHash == s[k - 1].signature && s[k - 1].sequence < s[k].sequence)
      && (s[k].rebootId != s[k - 1].rebootId ==> s[k].previousLocalHash == "")
  {
    var i := 1;
    while i < |s|
      invariant forall k :: 1 <= k < i && k < |s| ==> LinkHolds(s[k - 1], s[k])
    {
      var previous, current := s[i - 1], s[i];
      if current.rebootId == previous.rebootId {
        if current.previousLocalHash != previous.signature || current.sequence <= previous.sequence { return false; }
      } else if current.previousLocalHash != "" {
        return false;
      }
      i := i + 1;
    }
    return true;
  }

  /** Within one boot a batch shows what is missing: without one of its inner actions a
      chain no longer holds, unless two of its actions carry the same signature. */
  lemma {:induction false} MissingActionIsNoticed(s: seq<QueuedAction>, k: nat)
    requires ChainHolds(s) && 0 < k < |s| - 1
    requires s[k - 1].rebootId == s[k].rebootId == s[k + 1].rebootId && s[k - 1].signature != s[k].signature
    ensures !ChainHolds(s[..k] + s[k + 1..])
  {
    var rest := s[..k] + s[k + 1..];
    assert rest[k - 1] == s[k - 1] && rest[k] == s[k + 1];
    assert LinkHolds(s[k], s[k + 1]);
    assert !LinkHolds(rest[k - 1], rest[k]);
  }

  /** Two actions of one boot in a chain have rising sequence numbers, and so no chain
      holds an action twice. */
  lemma {:induction false} SequencesRise(s: seq<QueuedAction>, i: nat, j: nat)
    requires ChainHolds(s) && i < j < |s| && forall k :: i <= k <= j ==> s[k].rebootId == s[i].rebootId
    ensures s[i].sequence < s[j].sequence
  {
    assert LinkHolds(s[j - 1], s[j]);
    if i < j - 1 { SequencesRise(s, i, j - 1); }
  }

  lemma {:induction false} InsertQueuedAdds(s: seq<QueuedAction>, x: QueuedAction)
    ensures multiset(InsertQueued(s, x)) == multiset(s) + multiset{x} && |InsertQueued(s, x)| == |s| + 1
  {
    if s != [] && Before(x, s[|s| - 1]) {
      InsertQueuedAdds(s[..|s| - 1], x);
      assert s == s[..|s| - 1] + [s[|s| - 1]];
    }
  }

  lemma {:induction false} SortQueuedKeeps(s: seq<QueuedAction>)
    ensures multiset(SortQueued(s)) == multiset(s) && |SortQueued(s)| == |s|
  {
    hide InsertQueued;
    if s != [] {
      SortQueuedKeeps(s[..|s| - 1]);
      InsertQueuedAdds(SortQueued(s[..|s| - 1]), s[|s| - 1]);
      assert s == s[..|s| - 1] + [s[|s| - 1]];
    }
  }

  /** No action belongs before the one ahead of it. */
  predicate InOrder(s: seq<QueuedAction>) {
    forall i :: 1 <= i < |s| ==>
      || s[i - 1].request.capturedAt < s[i].request.capturedAt
      || (s[i - 1].request.capturedAt == s[i].request.capturedAt && s[i - 1].sequence <= s[i].sequence)
  }

  lemma {:induction false} InOrderIs(s: seq<QueuedAction>)
    ensures InOrder(s) <==> forall i :: 1 <= i < |s| ==> !Before(s[i], s[i - 1])
  {
  }

  lemma {:induction false} InsertKeepsInOrder(s: seq<QueuedAction>, x: QueuedAction)
    requires InOrder(s)
    ensures InOrder(InsertQueued(s, x))
    ensures |InsertQueued(s, x)| == |s| + 1 && InsertQueued(s, x)[|s|] in {x, if s == [] then x else s[|s| - 1]}
  {
    if s != [] && Before(x, s[|s| - 1]) {
      InsertKeepsInOrder(s[..|s| - 1], x);
    }
  }

  /** The sort puts a batch in order, and leaves it as it is exactly when it is. */
  lemma {:induction false} SortKeepsOrder(s: seq<QueuedAction>)
    ensures InOrder(SortQueued(s))
    ensures SortQueued(s) == s <==> InOrder(s)
  {
    hide InsertQueued;
    if s != [] {
      SortKeepsOrder(s[..|s| - 1]);
      InsertKeepsInOrder(SortQueued(s[..|s| - 1]), s[|s| - 1]);
    }
    if InOrder(s) { SortOfOrderedBatch(s); }
  }

  /** Already in order, the sort leaves the batch as it is. */
  lemma {:induction false} SortOfOrderedBatch(s: seq<QueuedAction>)
    requires InOrder(s)
    ensures SortQueued(s) == s
  {
    if s != [] {
      SortOfOrderedBatch(s[..|s| - 1]);
      assert s == s[..|s| - 1] + [s[|s| - 1]];
    }
  }

  /** The tables after delivering the keys one by one. */
  ghost predicate DeliveredAll(before: Db, keys: seq<Key>, after: Db) {
    exists states: seq<Db> :: Deliveries(states, keys) && states[0] == before && states[|keys|] == after
  }

  ghost predicate Deliveries(states: seq<Db>, keys: seq<Key>) {
    |states| == |keys| + 1 && forall i :: 0 <= i < |keys| ==> Delivers(states[i], keys[i], states[i + 1])
  }

  lemma {:induction false} OneMoreDelivery(before: Db, keys: seq<Key>, middle: Db, key: Key, after: Db)
    requires DeliveredAll(before, keys, middle) && Delivers(middle, key, after)
    ensures DeliveredAll(before, keys + [key], after)
  {
    hide Delivers;
    var states: seq<Db> :| Deliveries(states, keys) && states[0] == before && states[|keys|] == middle;
    assert Deliveries(states + [after], keys + [key]);
  }

  lemma {:induction false} NoDelivery(before: Db)
    ensures DeliveredAll(before, [], before)
  {
    assert Deliveries([before], []);
  }

  function KeysOfBatch(terminal: string, s: seq<QueuedAction>): seq<Key> {
    seq(|s|, i requires 0 <= i < |s| => (terminal, s[i].request.id))
  }

  datatype SyncReply = Answered(results: seq<Outcome>) | TooMany | BadSignature | BadChain

  predicate Indexed(s: seq<QueuedAction>) {
    forall i :: 0 <= i < |s| ==> s[i].index == i
  }

  const RESULT_INDEX: ((nat, Outcome)) -> int := (r: (nat, Outcome)) => r.0

  /** An answer names the receipt its request has; only a request whose identifier
      cannot be stored goes without. */
  predicate Settled(db: Db, key: Key, status: Status) {
    match status
    case Accepted(row) => key in db.receipts && db.receipts[key] == ForEvent(row)
    case Duplicate(receipt) => key in db.receipts && db.receipts[key] == receipt
    case MadeIncident(incident) => key in db.receipts && db.receipts[key] == ForIncident(incident)
    case Rejected => !(1 <= |key.1| <= 128)
  }

  lemma {:induction false} SettledStays(before: Db, delivered: Key, after: Db, key: Key, status: Status)
    requires Delivers(before, delivered, after) && Settled(before, key, status)
    ensures Settled(after, key, status)
  {
  }

  predicate AnswerTo(db: Db, terminal: string, a: QueuedAction, answer: Outcome) {
    answer.requestId == a.request.id && Settled(db, (terminal, a.request.id), answer.status)
  }

  /** What becomes of one action of a batch: a repeat is answered from its receipt; a
      known employee's action that can be recorded becomes an event; the others become
      an incident, which says why. */
  ghost predicate Synced(before: Db, terminal: string, queued: QueuedAction, employee: Option<string>, now: int,
                         after: Db, outcome: Outcome)
  {
    var request := queued.request;
    var key := (terminal, request.id);
    && outcome.requestId == request.id
    && if key in before.receipts then after == before && outcome.status == Duplicate(before.receipts[key])
       else if employee == None then MakesIncident(before, terminal, request.id, UidRevoked, after, outcome.status)
       else if !(1 <= |request.id| <= 64) then
         MakesIncident(before, terminal, request.id, Conflict, after, outcome.status)
       else if !TrustedClock(request, now) then
         MakesIncident(before, terminal, request.id, Untrusted, after, outcome.status)
       else exists events ::
         && InTimeOrder(events, Effects(before.rows, employee.value))
         && if Recordable(before, events, request, true, now) then
              MakesEvent(before, terminal, employee.value, request, true, now, after, outcome.status)
            else MakesIncident(before, terminal, request.id, Conflict, after, outcome.status)
  }

  /** One action of a batch. */
  method SyncOne(service: Service, terminal: string, queued: QueuedAction, employee: Option<string>, now: int)
    returns (outcome: Outcome)
    requires terminal != "" && Consistent(service.Tables())
    modifies service
    ensures Delivers(old(service.Tables()), (terminal, queued.request.id), service.Tables())
    ensures Consistent(service.Tables()) && outcome.requestId == queued.request.id
    ensures Settled(service.Tables(), (terminal, queued.request.id), outcome.status)
    ensures Synced(old(service.Tables()), terminal, queued, employee, now, service.Tables(), outcome)
  {
    hide Effects, DecidedAs, InTimeOrder, Decide, Acceptable;
    if employee.None? {
      outcome := service.CreateIncident(terminal, queued.request.id, UidRevoked);
    } else {
      var recorded := service.RecordTerminalAction(terminal, employee.value, queued.request, true, now);
      if recorded.Failed? {
        var reason := if recorded.reason == ClockUntrusted then Untrusted else Conflict;
        outcome := service.CreateIncident(terminal, queued.request.id, reason);
      } else {
        outcome := recorded.outcome;
      }
    }
    DeliveryKeepsConsistency(old(service.Tables()), (terminal, queued.request.id), service.Tables());
  }

  /** The actions of a batch are dealt with one after another, each on the tables the
      one before it left, and each answer is at the place its action was sent in. */
  ghost predicate SyncedInTurn(states: seq<Db>, terminal: string, sorted: seq<QueuedAction>,
                               employeeFor: string -> Option<string>, clock: nat -> int, results: seq<Outcome>)
  {
    && |states| == |sorted| + 1 && |results| == |sorted|
    && forall i :: 0 <= i < |sorted| ==>
      && sorted[i].index < |results|
      && Synced(states[i], terminal, sorted[i], employeeFor(sorted[i].uid), clock(i), states[i + 1],
                results[sorted[i].index])
  }

  // The first actions, with their answers still beside their places.
  ghost predicate SyncedSoFar(states: seq<Db>, terminal: string, sorted: seq<QueuedAction>,
                              employeeFor: string -> Option<string>, clock: nat -> int, tagged: seq<(nat, Outcome)>)
  {
    && |states| == |tagged| + 1 && |tagged| <= |sorted|
    && forall i :: 0 <= i < |tagged| ==>
      Synced(states[i], terminal, sorted[i], employeeFor(sorted[i].uid), clock(i), states[i + 1], tagged[i].1)
  }

  lemma {:induction false} OneMoreSynced(states: seq<Db>, terminal: string, sorted: seq<QueuedAction>,
                                         employeeFor: string -> Option<string>, clock: nat -> int,
                                         tagged: seq<(nat, Outcome)>, after: Db, outcome: Outcome)
    requires SyncedSoFar(states, terminal, sorted, employeeFor, clock, tagged) && |tagged| < |sorted|
    requires var i := |tagged|;
      Synced(states[i], terminal, sorted[i], employeeFor(sorted[i].uid), clock(i), after, outcome)
    ensures SyncedSoFar(states + [after], terminal, sorted, employeeFor, clock,
                        tagged + [(sorted[|tagged|].index, outcome)])
  {
    hide Synced;
  }

  // Sorted back, every answer stands at its place.
  lemma {:induction false} PlacedAnswers(db: Db, terminal: string, states: seq<Db>, actions: seq<QueuedAction>,
                                         sorted: seq<QueuedAction>, employeeFor: string -> Option<string>,
                                         clock: nat -> int, tagged: seq<(nat, Outcome)>, results: seq<Outcome>)
    requires Indexed(actions) && multiset(sorted) == multiset(actions) && |tagged| == |sorted| == |actions|
    requires Tagged(db, terminal, sorted, tagged) && SyncedSoFar(states, terminal, sorted, employeeFor, clock, tagged)
    requires var ordered := Sort(RESULT_INDEX, tagged);
      |results| == |ordered| && forall k :: 0 <= k < |results| ==> results[k] == ordered[k].1
    ensures SyncedInTurn(states, terminal, sorted, employeeFor, clock, results)
  {
    hide Sort, AnswerTo, Synced;
    SortedAnswers(db, terminal, actions, sorted, tagged);
    SortSorts(RESULT_INDEX, tagged);
    var ordered := Sort(RESULT_INDEX, tagged);
    forall i | 0 <= i < |sorted| ensures sorted[i].index < |results| && results[sorted[i].index] == tagged[i].1 {
      ElementsOf(tagged, ordered, i);
      var j :| 0 <= j < |ordered| && ordered[j] == tagged[i];
      assert ordered[j].0 == j;
    }
  }

  /** The batch's answers, sorted back: the i-th answers the i-th action sent. */
  ghost predicate Answers(db: Db, terminal: string, s: seq<QueuedAction>, results: seq<Outcome>) {
    |results| == |s| && forall i :: 0 <= i < |s| ==> AnswerTo(db, terminal, s[i], results[i])
  }

  // Every answer is tagged with the place of its action, each place once.
  ghost predicate Tagged(db: Db, terminal: string, sorted: seq<QueuedAction>, tagged: seq<(nat, Outcome)>) {
    && |tagged| <= |sorted|
    && forall k :: 0 <= k < |tagged| ==>
      tagged[k].0 == sorted[k].index && AnswerTo(db, terminal, sorted[k], tagged[k].1)
  }

  lemma {:induction false} OneMoreAnswer(before: Db, delivered: Key, after: Db, terminal: string,
                                         sorted: seq<QueuedAction>, tagged: seq<(nat, Outcome)>, answer: Outcome)
    requires Tagged(before, terminal, sorted, tagged) && |tagged| < |sorted| && Delivers(before, delivered, after)
    requires AnswerTo(after, terminal, sorted[|tagged|], answer)
    ensures Tagged(after, terminal, sorted, tagged + [(sorted[|tagged|].index, answer)])
  {
    hide Delivers, Settled;
    forall k | 0 <= k < |tagged| ensures AnswerTo(after, terminal, sorted[k], tagged[k].1) {
      SettledStays(before, delivered, after, (terminal, sorted[k].request.id), tagged[k].1.status);
    }
  }

  /** `syncActions`, from the signatures on. The batch is refused whole, before
      any delivery, or delivered action by action in captured order. */
  method SyncActions(service: Service, terminal: string, actions: seq<QueuedAction>, verify: QueuedAction -> bool,
                     employeeFor: string -> Option<string>, clock: nat -> int)
    returns (reply: SyncReply)
    requires terminal != "" && Consistent(service.Tables()) && Indexed(actions)
    modifies service
    ensures Consistent(service.Tables())
    ensures reply.Answered? <==>
      && |actions| <= 500 && (forall i :: 0 <= i < |actions| ==> verify(actions[i]))
      && ChainHolds(SortQueued(actions))
    ensures !reply.Answered? ==> service.Tables() == old(service.Tables())
    ensures reply.Answered? ==>
      && Answers(service.Tables(), terminal, actions, reply.results)
      && DeliveredAll(old(service.Tables()), KeysOfBatch(terminal, SortQueued(actions)), service.Tables())
      && exists states ::
        && SyncedInTurn(states, terminal, SortQueued(actions), employeeFor, clock, reply.results)
        && states[0] == old(service.Tables()) && states[|actions|] == service.Tables()
  {
    hide Synced, SyncedSoFar, SyncedInTurn, SortQueued, Delivers, Consistent, ChainHolds, Sort, DeliveredAll, Tagged,
         AnswerTo, Settled;
    if |actions| > MAX_BATCH { return TooMany; }
    for i := 0 to |actions|
      invariant forall k :: 0 <= k < i ==> verify(actions[k])
    {
      if !verify(actions[i]) { return BadSignature; }
    }
    var sorted := SortQueued(actions);
    var chained := CheckChain(sorted);
    if !chained { return BadChain; }
    SortQueuedKeeps(actions);
    var tagged: seq<(nat, Outcome)> := [];
    ghost var keys := KeysOfBatch(terminal, sorted);
    NoDelivery(service.Tables());
    assert keys[..0] == [];
    ghost var states := [service.Tables()];
    assert SyncedSoFar(states, terminal, sorted, employeeFor, clock, tagged) by {
      NothingSynced(service.Tables(), terminal, sorted, employeeFor, clock);
    }
    assert Tagged(service.Tables(), terminal, sorted, tagged) by { NothingTagged(service.Tables(), terminal, sorted); }
    for i := 0 to |sorted|
      invariant Consistent(service.Tables()) && |tagged| == i && Tagged(service.Tables(), terminal, sorted, tagged)
      invariant DeliveredAll(old(service.Tables()), keys[..i], service.Tables())
      invariant SyncedSoFar(states, terminal, sorted, employeeFor, clock, tagged)
      invariant |states| == i + 1 && states[0] == old(service.Tables()) && states[i] == service.Tables()
    {
      var queued := sorted[i];
      ghost var before := service.Tables();
      var outcome := SyncOne(service, terminal, queued, employeeFor(queued.uid), clock(i));
      AnswerIs(service.Tables(), terminal, queued, outcome);
      OneMoreAnswer(before, keys[i], service.Tables(), terminal, sorted, tagged, outcome);
      OneMoreSynced(states, terminal, sorted, employeeFor, clock, tagged, service.Tables(), outcome);
      states := states + [service.Tables()];
      tagged := tagged + [(queued.index, outcome)];
      OneMoreDelivery(old(service.Tables()), keys[..i], before, keys[i], service.Tables());
      assert keys[..i + 1] == keys[..i] + [keys[i]];
    }
    assert keys[..|sorted|] == keys;
    var ordered := Sort(RESULT_INDEX, tagged);
    SortedAnswers(service.Tables(), terminal, actions, sorted, tagged);
    var results: seq<Outcome> := [];
    for i := 0 to |ordered|
      invariant |results| == i && forall k :: 0 <= k < i ==> results[k] == ordered[k].1
    {
      results := results + [ordered[i].1];
    }
    PlacedAnswers(service.Tables(), terminal, states, actions, sorted, employeeFor, clock, tagged, results);
    assert SyncedInTurn(states, terminal, SortQueued(actions), employeeFor, clock, results);
    return Answered(results);
  }

  lemma {:induction false} NothingSynced(db: Db, terminal: string, sorted: seq<QueuedAction>,
                                         employeeFor: string -> Option<string>, clock: nat -> int)
    ensures SyncedSoFar([db], terminal, sorted, employeeFor, clock, [])
  {
  }

  lemma {:induction false} NothingTagged(db: Db, terminal: string, sorted: seq<QueuedAction>)
    ensures Tagged(db, terminal, sorted, [])
  {
  }

  lemma {:induction false} AnswerIs(db: Db, terminal: string, a: QueuedAction, answer: Outcome)
    ensures AnswerTo(db, terminal, a, answer)
      <==> answer.requestId == a.request.id && Settled(db, (terminal, a.request.id), answer.status)
  {
  }

  lemma {:induction false} SortedAnswers(db: Db, terminal: string, actions: seq<QueuedAction>,
                                         sorted: seq<QueuedAction>, tagged: seq<(nat, Outcome)>)
    requires Indexed(actions) && multiset(sorted) == multiset(actions) && |tagged| == |sorted| == |actions|
    requires Tagged(db, terminal, sorted, tagged)
    ensures var ordered := Sort(RESULT_INDEX, tagged);
      && |ordered| == |actions|
      && forall i :: 0 <= i < |ordered| ==> ordered[i].0 == i && AnswerTo(db, terminal, actions[i], ordered[i].1)
  {
    hide Sort, AnswerTo;
    SortSorts(RESULT_INDEX, tagged);
    var ordered := Sort(RESULT_INDEX, tagged);
    forall k | 0 <= k < |tagged|
      ensures tagged[k].0 < |actions| && AnswerTo(db, terminal, actions[tagged[k].0], tagged[k].1)
    {
      ElementsOf(sorted, actions, k);
    }
    TagsDiffer(db, terminal, actions, sorted, tagged);
    PermutedStaysDistinct(RESULT_INDEX, tagged, ordered);
    forall i | 0 <= i < |ordered|
      ensures 0 <= RESULT_INDEX(ordered[i]) < |ordered| && AnswerTo(db, terminal, actions[ordered[i].0], ordered[i].1)
    {
      ElementsOf(ordered, tagged, i);
    }
    assert StrictlySortedBy(RESULT_INDEX, ordered);
    forall i: nat | i < |ordered| ensures ordered[i].0 == i {
      RisingNumbers(RESULT_INDEX, ordered, i);
    }
  }

  const PLACE_OF: QueuedAction -> int := (a: QueuedAction) => a.index

  lemma {:induction false} TagsDiffer(db: Db, terminal: string, actions: seq<QueuedAction>, sorted: seq<QueuedAction>,
                                      tagged: seq<(nat, Outcome)>)
    requires Indexed(actions) && multiset(sorted) == multiset(actions) && |tagged| == |sorted|
    requires Tagged(db, terminal, sorted, tagged)
    ensures DistinctBy(RESULT_INDEX, tagged)
  {
    PermutedStaysDistinct(PLACE_OF, actions, sorted);
    forall k, l | 0 <= k < l < |tagged| ensures RESULT_INDEX(tagged[k]) != RESULT_INDEX(tagged[l]) {
      assert PLACE_OF(sorted[k]) != PLACE_OF(sorted[l]);
    }
  }
}
