/** Appending generated events and voids to the log, and what replay then shows. */
module Replacement {
  import opened Bytes
  import opened Sorting
  import opened Timesheet
  import opened EditableDays
  import E = EffectiveEvents

  type Row = E.Row

  // ------------------------------------------------------------------ the table

  /** The `work_events` table. The database chooses the id and the creation
      second of the n-th row. Rows are only ever added. */
  class WorkEvents {
    var rows: seq<Row>
    const idAt: nat -> string
    const createdAt: nat -> int

    constructor (idAt: nat -> string, createdAt: nat -> int)
      ensures rows == [] && this.idAt == idAt && this.createdAt == createdAt
    {
      rows := [];
      this.idAt := idAt;
      this.createdAt := createdAt;
    }

    method Save(employee: string, kind: Kind, corrects: string, at: int, voids: bool, breakType: string,
                breakPaid: bool)
      modifies this
      ensures rows == old(rows)
        + [E.Row(idAt(|old(rows)|), employee, kind, None, corrects, at, createdAt(|old(rows)|), voids, breakType,
                 breakPaid)]
    {
      rows := rows
        + [E.Row(idAt(|rows|), employee, kind, None, corrects, at, createdAt(|rows|), voids, breakType, breakPaid)];
    }
  }

  function GeneratedRow(idAt: nat -> string, createdAt: nat -> int, n: nat, employee: string, m: Mark): Row {
    E.Row(idAt(n), employee, m.kind, None, "", m.at, createdAt(n), false, m.breakType, m.breakPaid)
  }

  function GeneratedRows(idAt: nat -> string, createdAt: nat -> int, n: nat, employee: string, marks: seq<Mark>)
    : seq<Row>
  {
    seq(|marks|, i requires 0 <= i < |marks| => GeneratedRow(idAt, createdAt, n + i, employee, marks[i]))
  }

  /** A void stands at the target's own stored time. */
  function VoidRow(idAt: nat -> string, createdAt: nat -> int, n: nat, employee: string, target: string, at: int): Row {
    E.Row(idAt(n), employee, Correction, None, target, at, createdAt(n), true, "", false)
  }

  function StoredAt(log: seq<Row>, id: string): int {
    match E.Find(log, id) case Some(row) => row.at case None => 0
  }

  function VoidRows(idAt: nat -> string, createdAt: nat -> int, log: seq<Row>, employee: string, targets: seq<string>)
    : seq<Row>
  {
    seq(|targets|, i requires 0 <= i < |targets| =>
      VoidRow(idAt, createdAt, |log| + i, employee, targets[i], StoredAt(log, targets[i])))
  }

  /** The log after a replacement: the old rows, the voids, the new events. */
  function Grown(idAt: nat -> string, createdAt: nat -> int, log: seq<Row>, employee: string,
                 targets: seq<string>, marks: seq<Mark>): seq<Row>
  {
    log + VoidRows(idAt, createdAt, log, employee, targets)
      + GeneratedRows(idAt, createdAt, |log| + |targets|, employee, marks)
  }

  /** `materializeRequest`: one row per specification, after the rows there are. */
  method MaterializeRequest(table: WorkEvents, employee: string, items: seq<Interval>)
    modifies table
    ensures var marks := Sort(AT_OF, Compiled(items, |items|));
      table.rows == old(table.rows) + GeneratedRows(table.idAt, table.createdAt, |old(table.rows)|, employee, marks)
  {
    hide Sort, Compiled;
    var specifications := Specifications(items);
    ghost var before := table.rows;
    ghost var generated := GeneratedRows(table.idAt, table.createdAt, |before|, employee, specifications);
    for i := 0 to |specifications|
      invariant table.rows == before + generated[..i]
    {
      var m := specifications[i];
      assert generated[..i + 1] == generated[..i] + [generated[i]];
      table.Save(employee, m.kind, "", m.at, false, m.breakType, m.breakPaid);
    }
  }

  datatype ReplacementError = Replaced | DayChanged | TargetsChanged | NotTheirs

  /** `editableDayState` of one date: replay to the end of the next day and take the date's group. */
  method EditableDayState(zone: Zone, log: seq<Row>, employee: string, workDate: int) returns (day: Day)
    ensures exists events :: DayOf(zone, log, employee, workDate, events, day)
  {
    var events := E.EffectiveEvents(log, employee, zone.instant(workDate, "00:00", 2));
    var days := EditableDays.EditableDays(zone, events);
    day := GroupFor(days, workDate);
    assert DayOf(zone, log, employee, workDate, events, day);
  }

  ghost predicate DayOf(zone: Zone, log: seq<Row>, employee: string, workDate: int, events: seq<Event>, day: Day) {
    && E.Lists(events, E.Effects(log, employee, zone.instant(workDate, "00:00", 2)))
    && day == GroupFor(Walked(zone, events).groups, workDate)
  }

  /** `materializeReplacement`. When the day is as it was requested, the log
      grows by a void for every target and the new events; otherwise, the
      enclosing transaction being rolled back, it stays as it was. */
  method MaterializeReplacement(table: WorkEvents, zone: Zone, fingerprint: seq<Event> -> string, employee: string,
                                workDate: int, baseFingerprint: string, targets: seq<string>, items: seq<Interval>)
    returns (error: ReplacementError)
    modifies table
    ensures exists events, day ::
      && DayOf(zone, old(table.rows), employee, workDate, events, day)
      && (error.DayChanged? <==> fingerprint(day.events) != baseFingerprint)
      && (error.TargetsChanged? <==> !error.DayChanged? && multiset(day.eventIds) != multiset(targets))
      && (error.NotTheirs? <==>
            !error.DayChanged? && !error.TargetsChanged? && exists i ::
                0 <= i < |targets| && !Theirs(old(table.rows), employee, targets[i]))
    ensures error.Replaced? ==>
      table.rows == Grown(table.idAt, table.createdAt, old(table.rows), employee, targets,
                          Sort(AT_OF, Compiled(items, |items|)))
    ensures !error.Replaced? ==> table.rows == old(table.rows)
  {
    hide E.Effects, E.Find, Walked, GroupFor, Sort, Compiled;
    var before := table.rows;
    var current := EditableDayState(zone, before, employee, workDate);
    ghost var events :| DayOf(zone, before, employee, workDate, events, current);
    if fingerprint(current.events) != baseFingerprint { return DayChanged; }
    if multiset(targets) != multiset(current.eventIds) { return TargetsChanged; }
    TargetsExist(zone, before, employee, workDate, events, current, targets);
    var theirs := VoidTargets(table, employee, targets);
    if !theirs {
      table.rows := before;
      return NotTheirs;
    }
    MaterializeRequest(table, employee, items);
    return Replaced;
  }

  /** The loop over the targets; it stops at one that is somebody else's. */
  method VoidTargets(table: WorkEvents, employee: string, targets: seq<string>) returns (theirs: bool)
    requires forall i :: 0 <= i < |targets| ==> E.Find(table.rows, targets[i]).Some?
    modifies table
    ensures theirs <==> forall i :: 0 <= i < |targets| ==> Theirs(old(table.rows), employee, targets[i])
    ensures theirs ==>
      table.rows == old(table.rows) + VoidRows(table.idAt, table.createdAt, old(table.rows), employee, targets)
  {
    hide E.Find;
    ghost var before := table.rows;
    ghost var voids := VoidRows(table.idAt, table.createdAt, before, employee, targets);
    for i := 0 to |targets|
      invariant table.rows == before + voids[..i]
      invariant forall k :: 0 <= k < i ==> Theirs(before, employee, targets[k])
    {
      var target := E.Find(table.rows, targets[i]);
      FindInGrown(before, voids[..i], targets[i]);
      if target.value.employee != employee {
        assert !Theirs(before, employee, targets[i]);
        return false;
      }
      assert voids[..i + 1] == voids[..i] + [voids[i]];
      table.Save(employee, Correction, targets[i], target.value.at, true, "", false);
    }
    return true;
  }

  ghost predicate Theirs(log: seq<Row>, employee: string, id: string) {
    match E.Find(log, id) case Some(row) => row.employee == employee case None => false
  }

  lemma {:induction false} FindInGrown(log: seq<Row>, more: seq<Row>, id: string)
    ensures E.Find(log, id).Some? ==> E.Find(log + more, id) == E.Find(log, id)
    ensures E.Find(log, id).None? ==> E.Find(log + more, id) == E.Find(more, id)
  {
    if log == [] {
      assert log + more == more;
    } else {
      assert (log + more)[1..] == log[1..] + more;
      FindInGrown(log[1..], more, id);
    }
  }

  // What a date lists has a row, so looking a target up cannot fail.
  lemma {:induction false} TargetsExist(zone: Zone, log: seq<Row>, employee: string, workDate: int, events: seq<Event>,
                                        day: Day, targets: seq<string>)
    requires DayOf(zone, log, employee, workDate, events, day) && multiset(targets) == multiset(day.eventIds)
    ensures forall i :: 0 <= i < |targets| ==> E.Find(log, targets[i]).Some?
  {
    hide E.Effects, E.Find, Walked, GroupFor;
    forall i | 0 <= i < |targets| ensures E.Find(log, targets[i]).Some? {
      ElementsOf(targets, day.eventIds, i);
      GroupIdsAreEvents(zone, events, workDate, targets[i]);
      var k :| 0 <= k < |events| && events[k].id == targets[i];
      assert events[k] in events;
      E.EffectsAreLogged(log, employee, zone.instant(workDate, "00:00", 2));
    }
  }
}
