/** Replaying one person's log of events, corrections and voids. */
module EffectiveEvents {
  import opened Bytes
  import opened Sorting
  import opened Timesheet
  import opened EditableDays

  /** The columns of a `work_events` row that replay reads. `created` is the
      row's creation second. */
  datatype Row = Row(
    id: string, employee: string, kind: Kind, correctedKind: Option<Kind>, corrects: string,
    at: int, created: int, voids: bool, breakType: string, breakPaid: bool)

  const DAY := 86400
  const PAGE := 10000

  const ROW_AT: Row -> int := (r: Row) => r.at
  const ROW_ID: Row -> string := (r: Row) => r.id
  const ROW_CREATED: Row -> int := (r: Row) => r.created
  const EVENT_AT: Event -> int := (e: Event) => e.mark.at
  const EVENT_ID: Event -> string := (e: Event) => e.id

  function EventOf(r: Row): Event {
    Event(r.id, Mark(r.kind, r.at, r.breakType, r.breakPaid))
  }

  function Select(rows: seq<Row>, keep: Row -> bool): seq<Row> {
    if rows == [] then []
    else Select(rows[..|rows| - 1], keep) + if keep(rows[|rows| - 1]) then [rows[|rows| - 1]] else []
  }

  function InWindow(employee: string, until: int): Row -> bool {
    (r: Row) => r.employee == employee && r.at <= until + DAY
  }

  const IS_CORRECTION: Row -> bool := (r: Row) => r.kind == Correction

  /** The page of rows the query returns: by time, at most ten thousand. */
  function Queried(log: seq<Row>, employee: string, until: int): seq<Row> {
    var rows := Sort(ROW_AT, Select(log, InWindow(employee, until)));
    if |rows| <= PAGE then rows else rows[..PAGE]
  }

  lemma {:induction false} Selected(rows: seq<Row>, keep: Row -> bool, r: Row)
    ensures r in Select(rows, keep) <==> r in rows && keep(r)
  {
    if rows != [] {
      Selected(rows[..|rows| - 1], keep, r);
      assert rows == rows[..|rows| - 1] + [rows[|rows| - 1]];
    }
  }

  /** What replay reads are the employee's own rows up to a day after the instant, all
      of them in time order, or the ten thousand oldest. */
  lemma {:induction false} PageOfRows(log: seq<Row>, employee: string, until: int, r: Row)
    ensures var page := Queried(log, employee, until);
      var due := r in log && r.employee == employee && r.at <= until + 86400;
      && |page| <= 10000 && SortedBy(ROW_AT, page)
      && (r in page ==> due)
      && (due && r !in page ==> |page| == 10000 && forall k :: 0 <= k < |page| ==> page[k].at <= r.at)
  {
    hide Sort, Select;
    var kept := Select(log, InWindow(employee, until));
    Selected(log, InWindow(employee, until), r);
    SortSorts(ROW_AT, kept);
    var sorted := Sort(ROW_AT, kept);
    assert r in sorted <==> r in multiset(kept);
    var page := Queried(log, employee, until);
    assert forall i :: 0 <= i < |page| ==> page[i] == sorted[i] && page[i] in page;
    if r in kept && r !in page {
      var i :| 0 <= i < |sorted| && sorted[i] == r;
      assert ROW_AT(sorted[i]) == r.at;
    }
  }

  /** `findRecordById`. */
  function Find(log: seq<Row>, id: string): Option<Row> {
    if log == [] then None else if log[0].id == id then Some(log[0]) else Find(log[1..], id)
  }

  function Regular(rows: seq<Row>): map<string, Event> {
    if rows == [] then map[]
    else
      var last := rows[|rows| - 1];
      var earlier := Regular(rows[..|rows| - 1]);
      if last.kind == Correction then earlier else earlier[last.id := EventOf(last)]
  }

  /** The target of a correction: among the regular events, or fetched if it is the same person's. */
  function TargetOf(log: seq<Row>, employee: string, regular: map<string, Event>, c: Row): Option<Event> {
    if c.corrects == "" then None
    else if c.corrects in regular then Some(regular[c.corrects])
    else
      match Find(log, c.corrects)
      case None => None
      case Some(target) => if target.employee != employee then None else Some(EventOf(target))
  }

  function Corrected(target: Event, c: Row): Event {
    var kind := match c.correctedKind case Some(k) => k case None => target.mark.kind;
    target.(mark := target.mark.(kind := kind, at := c.at))
  }

  function Apply(log: seq<Row>, employee: string, regular: map<string, Event>, c: Row): map<string, Event> {
    match TargetOf(log, employee, regular, c)
    case None => regular
    case Some(target) => if c.voids then regular - {c.corrects} else regular[c.corrects := Corrected(target, c)]
  }

  function ApplyAll(log: seq<Row>, employee: string, regular: map<string, Event>, corrections: seq<Row>)
    : map<string, Event>
  {
    if corrections == [] then regular
    else
      var last := |corrections| - 1;
      Apply(log, employee, ApplyAll(log, employee, regular, corrections[..last]), corrections[last])
  }

  /** The effective events by id. */
  function Effects(log: seq<Row>, employee: string, until: int): map<string, Event> {
    var rows := Queried(log, employee, until);
    ApplyAll(log, employee, Regular(rows), Sort(ROW_CREATED, Select(rows, IS_CORRECTION)))
  }

  /** `events` are the values of `effects`, each once, in time order. */
  ghost predicate Lists(events: seq<Event>, effects: map<string, Event>) {
    && SortedBy(EVENT_AT, events)
    && DistinctBy(EVENT_ID, events)
    && (forall e :: e in events <==> e.id in effects && effects[e.id] == e)
  }

  // The keys of a JavaScript object in insertion order.
  ghost predicate KeysOf(keys: seq<string>, m: map<string, Event>) {
    && (forall k :: k in keys <==> k in m)
    && Distinct(keys)
    && (forall k :: k in m ==> m[k].id == k)
  }

  ghost predicate Distinct(keys: seq<string>) {
    forall i, j :: 0 <= i < j < |keys| ==> keys[i] != keys[j]
  }

  function Without(keys: seq<string>, key: string): seq<string> {
    if keys == [] then []
    else Without(keys[..|keys| - 1], key) + if keys[|keys| - 1] == key then [] else [keys[|keys| - 1]]
  }

  lemma {:induction false} WithoutDrops(keys: seq<string>, key: string)
    requires Distinct(keys)
    ensures forall k :: k in Without(keys, key) <==> k in keys && k != key
    ensures Distinct(Without(keys, key))
  {
    if keys != [] {
      var earlier, last := keys[..|keys| - 1], keys[|keys| - 1];
      WithoutDrops(earlier, key);
      assert keys == earlier + [last];
      assert last !in Without(earlier, key);
    }
  }

  method EffectiveEvents(log: seq<Row>, employee: string, until: int) returns (events: seq<Event>)
    ensures Lists(events, Effects(log, employee, until))
  {
    hide Find, Sort, Select, Apply, Regular, ApplyAll, Queried;
    var records := Queried(log, employee, until);
    var keys: seq<string> := [];
    var regular: map<string, Event> := map[];
    var corrections: seq<Row> := [];
    NothingToReplay(log, employee);
    for i := 0 to |records|
      invariant regular == Regular(records[..i]) && corrections == Select(records[..i], IS_CORRECTION)
      invariant KeysOf(keys, regular)
    {
      var record := records[i];
      OneMoreRecord(records, i);
      if record.kind == Correction {
        corrections := corrections + [record];
      } else {
        keys := if record.id in regular then keys else keys + [record.id];
        regular := regular[record.id := EventOf(record)];
      }
    }
    assert records[..|records|] == records;
    corrections := Sort(ROW_CREATED, corrections);
    ghost var start := regular;
    assert corrections[..0] == [];
    for i := 0 to |corrections|
      invariant regular == ApplyAll(log, employee, start, corrections[..i])
      invariant KeysOf(keys, regular)
    {
      var correction := corrections[i];
      OneMoreCorrection(log, employee, start, corrections, i);
      keys, regular := ApplyCorrection(log, employee, keys, regular, correction);
    }
    assert corrections[..|corrections|] == corrections;
    events := [];
    for i := 0 to |keys|
      invariant |events| == i
      invariant forall k :: 0 <= k < i ==> keys[k] in regular && events[k] == regular[keys[k]]
    {
      assert keys[i] in keys;
      events := events + [regular[keys[i]]];
    }
    ValuesAreListed(keys, regular, events);
    events := Sort(EVENT_AT, events);
  }

  /** One round of the corrections loop. */
  method ApplyCorrection(log: seq<Row>, employee: string, keys: seq<string>, regular: map<string, Event>,
                         correction: Row)
    returns (newKeys: seq<string>, r: map<string, Event>)
    requires KeysOf(keys, regular)
    ensures r == Apply(log, employee, regular, correction) && KeysOf(newKeys, r)
  {
    hide Find, Without;
    newKeys, r := keys, regular;
    var targetId := correction.corrects;
    if targetId == "" { return; }
    if targetId !in regular {
      var target := Find(log, targetId);
      if target.None? || target.value.employee != employee { return; }
      FindFinds(log, targetId);
      r := r[targetId := EventOf(target.value)];
      newKeys := newKeys + [targetId];
    }
    if correction.voids {
      WithoutDrops(newKeys, targetId);
      r := r - {targetId};
      newKeys := Without(newKeys, targetId);
      assert r == regular - {targetId};
      return;
    }
    r := r[targetId := Corrected(r[targetId], correction)];
  }

  lemma {:induction false} FindFinds(log: seq<Row>, id: string)
    ensures match Find(log, id)
            case Some(row) => row in log && row.id == id
            case None => forall row :: row in log ==> row.id != id
  {
    if log != [] && log[0].id != id { FindFinds(log[1..], id); }
  }

  lemma {:induction false} NothingToReplay(log: seq<Row>, employee: string)
    ensures Regular([]) == map[] && Select([], IS_CORRECTION) == []
    ensures forall regular :: ApplyAll(log, employee, regular, []) == regular
  {
  }

  lemma {:induction false} OneMoreRecord(rows: seq<Row>, i: nat)
    requires i < |rows|
    ensures Regular(rows[..i + 1])
      == if rows[i].kind == Correction then Regular(rows[..i]) else Regular(rows[..i])[rows[i].id := EventOf(rows[i])]
    ensures Select(rows[..i + 1], IS_CORRECTION)
      == Select(rows[..i], IS_CORRECTION) + if rows[i].kind == Correction then [rows[i]] else []
  {
    assert rows[..i + 1][..i] == rows[..i];
  }

  lemma {:induction false} OneMoreCorrection(log: seq<Row>, employee: string, regular: map<string, Event>,
                                             corrections: seq<Row>, i: nat)
    requires i < |corrections|
    ensures ApplyAll(log, employee, regular, corrections[..i + 1])
      == Apply(log, employee, ApplyAll(log, employee, regular, corrections[..i]), corrections[i])
  {
    hide Apply;
    assert corrections[..i + 1][..i] == corrections[..i];
  }

  lemma {:induction false} ValuesAreListed(keys: seq<string>, m: map<string, Event>, values: seq<Event>)
    requires KeysOf(keys, m) && |values| == |keys|
    requires forall k :: 0 <= k < |keys| ==> keys[k] in m && values[k] == m[keys[k]]
    ensures Lists(Sort(EVENT_AT, values), m)
  {
    hide Sort, SortedBy;
    SortSorts(EVENT_AT, values);
    var sorted := Sort(EVENT_AT, values);
    forall i, j | 0 <= i < j < |values| ensures EVENT_ID(values[i]) != EVENT_ID(values[j]) {
      assert values[i].id == keys[i] && values[j].id == keys[j];
    }
    PermutedStaysDistinct(EVENT_ID, values, sorted);
    forall e ensures e in sorted <==> e.id in m && m[e.id] == e {
      SameElements(sorted, values, e);
      ValuesOfKeys(keys, m, values, e);
    }
  }

  lemma {:induction false} ValuesOfKeys(keys: seq<string>, m: map<string, Event>, values: seq<Event>, e: Event)
    requires KeysOf(keys, m) && |values| == |keys|
    requires forall k :: 0 <= k < |keys| ==> keys[k] in m && values[k] == m[keys[k]]
    ensures e in values <==> e.id in m && m[e.id] == e
  {
    if e.id in m && m[e.id] == e {
      assert e.id in keys;
      var k :| 0 <= k < |keys| && keys[k] == e.id;
      assert values[k] == e;
    }
    if e in values {
      var k :| 0 <= k < |values| && values[k] == e;
      assert keys[k] in m;
    }
  }

  lemma {:induction false} SameElements(a: seq<Event>, b: seq<Event>, e: Event)
    requires multiset(a) == multiset(b)
    ensures e in a <==> e in b
  {
    assert e in a <==> e in multiset(a);
    assert e in b <==> e in multiset(b);
  }

  // ----------------------------------------------------------- what replay shows

  lemma {:induction false} SelectSelects(rows: seq<Row>, keep: Row -> bool)
    ensures forall row :: multiset(Select(rows, keep))[row] == if keep(row) then multiset(rows)[row] else 0
    ensures forall row :: row in Select(rows, keep) <==> row in rows && keep(row)
  {
    if rows != [] {
      SelectSelects(rows[..|rows| - 1], keep);
      assert rows == rows[..|rows| - 1] + [rows[|rows| - 1]];
    }
  }

  lemma {:induction false} QueriedRowsAreLogged(log: seq<Row>, employee: string, until: int)
    ensures forall row :: row in Queried(log, employee, until) ==> row in log && InWindow(employee, until)(row)
  {
    hide Sort, Select;
    var kept := Select(log, InWindow(employee, until));
    SelectSelects(log, InWindow(employee, until));
    SortSorts(ROW_AT, kept);
    forall row | row in Queried(log, employee, until) ensures row in log && InWindow(employee, until)(row) {
      assert row in multiset(Sort(ROW_AT, kept));
      assert row in kept;
    }
  }

  lemma {:induction false} RegularIsLogged(rows: seq<Row>)
    ensures forall id :: id in Regular(rows) ==>
      exists i :: 0 <= i < |rows| && rows[i].id == id && rows[i].kind != Correction
  {
    if rows != [] {
      var earlier, last := rows[..|rows| - 1], rows[|rows| - 1];
      RegularIsLogged(earlier);
      forall id | id in Regular(rows)
        ensures exists i :: 0 <= i < |rows| && rows[i].id == id && rows[i].kind != Correction
      {
        if id in Regular(earlier) {
          var i :| 0 <= i < |earlier| && earlier[i].id == id && earlier[i].kind != Correction;
          assert rows[i].id == id;
        } else {
          assert rows[|rows| - 1].id == id;
        }
      }
    }
  }

  ghost predicate Logged(log: seq<Row>, m: map<string, Event>) {
    forall id :: id in m ==> Find(log, id).Some?
  }

  lemma {:induction false} ApplyKeepsLogged(log: seq<Row>, employee: string, m: map<string, Event>,
                                            corrections: seq<Row>)
    requires Logged(log, m)
    ensures Logged(log, ApplyAll(log, employee, m, corrections))
  {
    if corrections != [] { ApplyKeepsLogged(log, employee, m, corrections[..|corrections| - 1]); }
  }

  /** Replay shows only events that have a row. */
  lemma {:induction false} EffectsAreLogged(log: seq<Row>, employee: string, until: int)
    ensures Logged(log, Effects(log, employee, until))
  {
    hide Find, Sort, Select, Queried, Regular;
    var rows := Queried(log, employee, until);
    RegularIsLogged(rows);
    QueriedRowsAreLogged(log, employee, until);
    forall id | id in Regular(rows) ensures Find(log, id).Some? {
      var i :| 0 <= i < |rows| && rows[i].id == id;
      assert rows[i] in rows;
      FindFinds(log, id);
    }
    ApplyKeepsLogged(log, employee, Regular(rows), Sort(ROW_CREATED, Select(rows, IS_CORRECTION)));
  }
}
