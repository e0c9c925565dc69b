/** The terminal service's side of delivery: receipts, incidents and batches.
    Each transaction is one atomic step, and the unique indexes of the database
    are part of it. */
module Delivery {
  import opened Bytes
  import opened WorkDay

  // ------------------------------------------------------------------ the tables

  datatype Entry = Plain(event: Event) | Correcting(target: string, command: Option<Command>, at: int, voids: bool)

  /** A `work_events` row; `terminal` is empty for rows the terminal service did not write. */
  datatype Row = Row(id: string, employee: string, requestId: string, terminal: string, entry: Entry)

  datatype IncidentReason = UidRevoked | Conflict | Untrusted

  datatype Incident = Incident(terminal: string, requestId: string, reason: IncidentReason)

  /** A receipt names the event or the incident a request became. */
  datatype Receipt = ForEvent(row: nat) | ForIncident(incident: nat)

  type Key = (string, string)

  datatype Db = Db(rows: seq<Row>, incidents: seq<Incident>, receipts: map<Key, Receipt>)

  function KeyOfRow(r: Row): Key { (r.terminal, r.requestId) }

  function KeyOfIncident(i: Incident): Key { (i.terminal, i.requestId) }

  /** Receipts and the rows they name are in one-to-one correspondence, and no
      two events share a request identifier. */
  ghost predicate Consistent(db: Db) {
    && (forall key :: key in db.receipts ==>
          match db.receipts[key]
          case ForEvent(i) => key.0 != "" && i < |db.rows| && KeyOfRow(db.rows[i]) == key
          case ForIncident(j) => key.0 != "" && j < |db.incidents| && KeyOfIncident(db.incidents[j]) == key)
    && (forall i: nat :: i < |db.rows| && db.rows[i].terminal != "" ==>
          KeyOfRow(db.rows[i]) in db.receipts && db.receipts[KeyOfRow(db.rows[i])] == ForEvent(i))
    && (forall j: nat :: j < |db.incidents| ==>
          && KeyOfIncident(db.incidents[j]) in db.receipts
          && db.receipts[KeyOfIncident(db.incidents[j])] == ForIncident(j))
    && (forall i, j :: 0 <= i < j < |db.rows| ==> db.rows[i].requestId != db.rows[j].requestId)
  }

  /** What one delivery of the request `key` may do to the tables. */
  ghost predicate Delivers(before: Db, key: Key, after: Db) {
    || after == before
    || (key !in before.receipts && key.0 != "" && AddsEvent(before, key, after))
    || (key !in before.receipts && key.0 != "" && AddsIncident(before, key, after))
  }

  ghost predicate AddsEvent(before: Db, key: Key, after: Db) {
    && |after.rows| == |before.rows| + 1 && after.rows[..|before.rows|] == before.rows
    && KeyOfRow(after.rows[|before.rows|]) == key
    && (forall i :: 0 <= i < |before.rows| ==> before.rows[i].requestId != key.1)
    && after.incidents == before.incidents
    && after.receipts == before.receipts[key := ForEvent(|before.rows|)]
  }

  ghost predicate AddsIncident(before: Db, key: Key, after: Db) {
    && after.rows == before.rows
    && |after.incidents| == |before.incidents| + 1 && after.incidents[..|before.incidents|] == before.incidents
    && KeyOfIncident(after.incidents[|before.incidents|]) == key
    && after.receipts == before.receipts[key := ForIncident(|before.incidents|)]
  }

  /** Another part of the system adds an event of its own. */
  ghost predicate OtherWrites(before: Db, after: Db) {
    && |after.rows| == |before.rows| + 1 && after.rows[..|before.rows|] == before.rows
    && after.rows[|before.rows|].terminal == ""
    && (forall i :: 0 <= i < |before.rows| ==> before.rows[i].requestId != after.rows[|before.rows|].requestId)
    && after.incidents == before.incidents && after.receipts == before.receipts
  }

  lemma {:induction false} EventKeepsConsistency(before: Db, key: Key, after: Db)
    requires Consistent(before) && key !in before.receipts && key.0 != "" && AddsEvent(before, key, after)
    ensures Consistent(after)
  {
    assert forall i :: 0 <= i < |before.rows| ==> after.rows[i] == after.rows[..|before.rows|][i];
  }

  lemma {:induction false} IncidentKeepsConsistency(before: Db, key: Key, after: Db)
    requires Consistent(before) && key !in before.receipts && key.0 != "" && AddsIncident(before, key, after)
    ensures Consistent(after)
  {
    assert forall j :: 0 <= j < |before.incidents| ==> after.incidents[j] == after.incidents[..|before.incidents|][j];
  }

  lemma {:induction false} DeliveryKeepsConsistency(before: Db, key: Key, after: Db)
    requires Consistent(before) && Delivers(before, key, after)
    ensures Consistent(after)
  {
    hide Consistent, AddsEvent, AddsIncident;
    if after != before {
      if AddsEvent(before, key, after) {
        EventKeepsConsistency(before, key, after);
      } else {
        IncidentKeepsConsistency(before, key, after);
      }
    }
  }

  lemma {:induction false} OtherWritesKeepConsistency(before: Db, after: Db)
    requires Consistent(before) && OtherWrites(before, after)
    ensures Consistent(after)
  {
    assert forall i :: 0 <= i < |before.rows| ==> after.rows[i] == after.rows[..|before.rows|][i];
  }

  // -------------------------------------------------------------- whole deliveries

  datatype Move = Deliver(key: Key) | Other

  ghost predicate Moves(before: Db, m: Move, after: Db) {
    match m
    case Deliver(key) => Delivers(before, key, after)
    case Other => OtherWrites(before, after)
  }

  /** Any number of deliveries, repeated and in any order, among other writes. */
  ghost predicate IsRun(states: seq<Db>, moves: seq<Move>) {
    && |states| == |moves| + 1 && states[0] == Db([], [], map[])
    && forall i :: 0 <= i < |moves| ==> Moves(states[i], moves[i], states[i + 1])
  }

  predicate Extends(before: Db, after: Db) {
    && before.rows <= after.rows && before.incidents <= after.incidents
    && forall key :: key in before.receipts ==> key in after.receipts && after.receipts[key] == before.receipts[key]
  }

  lemma {:induction false} MoveExtends(before: Db, m: Move, after: Db)
    requires Moves(before, m, after)
    ensures Extends(before, after)
  {
  }

  lemma {:induction false} RunKeepsConsistency(states: seq<Db>, moves: seq<Move>, i: nat)
    requires IsRun(states, moves) && i < |states|
    ensures Consistent(states[i])
  {
    if i > 0 {
      hide Consistent, Delivers, OtherWrites;
      RunKeepsConsistency(states, moves, i - 1);
      assert Moves(states[i - 1], moves[i - 1], states[i]);
      match moves[i - 1] {
        case Deliver(key) => DeliveryKeepsConsistency(states[i - 1], key, states[i]);
        case Other => OtherWritesKeepConsistency(states[i - 1], states[i]);
      }
    }
  }

  lemma {:induction false} RunExtends(states: seq<Db>, moves: seq<Move>, i: nat, j: nat)
    requires IsRun(states, moves) && i <= j < |states|
    ensures Extends(states[i], states[j])
  {
    if i < j {
      hide Moves;
      RunExtends(states, moves, i, j - 1);
      assert Moves(states[j - 1], moves[j - 1], states[j]);
      MoveExtends(states[j - 1], moves[j - 1], states[j]);
    }
  }

  /** The events and incidents of a key. */
  ghost function RowsOf(db: Db, key: Key): set<nat> {
    set i: nat | i < |db.rows| && KeyOfRow(db.rows[i]) == key
  }

  ghost function IncidentsOf(db: Db, key: Key): set<nat> {
    set j: nat | j < |db.incidents| && KeyOfIncident(db.incidents[j]) == key
  }

  /** A request has no trace, or a receipt with exactly one event and no incident, or
      a receipt with exactly one incident and no event. */
  ghost predicate HasOneOutcome(db: Db, key: Key) {
    if key in db.receipts then
      (match db.receipts[key]
       case ForEvent(row) => RowsOf(db, key) == {row} && IncidentsOf(db, key) == {}
       case ForIncident(incident) => RowsOf(db, key) == {} && IncidentsOf(db, key) == {incident})
    else RowsOf(db, key) == {} && IncidentsOf(db, key) == {}
  }

  lemma {:induction false} ConsistentOutcome(db: Db, key: Key)
    requires Consistent(db) && key.0 != ""
    ensures HasOneOutcome(db, key)
  {
  }

  /** At every moment of every run each request of a terminal has no receipt,
      event or incident at all, or a receipt with exactly one event, or a
      receipt with exactly one incident; never both and never two. */
  lemma {:induction false} OneOutcomePerRequest(states: seq<Db>, moves: seq<Move>, i: nat, key: Key)
    requires IsRun(states, moves) && i < |states| && key.0 != ""
    ensures HasOneOutcome(states[i], key)
  {
    hide Consistent;
    RunKeepsConsistency(states, moves, i);
    ConsistentOutcome(states[i], key);
  }

  /** Once a request has its receipt, its later deliveries change nothing, and no
      delivery of anything changes its receipt or the row it names. */
  lemma {:induction false} LaterDeliveriesChangeNothing(states: seq<Db>, moves: seq<Move>, i: nat, j: nat, key: Key)
    requires IsRun(states, moves) && i <= j < |states| && key in states[i].receipts
    ensures key in states[j].receipts && states[j].receipts[key] == states[i].receipts[key]
    ensures states[i].rows <= states[j].rows && states[i].incidents <= states[j].incidents
    ensures j < |moves| && moves[j] == Deliver(key) ==> states[j + 1] == states[j]
  {
    hide Extends, Moves;
    RunExtends(states, moves, i, j);
    ExtendsMeans(states[i], states[j], key);
    if j < |moves| && moves[j] == Deliver(key) {
      assert Moves(states[j], moves[j], states[j + 1]);
      RedeliveryIsIdle(states[j], key, states[j + 1]);
    }
  }

  lemma {:induction false} ExtendsMeans(before: Db, after: Db, key: Key)
    requires Extends(before, after) && key in before.receipts
    ensures key in after.receipts && after.receipts[key] == before.receipts[key]
    ensures before.rows <= after.rows && before.incidents <= after.incidents
  {
  }

  lemma {:induction false} RedeliveryIsIdle(before: Db, key: Key, after: Db)
    requires Moves(before, Deliver(key), after) && key in before.receipts
    ensures after == before
  {
  }
}
