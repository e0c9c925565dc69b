/** What replay shows of a log that a replacement has grown. */
module ReplacementReplay {
  import opened Bytes
  import opened Sorting
  import opened Timesheet
  import opened EditableDays
  import opened E = EffectiveEvents
  import opened Replacement

  /** Ids and creation seconds the database hands out. */
  ghost predicate GoodKeys(idAt: nat -> string, createdAt: nat -> int) {
    && (forall i: nat :: idAt(i) != "")
    && (forall i: nat, j: nat :: i < j ==> idAt(i) != idAt(j))
    && (forall i: nat, j: nat :: i < j ==> createdAt(i) < createdAt(j))
  }

  /** Every row has its key, and a correction points at an earlier row or at none. */
  ghost predicate WellKept(idAt: nat -> string, createdAt: nat -> int, log: seq<E.Row>) {
    && GoodKeys(idAt, createdAt)
    && (forall i: nat :: i < |log| ==> log[i].id == idAt(i) && log[i].created == createdAt(i))
    && (forall i: nat :: i < |log| && log[i].corrects != "" ==> Find(log[..i], log[i].corrects).Some?)
  }

  ghost predicate OnePage(log: seq<E.Row>, employee: string, until: int) {
    |Select(log, InWindow(employee, until))| <= PAGE
  }

  // ------------------------------------------------- replay without the two sorts

  /** Replay in the order of the log. */
  function InLogOrder(log: seq<E.Row>, employee: string, until: int): map<string, Event> {
    var rows := Select(log, InWindow(employee, until));
    ApplyAll(log, employee, Regular(rows), Select(rows, IS_CORRECTION))
  }

  ghost predicate IdsDetermine(rows: seq<E.Row>) {
    forall a, b :: a in rows && b in rows && a.id == b.id ==> a == b
  }

  lemma {:induction false} RegularIs(rows: seq<E.Row>)
    requires IdsDetermine(rows)
    ensures forall row :: row in rows && row.kind != Correction ==>
      row.id in Regular(rows) && Regular(rows)[row.id] == EventOf(row)
  {
    if rows != [] {
      var earlier, last := rows[..|rows| - 1], rows[|rows| - 1];
      assert rows == earlier + [last];
      RegularIs(earlier);
    }
  }

  lemma {:induction false} RegularOfSameRows(a: seq<E.Row>, b: seq<E.Row>)
    requires IdsDetermine(a) && IdsDetermine(b) && multiset(a) == multiset(b)
    ensures Regular(a) == Regular(b)
  {
    forall id ensures id in Regular(a) ==> id in Regular(b) && Regular(a)[id] == Regular(b)[id] {
      RegularGoesOver(a, b, id);
    }
    forall id ensures id in Regular(b) ==> id in Regular(a) && Regular(a)[id] == Regular(b)[id] {
      RegularGoesOver(b, a, id);
    }
  }

  lemma {:induction false} RegularGoesOver(a: seq<E.Row>, b: seq<E.Row>, id: string)
    requires IdsDetermine(a) && IdsDetermine(b) && multiset(a) == multiset(b)
    ensures id in Regular(a) ==> id in Regular(b) && Regular(a)[id] == Regular(b)[id]
  {
    if id in Regular(a) {
      hide Regular;
      RegularIs(a);
      RegularIs(b);
      RegularIsLogged(a);
      var i: nat :| i < |a| && a[i].id == id && a[i].kind != Correction;
      ElementsOf(a, b, i);
      assert a[i] in a;
    }
  }

  lemma {:induction false} SelectKeepsOrder(rows: seq<E.Row>, keep: E.Row -> bool)
    requires StrictlySortedBy(ROW_CREATED, rows)
    ensures StrictlySortedBy(ROW_CREATED, Select(rows, keep))
  {
    if rows != [] {
      var earlier, last := rows[..|rows| - 1], rows[|rows| - 1];
      SelectKeepsOrder(earlier, keep);
      SelectSelects(earlier, keep);
      var kept := Select(earlier, keep);
      forall i | 0 <= i < |kept| ensures ROW_CREATED(kept[i]) < ROW_CREATED(last) {
        assert kept[i] in earlier;
      }
    }
  }

  lemma {:induction false} SelectOfSameRows(a: seq<E.Row>, b: seq<E.Row>, keep: E.Row -> bool)
    requires multiset(a) == multiset(b)
    ensures multiset(Select(a, keep)) == multiset(Select(b, keep))
  {
    SelectSelects(a, keep);
    SelectSelects(b, keep);
  }

  lemma {:induction false} KeptIdsDetermine(idAt: nat -> string, createdAt: nat -> int, log: seq<E.Row>)
    requires WellKept(idAt, createdAt, log)
    ensures IdsDetermine(log) && StrictlySortedBy(ROW_CREATED, log)
  {
    forall a, b | a in log && b in log && a.id == b.id ensures a == b {
      var i: nat :| i < |log| && log[i] == a;
      var j: nat :| j < |log| && log[j] == b;
      assert i == j;
    }
  }

  /** The rows the query returns. */
  function InPage(log: seq<E.Row>, employee: string, until: int): E.Row -> bool {
    (r: E.Row) => r in Queried(log, employee, until)
  }

  lemma {:induction false} KeptRowsAppearOnce(idAt: nat -> string, createdAt: nat -> int, log: seq<E.Row>, row: E.Row)
    requires WellKept(idAt, createdAt, log) && row in log
    ensures multiset(log)[row] == 1
  {
    hide Find;
    var i: nat :| i < |log| && log[i] == row;
    forall k: nat, l: nat | k < l < |log| ensures ROW_ID(log[k]) != ROW_ID(log[l]) {}
    AppearsOnce(ROW_ID, log, i);
  }

  // The page holds what the log holds of it.
  lemma {:induction false} PageOfLog(idAt: nat -> string, createdAt: nat -> int, log: seq<E.Row>, employee: string,
                                     until: int)
    requires WellKept(idAt, createdAt, log)
    ensures multiset(Select(log, InPage(log, employee, until))) == multiset(Queried(log, employee, until))
    ensures OnePage(log, employee, until) ==>
      Select(log, InPage(log, employee, until)) == Select(log, InWindow(employee, until))
  {
    hide Sort, Select, WellKept;
    var page := Queried(log, employee, until);
    SelectSelects(log, InPage(log, employee, until));
    QueriedRowsAreLogged(log, employee, until);
    forall row: E.Row ensures multiset(Select(log, InPage(log, employee, until)))[row] == multiset(page)[row] {
      PageAtMostLog(log, employee, until, row);
      if row in page { KeptRowsAppearOnce(idAt, createdAt, log, row); }
    }
    if OnePage(log, employee, until) {
      SortSorts(ROW_AT, Select(log, InWindow(employee, until)));
      SelectSelects(log, InWindow(employee, until));
      SelectAlike(log, InPage(log, employee, until), InWindow(employee, until));
    }
  }

  lemma {:induction false} PageAtMostLog(log: seq<E.Row>, employee: string, until: int, row: E.Row)
    ensures multiset(Queried(log, employee, until))[row] <= multiset(log)[row]
    ensures OnePage(log, employee, until) ==>
      (row in Queried(log, employee, until) <==> row in Select(log, InWindow(employee, until)))
  {
    hide Sort, Select, SortedBy;
    var rows := Select(log, InWindow(employee, until));
    var sorted, page := Sort(ROW_AT, rows), Queried(log, employee, until);
    SortSorts(ROW_AT, rows);
    SelectSelects(log, InWindow(employee, until));
    PrefixCounts(sorted, |page|, row);
    assert row in multiset(sorted) <==> row in multiset(rows);
  }

  lemma {:induction false} PrefixCounts(rows: seq<E.Row>, n: nat, row: E.Row)
    requires n <= |rows|
    ensures multiset(rows[..n])[row] <= multiset(rows)[row]
    ensures rows[..|rows|] == rows
  {
    assert rows == rows[..n] + rows[n..];
  }

  lemma {:induction false} SelectAlike(rows: seq<E.Row>, a: E.Row -> bool, b: E.Row -> bool)
    requires forall row :: row in rows ==> (a(row) <==> b(row))
    ensures Select(rows, a) == Select(rows, b)
  {
    if rows != [] {
      SelectAlike(rows[..|rows| - 1], a, b);
      assert rows == rows[..|rows| - 1] + [rows[|rows| - 1]];
    }
  }

  /** With creation times rising, neither the query's sort by time nor the corrections'
      sort by creation matters beyond which rows are on the page: they are replayed as
      the log has them, all of the window's if they fit one page. */
  lemma {:induction false} SortsDoNotMatter(idAt: nat -> string, createdAt: nat -> int, log: seq<E.Row>,
                                            employee: string, until: int)
    requires WellKept(idAt, createdAt, log)
    ensures var rows := Select(log, InPage(log, employee, until));
      Effects(log, employee, until) == ApplyAll(log, employee, Regular(rows), Select(rows, IS_CORRECTION))
    ensures OnePage(log, employee, until) ==> Effects(log, employee, until) == InLogOrder(log, employee, until)
  {
    hide Sort, Select, Regular, ApplyAll, WellKept, Queried, OnePage;
    var rows := Select(log, InPage(log, employee, until));
    var queried := Queried(log, employee, until);
    PageOfLog(idAt, createdAt, log, employee, until);
    KeptIdsDetermine(idAt, createdAt, log);
    SelectSelects(log, InPage(log, employee, until));
    SelectKeepsOrder(log, InPage(log, employee, until));
    SelectKeepsOrder(rows, IS_CORRECTION);
    SelectOfSameRows(queried, rows, IS_CORRECTION);
    SortSorts(ROW_CREATED, Select(queried, IS_CORRECTION));
    OneStrictOrder(ROW_CREATED, Select(rows, IS_CORRECTION), Sort(ROW_CREATED, Select(queried, IS_CORRECTION)));
    QueriedRowsAreLogged(log, employee, until);
    RegularOfSameRows(queried, rows);
  }

  /** From a full page on, replay never reads what is stored behind it: neither new
      events nor corrections nor voids. */
  lemma {:induction false} BehindAFullPage(idAt: nat -> string, createdAt: nat -> int, log: seq<E.Row>,
                                           more: seq<E.Row>, employee: string, until: int)
    requires WellKept(idAt, createdAt, log) && |Queried(log, employee, until)| == PAGE
    requires forall row :: row in more && InWindow(employee, until)(row) ==>
      row.at >= Queried(log, employee, until)[PAGE - 1].at
    ensures Queried(log + more, employee, until) == Queried(log, employee, until)
    ensures Effects(log + more, employee, until) == Effects(log, employee, until)
  {
    hide Sort, Select, Regular, ApplyAll, WellKept, Find;
    var keep := InWindow(employee, until);
    var rows, page := Select(log, keep), Queried(log, employee, until);
    SelectOfConcatenation(log, more, keep);
    SelectSelects(more, keep);
    SortSorts(ROW_AT, rows);
    var sorted := Sort(ROW_AT, rows);
    assert sorted[PAGE - 1] == page[PAGE - 1];
    forall i | 0 <= i < |Select(more, keep)| ensures ROW_AT(sorted[PAGE - 1]) <= ROW_AT(Select(more, keep)[i]) {
      assert Select(more, keep)[i] in more;
    }
    SortKeepsPrefix(ROW_AT, rows, Select(more, keep), PAGE);
    SortSorts(ROW_AT, rows + Select(more, keep));
    var corrections := Sort(ROW_CREATED, Select(page, IS_CORRECTION));
    PageCorrectionsPointBack(idAt, createdAt, log, employee, until);
    OldCorrections(log, more, employee, Regular(page), map[], corrections);
    assert Regular(page) + map[] == Regular(page);
    var replayed := ApplyAll(log, employee, Regular(page), corrections);
    assert replayed + map[] == replayed;
  }

  lemma {:induction false} PageCorrectionsPointBack(idAt: nat -> string, createdAt: nat -> int, log: seq<E.Row>,
                                                    employee: string, until: int)
    requires WellKept(idAt, createdAt, log)
    ensures forall c ::
      c in Sort(ROW_CREATED, Select(Queried(log, employee, until), IS_CORRECTION)) && c.corrects != "" ==>
      Find(log, c.corrects).Some?
  {
    hide Find, Select, WellKept, Sort, Queried;
    var page := Queried(log, employee, until);
    var corrections := Sort(ROW_CREATED, Select(page, IS_CORRECTION));
    QueriedRowsAreLogged(log, employee, until);
    SelectSelects(page, IS_CORRECTION);
    SortSorts(ROW_CREATED, Select(page, IS_CORRECTION));
    forall c | c in corrections && c.corrects != "" ensures Find(log, c.corrects).Some? {
      assert c in multiset(corrections);
      assert c in page && c in log;
      var i: nat :| i < |log| && log[i] == c;
      PointsBack(idAt, createdAt, log, i);
    }
  }

  // --------------------------------------------------------------- the grown log

  lemma {:induction false} SelectOfConcatenation(a: seq<E.Row>, b: seq<E.Row>, keep: E.Row -> bool)
    ensures Select(a + b, keep) == Select(a, keep) + Select(b, keep)
  {
    if b == [] {
      assert a + b == a;
    } else {
      SelectOfConcatenation(a, b[..|b| - 1], keep);
      assert (a + b)[..|a + b| - 1] == a + b[..|b| - 1];
    }
  }

  lemma {:induction false} RegularOfConcatenation(a: seq<E.Row>, b: seq<E.Row>)
    ensures Regular(a + b) == Regular(a) + Regular(b)
  {
    if b == [] {
      assert a + b == a;
    } else {
      RegularOfConcatenation(a, b[..|b| - 1]);
      assert (a + b)[..|a + b| - 1] == a + b[..|b| - 1];
    }
  }

  lemma {:induction false} ApplyAllOfConcatenation(log: seq<E.Row>, employee: string, m: map<string, Event>,
                                                  a: seq<E.Row>, b: seq<E.Row>)
    ensures ApplyAll(log, employee, m, a + b) == ApplyAll(log, employee, ApplyAll(log, employee, m, a), b)
  {
    hide Apply;
    if b == [] {
      assert a + b == a;
    } else {
      ApplyAllOfConcatenation(log, employee, m, a, b[..|b| - 1]);
      assert (a + b)[..|a + b| - 1] == a + b[..|b| - 1];
    }
  }

  /** Corrections of old rows do not see the new events, and leave them alone. */
  lemma {:induction false} OldCorrections(log: seq<E.Row>, more: seq<E.Row>, employee: string, m: map<string, Event>,
                                         new_: map<string, Event>, corrections: seq<E.Row>)
    requires forall c :: c in corrections && c.corrects != "" ==> Find(log, c.corrects).Some? && c.corrects !in new_
    ensures ApplyAll(log + more, employee, m + new_, corrections) == ApplyAll(log, employee, m, corrections) + new_
  {
    hide Find;
    if corrections != [] {
      var earlier, c := corrections[..|corrections| - 1], corrections[|corrections| - 1];
      OldCorrections(log, more, employee, m, new_, earlier);
      FindInGrown(log, more, c.corrects);
      assert c in corrections;
      var before := ApplyAll(log, employee, m, earlier);
      assert Apply(log + more, employee, before + new_, c) == Apply(log, employee, before, c) + new_;
    }
  }

  function Voided(voids: seq<E.Row>): set<string> {
    set c | c in voids :: c.corrects
  }

  /** Voids remove their targets and nothing else. */
  lemma {:induction false} VoidsRemove(log: seq<E.Row>, employee: string, m: map<string, Event>, voids: seq<E.Row>)
    requires forall c :: c in voids ==> c.voids && c.corrects != ""
    ensures ApplyAll(log, employee, m, voids) == m - Voided(voids)
  {
    hide Find;
    if voids != [] {
      var earlier, c := voids[..|voids| - 1], voids[|voids| - 1];
      VoidsRemove(log, employee, m, earlier);
      assert voids == earlier + [c];
      assert Voided(voids) == Voided(earlier) + {c.corrects};
    }
  }

  lemma {:induction false} SelectAll(rows: seq<E.Row>, keep: E.Row -> bool)
    ensures (forall row :: row in rows ==> keep(row)) ==> Select(rows, keep) == rows
    ensures (forall row :: row in rows ==> !keep(row)) ==> Select(rows, keep) == []
  {
    if rows != [] {
      SelectAll(rows[..|rows| - 1], keep);
      assert rows == rows[..|rows| - 1] + [rows[|rows| - 1]];
    }
  }

  /** The new events that fall in the window, by id. */
  function NewEvents(idAt: nat -> string, createdAt: nat -> int, n: nat, employee: string, marks: seq<Mark>, until: int)
    : map<string, Event>
  {
    Regular(Select(GeneratedRows(idAt, createdAt, n, employee, marks), InWindow(employee, until)))
  }

  /** The voids that fall in the window: they stand at their targets' stored times. */
  function VoidsInWindow(idAt: nat -> string, createdAt: nat -> int, log: seq<E.Row>, employee: string,
                         targets: seq<string>, until: int): seq<E.Row>
  {
    Select(VoidRows(idAt, createdAt, log, employee, targets), InWindow(employee, until))
  }

  ghost predicate Targets(log: seq<E.Row>, targets: seq<string>) {
    forall i :: 0 <= i < |targets| ==> targets[i] != "" && Find(log, targets[i]).Some?
  }

  ghost predicate NoCorrections(marks: seq<Mark>) {
    forall k :: 0 <= k < |marks| ==> marks[k].kind != Correction
  }

  lemma {:induction false} OldIdsAreOld(idAt: nat -> string, log: seq<E.Row>, n: nat, id: string)
    requires forall i: nat, j: nat :: i < j ==> idAt(i) != idAt(j)
    requires forall i: nat :: i < |log| ==> log[i].id == idAt(i)
    requires n >= |log| && Find(log, id).Some?
    ensures id != idAt(n)
  {
    FindFinds(log, id);
    var row := Find(log, id).value;
    var i: nat :| i < |log| && log[i] == row;
  }

  lemma {:induction false} NewIdsAreNew(idAt: nat -> string, createdAt: nat -> int, log: seq<E.Row>, n: nat,
                                        employee: string, marks: seq<Mark>, until: int, id: string)
    requires WellKept(idAt, createdAt, log) && n >= |log| && Find(log, id).Some?
    ensures id !in NewEvents(idAt, createdAt, n, employee, marks, until)
  {
    hide Find, Select, Regular, GeneratedInWindow, WellKept;
    var rows := GeneratedInWindow(idAt, createdAt, n, employee, marks, until);
    NewEventsAreRegular(idAt, createdAt, n, employee, marks, until);
    RegularIsLogged(rows);
    if id in Regular(rows) {
      var i: nat :| i < |rows| && rows[i].id == id;
      GeneratedRowsInWindow(idAt, createdAt, n, employee, marks, until, rows[i]);
      var k: nat :| k < |marks| && rows[i] == GeneratedRow(idAt, createdAt, n + k, employee, marks[k]);
      KeysOfKept(idAt, createdAt, log);
      OldIdsAreOld(idAt, log, n + k, id);
    }
  }

  lemma {:induction false} KeysOfKept(idAt: nat -> string, createdAt: nat -> int, log: seq<E.Row>)
    requires WellKept(idAt, createdAt, log)
    ensures forall i: nat, j: nat :: i < j ==> idAt(i) != idAt(j)
    ensures forall i: nat :: i < |log| ==> log[i].id == idAt(i)
  {
    hide Find;
  }

  lemma {:induction false} OldCorrectionsPointBack(idAt: nat -> string, createdAt: nat -> int, log: seq<E.Row>,
                                                   employee: string, until: int)
    requires WellKept(idAt, createdAt, log)
    ensures forall c :: c in Select(Select(log, InWindow(employee, until)), IS_CORRECTION) && c.corrects != "" ==>
      Find(log, c.corrects).Some?
  {
    hide Find, Select, WellKept;
    var rows := Select(log, InWindow(employee, until));
    SelectSelects(log, InWindow(employee, until));
    SelectSelects(rows, IS_CORRECTION);
    forall c | c in Select(rows, IS_CORRECTION) && c.corrects != "" ensures Find(log, c.corrects).Some? {
      assert c in rows && c in log;
      var i: nat :| i < |log| && log[i] == c;
      PointsBack(idAt, createdAt, log, i);
    }
  }

  lemma {:induction false} PointsBack(idAt: nat -> string, createdAt: nat -> int, log: seq<E.Row>, i: nat)
    requires WellKept(idAt, createdAt, log) && i < |log| && log[i].corrects != ""
    ensures Find(log, log[i].corrects).Some?
  {
    hide Find;
    assert log == log[..i] + log[i..];
    FindInGrown(log[..i], log[i..], log[i].corrects);
  }

  lemma {:induction false} VoidsAreVoids(idAt: nat -> string, createdAt: nat -> int, log: seq<E.Row>, employee: string,
                      targets: seq<string>, until: int)
    requires Targets(log, targets)
    ensures var voids := VoidsInWindow(idAt, createdAt, log, employee, targets, until);
      && (forall c :: c in voids ==> c.kind == Correction && c.voids && c.corrects != "")
      && Regular(voids) == map[] && Select(voids, IS_CORRECTION) == voids
  {
    hide Find, Select, Regular, StoredAt;
    var voidRows := VoidRows(idAt, createdAt, log, employee, targets);
    var voids := VoidsInWindow(idAt, createdAt, log, employee, targets, until);
    SelectSelects(voidRows, InWindow(employee, until));
    forall c | c in voids ensures c.kind == Correction && c.voids && c.corrects != "" {
      assert c in voidRows;
    }
    SelectAll(voids, IS_CORRECTION);
    RegularIsLogged(voids);
    forall i | 0 <= i < |voids| ensures voids[i].kind == Correction { assert voids[i] in voids; }
    assert Regular(voids).Keys == {};
  }

  lemma {:induction false} GeneratedAreRegular(idAt: nat -> string, createdAt: nat -> int, n: nat, employee: string,
                                               marks: seq<Mark>, until: int)
    requires NoCorrections(marks)
    ensures Select(Select(GeneratedRows(idAt, createdAt, n, employee, marks), InWindow(employee, until)),
                   IS_CORRECTION) == []
  {
    hide Select;
    var generated := GeneratedRows(idAt, createdAt, n, employee, marks);
    var rows := Select(generated, InWindow(employee, until));
    SelectSelects(generated, InWindow(employee, until));
    forall row | row in rows ensures !IS_CORRECTION(row) { assert row in generated; }
    SelectAll(rows, IS_CORRECTION);
  }

  // The parts of the grown log inside the window.
  lemma {:induction false} GrownInWindow(idAt: nat -> string, createdAt: nat -> int, log: seq<E.Row>, employee: string,
                      targets: seq<string>, marks: seq<Mark>, until: int)
    requires NoCorrections(marks) && Targets(log, targets)
    ensures var rows := Select(Grown(idAt, createdAt, log, employee, targets, marks), InWindow(employee, until));
      var voids := VoidsInWindow(idAt, createdAt, log, employee, targets, until);
      && Regular(rows) == Regular(Select(log, InWindow(employee, until)))
           + NewEvents(idAt, createdAt, |log| + |targets|, employee, marks, until)
      && Select(rows, IS_CORRECTION) == Select(Select(log, InWindow(employee, until)), IS_CORRECTION) + voids
      && forall c :: c in voids ==> c.voids && c.corrects != ""
  {
    hide Find, Select, Regular, VoidRows, GeneratedRows, Targets, NoCorrections, InWindow;
    var keep := InWindow(employee, until);
    var voidRows := VoidRows(idAt, createdAt, log, employee, targets);
    var generated := GeneratedRows(idAt, createdAt, |log| + |targets|, employee, marks);
    VoidsAreVoids(idAt, createdAt, log, employee, targets, until);
    GeneratedAreRegular(idAt, createdAt, |log| + |targets|, employee, marks, until);
    SelectOfConcatenation(log + voidRows, generated, keep);
    SelectOfConcatenation(log, voidRows, keep);
    var old_, voids, new_ := Select(log, keep), Select(voidRows, keep), Select(generated, keep);
    RegularOfConcatenation(old_ + voids, new_);
    RegularOfConcatenation(old_, voids);
    assert Regular(old_) + map[] == Regular(old_);
    SelectOfConcatenation(old_ + voids, new_, IS_CORRECTION);
    SelectOfConcatenation(old_, voids, IS_CORRECTION);
  }

  lemma {:induction false} GrownInLogOrder(idAt: nat -> string, createdAt: nat -> int, log: seq<E.Row>,
                                           employee: string, targets: seq<string>, marks: seq<Mark>, until: int)
    requires WellKept(idAt, createdAt, log) && Targets(log, targets) && NoCorrections(marks)
    ensures InLogOrder(Grown(idAt, createdAt, log, employee, targets, marks), employee, until)
      == InLogOrder(log, employee, until) + NewEvents(idAt, createdAt, |log| + |targets|, employee, marks, until)
         - Voided(VoidsInWindow(idAt, createdAt, log, employee, targets, until))
  {
    hide Find, Select, Regular, StoredAt, ApplyAll, WellKept, Voided, NewEvents, VoidsInWindow, Targets;
    var keep := InWindow(employee, until);
    var grown := Grown(idAt, createdAt, log, employee, targets, marks);
    var more := grown[|log|..];
    var old_ := Select(log, keep);
    var corrections := Select(old_, IS_CORRECTION);
    var voids := VoidsInWindow(idAt, createdAt, log, employee, targets, until);
    var new_ := NewEvents(idAt, createdAt, |log| + |targets|, employee, marks, until);
    assert grown == log + more;
    GrownInWindow(idAt, createdAt, log, employee, targets, marks, until);
    OldCorrectionsPointBack(idAt, createdAt, log, employee, until);
    forall c | c in corrections && c.corrects != "" ensures Find(log, c.corrects).Some? && c.corrects !in new_ {
      NewIdsAreNew(idAt, createdAt, log, |log| + |targets|, employee, marks, until, c.corrects);
    }
    ApplyAllOfConcatenation(grown, employee, Regular(old_) + new_, corrections, voids);
    OldCorrections(log, more, employee, Regular(old_), new_, corrections);
    VoidsRemove(grown, employee, ApplyAll(log, employee, Regular(old_), corrections) + new_, voids);
  }

  /** The targets whose void the window takes in. */
  lemma {:induction false} VoidedInWindow(idAt: nat -> string, createdAt: nat -> int, log: seq<E.Row>, employee: string,
                       targets: seq<string>, until: int, id: string)
    ensures id in Voided(VoidsInWindow(idAt, createdAt, log, employee, targets, until))
      <==> id in targets && StoredAt(log, id) <= until + DAY
  {
    hide Select, StoredAt;
    var voidRows := VoidRows(idAt, createdAt, log, employee, targets);
    var voids := VoidsInWindow(idAt, createdAt, log, employee, targets, until);
    SelectSelects(voidRows, InWindow(employee, until));
    if id in Voided(voids) {
      var c :| c in voids && c.corrects == id;
      var i :| 0 <= i < |voidRows| && voidRows[i] == c;
      assert targets[i] == id;
    }
    if id in targets && StoredAt(log, id) <= until + DAY {
      var i :| 0 <= i < |targets| && targets[i] == id;
      assert voidRows[i] in voids && voidRows[i].corrects == id;
    }
  }

  lemma {:induction false} GrownHasItsKeys(idAt: nat -> string, createdAt: nat -> int, log: seq<E.Row>,
                                           employee: string, targets: seq<string>, marks: seq<Mark>, i: nat)
    requires i < |Grown(idAt, createdAt, log, employee, targets, marks)|
    requires forall k: nat :: k < |log| ==> log[k].id == idAt(k) && log[k].created == createdAt(k)
    ensures var row := Grown(idAt, createdAt, log, employee, targets, marks)[i];
      && row.id == idAt(i) && row.created == createdAt(i)
      && (i >= |log| && row.corrects != "" ==> row.corrects in targets)
  {
    hide StoredAt;
    if |log| <= i < |log| + |targets| {
      assert Grown(idAt, createdAt, log, employee, targets, marks)[i]
        == VoidRow(idAt, createdAt, |log| + (i - |log|), employee, targets[i - |log|],
                   StoredAt(log, targets[i - |log|]));
    }
  }

  /** Growing the log keeps it well kept, so replacements can follow one another. */
  lemma {:induction false} GrownIsWellKept(idAt: nat -> string, createdAt: nat -> int, log: seq<E.Row>,
                                           employee: string, targets: seq<string>, marks: seq<Mark>)
    requires WellKept(idAt, createdAt, log) && Targets(log, targets)
    ensures WellKept(idAt, createdAt, Grown(idAt, createdAt, log, employee, targets, marks))
    ensures log <= Grown(idAt, createdAt, log, employee, targets, marks)
  {
    hide Find, StoredAt, VoidRows, GeneratedRows, GoodKeys;
    var grown := Grown(idAt, createdAt, log, employee, targets, marks);
    forall i: nat | i < |grown|
      ensures grown[i].id == idAt(i) && grown[i].created == createdAt(i)
      ensures grown[i].corrects != "" ==> Find(grown[..i], grown[i].corrects).Some?
    {
      GrownHasItsKeys(idAt, createdAt, log, employee, targets, marks, i);
      if i < |log| {
        assert grown[..i] == log[..i];
      } else if grown[i].corrects != "" {
        assert grown[..i] == log + grown[|log|..i];
        FindInGrown(log, grown[|log|..i], grown[i].corrects);
        var k :| 0 <= k < |targets| && targets[k] == grown[i].corrects;
      }
    }
  }

  /** Every target the replay shows is stored at a time the replay reads. */
  ghost predicate VoidsAreRead(log: seq<E.Row>, employee: string, targets: seq<string>, until: int) {
    forall t :: t in targets && t in Effects(log, employee, until) ==> StoredAt(log, t) <= until + DAY
  }

  lemma {:induction false} LessThanAPage(idAt: nat -> string, createdAt: nat -> int, log: seq<E.Row>, employee: string,
                                         targets: seq<string>, marks: seq<Mark>, until: int)
    requires OnePage(Grown(idAt, createdAt, log, employee, targets, marks), employee, until)
    ensures OnePage(log, employee, until)
  {
    hide Select, VoidRows, GeneratedRows;
    var grown := Grown(idAt, createdAt, log, employee, targets, marks);
    assert grown == log + grown[|log|..];
    SelectOfConcatenation(log, grown[|log|..], InWindow(employee, until));
  }

  /** A replacement shows, in every replay, the old effective events without the
      targets and with the new events, if and only if every target still shown
      there is stored at a time the replay reads. A target moved into the window
      by a correction from beyond it is voided out of the replay's sight. */
  lemma {:induction false} ReplacementTakesEffect(idAt: nat -> string, createdAt: nat -> int, log: seq<E.Row>,
                                                  employee: string, targets: seq<string>, marks: seq<Mark>, until: int)
    requires WellKept(idAt, createdAt, log) && Targets(log, targets) && NoCorrections(marks)
    ensures var grown := Grown(idAt, createdAt, log, employee, targets, marks);
      OnePage(grown, employee, until) ==>
        (Effects(grown, employee, until)
           == Effects(log, employee, until) - (set t | t in targets)
              + NewEvents(idAt, createdAt, |log| + |targets|, employee, marks, until)
         <==> VoidsAreRead(log, employee, targets, until))
  {
    hide Find, Select, Regular, StoredAt, ApplyAll, WellKept, Voided, NewEvents, VoidsInWindow, Effects, InLogOrder,
         Grown, OnePage;
    var grown := Grown(idAt, createdAt, log, employee, targets, marks);
    if !OnePage(grown, employee, until) { return; }
    LessThanAPage(idAt, createdAt, log, employee, targets, marks, until);
    GrownIsWellKept(idAt, createdAt, log, employee, targets, marks);
    SortsDoNotMatter(idAt, createdAt, log, employee, until);
    SortsDoNotMatter(idAt, createdAt, grown, employee, until);
    GrownInLogOrder(idAt, createdAt, log, employee, targets, marks, until);
    var new_ := NewEvents(idAt, createdAt, |log| + |targets|, employee, marks, until);
    var voided := Voided(VoidsInWindow(idAt, createdAt, log, employee, targets, until));
    forall id ensures id in voided <==> id in targets && StoredAt(log, id) <= until + DAY {
      VoidedInWindow(idAt, createdAt, log, employee, targets, until, id);
    }
    forall t | t in targets ensures t !in new_ {
      var i :| 0 <= i < |targets| && targets[i] == t;
      NewIdsAreNew(idAt, createdAt, log, |log| + |targets|, employee, marks, until, t);
    }
    MapsWithout(Effects(log, employee, until), new_, voided, set t | t in targets);
  }

  lemma {:induction false} MapsWithout(m: map<string, Event>, new_: map<string, Event>, some: set<string>,
                                       all: set<string>)
    requires some <= all && all !! new_.Keys
    ensures m + new_ - some == m - all + new_ <==> forall t :: t in all && t in m ==> t in some
  {
    var left, right := m + new_ - some, m - all + new_;
    if forall t :: t in all && t in m ==> t in some {
      assert left.Keys == right.Keys;
    } else {
      var t :| t in all && t in m && t !in some;
      assert t in left && t !in right;
    }
  }

  /** The same in terms of lists: replaying the grown log gives, in time order,
      the old effective events but the targets, and the new ones in the window. */
  lemma {:induction false} ReplacementInTimeOrder(idAt: nat -> string, createdAt: nat -> int, log: seq<E.Row>,
                                                  employee: string, targets: seq<string>, marks: seq<Mark>, until: int,
                                                  before: seq<Event>, after: seq<Event>)
    requires WellKept(idAt, createdAt, log) && Targets(log, targets) && NoCorrections(marks)
    requires E.Lists(before, Effects(log, employee, until))
    requires E.Lists(after, Effects(Grown(idAt, createdAt, log, employee, targets, marks), employee, until))
    ensures SortedBy(EVENT_AT, after)
    ensures (OnePage(Grown(idAt, createdAt, log, employee, targets, marks), employee, until)
             && VoidsAreRead(log, employee, targets, until)) ==>
      forall e :: e in after <==>
        (e in before && e.id !in targets) || IsNew(idAt, createdAt, |log| + |targets|, employee, marks, until, e)
  {
    hide Select, Regular, StoredAt, NewEvents, Effects, Grown, OnePage, Targets, NoCorrections, GoodKeys, VoidsAreRead;
    ReplacementTakesEffect(idAt, createdAt, log, employee, targets, marks, until);
    var n := |log| + |targets|;
    var new_ := NewEvents(idAt, createdAt, n, employee, marks, until);
    forall e: Event
      ensures (e.id in new_ && new_[e.id] == e) <==> IsNew(idAt, createdAt, n, employee, marks, until, e)
    {
      NewEventsAre(idAt, createdAt, n, employee, marks, until, e);
    }
    forall e | e in before ensures e.id !in new_ {
      EffectsAreLogged(log, employee, until);
      NewIdsAreNew(idAt, createdAt, log, n, employee, marks, until, e.id);
    }
  }

  ghost predicate IsNew(idAt: nat -> string, createdAt: nat -> int, n: nat, employee: string, marks: seq<Mark>,
                        until: int, e: Event)
  {
    exists k: nat :: k < |marks| && e == Event(idAt(n + k), marks[k]) && marks[k].at <= until + DAY
  }

  function GeneratedInWindow(idAt: nat -> string, createdAt: nat -> int, n: nat, employee: string, marks: seq<Mark>,
                             until: int): seq<E.Row>
  {
    Select(GeneratedRows(idAt, createdAt, n, employee, marks), InWindow(employee, until))
  }

  lemma {:induction false} GeneratedRowsInWindow(idAt: nat -> string, createdAt: nat -> int, n: nat, employee: string,
                                                 marks: seq<Mark>, until: int, row: E.Row)
    ensures row in GeneratedInWindow(idAt, createdAt, n, employee, marks, until)
      <==> exists k: nat :: k < |marks| && row == GeneratedRow(idAt, createdAt, n + k, employee, marks[k])
                            && marks[k].at <= until + DAY
  {
    hide Select;
    var generated := GeneratedRows(idAt, createdAt, n, employee, marks);
    SelectSelects(generated, InWindow(employee, until));
    if row in generated {
      var k: nat :| k < |generated| && generated[k] == row;
      assert row == GeneratedRow(idAt, createdAt, n + k, employee, marks[k]);
    }
    if exists k: nat :: k < |marks| && row == GeneratedRow(idAt, createdAt, n + k, employee, marks[k])
                        && marks[k].at <= until + DAY {
      var k: nat :| k < |marks| && row == GeneratedRow(idAt, createdAt, n + k, employee, marks[k])
                    && marks[k].at <= until + DAY;
      assert generated[k] == row;
    }
  }

  lemma {:induction false} GeneratedIdsDetermine(idAt: nat -> string, createdAt: nat -> int, n: nat, employee: string,
                                                 marks: seq<Mark>, until: int)
    requires GoodKeys(idAt, createdAt)
    ensures IdsDetermine(GeneratedInWindow(idAt, createdAt, n, employee, marks, until))
  {
    hide GeneratedInWindow;
    var rows := GeneratedInWindow(idAt, createdAt, n, employee, marks, until);
    forall a, b | a in rows && b in rows && a.id == b.id ensures a == b {
      GeneratedRowsInWindow(idAt, createdAt, n, employee, marks, until, a);
      GeneratedRowsInWindow(idAt, createdAt, n, employee, marks, until, b);
      var k: nat :| k < |marks| && a == GeneratedRow(idAt, createdAt, n + k, employee, marks[k]);
      var l: nat :| l < |marks| && b == GeneratedRow(idAt, createdAt, n + l, employee, marks[l]);
      assert idAt(n + k) == idAt(n + l);
    }
  }

  lemma {:induction false} NewEventsAre(idAt: nat -> string, createdAt: nat -> int, n: nat, employee: string,
                     marks: seq<Mark>, until: int, e: Event)
    requires GoodKeys(idAt, createdAt) && NoCorrections(marks)
    ensures var new_ := NewEvents(idAt, createdAt, n, employee, marks, until);
      (e.id in new_ && new_[e.id] == e) <==> IsNew(idAt, createdAt, n, employee, marks, until, e)
  {
    hide GeneratedInWindow, IdsDetermine, GoodKeys, Regular, NoCorrections, Select, GeneratedRows, InWindow;
    var rows := GeneratedInWindow(idAt, createdAt, n, employee, marks, until);
    assert NewEvents(idAt, createdAt, n, employee, marks, until) == Regular(rows) by {
      NewEventsAreRegular(idAt, createdAt, n, employee, marks, until);
    }
    GeneratedIdsDetermine(idAt, createdAt, n, employee, marks, until);
    if e.id in Regular(rows) && Regular(rows)[e.id] == e {
      RegularRow(rows, e);
      var row :| row in rows && EventOf(row) == e;
      GeneratedRowsInWindow(idAt, createdAt, n, employee, marks, until, row);
    }
    if IsNew(idAt, createdAt, n, employee, marks, until, e) {
      var k: nat :| k < |marks| && e == Event(idAt(n + k), marks[k]) && marks[k].at <= until + DAY;
      var row := GeneratedRow(idAt, createdAt, n + k, employee, marks[k]);
      GeneratedRowsInWindow(idAt, createdAt, n, employee, marks, until, row);
      KindOf(marks, k);
      RegularIs(rows);
    }
  }

  lemma {:induction false} NewEventsAreRegular(idAt: nat -> string, createdAt: nat -> int, n: nat, employee: string,
                                               marks: seq<Mark>, until: int)
    ensures NewEvents(idAt, createdAt, n, employee, marks, until)
      == Regular(GeneratedInWindow(idAt, createdAt, n, employee, marks, until))
  {
    hide Regular, Select;
  }

  lemma {:induction false} KindOf(marks: seq<Mark>, k: nat)
    requires NoCorrections(marks) && k < |marks|
    ensures marks[k].kind != Correction
  {
  }

  lemma {:induction false} RegularRow(rows: seq<E.Row>, e: Event)
    requires IdsDetermine(rows) && e.id in Regular(rows) && Regular(rows)[e.id] == e
    ensures exists row :: row in rows && EventOf(row) == e
  {
    hide Regular;
    RegularIsLogged(rows);
    RegularIs(rows);
    var i: nat :| i < |rows| && rows[i].id == e.id && rows[i].kind != Correction;
    assert rows[i] in rows;
  }

  /** The failing case: an event stored on the eleventh day and moved to the first by a
      correction. It makes up the first day, so the day's check accepts a replacement
      of it, and whatever takes its place, the day still lists it afterwards. */
  lemma {:induction false} MovedEventSurvivesItsVoid(
    idAt: nat -> string, createdAt: nat -> int, zone: Zone, workDate: int, marks: seq<Mark>,
    after: seq<Event>, shown: Day)
    requires GoodKeys(idAt, createdAt) && NoCorrections(marks) && |marks| + 3 <= PAGE
    requires zone.day(0) == workDate && 0 <= zone.instant(workDate, "00:00", 2) < 9 * DAY
    requires DayOf(zone, Grown(idAt, createdAt, MovedEvent(idAt, createdAt), "worker", [idAt(0)], marks), "worker",
                   workDate, after, shown)
    ensures var log := MovedEvent(idAt, createdAt);
      && WellKept(idAt, createdAt, log) && Theirs(log, "worker", idAt(0))
      && DayOf(zone, log, "worker", workDate, [FirstDayEvent(idAt)], Day([FirstDayEvent(idAt)], [idAt(0)], [], false))
    ensures FirstDayEvent(idAt) in after && idAt(0) in shown.eventIds
  {
    hide Sort, Effects, WellKept, NoCorrections, DayOf, Grown, Find;
    var log := MovedEvent(idAt, createdAt);
    var until := zone.instant(workDate, "00:00", 2);
    MovedEventIsWellKept(idAt, createdAt);
    MovedEventIsShown(idAt, createdAt, until);
    FirstDayIsListed(zone, log, workDate, idAt);
    MovedEventIsKept(idAt, createdAt, marks, until);
    DayListsIt(zone, Grown(idAt, createdAt, log, "worker", [idAt(0)], marks), workDate, after, shown,
               FirstDayEvent(idAt));
  }

  function FirstDayEvent(idAt: nat -> string): Event { Event(idAt(0), Mark(ClockIn, 0, "", false)) }

  lemma {:induction false} FirstDayIsListed(zone: Zone, log: seq<E.Row>, workDate: int, idAt: nat -> string)
    requires zone.day(0) == workDate
    requires Effects(log, "worker", zone.instant(workDate, "00:00", 2)) == map[idAt(0) := FirstDayEvent(idAt)]
    ensures DayOf(zone, log, "worker", workDate, [FirstDayEvent(idAt)],
                  Day([FirstDayEvent(idAt)], [idAt(0)], [], false))
  {
    hide Effects;
    var events := [FirstDayEvent(idAt)];
    assert events[..0] == [] && Walked(zone, events[..0]) == START;
    assert [] + events == events && [] + [idAt(0)] == [idAt(0)];
  }

  // A clock-in that replay shows is listed on its date.
  lemma {:induction false} DayListsIt(zone: Zone, log: seq<E.Row>, workDate: int, events: seq<Event>, day: Day,
                                      e: Event)
    requires DayOf(zone, log, "worker", workDate, events, day)
    requires e.mark.kind == ClockIn && zone.day(e.mark.at) == workDate
    requires var effects := Effects(log, "worker", zone.instant(workDate, "00:00", 2));
      e.id in effects && effects[e.id] == e
    ensures e in events && e.id in day.eventIds
  {
    hide Effects, Walked;
    assert events[..|events|] == events;
    ClockInsAreListed(zone, events, |events|, e);
  }

  lemma {:induction false} MovedEventIsWellKept(idAt: nat -> string, createdAt: nat -> int)
    requires GoodKeys(idAt, createdAt)
    ensures var log := MovedEvent(idAt, createdAt);
      WellKept(idAt, createdAt, log) && Find(log, idAt(0)) == Some(log[0])
  {
    var log := MovedEvent(idAt, createdAt);
    assert log[..1] == [log[0]];
    assert Find(log[..1], idAt(0)) == Some(log[0]);
  }

  function MovedEvent(idAt: nat -> string, createdAt: nat -> int): seq<E.Row> {
    [E.Row(idAt(0), "worker", ClockIn, None, "", 10 * DAY, createdAt(0), false, "", false),
     E.Row(idAt(1), "worker", Correction, None, idAt(0), 0, createdAt(1), false, "", false)]
  }

  lemma {:induction false} MovedEventIsShown(idAt: nat -> string, createdAt: nat -> int, until: int)
    requires GoodKeys(idAt, createdAt) && 0 <= until < 9 * DAY
    ensures Effects(MovedEvent(idAt, createdAt), "worker", until) == map[idAt(0) := FirstDayEvent(idAt)]
    ensures OnePage(MovedEvent(idAt, createdAt), "worker", until)
  {
    hide Effects, WellKept, Queried, Sort, Find, InLogOrder, Select;
    var log := MovedEvent(idAt, createdAt);
    MovedEventIsWellKept(idAt, createdAt);
    MoveIsInWindow(idAt, createdAt, until);
    SortsDoNotMatter(idAt, createdAt, log, "worker", until);
    MoveIsReplayed(idAt, createdAt, until);
  }

  lemma {:induction false} MoveIsInWindow(idAt: nat -> string, createdAt: nat -> int, until: int)
    requires 0 <= until < 9 * DAY
    ensures var log := MovedEvent(idAt, createdAt); Select(log, InWindow("worker", until)) == [log[1]]
  {
    var log := MovedEvent(idAt, createdAt);
    assert Select(log[..0], InWindow("worker", until)) == [] && Select(log[..1], InWindow("worker", until)) == [];
    assert log[..1][..0] == log[..0] && log[..2] == log;
  }

  lemma {:induction false} MoveIsReplayed(idAt: nat -> string, createdAt: nat -> int, until: int)
    requires idAt(0) != "" && Find(MovedEvent(idAt, createdAt), idAt(0)) == Some(MovedEvent(idAt, createdAt)[0])
    requires var log := MovedEvent(idAt, createdAt); Select(log, InWindow("worker", until)) == [log[1]]
    ensures InLogOrder(MovedEvent(idAt, createdAt), "worker", until) == map[idAt(0) := FirstDayEvent(idAt)]
  {
    hide Find, InWindow, Select, Regular, ApplyAll;
    var log := MovedEvent(idAt, createdAt);
    var rows := [log[1]];
    SelectAll(rows, IS_CORRECTION);
    assert [] + [log[1]] == rows;
    NothingToReplay(log, "worker");
    assert rows[..0] == [] && rows[..1] == rows;
    OneMoreRecord(rows, 0);
    OneMoreCorrection(log, "worker", map[], rows, 0);
  }

  // The void stands where the event was stored, out of the window.
  lemma {:induction false} MovedEventIsKept(idAt: nat -> string, createdAt: nat -> int, marks: seq<Mark>, until: int)
    requires GoodKeys(idAt, createdAt) && NoCorrections(marks) && |marks| + 3 <= PAGE && 0 <= until < 9 * DAY
    ensures var effects := Effects(Grown(idAt, createdAt, MovedEvent(idAt, createdAt), "worker", [idAt(0)], marks),
                                   "worker", until);
      idAt(0) in effects && effects[idAt(0)] == FirstDayEvent(idAt)
  {
    hide Effects, WellKept, Queried, Select, Regular, ApplyAll, InLogOrder, Voided, VoidsInWindow, NewEvents,
         NoCorrections, Find, Grown;
    var log, targets := MovedEvent(idAt, createdAt), [idAt(0)];
    var grown := Grown(idAt, createdAt, log, "worker", targets, marks);
    MovedEventIsWellKept(idAt, createdAt);
    MovedEventIsShown(idAt, createdAt, until);
    GrownIsWellKept(idAt, createdAt, log, "worker", targets, marks);
    assert |grown| == 3 + |marks| by { GrownLength(idAt, createdAt, log, "worker", targets, marks); }
    SelectedAtMost(grown, InWindow("worker", until));
    SortsDoNotMatter(idAt, createdAt, grown, "worker", until);
    SortsDoNotMatter(idAt, createdAt, log, "worker", until);
    GrownInLogOrder(idAt, createdAt, log, "worker", targets, marks, until);
    VoidedInWindow(idAt, createdAt, log, "worker", targets, until, idAt(0));
    NewIdsAreNew(idAt, createdAt, log, |log| + 1, "worker", marks, until, idAt(0));
  }

  lemma {:induction false} GrownLength(idAt: nat -> string, createdAt: nat -> int, log: seq<E.Row>, employee: string,
                                       targets: seq<string>, marks: seq<Mark>)
    ensures |Grown(idAt, createdAt, log, employee, targets, marks)| == |log| + |targets| + |marks|
  {
  }

  lemma {:induction false} SelectedAtMost(rows: seq<E.Row>, keep: E.Row -> bool)
    ensures |Select(rows, keep)| <= |rows|
  {
    if rows != [] { SelectedAtMost(rows[..|rows| - 1], keep); }
  }
}
