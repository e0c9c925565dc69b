/** Each month is closed on a replay of its own: the events stored up to a day after
    its end. What two months' replays say about the time they share. */
module MonthReplays {
  import opened Bytes
  import opened Sorting
  import opened Timesheet
  import opened WorkSpans
  import opened EditableDays
  import opened E = EffectiveEvents
  import opened ReplacementReplay
  import opened MonthClosing

  // ----------------------------------------------------------- what a replay reads

  lemma {:induction false} InsertBefore<T>(key: T -> int, a: seq<T>, b: seq<T>, x: T)
    requires forall i :: 0 <= i < |b| ==> key(b[i]) > key(x)
    ensures Insert(key, a + b, x) == Insert(key, a, x) + b
  {
    if b == [] {
      assert a + b == a;
    } else {
      assert (a + b)[..|a + b| - 1] == a + b[..|b| - 1];
      InsertBefore(key, a, b[..|b| - 1], x);
    }
  }

  function OnlyLater(employee: string, from: int, until: int): E.Row -> bool {
    (r: E.Row) => r.employee == employee && from + DAY < r.at <= until + DAY
  }

  lemma {:induction false} SelectSnoc(rows: seq<E.Row>, row: E.Row, keep: E.Row -> bool)
    ensures Select(rows + [row], keep) == if keep(row) then Select(rows, keep) + [row] else Select(rows, keep)
  {
    assert (rows + [row])[..|rows|] == rows;
    assert Select(rows, keep) + [] == Select(rows, keep);
  }

  lemma {:induction false} SortSnoc(rows: seq<E.Row>, row: E.Row)
    ensures Sort(ROW_AT, rows + [row]) == Insert(ROW_AT, Sort(ROW_AT, rows), row)
  {
    assert (rows + [row])[..|rows|] == rows;
  }

  lemma {:induction false} SortedSelection(log: seq<E.Row>, keep: E.Row -> bool)
    ensures forall i :: 0 <= i < |Sort(ROW_AT, Select(log, keep))| ==> keep(Sort(ROW_AT, Select(log, keep))[i])
  {
    hide Sort, Select;
    var kept := Select(log, keep);
    SelectSelects(log, keep);
    SortSorts(ROW_AT, kept);
    forall i | 0 <= i < |Sort(ROW_AT, kept)| ensures keep(Sort(ROW_AT, kept)[i]) {
      ElementsOf(Sort(ROW_AT, kept), kept, i);
    }
  }

  /** Rows of the wider window come after those of the narrower one. */
  lemma {:induction false} SortedWindows(log: seq<E.Row>, employee: string, from: int, until: int)
    requires from <= until
    ensures Sort(ROW_AT, Select(log, InWindow(employee, until)))
      == Sort(ROW_AT, Select(log, InWindow(employee, from)))
          + Sort(ROW_AT, Select(log, OnlyLater(employee, from, until)))
  {
    hide Insert, Sort, Select;
    var wide, narrow, late := InWindow(employee, until), InWindow(employee, from), OnlyLater(employee, from, until);
    if log == [] {
      NothingSorted(wide);
      NothingSorted(narrow);
      NothingSorted(late);
    } else {
      var earlier, row := log[..|log| - 1], log[|log| - 1];
      assert log == earlier + [row];
      SortedWindows(earlier, employee, from, until);
      SelectSnoc(earlier, row, wide);
      SelectSnoc(earlier, row, narrow);
      SelectSnoc(earlier, row, late);
      var a, b := Select(earlier, narrow), Select(earlier, late);
      SortedSelection(earlier, narrow);
      SortedSelection(earlier, late);
      SortSnoc(Select(earlier, wide), row);
      SortSnoc(a, row);
      SortSnoc(b, row);
      if narrow(row) {
        InsertBefore(ROW_AT, Sort(ROW_AT, a), Sort(ROW_AT, b), row);
      } else if late(row) {
        InsertBehind(ROW_AT, Sort(ROW_AT, a), Sort(ROW_AT, b), row);
      }
    }
  }

  lemma {:induction false} NothingSorted(keep: E.Row -> bool)
    ensures Sort(ROW_AT, Select([], keep)) == []
  {
  }

  /** The later replay reads the earlier one's rows and then only rows stored beyond
      the earlier window: of a full page, nothing more. */
  lemma {:induction false} WiderPage(log: seq<E.Row>, employee: string, from: int, until: int)
    requires from <= until
    ensures Queried(log, employee, from) <= Queried(log, employee, until)
    ensures forall row :: row in Queried(log, employee, until)[|Queried(log, employee, from)|..] ==> row.at > from + DAY
  {
    hide Sort, Select;
    SortedWindows(log, employee, from, until);
    var a, late := Sort(ROW_AT, Select(log, InWindow(employee, from))), Select(log, OnlyLater(employee, from, until));
    SelectSelects(log, OnlyLater(employee, from, until));
    SortSorts(ROW_AT, late);
    forall i | 0 <= i < |late| ensures Sort(ROW_AT, late)[i].at > from + DAY {
      ElementsOf(Sort(ROW_AT, late), late, i);
    }
    var extra := Queried(log, employee, until)[|Queried(log, employee, from)|..];
    forall row | row in extra ensures row.at > from + DAY {
      var i :| 0 <= i < |extra| && extra[i] == row;
      assert row == (a + Sort(ROW_AT, late))[|a| + i];
    }
  }

  /** The corrections a replay applies, in order of their creation. */
  function CorrectionsRead(log: seq<E.Row>, employee: string, until: int): seq<E.Row> {
    Sort(ROW_CREATED, Select(Queried(log, employee, until), IS_CORRECTION))
  }

  lemma {:induction false} CreatedOnce(log: seq<E.Row>, row: E.Row)
    requires StrictlySortedBy(ROW_CREATED, log)
    ensures multiset(log)[row] <= 1
    decreases |log|
  {
    if log != [] {
      var earlier, last := log[..|log| - 1], log[|log| - 1];
      assert log == earlier + [last];
      CreatedOnce(earlier, row);
      if row in earlier {
        var i :| 0 <= i < |earlier| && earlier[i] == row;
        assert ROW_CREATED(earlier[i]) < ROW_CREATED(last);
      }
    }
  }

  lemma {:induction false} CorrectionsRise(log: seq<E.Row>, employee: string, until: int)
    requires StrictlySortedBy(ROW_CREATED, log)
    ensures StrictlySortedBy(ROW_CREATED, CorrectionsRead(log, employee, until))
    ensures forall row :: row in CorrectionsRead(log, employee, until) ==> row in log && row.kind == Correction
  {
    hide Sort, Select, Queried;
    var page := Queried(log, employee, until);
    var read := CorrectionsRead(log, employee, until);
    SelectSelects(page, IS_CORRECTION);
    SortSorts(ROW_CREATED, Select(page, IS_CORRECTION));
    forall row: E.Row ensures multiset(page)[row] <= multiset(log)[row] { PageAtMostLog(log, employee, until, row); }
    forall row | row in read ensures row in log && row.kind == Correction {
      assert row in multiset(read);
      assert row in Select(page, IS_CORRECTION);
      assert row in multiset(page);
      assert row in multiset(log);
    }
    forall i, j | 0 <= i < j < |read| ensures ROW_CREATED(read[i]) < ROW_CREATED(read[j]) {
      assert ROW_CREATED(read[i]) <= ROW_CREATED(read[j]);
      assert read[i] in log && read[j] in log;
      CreatedOnce(log, read[i]);
      assert multiset(read)[read[i]] <= 1;
      if ROW_CREATED(read[i]) == ROW_CREATED(read[j]) {
        SameCreated(log, read[i], read[j]);
        AppearsTwice(read, i, j);
      }
    }
  }

  lemma {:induction false} SameCreated(log: seq<E.Row>, a: E.Row, b: E.Row)
    requires StrictlySortedBy(ROW_CREATED, log) && a in log && b in log && ROW_CREATED(a) == ROW_CREATED(b)
    ensures a == b
  {
    var i :| 0 <= i < |log| && log[i] == a;
    var j :| 0 <= j < |log| && log[j] == b;
    assert i == j;
  }

  function StoredBy(at: int): E.Row -> bool { (r: E.Row) => r.at <= at + DAY }

  /** The earlier replay applies the later one's corrections but the late ones. */
  lemma {:induction false} EarlyCorrections(log: seq<E.Row>, employee: string, from: int, until: int)
    requires StrictlySortedBy(ROW_CREATED, log) && from <= until
    ensures CorrectionsRead(log, employee, from) == Select(CorrectionsRead(log, employee, until), StoredBy(from))
  {
    hide Sort, Select, Queried;
    var all := CorrectionsRead(log, employee, until);
    var early := Select(all, StoredBy(from));
    CorrectionsRise(log, employee, until);
    SelectKeepsOrder(all, StoredBy(from));
    SortSorts(ROW_CREATED, Select(Queried(log, employee, from), IS_CORRECTION));
    SameCorrections(log, employee, from, until);
    OneStrictOrder(ROW_CREATED, early, CorrectionsRead(log, employee, from));
  }

  // What the later replay reads of the earlier window is what the earlier one read.
  lemma {:induction false} EarlyRows(log: seq<E.Row>, employee: string, from: int, until: int)
    requires from <= until
    ensures Select(Queried(log, employee, until), StoredBy(from)) == Queried(log, employee, from)
  {
    hide Sort, Select, Queried;
    var first, second := Queried(log, employee, from), Queried(log, employee, until);
    WiderPage(log, employee, from, until);
    QueriedRowsAreLogged(log, employee, from);
    var extra := second[|first|..];
    assert second == first + extra;
    SelectOfConcatenation(first, extra, StoredBy(from));
    SelectAll(first, StoredBy(from));
    SelectAll(extra, StoredBy(from));
  }

  lemma {:induction false} SameCorrections(log: seq<E.Row>, employee: string, from: int, until: int)
    requires from <= until
    ensures multiset(Select(CorrectionsRead(log, employee, until), StoredBy(from)))
      == multiset(CorrectionsRead(log, employee, from))
  {
    hide Sort, Select, Queried;
    var first, second := Queried(log, employee, from), Queried(log, employee, until);
    var all := CorrectionsRead(log, employee, until);
    EarlyRows(log, employee, from, until);
    SortSorts(ROW_CREATED, Select(second, IS_CORRECTION));
    SortSorts(ROW_CREATED, Select(first, IS_CORRECTION));
    SelectOfSameRows(all, Select(second, IS_CORRECTION), StoredBy(from));
    EarlyOfEvent(second, IS_CORRECTION, StoredBy(from));
  }

  lemma {:induction false} EarlyOfEvent(rows: seq<E.Row>, a: E.Row -> bool, b: E.Row -> bool)
    ensures Select(Select(rows, a), b) == Select(Select(rows, b), a)
  {
    hide Select;
    if rows == [] {
      NothingSelected(a);
      NothingSelected(b);
    } else {
      var earlier, c := rows[..|rows| - 1], rows[|rows| - 1];
      assert rows == earlier + [c];
      EarlyOfEvent(earlier, a, b);
      SelectSnoc(earlier, c, a);
      SelectSnoc(earlier, c, b);
      SelectSnoc(Select(earlier, a), c, b);
      SelectSnoc(Select(earlier, b), c, a);
    }
  }

  // ------------------------------------------------------------------ event by event

  function Get(m: map<string, Event>, id: string): Option<Event> { if id in m then Some(m[id]) else None }

  /** The event as its row stores it, if it is the employee's. */
  function StoredEvent(log: seq<E.Row>, employee: string, id: string): Option<Event> {
    match Find(log, id)
    case None => None
    case Some(row) => if row.employee == employee then Some(EventOf(row)) else None
  }

  function Changed(stored: Option<Event>, now: Option<Event>, c: E.Row): Option<Event> {
    match if now.Some? then now else stored
    case None => None
    case Some(e) => if c.voids then None else Some(Corrected(e, c))
  }

  /** One event through its corrections. */
  function After(stored: Option<Event>, now: Option<Event>, corrections: seq<E.Row>): Option<Event> {
    if corrections == [] then now
    else Changed(stored, After(stored, now, corrections[..|corrections| - 1]), corrections[|corrections| - 1])
  }

  function Correcting(id: string): E.Row -> bool { (c: E.Row) => c.corrects == id }

  lemma {:induction false} OneCorrection(log: seq<E.Row>, employee: string, m: map<string, Event>, c: E.Row, id: string)
    ensures Get(Apply(log, employee, m, c), id)
      == if id == "" || c.corrects != id then Get(m, id) else Changed(StoredEvent(log, employee, id), Get(m, id), c)
  {
    hide Find;
  }

  /** Replay treats each event by itself. */
  lemma {:induction false} EventByEvent(log: seq<E.Row>, employee: string, m: map<string, Event>,
                                        corrections: seq<E.Row>, id: string)
    ensures Get(ApplyAll(log, employee, m, corrections), id)
      == if id == "" then Get(m, id)
         else After(StoredEvent(log, employee, id), Get(m, id), Select(corrections, Correcting(id)))
  {
    hide Find, Select, Apply, StoredEvent, Changed;
    if corrections == [] {
      NothingSelected(Correcting(id));
    } else {
      var earlier, c := corrections[..|corrections| - 1], corrections[|corrections| - 1];
      var before := Select(earlier, Correcting(id));
      assert corrections == earlier + [c] && (before + [c])[..|before|] == before;
      EventByEvent(log, employee, m, earlier, id);
      OneCorrection(log, employee, ApplyAll(log, employee, m, earlier), c, id);
      SelectSnoc(earlier, c, Correcting(id));
    }
  }

  /** The kind the corrections leave: the last they set since a void. */
  function KindAfter(kind: Kind, corrections: seq<E.Row>): Kind {
    if corrections == [] then kind
    else
      var c := corrections[|corrections| - 1];
      if c.voids then kind
      else match c.correctedKind case Some(k) => k case None => KindAfter(kind, corrections[..|corrections| - 1])
  }

  /** What corrections make of a stored event. */
  lemma {:induction false} AfterCorrections(stored: Option<Event>, now: Option<Event>, corrections: seq<E.Row>)
    requires now == None || now == stored
    ensures stored == None ==> After(stored, now, corrections) == None
    ensures stored.Some? && corrections != [] ==>
      var c := corrections[|corrections| - 1];
      var mark := stored.value.mark;
      After(stored, now, corrections) == if c.voids then None
        else Some(stored.value.(mark := mark.(kind := KindAfter(mark.kind, corrections), at := c.at)))
  {
    if corrections != [] { AfterCorrections(stored, now, corrections[..|corrections| - 1]); }
  }

  /** An event as a replay shows it: as it was read, through its corrections. */
  lemma {:induction false} ShownEvent(idAt: nat -> string, createdAt: nat -> int, log: seq<E.Row>, employee: string,
                                      until: int, id: string)
    requires WellKept(idAt, createdAt, log) && id != ""
    ensures var now := Get(Regular(Queried(log, employee, until)), id);
      && (now == None || now == StoredEvent(log, employee, id))
      && Get(Effects(log, employee, until), id)
           == After(StoredEvent(log, employee, id), now, Select(CorrectionsRead(log, employee, until), Correcting(id)))
  {
    hide Sort, Select, Queried, Regular, ApplyAll, Find, WellKept;
    var rows := Queried(log, employee, until);
    EventByEvent(log, employee, Regular(rows), CorrectionsRead(log, employee, until), id);
    if id in Regular(rows) { ReadIsStored(idAt, createdAt, log, employee, until, id); }
  }

  lemma {:induction false} ReadIsStored(idAt: nat -> string, createdAt: nat -> int, log: seq<E.Row>, employee: string,
                                        until: int, id: string)
    requires WellKept(idAt, createdAt, log) && id in Regular(Queried(log, employee, until))
    ensures StoredEvent(log, employee, id) == Some(Regular(Queried(log, employee, until))[id])
    ensures exists row ::
      row in Queried(log, employee, until) && Regular(Queried(log, employee, until))[id] == EventOf(row)
  {
    hide Sort, Select, Queried, Regular, Find, WellKept;
    var rows := Queried(log, employee, until);
    RegularIsLogged(rows);
    QueriedRowsAreLogged(log, employee, until);
    KeptIdsDetermine(idAt, createdAt, log);
    RegularIs(rows);
    var i :| 0 <= i < |rows| && rows[i].id == id && rows[i].kind != Correction;
    assert rows[i] in rows && rows[i] in log;
    FindFinds(log, id);
    assert Find(log, id) == Some(rows[i]);
  }

  // ---------------------------------------------------------- when two replays agree

  /** The event, if the replay shows it up to the instant. */
  function Shown(m: map<string, Event>, id: string, until: int): Option<Event> {
    if id in m && m[id].mark.at <= until then Some(m[id]) else None
  }

  ghost predicate Agree(a: map<string, Event>, b: map<string, Event>, until: int) {
    forall id :: Shown(a, id, until) == Shown(b, id, until)
  }

  /** A correction stored beyond the earlier window changes the event: it is the
      last word on an event the earlier month shows, or it leaves another kind
      to one that the last word puts into that month. */
  ghost predicate Disturbed(log: seq<E.Row>, employee: string, from: int, until: int, id: string) {
    var corrections := Select(CorrectionsRead(log, employee, until), Correcting(id));
    var early := Select(corrections, StoredBy(from));
    && id != "" && early != corrections && corrections != []
    && var last := corrections[|corrections| - 1];
       if !StoredBy(from)(last) then Shown(Effects(log, employee, from), id, from).Some?
       else !last.voids && last.at <= from && StoredEvent(log, employee, id).Some?
            && var kind := StoredEvent(log, employee, id).value.mark.kind;
               KindAfter(kind, early) != KindAfter(kind, corrections)
  }

  lemma {:induction false} LastSelected(rows: seq<E.Row>, keep: E.Row -> bool)
    requires rows != [] && keep(rows[|rows| - 1])
    ensures Select(rows, keep) != [] && Select(rows, keep)[|Select(rows, keep)| - 1] == rows[|rows| - 1]
  {
  }

  ghost predicate Undisturbed(log: seq<E.Row>, employee: string, from: int, until: int) {
    forall id: string :: Untouched(log, employee, from, until, id)
  }

  ghost predicate Untouched(log: seq<E.Row>, employee: string, from: int, until: int, id: string) {
    !Disturbed(log, employee, from, until, id)
  }

  // One event in both replays.
  lemma {:induction false} SameEvent(idAt: nat -> string, createdAt: nat -> int, log: seq<E.Row>, employee: string,
                                     from: int, until: int, id: string)
    requires WellKept(idAt, createdAt, log) && from <= until
    ensures Shown(Effects(log, employee, from), id, from) == Shown(Effects(log, employee, until), id, from)
      <==> !Disturbed(log, employee, from, until, id)
  {
    hide Sort, Select, Queried, Regular, Effects, Find, WellKept, CorrectionsRead, StoredEvent, After, KindAfter;
    KeptIdsDetermine(idAt, createdAt, log);
    if id == "" {
      NoNamelessEvent(idAt, createdAt, log, employee, from);
      NoNamelessEvent(idAt, createdAt, log, employee, until);
    } else {
      var all, first := CorrectionsRead(log, employee, until), CorrectionsRead(log, employee, from);
      var corrections, early := Select(all, Correcting(id)), Select(first, Correcting(id));
      EarlyCorrections(log, employee, from, until);
      EarlyOfEvent(all, Correcting(id), StoredBy(from));
      assert early == Select(corrections, StoredBy(from));
      ShownEvent(idAt, createdAt, log, employee, from, id);
      ShownEvent(idAt, createdAt, log, employee, until, id);
      var stored := StoredEvent(log, employee, id);
      var now1, now2 := Get(Regular(Queried(log, employee, from)), id), Get(Regular(Queried(log, employee, until)), id);
      AfterCorrections(stored, now1, early);
      AfterCorrections(stored, now2, corrections);
      if corrections == [] {
        NothingSelected(StoredBy(from));
        ReadLater(idAt, createdAt, log, employee, from, until, id);
        AfterNothing(stored, now1);
        AfterNothing(stored, now2);
      } else if StoredBy(from)(corrections[|corrections| - 1]) {
        LastSelected(corrections, StoredBy(from));
      } else {
        LateIsNotSelected(corrections, StoredBy(from));
      }
    }
  }

  lemma {:induction false} LateIsNotSelected(rows: seq<E.Row>, keep: E.Row -> bool)
    requires rows != [] && !keep(rows[|rows| - 1])
    ensures Select(rows, keep) != rows
  {
    SelectSelects(rows, keep);
    assert rows[|rows| - 1] in rows && rows[|rows| - 1] !in Select(rows, keep);
  }

  lemma {:induction false} NothingSelected(keep: E.Row -> bool)
    ensures Select([], keep) == []
  {
  }

  lemma {:induction false} AfterNothing(stored: Option<Event>, now: Option<Event>)
    ensures After(stored, now, []) == now
  {
  }

  lemma {:induction false} NoNamelessEvent(idAt: nat -> string, createdAt: nat -> int, log: seq<E.Row>,
                                           employee: string, until: int)
    requires WellKept(idAt, createdAt, log)
    ensures "" !in Effects(log, employee, until)
  {
    hide Sort, Select, Queried, Regular, ApplyAll, Find;
    EffectsAreLogged(log, employee, until);
    forall row | row in log ensures row.id != "" {
      var i: nat :| i < |log| && log[i] == row;
    }
    FindFinds(log, "");
  }

  // Without corrections, what only the later replay reads is later than the earlier month.
  lemma {:induction false} ReadLater(idAt: nat -> string, createdAt: nat -> int, log: seq<E.Row>, employee: string,
                                     from: int, until: int, id: string)
    requires WellKept(idAt, createdAt, log) && from <= until
    ensures var now1, now2 := Get(Regular(Queried(log, employee, from)), id),
      Get(Regular(Queried(log, employee, until)), id);
      now1 == now2 || (now1 == None && now2.Some? && now2.value.mark.at > from)
  {
    hide Sort, Select, Queried, Regular, Find, WellKept;
    var first, second := Queried(log, employee, from), Queried(log, employee, until);
    WiderPage(log, employee, from, until);
    var extra := second[|first|..];
    assert second == first + extra;
    RegularOfConcatenation(first, extra);
    if id in Regular(extra) {
      RegularIsLogged(extra);
      KeptIdsDetermine(idAt, createdAt, log);
      QueriedRowsAreLogged(log, employee, until);
      var i :| 0 <= i < |extra| && extra[i].id == id && extra[i].kind != Correction;
      assert extra[i] in extra;
      assert forall row :: row in extra ==> row in second;
      RegularIs(extra);
      QueriedRowsAreLogged(log, employee, from);
      forall j | 0 <= j < |first| ensures first[j].id != id { assert first[j] in first; }
      RegularIsLogged(first);
    }
  }

  /** Two months' replays agree about the time up to the earlier month's end exactly
      when no correction stored beyond the earlier window changes an event. */
  lemma {:induction false} ReplaysAgree(idAt: nat -> string, createdAt: nat -> int, log: seq<E.Row>, employee: string,
                                        from: int, until: int)
    requires WellKept(idAt, createdAt, log) && from <= until
    ensures Agree(Effects(log, employee, from), Effects(log, employee, until), from)
      <==> Undisturbed(log, employee, from, until)
  {
    hide Effects, Disturbed, WellKept, Shown;
    forall id ensures Shown(Effects(log, employee, from), id, from) == Shown(Effects(log, employee, until), id, from)
      <==> Untouched(log, employee, from, until, id)
    {
      SameEvent(idAt, createdAt, log, employee, from, until, id);
    }
  }

  // --------------------------------------------------------------- the months' spans

  /** The spans a month is closed on: an open shift counts up to the month's end. */
  function MonthSpans(marks: seq<Mark>, until: int): seq<Span> {
    Finished(Replayed(IDLE, marks), until).spans
  }

  /** The month closed on a list of events: on their spans, and refused on the days
      their sequence is flagged. */
  ghost predicate ClosedOn(c: Closing, zone: Zone, t: Terms, events: seq<Event>, midnight: int -> int, first: int,
                           days: nat) {
    var spans := MonthSpans(MarksOf(events), midnight(first + days));
    var terms := FlaggedBy(t, AnomalyDates(zone, MarksOf(events)));
    && (c.Closed? <==> forall d :: first <= d < first + days ==> !MonthClosing.Refused(terms, spans, midnight, d))
    && (c.Closed? ==>
          && c.days == Records(terms, spans, midnight, first, days)
          && c.totals == Summed(Records(terms, spans, midnight, first, days)))
  }

  function FlaggedBy(t: Terms, dates: set<int>): Terms { t.(anomalous := (d: int) => d in dates) }

  /** `monthlyStatementData` from the replay on: the employee's events up to the
      month's end, their spans and anomalies, then the day loop. */
  method MonthlyStatement(log: seq<E.Row>, employee: string, zone: Zone, t: Terms, midnight: int -> int, first: int,
                          days: nat)
    returns (c: Closing)
    ensures exists events :: E.Lists(events, Effects(log, employee, midnight(first + days)))
                             && ClosedOn(c, zone, t, events, midnight, first, days)
  {
    hide Effects, E.Lists, Replayed, AnomalyDates, Records, Summed, MonthClosing.Refused;
    var events := E.EffectiveEvents(log, employee, midnight(first + days));
    var marks := MarksOf(events);
    var spans, anomaly := WorkSpans.WorkSpans(marks, midnight(first + days));
    var dates := SequenceAnomalyDates(zone, marks);
    c := CloseMonth(FlaggedBy(t, dates), spans, midnight, first, days);
    assert spans == MonthSpans(marks, midnight(first + days)) && dates == AnomalyDates(zone, marks);
    assert ClosedOn(c, zone, t, events, midnight, first, days);
  }

  /** What is flagged decides whether a month is closed, not what it records. */
  lemma {:induction false} FlagsDoNotCount(t: Terms, dates: set<int>, spans: seq<Span>, midnight: int -> int,
                                           first: int, days: nat)
    ensures Records(FlaggedBy(t, dates), spans, midnight, first, days) == Records(t, spans, midnight, first, days)
  {
    hide MinutesIn;
    if days > 0 { FlagsDoNotCount(t, dates, spans, midnight, first, days - 1); }
  }

  /** No two events up to the instant share a time. */
  ghost predicate DistinctUpTo(events: seq<Event>, until: int) {
    forall i, j :: 0 <= i < j < |events| && events[j].mark.at <= until ==> events[i].mark.at != events[j].mark.at
  }

  /** How many events are not after the instant. */
  function CountUpTo(events: seq<Event>, until: int): (n: nat)
    requires SortedBy(EVENT_AT, events)
    ensures n <= |events|
    ensures forall i :: 0 <= i < n ==> events[i].mark.at <= until
    ensures forall i :: n <= i < |events| ==> events[i].mark.at > until
  {
    if events == [] then 0
    else if events[|events| - 1].mark.at <= until then
      assert forall i :: 0 <= i < |events| ==> EVENT_AT(events[i]) <= EVENT_AT(events[|events| - 1]);
      |events|
    else CountUpTo(events[..|events| - 1], until)
  }

  // The listed events up to the instant are the shown ones.
  lemma {:induction false} ListedUpTo(events: seq<Event>, m: map<string, Event>, until: int, e: Event)
    requires E.Lists(events, m)
    ensures e in events[..CountUpTo(events, until)] <==> Shown(m, e.id, until) == Some(e)
  {
    var n := CountUpTo(events, until);
    if e in events && e.mark.at <= until {
      var i :| 0 <= i < |events| && events[i] == e;
      assert i < n;
      assert events[..n][i] == e;
    }
    if e in events[..n] {
      var i :| 0 <= i < n && events[i] == e;
      assert events[i] in events;
    }
  }

  /** Replays that agree list the same events up to the instant, in the same order. */
  lemma {:induction false} SameListUpTo(earlier: seq<Event>, later: seq<Event>, a: map<string, Event>,
                                        b: map<string, Event>, until: int)
    requires E.Lists(earlier, a) && E.Lists(later, b) && Agree(a, b, until) && DistinctUpTo(earlier, until)
    ensures earlier[..CountUpTo(earlier, until)] == later[..CountUpTo(later, until)]
  {
    hide Shown, Agree, E.Lists, CountUpTo, DistinctUpTo;
    ListsAreSorted(earlier, a);
    ListsAreSorted(later, b);
    var x, y := earlier[..CountUpTo(earlier, until)], later[..CountUpTo(later, until)];
    forall e: Event ensures multiset(x)[e] == multiset(y)[e] { SameCount(earlier, later, a, b, until, e); }
    assert multiset(x) == multiset(y);
    RisesUpTo(earlier, until);
    PrefixSorted(later, CountUpTo(later, until));
    OneStrictOrder(EVENT_AT, x, y);
  }

  lemma {:induction false} ListsAreSorted(events: seq<Event>, m: map<string, Event>)
    requires E.Lists(events, m)
    ensures SortedBy(EVENT_AT, events) && DistinctBy(EVENT_ID, events)
  {
  }

  lemma {:induction false} SameCount(earlier: seq<Event>, later: seq<Event>, a: map<string, Event>,
                                     b: map<string, Event>, until: int, e: Event)
    requires E.Lists(earlier, a) && E.Lists(later, b) && Agree(a, b, until)
    ensures multiset(earlier[..CountUpTo(earlier, until)])[e] == multiset(later[..CountUpTo(later, until)])[e]
  {
    hide Shown, CountUpTo;
    ListedUpTo(earlier, a, until, e);
    ListedUpTo(later, b, until, e);
    assert Shown(a, e.id, until) == Shown(b, e.id, until);
    OnceEach(EVENT_ID, earlier[..CountUpTo(earlier, until)], e);
    OnceEach(EVENT_ID, later[..CountUpTo(later, until)], e);
  }

  lemma {:induction false} RisesUpTo(events: seq<Event>, until: int)
    requires SortedBy(EVENT_AT, events) && DistinctUpTo(events, until)
    ensures StrictlySortedBy(EVENT_AT, events[..CountUpTo(events, until)])
  {
    hide CountUpTo;
    var n := CountUpTo(events, until);
    forall i, j | 0 <= i < j < n ensures EVENT_AT(events[..n][i]) < EVENT_AT(events[..n][j]) {
      assert EVENT_AT(events[i]) <= EVENT_AT(events[j]);
    }
  }

  lemma {:induction false} PrefixSorted(events: seq<Event>, n: nat)
    requires SortedBy(EVENT_AT, events) && n <= |events|
    ensures SortedBy(EVENT_AT, events[..n])
  {
  }

  /** A shift that is running is closed before another clock-in overwrites it. */
  predicate KeepsShift(marks: seq<Mark>)
    decreases |marks|
  {
    if marks == [] then true
    else
      match marks[0].kind
      case ClockIn => false
      case ClockOut => true
      case BreakStart => !marks[0].breakPaid || KeepsShift(marks[1..])
      case BreakEnd => KeepsShift(marks[1..])
      case Correction => KeepsShift(marks[1..])
  }

  // The minutes up to an instant of a replay that stands at it.
  function MinutesSoFar(r: Replay, keeps: bool, from: int, until: int): int {
    MinutesIn(r.spans, from, until)
    + match r.active
      case None => 0
      case Some(start) => if keeps then MonthClosing.Overlap(Span(start, until, false), from, until) else 0
  }

  lemma {:induction false} MinutesOneMore(spans: seq<Span>, span: Span, from: int, until: int)
    ensures MinutesIn(spans + [span], from, until) == MinutesIn(spans, from, until)
      + MonthClosing.Overlap(span, from, until)
  {
    assert (spans + [span])[..|spans|] == spans;
  }

  // A running shift that ends no earlier counts up to the instant; a later one not at all.
  lemma {:induction false} OverlapUpTo(start: int, end: int, from: int, until: int, open: bool)
    ensures end >= until ==>
      MonthClosing.Overlap(Span(start, end, open), from, until)
          == MonthClosing.Overlap(Span(start, until, false), from, until)
    ensures start >= until ==> MonthClosing.Overlap(Span(start, end, open), from, until) == 0
  {
    hide RoundedMinutes;
  }

  lemma {:induction false} ReplayedFront(r: Replay, marks: seq<Mark>)
    requires marks != []
    ensures Replayed(r, marks) == Replayed(Step(r, marks[0]), marks[1..])
  {
    hide Step;
    assert marks == [marks[0]] + marks[1..];
    ReplayedInPieces(r, [marks[0]], marks[1..]);
    ShortReplays(r, marks[0], marks[0]);
  }

  /** What comes after an instant adds nothing before it, whether events, an end or
      an open shift; it may only overwrite the shift running there. */
  lemma {:induction false} LaterAddsNothing(r: Replay, marks: seq<Mark>, end: int, from: int, until: int)
    requires until <= end && forall i :: 0 <= i < |marks| ==> marks[i].at >= until
    ensures MinutesIn(Finished(Replayed(r, marks), end).spans, from, until)
      == MinutesSoFar(r, KeepsShift(marks), from, until)
    decreases |marks|
  {
    hide MinutesIn, MonthClosing.Overlap, Replayed;
    if marks == [] {
      NothingReplayed(r);
      if r.active.Some? {
        var close := if r.active.value < end then end else r.active.value;
        OverlapUpTo(r.active.value, close, from, until, true);
        MinutesOneMore(r.spans, Span(r.active.value, close, true), from, until);
      }
    } else {
      var mark, q := marks[0], Step(r, marks[0]);
      ReplayedFront(r, marks);
      LaterAddsNothing(q, marks[1..], end, from, until);
      OverlapUpTo(mark.at, until, from, until, false);
      if r.active.Some? {
        OverlapUpTo(r.active.value, mark.at, from, until, false);
        MinutesOneMore(r.spans, Span(r.active.value, mark.at, false), from, until);
      }
    }
  }

  /** What follows an event list up to an instant neither list shares. */
  function Rest(events: seq<Event>, until: int): seq<Mark>
    requires SortedBy(EVENT_AT, events)
  {
    MarksOf(events[CountUpTo(events, until)..])
  }

  predicate Idle(events: seq<Event>, until: int)
    requires SortedBy(EVENT_AT, events)
  {
    Replayed(IDLE, MarksOf(events[..CountUpTo(events, until)])).active == None
  }

  lemma {:induction false} MinutesOfMonth(events: seq<Event>, until: int, end: int, from: int, at: int)
    requires SortedBy(EVENT_AT, events) && at <= until <= end
    ensures var front := Replayed(IDLE, MarksOf(events[..CountUpTo(events, until)]));
      MinutesIn(MonthSpans(MarksOf(events), end), from, at)
        == MinutesIn(front.spans, from, at)
           + match front.active
             case None => 0
             case Some(start) =>
               if KeepsShift(Rest(events, until)) then MonthClosing.Overlap(Span(start, until, false), from, at)
               else 0
  {
    hide MinutesIn, MonthClosing.Overlap, Replayed, KeepsShift;
    var n := CountUpTo(events, until);
    var front, rest := MarksOf(events[..n]), Rest(events, until);
    assert MarksOf(events) == front + rest;
    ReplayedInPieces(IDLE, front, rest);
    var r := Replayed(IDLE, front);
    LaterAddsNothing(r, rest, end, from, at);
    if r.active.Some? {
      OverlapUpTo(r.active.value, until, from, at, false);
      OverlapUpTo(r.active.value, at, from, at, false);
    }
  }

  /** Two replays that agree up to an instant show the same minutes of it, unless
      only one of them overwrites a shift that runs across it. */
  lemma {:induction false} SameMinutes(earlier: seq<Event>, later: seq<Event>, a: map<string, Event>,
                                       b: map<string, Event>, until: int, end: int, from: int, at: int)
    requires E.Lists(earlier, a) && E.Lists(later, b) && Agree(a, b, until) && DistinctUpTo(earlier, until)
    requires Idle(earlier, until) || (KeepsShift(Rest(earlier, until)) <==> KeepsShift(Rest(later, until)))
    requires at <= until <= end
    ensures MinutesIn(MonthSpans(MarksOf(earlier), until), from, at)
      == MinutesIn(MonthSpans(MarksOf(later), end), from, at)
  {
    hide MinutesIn, MonthClosing.Overlap, Replayed, KeepsShift, Agree, MonthSpans;
    SameListUpTo(earlier, later, a, b, until);
    MinutesOfMonth(earlier, until, until, from, at);
    MinutesOfMonth(later, until, end, from, at);
  }

  /** Two months that share a week never spend its quota twice, each closed on its
      own replay, if no correction stored beyond the earlier window changes an event
      of the earlier month. */
  lemma {:induction false} TwoMonthsShareTheQuota(
    idAt: nat -> string, createdAt: nat -> int, log: seq<E.Row>, employee: string, t: Terms, midnight: int -> int,
    monday: int, before: nat, last: int, earlier: seq<Event>, later: seq<Event>)
    requires WellKept(idAt, createdAt, log) && t.weekly && MondayOf(monday) == monday && before <= 7 <= last - monday
    requires E.Lists(earlier, Effects(log, employee, midnight(monday + before)))
    requires E.Lists(later, Effects(log, employee, midnight(last)))
    requires WholeCuts(MonthSpans(MarksOf(earlier), midnight(monday + before)), midnight)
    requires WholeCuts(MonthSpans(MarksOf(later), midnight(last)), midnight)
    requires Undisturbed(log, employee, midnight(monday + before), midnight(last))
    requires DistinctUpTo(earlier, midnight(monday + before))
    requires Idle(earlier, midnight(monday + before))
      || (KeepsShift(Rest(earlier, midnight(monday + before))) <==> KeepsShift(Rest(later, midnight(monday + before))))
    ensures var first := MonthSpans(MarksOf(earlier), midnight(monday + before));
      var second := MonthSpans(MarksOf(later), midnight(last));
      Summed(Records(t, first, midnight, monday, before)).ordinary
        + Summed(Records(t, second, midnight, monday + before, 7 - before)).ordinary
      == Min(t.quota, MinutesIn(second, midnight(monday), midnight(monday + 7)))
  {
    hide MinutesIn, Replayed, KeepsShift, Agree, MonthSpans, Effects, Disturbed, WellKept, Records, Summed, WholeCuts,
         MondayOf, Idle;
    var from, until := midnight(monday + before), midnight(last);
    assert from <= until by { MidnightsInOrder(MonthSpans(MarksOf(later), until), midnight, monday + before, last); }
    ReplaysAgree(idAt, createdAt, log, employee, from, until);
    SameMinutes(earlier, later, Effects(log, employee, from), Effects(log, employee, until), from, until,
                midnight(monday), from);
    SplitWeek(t, MonthSpans(MarksOf(earlier), from), MonthSpans(MarksOf(later), until), midnight, monday, before);
  }

  // ------------------------------------------------------------- a quota spent twice

  const MONDAY := 4
  const SATURDAY := 9
  const BOUNDARY := 7
  const NEXT_MONTH := 37
  const EIGHT := 28800
  const SIXTEEN := 57600

  const DAY_START: int -> int := (d: int) => d * DAY

  function Clocked(id: string, created: int, kind: Kind, corrects: string, at: int): E.Row {
    E.Row(id, "worker", kind, None, corrects, at, created, false, "", false)
  }

  /** Eight hours clocked on a Monday, both events moved to the Saturday of the week;
      the month ends on the Wednesday between. */
  function MovedShift(idAt: nat -> string, createdAt: nat -> int): seq<E.Row> {
    [Clocked(idAt(0), createdAt(0), ClockIn, "", MONDAY * DAY + EIGHT),
     Clocked(idAt(1), createdAt(1), ClockOut, "", MONDAY * DAY + SIXTEEN),
     Clocked(idAt(2), createdAt(2), Correction, idAt(0), SATURDAY * DAY + EIGHT),
     Clocked(idAt(3), createdAt(3), Correction, idAt(1), SATURDAY * DAY + SIXTEEN)]
  }

  function ShiftOn(idAt: nat -> string, day: int): seq<Event> {
    [Event(idAt(0), Mark(ClockIn, day * DAY + EIGHT, "", false)),
     Event(idAt(1), Mark(ClockOut, day * DAY + SIXTEEN, "", false))]
  }

  lemma {:induction false} MovedShiftIsWellKept(idAt: nat -> string, createdAt: nat -> int)
    requires GoodKeys(idAt, createdAt)
    ensures WellKept(idAt, createdAt, MovedShift(idAt, createdAt))
  {
    var log := MovedShift(idAt, createdAt);
    assert log[..2] == [log[0], log[1]] && log[..3] == [log[0], log[1], log[2]];
    assert log[..3][1..] == [log[1], log[2]];
    assert Find(log[..2], idAt(0)) == Some(log[0]) && Find(log[..3][1..], idAt(1)) == Some(log[1]);
    assert Find(log[..3], idAt(1)) == Some(log[1]);
  }

  lemma {:induction false} MovedShiftInWindow(idAt: nat -> string, createdAt: nat -> int, until: int)
    requires until in {BOUNDARY * DAY, NEXT_MONTH * DAY}
    ensures var log := MovedShift(idAt, createdAt);
      Select(log, InWindow("worker", until)) == if until == BOUNDARY * DAY then log[..2] else log
  {
    var log := MovedShift(idAt, createdAt);
    var keep := InWindow("worker", until);
    assert log == [log[0]] + [log[1]] + [log[2]] + [log[3]];
    hide Select;
    NothingSelected(keep);
    assert [] + [log[0]] == [log[0]];
    SelectSnoc([], log[0], keep);
    SelectSnoc([log[0]], log[1], keep);
    SelectSnoc([log[0]] + [log[1]], log[2], keep);
    SelectSnoc([log[0]] + [log[1]] + [log[2]], log[3], keep);
  }

  lemma {:induction false} BeforeTheMove(idAt: nat -> string, createdAt: nat -> int)
    requires GoodKeys(idAt, createdAt)
    ensures E.Lists(ShiftOn(idAt, MONDAY), Effects(MovedShift(idAt, createdAt), "worker", BOUNDARY * DAY))
  {
    hide Sort, Queried, Effects, WellKept, Find, Select, Regular;
    var log, events := MovedShift(idAt, createdAt), ShiftOn(idAt, MONDAY);
    MovedShiftIsWellKept(idAt, createdAt);
    MovedShiftInWindow(idAt, createdAt, BOUNDARY * DAY);
    SortsDoNotMatter(idAt, createdAt, log, "worker", BOUNDARY * DAY);
    var rows := log[..2];
    SelectAll(rows, IS_CORRECTION);
    NothingToReplay(log, "worker");
    TwoRegular(rows);
    assert Effects(log, "worker", BOUNDARY * DAY) == map[idAt(0) := events[0], idAt(1) := events[1]];
  }

  lemma {:induction false} TwoRegular(rows: seq<E.Row>)
    requires |rows| == 2 && rows[0].kind != Correction && rows[1].kind != Correction
    ensures Regular(rows) == map[rows[0].id := EventOf(rows[0])][rows[1].id := EventOf(rows[1])]
  {
    var one := rows[..1];
    assert one[..0] == [] && Regular(one[..0]) == map[];
    assert Regular(one) == map[one[0].id := EventOf(one[0])];
  }

  lemma {:induction false} MovedShiftIsRead(idAt: nat -> string, createdAt: nat -> int)
    ensures var log, events := MovedShift(idAt, createdAt), ShiftOn(idAt, MONDAY);
      InLogOrder(log, "worker", NEXT_MONTH * DAY)
        == ApplyAll(log, "worker", map[idAt(0) := events[0]][idAt(1) := events[1]], log[2..])
  {
    hide Sort, Find, Select, Regular, ApplyAll, InLogOrder;
    var log := MovedShift(idAt, createdAt);
    MovedShiftInWindow(idAt, createdAt, NEXT_MONTH * DAY);
    TwoEventsRead(log, "worker", NEXT_MONTH * DAY);
  }

  // Two events and then corrections, all in the window.
  lemma {:induction false} TwoEventsRead(log: seq<E.Row>, employee: string, until: int)
    requires Select(log, InWindow(employee, until)) == log && |log| >= 2
    requires log[0].kind != Correction && log[1].kind != Correction
    requires forall i :: 2 <= i < |log| ==> log[i].kind == Correction
    ensures InLogOrder(log, employee, until)
      == ApplyAll(log, employee, map[log[0].id := EventOf(log[0])][log[1].id := EventOf(log[1])], log[2..])
  {
    hide Find, Select, Regular, ApplyAll, InWindow, EventOf;
    TwoAreRegular(log);
    RestAreCorrections(log);
  }

  lemma {:induction false} TwoAreRegular(log: seq<E.Row>)
    requires |log| >= 2 && log[0].kind != Correction && log[1].kind != Correction
    requires forall i :: 2 <= i < |log| ==> log[i].kind == Correction
    ensures Regular(log) == map[log[0].id := EventOf(log[0])][log[1].id := EventOf(log[1])]
  {
    hide Regular, EventOf;
    var rows, corrections := log[..2], log[2..];
    assert log == rows + corrections;
    RegularOfConcatenation(rows, corrections);
    TwoRegular(rows);
    NoRegular(corrections);
  }

  lemma {:induction false} RestAreCorrections(log: seq<E.Row>)
    requires |log| >= 2 && log[0].kind != Correction && log[1].kind != Correction
    requires forall i :: 2 <= i < |log| ==> log[i].kind == Correction
    ensures Select(log, IS_CORRECTION) == log[2..]
  {
    hide Select;
    var rows, corrections := log[..2], log[2..];
    assert log == rows + corrections;
    SelectOfConcatenation(rows, corrections, IS_CORRECTION);
    SelectAll(rows, IS_CORRECTION);
    SelectAll(corrections, IS_CORRECTION);
  }

  lemma {:induction false} AfterTheMove(idAt: nat -> string, createdAt: nat -> int)
    requires GoodKeys(idAt, createdAt)
    ensures E.Lists(ShiftOn(idAt, SATURDAY), Effects(MovedShift(idAt, createdAt), "worker", NEXT_MONTH * DAY))
  {
    hide Sort, Queried, Effects, WellKept, Find, Select, Regular, E.Lists, InLogOrder, ApplyAll;
    var log, events := MovedShift(idAt, createdAt), ShiftOn(idAt, MONDAY);
    MovedShiftIsWellKept(idAt, createdAt);
    assert OnePage(log, "worker", NEXT_MONTH * DAY) by { MovedShiftInWindow(idAt, createdAt, NEXT_MONTH * DAY); }
    SortsDoNotMatter(idAt, createdAt, log, "worker", NEXT_MONTH * DAY);
    MovedShiftIsRead(idAt, createdAt);
    assert idAt(0) != idAt(1);
    TwoMoves(log, map[idAt(0) := events[0]][idAt(1) := events[1]], log[2..], idAt, createdAt);
  }

  lemma {:induction false} TwoMoves(log: seq<E.Row>, regular: map<string, Event>, corrections: seq<E.Row>,
                                    idAt: nat -> string, createdAt: nat -> int)
    requires idAt(0) != idAt(1) && idAt(0) != "" && idAt(1) != ""
    requires regular == map[idAt(0) := ShiftOn(idAt, MONDAY)[0], idAt(1) := ShiftOn(idAt, MONDAY)[1]]
    requires corrections == [Clocked(idAt(2), createdAt(2), Correction, idAt(0), SATURDAY * DAY + EIGHT),
                             Clocked(idAt(3), createdAt(3), Correction, idAt(1), SATURDAY * DAY + SIXTEEN)]
    ensures E.Lists(ShiftOn(idAt, SATURDAY), ApplyAll(log, "worker", regular, corrections))
  {
    hide Find;
    var events := ShiftOn(idAt, SATURDAY);
    var one := corrections[..1];
    assert one[..0] == [] && ApplyAll(log, "worker", regular, one[..0]) == regular;
    assert ApplyAll(log, "worker", regular, one) == regular[idAt(0) := events[0]];
    assert ApplyAll(log, "worker", regular, corrections) == map[idAt(0) := events[0], idAt(1) := events[1]];
  }

  lemma {:induction false} NoRegular(rows: seq<E.Row>)
    requires forall i :: 0 <= i < |rows| ==> rows[i].kind == Correction
    ensures Regular(rows) == map[]
  {
    RegularIsLogged(rows);
    assert Regular(rows).Keys == {};
  }

  lemma {:induction false} ShiftSpans(idAt: nat -> string, day: int, until: int)
    ensures MonthSpans(MarksOf(ShiftOn(idAt, day)), until) == [Span(day * DAY + EIGHT, day * DAY + SIXTEEN, false)]
  {
    var marks := MarksOf(ShiftOn(idAt, day));
    assert marks == [marks[0], marks[1]];
    ShortReplays(IDLE, marks[0], marks[1]);
    assert [] + [Span(day * DAY + EIGHT, day * DAY + SIXTEEN, false)]
        == [Span(day * DAY + EIGHT, day * DAY + SIXTEEN, false)];
  }

  /** With a quota of eight hours, the earlier month pays Monday's eight against it
      and the later month Saturday's, in the same week, though it holds one shift. */
  lemma {:induction false} QuotaSpentTwice(idAt: nat -> string, createdAt: nat -> int, t: Terms)
    requires GoodKeys(idAt, createdAt) && t.weekly && t.quota == 480
    ensures var log := MovedShift(idAt, createdAt);
      && E.Lists(ShiftOn(idAt, MONDAY), Effects(log, "worker", DAY_START(BOUNDARY)))
      && E.Lists(ShiftOn(idAt, SATURDAY), Effects(log, "worker", DAY_START(NEXT_MONTH)))
      && !Undisturbed(log, "worker", DAY_START(BOUNDARY), DAY_START(NEXT_MONTH))
    ensures MondayOf(MONDAY) == MondayOf(SATURDAY)
    ensures RecordOn(t, MonthSpans(MarksOf(ShiftOn(idAt, MONDAY)), DAY_START(BOUNDARY)), DAY_START, MONDAY).ordinary
      == 480
    ensures RecordOn(t, MonthSpans(MarksOf(ShiftOn(idAt, SATURDAY)), DAY_START(NEXT_MONTH)), DAY_START,
                     SATURDAY).ordinary == 480
  {
    hide Effects, MonthSpans, WellKept, Undisturbed, E.Lists, RecordOn;
    BeforeTheMove(idAt, createdAt);
    AfterTheMove(idAt, createdAt);
    MoveDisturbs(idAt, createdAt);
    ShiftSpans(idAt, MONDAY, DAY_START(BOUNDARY));
    ShiftSpans(idAt, SATURDAY, DAY_START(NEXT_MONTH));
    OneShiftRecorded(t, MONDAY);
    OneShiftRecorded(t, SATURDAY);
  }

  lemma {:induction false} MoveDisturbs(idAt: nat -> string, createdAt: nat -> int)
    requires GoodKeys(idAt, createdAt)
    ensures !Undisturbed(MovedShift(idAt, createdAt), "worker", DAY_START(BOUNDARY), DAY_START(NEXT_MONTH))
  {
    hide Effects, WellKept, Undisturbed;
    var log := MovedShift(idAt, createdAt);
    BeforeTheMove(idAt, createdAt);
    AfterTheMove(idAt, createdAt);
    MovedShiftIsWellKept(idAt, createdAt);
    var early, late := ShiftOn(idAt, MONDAY)[0], ShiftOn(idAt, SATURDAY)[0];
    assert early in ShiftOn(idAt, MONDAY) && late in ShiftOn(idAt, SATURDAY);
    var from, until := DAY_START(BOUNDARY), DAY_START(NEXT_MONTH);
    assert Shown(Effects(log, "worker", from), idAt(0), from) == Some(early);
    assert Shown(Effects(log, "worker", until), idAt(0), from) == None;
    ReplaysAgree(idAt, createdAt, log, "worker", from, until);
  }

  // A day's eight hours, with nothing worked in the week before it.
  lemma {:induction false} OneShiftRecorded(t: Terms, day: int)
    requires t.weekly && t.quota == 480 && day in {MONDAY, SATURDAY}
    ensures RecordOn(t, [Span(day * DAY + EIGHT, day * DAY + SIXTEEN, false)], DAY_START, day).ordinary == 480
  {
    var span := Span(day * DAY + EIGHT, day * DAY + SIXTEEN, false);
    OneSpan(span, DAY_START(day), DAY_START(day + 1));
    OneSpan(span, DAY_START(MONDAY), DAY_START(day));
  }

  lemma {:induction false} OneSpan(span: Span, from: int, until: int)
    ensures MinutesIn([span], from, until) == MonthClosing.Overlap(span, from, until)
  {
    assert [span][..0] == [];
  }
}
