/** Everything that appends to one person's log, and what the export says of
    the logs they can produce. Appends are serial: each one reads the tip of the
    log it extends. */
module ChainWriters {
  import opened Bytes
  import opened HashChain
  import Texts

  const TIP_WINDOW := 10000
  const EXPORT_LIMIT := 50000

  /** What a writer is asked to append. Instants are integers; the text of a
      voided row's time is the text the database holds for it. */
  datatype Entry =
    | Clocked(source: string, kind: string, correctedKind: string, corrects: string, occurredAt: int, recordedAt: int,
              adjustmentSeconds: int, adjustmentReason: string, requestId: string)
    | Manual(kind: string, occurredAt: int, recordedAt: int, request: string, index: nat)
    | Voiding(target: string, targetOccurredAt: string, recordedAt: int, request: string, index: nat)
    | AtTerminal(kind: string, occurredAt: int, recordedAt: int, adjustmentSeconds: int, adjustmentReason: string,
                 requestId: string, terminal: string, capturedAt: int, syncedAt: int, sequence: nat, offline: bool)

  /** Whose log it is, and the id the database gives the new row. */
  datatype Owner = Owner(employee: string, organization: string, id: string)

  ghost predicate WellFormed(entry: Entry) {
    entry.Manual? ==> entry.request != ""
  }

  /** The texts the writer hashes. Web clock events and approved corrections
      write format v2 with ISO dates, the terminal v3 with ISO dates, manual
      events and voids format v1 with the stored texts. */
  function HashedParts(host: Host, owner: Owner, entry: Entry, previousHash: string): seq<string> {
    match entry
    case Clocked(_, kind, correctedKind, corrects, occurredAt, recordedAt, seconds, reason, requestId) =>
      [ "v2", owner.employee, owner.organization, kind, correctedKind, corrects,
        host.iso(occurredAt), host.iso(recordedAt), Decimal(seconds), reason, requestId, previousHash ]
    case Manual(kind, occurredAt, _, request, index) =>
      [ owner.employee, owner.organization, kind, host.stored(occurredAt), request, Decimal(index), previousHash ]
    case Voiding(target, targetOccurredAt, _, request, index) =>
      [ owner.employee, owner.organization, "correction", "void", target, targetOccurredAt,
        VoidId(request, index), previousHash ]
    case AtTerminal(kind, occurredAt, recordedAt, seconds, reason, requestId, terminal, captured, synced, sequence,
                    offline) =>
      [ "v3", owner.employee, owner.organization, kind, "", "",
        host.iso(occurredAt), host.iso(recordedAt), Decimal(seconds), reason, requestId, previousHash,
        terminal, host.iso(captured), host.iso(synced), Decimal(sequence), Truth(offline) ]
  }

  function ManualId(request: string, index: nat): string {
    "manual-" + request + "-" + Decimal(index)
  }

  function VoidId(request: string, index: nat): string {
    "replacement-void-" + request + "-" + Decimal(index)
  }

  /** The row the writer saves. */
  function Written(host: Host, owner: Owner, entry: Entry, previousHash: string): Record {
    var hash := host.sha(Join(HashedParts(host, owner, entry, previousHash)));
    match entry
    case Clocked(source, kind, correctedKind, corrects, occurredAt, recordedAt, seconds, reason, requestId) =>
      Record(owner.id, owner.employee, owner.organization, kind, correctedKind, corrects,
             host.stored(occurredAt), host.stored(recordedAt), seconds, reason, requestId, previousHash, hash, "v2",
             source, "", false, "", "", "", 0, false)
    case Manual(kind, occurredAt, recordedAt, request, index) =>
      Record(owner.id, owner.employee, owner.organization, kind, "", "",
             host.stored(occurredAt), host.stored(recordedAt), 0, "", ManualId(request, index), previousHash, hash,
             "v1", "manual", request, false, "", "", "", 0, false)
    case Voiding(target, targetOccurredAt, recordedAt, request, index) =>
      Record(owner.id, owner.employee, owner.organization, "correction", "", target,
             targetOccurredAt, host.stored(recordedAt), 0, "", VoidId(request, index), previousHash, hash, "v1",
             "manual", request, true, "", "", "", 0, false)
    case AtTerminal(kind, occurredAt, recordedAt, seconds, reason, requestId, terminal, captured, synced, sequence,
                    offline) =>
      Record(owner.id, owner.employee, owner.organization, kind, "", "",
             host.stored(occurredAt), host.stored(recordedAt), seconds, reason, requestId, previousHash, hash, "v3",
             "terminal", "", false, terminal, host.stored(captured), host.stored(synced), sequence, offline)
  }

  lemma {:induction false} NumeralHasNoDash(n: nat)
    ensures forall c :: c in Numeral(n) ==> c in DIGITS
    ensures '-' !in Numeral(n)
  {
    if n >= 10 { NumeralHasNoDash(n / 10); }
  }

  lemma {:induction false} AfterTheLastDash(prefix: string, suffix: string)
    requires '-' !in suffix
    ensures AfterLastDash(prefix + "-" + suffix) == suffix
  {
    var text := prefix + "-" + suffix;
    if suffix != "" {
      var n := |suffix| - 1;
      AfterTheLastDash(prefix, suffix[..n]);
      assert text[..|text| - 1] == prefix + "-" + suffix[..n];
      assert text[|text| - 1] == suffix[n];
      assert suffix == suffix[..n] + [suffix[n]];
    }
  }

  /** Whatever a writer hashes is among the texts the export recomputes. */
  lemma {:induction false} EveryWriterVerifies(host: Host, owner: Owner, entry: Entry, previousHash: string)
    requires Lawful(host) && WellFormed(entry)
    ensures HashMatches(host, Written(host, owner, entry, previousHash))
    ensures Written(host, owner, entry, previousHash).previousHash == previousHash
    ensures Written(host, owner, entry, previousHash).integrityHash != ""
  {
    hide Join, AfterLastDash, Numeral, Decimal;
    var r := Written(host, owner, entry, previousHash);
    var parts := HashedParts(host, owner, entry, previousHash);
    match entry
    case Clocked(_, _, _, _, occurredAt, recordedAt, _, _, _) =>
      assert host.iso(occurredAt) in DateVariants(host, r.occurredAt)
          && host.iso(recordedAt) in DateVariants(host, r.recordedAt);
      assert parts == V2Parts(r, host.iso(occurredAt), host.iso(recordedAt));
    case Manual(_, occurredAt, _, request, index) =>
      IndexOfManualId(request, index);
      assert r.occurredAt in DateVariants(host, r.occurredAt);
      assert parts == V1Parts(host, r, r.occurredAt);
    case Voiding(_, _, _, _, _) =>
      assert r.occurredAt in DateVariants(host, r.occurredAt);
      assert parts == V1Parts(host, r, r.occurredAt);
    case AtTerminal(_, occurredAt, recordedAt, _, _, _, _, captured, synced, _, _) =>
      assert host.iso(occurredAt) in DateVariants(host, r.occurredAt)
          && host.iso(recordedAt) in DateVariants(host, r.recordedAt);
      assert host.iso(captured) in DateVariants(host, r.deviceCapturedAt)
          && host.iso(synced) in DateVariants(host, r.clockSyncedAt);
      assert parts == V3Parts(r, host.iso(occurredAt), host.iso(recordedAt), host.iso(captured), host.iso(synced));
    assert Candidate(host, r, parts);
  }

  lemma {:induction false} IndexOfManualId(request: string, index: nat)
    ensures AfterLastDash(ManualId(request, index)) == Decimal(index)
  {
    NumeralHasNoDash(index);
    AfterTheLastDash("manual-" + request, Numeral(index));
    assert ManualId(request, index) == ("manual-" + request) + "-" + Numeral(index);
  }

  // ------------------------------------------------------------------- the tip

  function Reverse(records: seq<Record>): (r: seq<Record>)
    ensures |r| == |records| && forall i :: 0 <= i < |r| ==> r[i] == records[|records| - 1 - i]
  {
    if records == [] then [] else Reverse(records[1..]) + [records[0]]
  }

  /** The query by `-created`: at most ten thousand rows, newest first. */
  function Newest(log: seq<Record>): (r: seq<Record>)
    ensures |r| == if |log| <= 10000 then |log| else 10000
    ensures forall i :: 0 <= i < |r| ==> r[i] == log[|log| - 1 - i]
  {
    Reverse(if |log| <= TIP_WINDOW then log else log[|log| - TIP_WINDOW..])
  }

  ghost function FirstTip(records: seq<Record>, from: nat): string
    requires from <= |records|
    decreases |records| - from
  {
    if from == |records| then ""
    else if !Referenced(records, records[from].integrityHash) then records[from].integrityHash
    else FirstTip(records, from + 1)
  }

  ghost function TipHash(log: seq<Record>): string {
    FirstTip(Newest(log), 0)
  }

  method CollectReferenced(records: seq<Record>) returns (referenced: set<string>)
    ensures forall hash :: hash in referenced <==> Referenced(records, hash)
  {
    referenced := {};
    for i := 0 to |records|
      invariant forall hash :: hash in referenced <==>
        hash != "" && exists j :: 0 <= j < i && records[j].previousHash == hash
    {
      if records[i].previousHash != "" {
        referenced := referenced + {records[i].previousHash};
      }
    }
  }

  /** Every row of the window before the k-th has a hash that some row names. */
  ghost predicate NamedBefore(records: seq<Record>, k: nat)
    requires k <= |records|
  {
    forall l :: 0 <= l < k ==> Referenced(records, records[l].integrityHash)
  }

  /** `integrityTipHash` of the web backend: what the newest row that none names has for
      a hash, if anything; nothing if every row is named. */
  method IntegrityTipHash(log: seq<Record>) returns (hash: string)
    ensures hash == TipHash(log)
    ensures
      || (hash == "" && NamedBefore(Newest(log), |Newest(log)|))
      || (!Referenced(Newest(log), hash)
          && exists k :: 0 <= k < |Newest(log)| && Newest(log)[k].integrityHash == hash && NamedBefore(Newest(log), k))
  {
    var events := Newest(log);
    var referenced := CollectReferenced(events);
    for i := 0 to |events|
      invariant FirstTip(events, 0) == FirstTip(events, i) && NamedBefore(events, i)
    {
      if events[i].integrityHash !in referenced {
        return events[i].integrityHash;
      }
    }
    hash := "";
  }

  /** No row of the window before the k-th has a hash that no row names. */
  ghost predicate NoTipBefore(records: seq<Record>, k: nat)
    requires k <= |records|
  {
    forall l :: 0 <= l < k ==> records[l].integrityHash == "" || Referenced(records, records[l].integrityHash)
  }

  lemma {:induction false} NothingBefore(records: seq<Record>)
    ensures NoTipBefore(records, 0)
  {
  }

  lemma {:induction false} OneMoreBefore(records: seq<Record>, k: nat)
    requires k < |records|
    ensures NoTipBefore(records, k + 1)
      <==> NoTipBefore(records, k)
           && (records[k].integrityHash == "" || Referenced(records, records[k].integrityHash))
  {
    hide Referenced;
  }

  /** `integrityTipHash` of the terminal service: the newest hash that no row names,
      or none. It skips rows without a hash; where there are none, it finds what the
      web backend finds. */
  method TerminalTipHash(log: seq<Record>) returns (hash: string)
    ensures hash == "" ==> NoTipBefore(Newest(log), |Newest(log)|)
    ensures hash != "" ==>
      && !Referenced(Newest(log), hash)
      && exists k :: 0 <= k < |Newest(log)| && Newest(log)[k].integrityHash == hash && NoTipBefore(Newest(log), k)
    ensures (forall i :: 0 <= i < |log| ==> log[i].integrityHash != "") ==> hash == TipHash(log)
  {
    hide Newest, Referenced, NoTipBefore;
    var records := Newest(log);
    var referenced := CollectReferenced(records);
    ghost var sealed := forall i :: 0 <= i < |log| ==> log[i].integrityHash != "";
    NothingBefore(records);
    for i := 0 to |records|
      invariant NoTipBefore(records, i)
      invariant sealed ==> FirstTip(records, 0) == FirstTip(records, i)
    {
      OneMoreBefore(records, i);
      if records[i].integrityHash != "" && records[i].integrityHash !in referenced {
        return records[i].integrityHash;
      }
    }
    hash := "";
  }

  // ---------------------------------------------------------------- serial runs

  /** One append: the tip of the log becomes the predecessor. */
  ghost function Append(host: Host, log: seq<Record>, owner: Owner, entry: Entry): seq<Record> {
    log + [Written(host, owner, entry, TipHash(log))]
  }

  ghost function Run(host: Host, appends: seq<(Owner, Entry)>): (log: seq<Record>)
    ensures |log| == |appends|
  {
    if appends == [] then []
    else
      var last := appends[|appends| - 1];
      Append(host, Run(host, appends[..|appends| - 1]), last.0, last.1)
  }

  ghost predicate WellFormedRun(appends: seq<(Owner, Entry)>) {
    forall i :: 0 <= i < |appends| ==> WellFormed(appends[i].1)
  }

  /** Each row names the one before it, and hash ranks rise along the log. */
  ghost predicate Straight(rank: string -> nat, log: seq<Record>) {
    && (forall i :: 0 <= i < |log| ==> log[i].integrityHash != "")
    && (log != [] ==> log[0].previousHash == "")
    && (forall i :: 1 <= i < |log| ==> log[i].previousHash == log[i - 1].integrityHash)
    && (forall i, j :: 0 <= i < j < |log| ==> rank(log[i].integrityHash) < rank(log[j].integrityHash))
  }

  ghost function NewestHash(log: seq<Record>): string {
    if log == [] then "" else log[|log| - 1].integrityHash
  }

  /** The newest row is the tip, however far back the window cuts the log. */
  lemma {:induction false} TipIsNewest(rank: string -> nat, log: seq<Record>)
    requires Straight(rank, log)
    ensures TipHash(log) == NewestHash(log)
  {
    if log != [] {
      var window := if |log| <= TIP_WINDOW then log else log[|log| - TIP_WINDOW..];
      var records := Newest(log);
      var newest := log[|log| - 1];
      assert records[0] == newest;
      forall j | 0 <= j < |records| ensures records[j].previousHash != newest.integrityHash {
        var at := |log| - 1 - j;
        assert records[j] == log[at];
        if at > 0 { assert rank(log[at - 1].integrityHash) < rank(newest.integrityHash); }
      }
      assert !Referenced(records, newest.integrityHash);
    }
  }

  /** Over any serial run by any mix of writers, the log is one straight chain
      whose tip is its newest row, and every row's hash verifies. */
  lemma {:induction false} RunsStayStraight(host: Host, rank: string -> nat, appends: seq<(Owner, Entry)>)
    requires Lawful(host) && WellFounded(host, rank) && WellFormedRun(appends)
    ensures var log := Run(host, appends);
      && Straight(rank, log) && Sealed(host, log)
      && TipHash(log) == NewestHash(log)
  {
    hide HashMatches, Written, Lawful, WellFounded, TipHash, WellFormed;
    var log := Run(host, appends);
    if appends != [] {
      var n := |appends| - 1;
      var before := Run(host, appends[..n]);
      RunsStayStraight(host, rank, appends[..n]);
      var last := appends[n];
      assert WellFormed(last.1);
      var row := Written(host, last.0, last.1, TipHash(before));
      EveryWriterVerifies(host, last.0, last.1, TipHash(before));
      if row.previousHash != "" { PredecessorRanksBelow(host, rank, row); }
      assert log == before + [row];
      assert Straight(rank, log);
    }
    TipIsNewest(rank, log);
  }

  lemma {:induction false} StraightIsLinear(rank: string -> nat, log: seq<Record>)
    requires Straight(rank, log)
    ensures DistinctHashes(log) && exists order :: LinearOrder(log, order)
  {
    var order := seq(|log|, (i: nat) => i);
    assert LinearOrder(log, order);
  }

  /** The rows the export reads: the fifty thousand oldest. */
  function Exported(log: seq<Record>): (rows: seq<Record>)
    ensures rows <= log && |rows| == if |log| <= 50000 then |log| else 50000
  {
    if |log| <= EXPORT_LIMIT then log else log[..EXPORT_LIMIT]
  }

  /** The export of any serial run is reported valid: one root, one tip (none of
      either for an empty log), every row's hash verified and no errors. */
  lemma {:induction false} EveryRunExportsValid(host: Host, rank: string -> nat, appends: seq<(Owner, Entry)>)
    requires Lawful(host) && WellFounded(host, rank) && WellFormedRun(appends)
    ensures var rows := Exported(Run(host, appends));
      && ChainErrors(host, rows) == [] && OneChain(host, rows)
  {
    hide HashMatches, Written, Lawful, TipHash, WellFormed, ChainErrors, WellFounded;
    RunsStayStraight(host, rank, appends);
    var log := Run(host, appends);
    var rows := Exported(log);
    assert forall i :: 0 <= i < |rows| ==> rows[i] == log[i];
    assert Sealed(host, rows) && Straight(rank, rows);
    StraightIsLinear(rank, rows);
    ValidExactlyWhenOneChain(host, rank, rows);
  }

  /** The idealised hash exists: appending a letter to the hashed text, ranked by length. */
  lemma {:induction false} SomeHostIsLawful()
    ensures exists host, rank: string -> nat :: Lawful(host) && WellFounded(host, rank)
  {
    var host := Host(text => text + "x", text => Some(text), t => Decimal(t), t => Decimal(t), text => text);
    var rank: string -> nat := text => |text|;
    forall parts: seq<string>, part | part in parts && part != "" ensures rank(part) < rank(host.sha(Join(parts))) {
      Texts.PartsAreNoLonger('|', parts, part);
    }
    assert Lawful(host);
    assert WellFounded(host, rank);
  }
}
