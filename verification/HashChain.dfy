/** The hash chain over one person's work events: the records the writers
    produce, and the check the labour-inspection export runs over them.

    SHA-256 and the texts of dates and numbers are parameters, gathered in a
    `Host`. */
module HashChain {
  import opened Bytes
  import Texts

  // ---------------------------------------------------------------- records

  /** A `work_events` row. Dates are the texts the database returns. */
  datatype Record = Record(
    id: string, employee: string, organization: string,
    kind: string, correctedKind: string, corrects: string,
    occurredAt: string, recordedAt: string,
    adjustmentSeconds: int, adjustmentReason: string,
    clientRequestId: string, previousHash: string, integrityHash: string, integrityVersion: string,
    source: string, manualRequest: string, voidsTarget: bool,
    terminal: string, deviceCapturedAt: string, clockSyncedAt: string,
    deviceSequence: int, queuedOffline: bool)

  /** What the code takes from its surroundings. `canonical(text)` is the ISO
      form of a date text, None when it is no date; `stored(t)` and `iso(t)` are
      the two texts of one instant; `numeral(text)` is `String(Number(text))`. */
  datatype Host = Host(
    sha: string -> string,
    canonical: string -> Option<string>,
    stored: int -> string,
    iso: int -> string,
    numeral: string -> string)

  ghost predicate Lawful(host: Host) {
    && (forall t :: host.canonical(host.stored(t)) == Some(host.iso(t)))
    && (forall n: nat :: host.numeral(Decimal(n)) == Decimal(n))
    && (forall text :: host.sha(text) != "")
  }

  /** The hash of a joined list ranks above every part of the list. This is the
      usual idealisation of a hash: nobody can write down a digest before the
      text it digests exists. */
  ghost predicate WellFounded(host: Host, rank: string -> nat) {
    forall parts: seq<string>, part ::
      part in parts && part != "" ==> rank(part) < rank(host.sha(Join(parts)))
  }

  function Join(parts: seq<string>): string { Texts.Join('|', parts) }

  const DIGITS := "0123456789"

  function Numeral(n: nat): string {
    if n < 10 then [DIGITS[n]] else Numeral(n / 10) + [DIGITS[n % 10]]
  }

  function Decimal(n: int): string {
    if n < 0 then "-" + Numeral(-n) else Numeral(n)
  }

  function Truth(b: bool): (name: string)
    ensures (name == "true" <==> b) && (name == "false" <==> !b)
  {
    if b then "true" else "false"
  }

  // ---------------------------------------------------- which texts are hashed

  /** The text as stored, and its canonical form when that is another one. */
  function DateVariants(host: Host, text: string): seq<string> {
    match host.canonical(text)
    case Some(canonical) => if canonical == text then [text] else [text, canonical]
    case None => [text]
  }

  function V3Parts(r: Record, occurred: string, recorded: string, captured: string, synced: string): seq<string> {
    [ "v3", r.employee, r.organization, r.kind, r.correctedKind, r.corrects, occurred, recorded,
      Decimal(r.adjustmentSeconds), r.adjustmentReason, r.clientRequestId, r.previousHash,
      r.terminal, captured, synced, Decimal(r.deviceSequence), Truth(r.queuedOffline) ]
  }

  function V2Parts(r: Record, occurred: string, recorded: string): seq<string> {
    [ "v2", r.employee, r.organization, r.kind, r.correctedKind, r.corrects, occurred, recorded,
      Decimal(r.adjustmentSeconds), r.adjustmentReason, r.clientRequestId, r.previousHash ]
  }

  function VoidParts(r: Record, occurred: string): seq<string> {
    [ r.employee, r.organization, "correction", "void", r.corrects, occurred, r.clientRequestId, r.previousHash ]
  }

  function ManualParts(host: Host, r: Record, occurred: string): seq<string> {
    [ r.employee, r.organization, r.kind, occurred, r.manualRequest,
      host.numeral(AfterLastDash(r.clientRequestId)), r.previousHash ]
  }

  function PlainParts(r: Record, occurred: string): seq<string> {
    [ r.employee, r.organization, r.kind, r.correctedKind, r.corrects, occurred, r.clientRequestId, r.previousHash ]
  }

  /** The part of `text` after its last dash; all of it when it has none. */
  function AfterLastDash(text: string): string {
    if text == "" || text[|text| - 1] == '-' then "" else AfterLastDash(text[..|text| - 1]) + [text[|text| - 1]]
  }

  /** Formats before "v2", told apart by the row's other columns. */
  function V1Parts(host: Host, r: Record, occurred: string): seq<string> {
    if r.source == "manual" && r.voidsTarget then VoidParts(r, occurred)
    else if r.source == "manual" && r.manualRequest != "" then ManualParts(host, r, occurred)
    else PlainParts(r, occurred)
  }

  ghost predicate V3Candidate(host: Host, r: Record, parts: seq<string>) {
    exists occurred, recorded, captured, synced ::
      && occurred in DateVariants(host, r.occurredAt) && recorded in DateVariants(host, r.recordedAt)
      && captured in DateVariants(host, r.deviceCapturedAt) && synced in DateVariants(host, r.clockSyncedAt)
      && parts == V3Parts(r, occurred, recorded, captured, synced)
  }

  ghost predicate V2Candidate(host: Host, r: Record, parts: seq<string>) {
    exists occurred, recorded ::
      && occurred in DateVariants(host, r.occurredAt) && recorded in DateVariants(host, r.recordedAt)
      && parts == V2Parts(r, occurred, recorded)
  }

  ghost predicate V1Candidate(host: Host, r: Record, parts: seq<string>) {
    exists occurred :: occurred in DateVariants(host, r.occurredAt) && parts == V1Parts(host, r, occurred)
  }

  ghost predicate Candidate(host: Host, r: Record, parts: seq<string>) {
    if r.integrityVersion == "v3" then V3Candidate(host, r, parts)
    else if r.integrityVersion == "v2" then V2Candidate(host, r, parts)
    else V1Candidate(host, r, parts)
  }

  /** Some way of writing the row's dates gives the hash the row carries. */
  ghost predicate HashMatches(host: Host, r: Record) {
    exists parts :: Candidate(host, r, parts) && host.sha(Join(parts)) == r.integrityHash
  }

  ghost predicate CoversV3(r: Record, candidates: seq<seq<string>>,
                           occurred: seq<string>, recorded: seq<string>, captured: seq<string>, synced: seq<string>) {
    forall o, d, c, s :: o in occurred && d in recorded && c in captured && s in synced
      ==> V3Parts(r, o, d, c, s) in candidates
  }

  ghost predicate OnlyCandidates(host: Host, r: Record, candidates: seq<seq<string>>) {
    forall k :: 0 <= k < |candidates| ==> Candidate(host, r, candidates[k])
  }

  method V3Candidates(host: Host, r: Record) returns (candidates: seq<seq<string>>)
    requires r.integrityVersion == "v3"
    ensures forall parts :: parts in candidates <==> V3Candidate(host, r, parts)
  {
    hide DateVariants, V3Parts, V3Candidate, Candidate;
    var occurred := DateVariants(host, r.occurredAt);
    var recorded := DateVariants(host, r.recordedAt);
    var captured := DateVariants(host, r.deviceCapturedAt);
    var synced := DateVariants(host, r.clockSyncedAt);
    candidates := [];
    for i := 0 to |occurred|
      invariant OnlyCandidates(host, r, candidates)
      invariant CoversV3(r, candidates, occurred[..i], recorded, captured, synced)
    {
      for j := 0 to |recorded|
        invariant OnlyCandidates(host, r, candidates)
        invariant CoversV3(r, candidates, occurred[..i], recorded, captured, synced)
        invariant CoversV3(r, candidates, [occurred[i]], recorded[..j], captured, synced)
      {
        for k := 0 to |captured|
          invariant OnlyCandidates(host, r, candidates)
          invariant CoversV3(r, candidates, occurred[..i], recorded, captured, synced)
          invariant CoversV3(r, candidates, [occurred[i]], recorded[..j], captured, synced)
          invariant CoversV3(r, candidates, [occurred[i]], [recorded[j]], captured[..k], synced)
        {
          for l := 0 to |synced|
            invariant OnlyCandidates(host, r, candidates)
            invariant CoversV3(r, candidates, occurred[..i], recorded, captured, synced)
            invariant CoversV3(r, candidates, [occurred[i]], recorded[..j], captured, synced)
            invariant CoversV3(r, candidates, [occurred[i]], [recorded[j]], captured[..k], synced)
            invariant CoversV3(r, candidates, [occurred[i]], [recorded[j]], [captured[k]], synced[..l])
          {
            candidates := candidates + [V3Parts(r, occurred[i], recorded[j], captured[k], synced[l])];
            AreV3Parts(host, r, occurred[i], recorded[j], captured[k], synced[l]);
          }
        }
      }
    }
    assert occurred[..|occurred|] == occurred;
    CoveredV3(host, r, candidates);
  }

  lemma {:induction false} AreV3Parts(host: Host, r: Record, occurred: string, recorded: string, captured: string,
                                      synced: string)
    requires r.integrityVersion == "v3"
    requires occurred in DateVariants(host, r.occurredAt) && recorded in DateVariants(host, r.recordedAt)
    requires captured in DateVariants(host, r.deviceCapturedAt) && synced in DateVariants(host, r.clockSyncedAt)
    ensures Candidate(host, r, V3Parts(r, occurred, recorded, captured, synced))
  {
    hide DateVariants, V3Parts;
  }

  lemma {:induction false} CoveredV3(host: Host, r: Record, candidates: seq<seq<string>>)
    requires r.integrityVersion == "v3" && OnlyCandidates(host, r, candidates)
    requires CoversV3(r, candidates, DateVariants(host, r.occurredAt), DateVariants(host, r.recordedAt),
                      DateVariants(host, r.deviceCapturedAt), DateVariants(host, r.clockSyncedAt))
    ensures forall parts :: parts in candidates <==> V3Candidate(host, r, parts)
  {
    hide DateVariants, V3Parts;
  }

  ghost predicate CoversV2(r: Record, candidates: seq<seq<string>>, occurred: seq<string>, recorded: seq<string>) {
    forall o, d :: o in occurred && d in recorded ==> V2Parts(r, o, d) in candidates
  }

  method V2Candidates(host: Host, r: Record) returns (candidates: seq<seq<string>>)
    requires r.integrityVersion == "v2"
    ensures forall parts :: parts in candidates <==> V2Candidate(host, r, parts)
  {
    var occurred := DateVariants(host, r.occurredAt);
    var recorded := DateVariants(host, r.recordedAt);
    candidates := [];
    for i := 0 to |occurred|
      invariant OnlyCandidates(host, r, candidates)
      invariant CoversV2(r, candidates, occurred[..i], recorded)
    {
      for j := 0 to |recorded|
        invariant OnlyCandidates(host, r, candidates)
        invariant CoversV2(r, candidates, occurred[..i], recorded)
        invariant CoversV2(r, candidates, [occurred[i]], recorded[..j])
      {
        candidates := candidates + [V2Parts(r, occurred[i], recorded[j])];
      }
    }
    assert occurred[..|occurred|] == occurred;
  }

  method V1Candidates(host: Host, r: Record) returns (candidates: seq<seq<string>>)
    requires r.integrityVersion != "v3" && r.integrityVersion != "v2"
    ensures forall parts :: parts in candidates <==> V1Candidate(host, r, parts)
  {
    var occurred := DateVariants(host, r.occurredAt);
    candidates := [];
    for i := 0 to |occurred|
      invariant |candidates| == i
      invariant forall k :: 0 <= k < i ==> candidates[k] == V1Parts(host, r, occurred[k])
    {
      candidates := candidates + [V1Parts(host, r, occurred[i])];
    }
  }

  /** `eventHashMatches`: the candidate lists, then whether one of them hashes to the row's hash. */
  method EventHashMatches(host: Host, r: Record) returns (matches: bool)
    ensures matches <==> HashMatches(host, r)
  {
    var candidates;
    if r.integrityVersion == "v3" {
      candidates := V3Candidates(host, r);
    } else if r.integrityVersion == "v2" {
      candidates := V2Candidates(host, r);
    } else {
      candidates := V1Candidates(host, r);
    }
    assert forall parts :: parts in candidates <==> Candidate(host, r, parts);
    matches := exists parts | parts in candidates :: host.sha(Join(parts)) == r.integrityHash;
  }

  // ---------------------------------------------------------- the export's check

  datatype ChainError =
    | MissingHash(id: string)
    | DuplicateHash(id: string)
    | HashMismatch(id: string)
    | MissingPredecessor(id: string)
    | InvalidRootCount(count: nat)
    | InvalidTipCount(count: nat)

  datatype Verification = Verification(
    valid: bool, total: nat, verified: nat, roots: nat, tips: nat, errors: seq<ChainError>)

  /** Some row names `hash` as its predecessor. */
  ghost predicate Referenced(records: seq<Record>, hash: string) {
    hash != "" && exists j :: 0 <= j < |records| && records[j].previousHash == hash
  }

  ghost predicate HasHash(records: seq<Record>, hash: string) {
    hash != "" && exists j :: 0 <= j < |records| && records[j].integrityHash == hash
  }

  ghost function PresenceErrors(earlier: seq<Record>, r: Record): seq<ChainError> {
    if r.integrityHash == "" then [MissingHash(r.id)]
    else if HasHash(earlier, r.integrityHash) then [DuplicateHash(r.id)]
    else []
  }

  ghost function MatchErrors(host: Host, r: Record): seq<ChainError> {
    if HashMatches(host, r) then [] else [HashMismatch(r.id)]
  }

  ghost function HashErrors(host: Host, records: seq<Record>): seq<ChainError> {
    if records == [] then []
    else
      var last := |records| - 1;
      HashErrors(host, records[..last]) + PresenceErrors(records[..last], records[last])
          + MatchErrors(host, records[last])
  }

  ghost function PredecessorErrors(all: seq<Record>, records: seq<Record>): seq<ChainError> {
    if records == [] then []
    else
      var last := |records| - 1;
      PredecessorErrors(all, records[..last])
      + (if records[last].previousHash != "" && !HasHash(all, records[last].previousHash)
         then [MissingPredecessor(records[last].id)] else [])
  }

  ghost function Verified(host: Host, records: seq<Record>): nat {
    if records == [] then 0
    else Verified(host, records[..|records| - 1]) + (if HashMatches(host, records[|records| - 1]) then 1 else 0)
  }

  ghost function Roots(records: seq<Record>): nat {
    if records == [] then 0
    else Roots(records[..|records| - 1]) + (if records[|records| - 1].previousHash == "" then 1 else 0)
  }

  /** The rows of `records` that no row of `all` names as predecessor. */
  ghost function Tips(all: seq<Record>, records: seq<Record>): nat {
    if records == [] then 0
    else
      Tips(all, records[..|records| - 1])
      + (if Referenced(all, records[|records| - 1].integrityHash) then 0 else 1)
  }

  ghost function ChainErrors(host: Host, records: seq<Record>): seq<ChainError> {
    HashErrors(host, records) + PredecessorErrors(records, records)
    + (if records != [] && Roots(records) != 1 then [InvalidRootCount(Roots(records))] else [])
    + (if records != [] && Tips(records, records) != 1 then [InvalidTipCount(Tips(records, records))] else [])
  }

  /** The verification part of `workEventExportData`. */
  method VerifyChain(host: Host, records: seq<Record>) returns (report: Verification)
    ensures report.errors == ChainErrors(host, records)
    ensures report.valid <==> report.errors == []
    ensures report.total == |records| && report.verified == Verified(host, records)
    ensures report.roots == Roots(records) && report.tips == Tips(records, records)
  {
    hide HashMatches, HasHash, Referenced, HashErrors, PredecessorErrors, Verified, Roots, Tips;
    NothingYet(host, records);
    var hashes: map<string, string> := map[];
    var referenced: set<string> := {};
    var errors: seq<ChainError> := [];
    var verified := 0;
    for i := 0 to |records|
      invariant forall hash :: hash in hashes <==> HasHash(records[..i], hash)
      invariant forall hash :: hash in referenced <==> Referenced(records[..i], hash)
      invariant errors == HashErrors(host, records[..i])
      invariant verified == Verified(host, records[..i])
    {
      var record := records[i];
      ghost var before := errors;
      if record.integrityHash == "" || record.integrityHash in hashes {
        errors := errors + [if record.integrityHash != "" then DuplicateHash(record.id) else MissingHash(record.id)];
      } else {
        hashes := hashes[record.integrityHash := record.id];
      }
      if record.previousHash != "" {
        referenced := referenced + {record.previousHash};
      }
      var matches := EventHashMatches(host, record);
      if matches {
        verified := verified + 1;
      } else {
        errors := errors + [HashMismatch(record.id)];
      }
      assert errors == before + PresenceErrors(records[..i], record) + MatchErrors(host, record);
      HasHashOfOneMore(records, i);
      OneMoreRow(host, records, i);
    }
    assert records[..|records|] == records;
    ghost var hashErrors := errors;
    for i := 0 to |records|
      invariant errors == hashErrors + PredecessorErrors(records, records[..i])
    {
      OneMoreRow(host, records, i);
      if records[i].previousHash != "" && records[i].previousHash !in hashes {
        errors := errors + [MissingPredecessor(records[i].id)];
      }
    }
    var tips, roots := 0, 0;
    for i := 0 to |records|
      invariant tips == Tips(records, records[..i]) && roots == Roots(records[..i])
    {
      OneMoreRow(host, records, i);
      if records[i].integrityHash !in referenced { tips := tips + 1; }
      if records[i].previousHash == "" { roots := roots + 1; }
    }
    if |records| > 0 && roots != 1 {
      errors := errors + [InvalidRootCount(roots)];
    }
    if |records| > 0 && tips != 1 {
      errors := errors + [InvalidTipCount(tips)];
    }
    report := Verification(errors == [], |records|, verified, roots, tips, errors);
  }

  // The specification functions on one row more.
  lemma {:induction false} OneMoreRow(host: Host, records: seq<Record>, i: nat)
    requires i < |records|
    ensures HashErrors(host, records[..i + 1]) == HashErrors(host, records[..i])
        + PresenceErrors(records[..i], records[i])
        + MatchErrors(host, records[i])
    ensures PredecessorErrors(records, records[..i + 1]) == PredecessorErrors(records, records[..i])
      + if records[i].previousHash != "" && !HasHash(records, records[i].previousHash)
        then [MissingPredecessor(records[i].id)] else []
    ensures Verified(host, records[..i + 1])
      == Verified(host, records[..i]) + if HashMatches(host, records[i]) then 1 else 0
    ensures Roots(records[..i + 1]) == Roots(records[..i]) + if records[i].previousHash == "" then 1 else 0
    ensures Tips(records, records[..i + 1])
      == Tips(records, records[..i]) + if Referenced(records, records[i].integrityHash) then 0 else 1
  {
    hide HashMatches, HasHash, Referenced, PresenceErrors, MatchErrors;
    assert records[..i + 1][..i] == records[..i];
  }

  lemma {:induction false} NothingYet(host: Host, all: seq<Record>)
    ensures forall hash :: !HasHash([], hash) && !Referenced([], hash)
    ensures HashErrors(host, []) == [] && PredecessorErrors(all, []) == []
    ensures Verified(host, []) == 0 && Roots([]) == 0 && Tips(all, []) == 0
  {
  }

  lemma {:induction false} HasHashOfOneMore(records: seq<Record>, i: nat)
    requires i < |records|
    ensures forall hash ::
      HasHash(records[..i + 1], hash) <==>
        HasHash(records[..i], hash) || (hash != "" && hash == records[i].integrityHash)
    ensures forall hash ::
      Referenced(records[..i + 1], hash) <==>
        Referenced(records[..i], hash) || (hash != "" && hash == records[i].previousHash)
  {
    var more := records[..i + 1];
    assert more[..i] == records[..i] && more[i] == records[i];
    forall hash | HasHash(records[..i], hash) ensures HasHash(more, hash) {
      var j :| 0 <= j < i && records[..i][j].integrityHash == hash;
      assert more[j].integrityHash == hash;
    }
    forall hash | Referenced(records[..i], hash) ensures Referenced(more, hash) {
      var j :| 0 <= j < i && records[..i][j].previousHash == hash;
      assert more[j].previousHash == hash;
    }
  }

  // ----------------------------------------------------- what a valid check means

  ghost predicate Sealed(host: Host, records: seq<Record>) {
    forall i :: 0 <= i < |records| ==> HashMatches(host, records[i])
  }

  ghost predicate DistinctHashes(records: seq<Record>) {
    && (forall i :: 0 <= i < |records| ==> records[i].integrityHash != "")
    && (forall i, j :: 0 <= i < j < |records| ==> records[i].integrityHash != records[j].integrityHash)
  }

  /** `order` lists every index of `records` exactly once, and along it each
      row names the one before it as its predecessor, the first naming none. */
  ghost predicate LinearOrder(records: seq<Record>, order: seq<nat>) {
    && |order| == |records|
    && (forall k :: 0 <= k < |order| ==> order[k] < |records|)
    && (forall k, l :: 0 <= k < l < |order| ==> order[k] != order[l])
    && Linked(records, order)
  }

  ghost predicate Linked(records: seq<Record>, order: seq<nat>)
    requires forall k :: 0 <= k < |order| ==> order[k] < |records|
  {
    && (order != [] ==> records[order[0]].previousHash == "")
    && (forall k :: 1 <= k < |order| ==> records[order[k]].previousHash == records[order[k - 1]].integrityHash)
  }

  ghost predicate OneChain(host: Host, records: seq<Record>) {
    Sealed(host, records) && DistinctHashes(records) && exists order :: LinearOrder(records, order)
  }

  // The check passes exactly when these five facts hold.
  ghost predicate Checks(host: Host, records: seq<Record>) {
    && Sealed(host, records) && DistinctHashes(records)
    && (forall i :: 0 <= i < |records| && records[i].previousHash != "" ==> HasHash(records, records[i].previousHash))
    && (records != [] ==> exists root :: OnlyRoot(records, root))
    && (records != [] ==> exists tip :: OnlyTip(records, records, tip))
  }

  ghost predicate OnlyRoot(records: seq<Record>, root: nat) {
    root < |records| && forall i :: 0 <= i < |records| ==> (records[i].previousHash == "" <==> i == root)
  }

  ghost predicate OnlyTip(all: seq<Record>, records: seq<Record>, tip: nat) {
    tip < |records| && forall i :: 0 <= i < |records| ==> (!Referenced(all, records[i].integrityHash) <==> i == tip)
  }

  lemma {:induction false} DistinctOfOneMore(records: seq<Record>)
    requires records != []
    ensures var last := |records| - 1;
      DistinctHashes(records) <==>
        && DistinctHashes(records[..last])
        && records[last].integrityHash != "" && !HasHash(records[..last], records[last].integrityHash)
  {
    var last := |records| - 1;
    var earlier := records[..last];
    assert forall i :: 0 <= i < last ==> earlier[i] == records[i];
  }

  lemma {:induction false} SealedOfOneMore(host: Host, records: seq<Record>)
    requires records != []
    ensures Sealed(host, records)
      <==> Sealed(host, records[..|records| - 1]) && HashMatches(host, records[|records| - 1])
  {
    hide HashMatches;
    assert forall i :: 0 <= i < |records| - 1 ==> records[..|records| - 1][i] == records[i];
  }

  lemma {:induction false} NoHashErrors(host: Host, records: seq<Record>)
    ensures HashErrors(host, records) == [] <==> Sealed(host, records) && DistinctHashes(records)
  {
    if records != [] {
      hide HashMatches, DistinctHashes, HasHash, Sealed;
      NoHashErrors(host, records[..|records| - 1]);
      DistinctOfOneMore(records);
      SealedOfOneMore(host, records);
    }
  }

  lemma {:induction false} NoPredecessorErrors(all: seq<Record>, records: seq<Record>)
    ensures PredecessorErrors(all, records) == [] <==>
      forall i :: 0 <= i < |records| && records[i].previousHash != "" ==> HasHash(all, records[i].previousHash)
  {
    if records != [] {
      var last := |records| - 1;
      NoPredecessorErrors(all, records[..last]);
      assert forall i :: 0 <= i < last ==> records[..last][i] == records[i];
    }
  }

  lemma {:induction false} RootCount(records: seq<Record>)
    ensures Roots(records) == 0 <==> forall i :: 0 <= i < |records| ==> records[i].previousHash != ""
    ensures Roots(records) == 1 <==> exists root :: OnlyRoot(records, root)
  {
    if records != [] {
      var last := |records| - 1;
      var earlier := records[..last];
      RootCount(earlier);
      assert forall i :: 0 <= i < last ==> earlier[i] == records[i];
      if exists root :: OnlyRoot(records, root) {
        var root: nat :| OnlyRoot(records, root);
        if root < last { assert OnlyRoot(earlier, root); }
      }
      if Roots(records) == 1 {
        if records[last].previousHash == "" {
          assert OnlyRoot(records, last);
        } else {
          var root: nat :| OnlyRoot(earlier, root);
          assert OnlyRoot(records, root);
        }
      }
    }
  }

  lemma {:induction false} TipCount(all: seq<Record>, records: seq<Record>)
    ensures Tips(all, records) == 0 <==> forall i :: 0 <= i < |records| ==> Referenced(all, records[i].integrityHash)
    ensures Tips(all, records) == 1 <==> exists tip :: OnlyTip(all, records, tip)
  {
    hide Referenced;
    if records != [] {
      var last := |records| - 1;
      var earlier := records[..last];
      TipCount(all, earlier);
      assert forall i :: 0 <= i < last ==> earlier[i] == records[i];
      if exists tip :: OnlyTip(all, records, tip) {
        var tip: nat :| OnlyTip(all, records, tip);
        if tip < last { assert OnlyTip(all, earlier, tip); }
      }
      if Tips(all, records) == 1 {
        if !Referenced(all, records[last].integrityHash) {
          assert OnlyTip(all, records, last);
        } else {
          var tip: nat :| OnlyTip(all, earlier, tip);
          assert OnlyTip(all, records, tip);
        }
      }
    }
  }

  lemma {:induction false} NoErrorsMeansChecks(host: Host, records: seq<Record>)
    ensures ChainErrors(host, records) == [] <==> Checks(host, records)
  {
    NoHashErrors(host, records);
    NoPredecessorErrors(records, records);
    RootCount(records);
    TipCount(records, records);
  }

  lemma {:induction false} CandidateHoldsPredecessor(host: Host, r: Record, parts: seq<string>)
    requires Candidate(host, r, parts)
    ensures r.previousHash in parts
  {
    hide DateVariants, AfterLastDash, Decimal, Truth;
    if r.integrityVersion == "v3" {
      var o, d, c, s :| parts == V3Parts(r, o, d, c, s);
      assert parts[11] == r.previousHash;
    } else if r.integrityVersion == "v2" {
      var o, d :| parts == V2Parts(r, o, d);
      assert parts[11] == r.previousHash;
    } else {
      var o :| parts == V1Parts(host, r, o);
      assert parts[|parts| - 1] == r.previousHash;
    }
  }

  /** The predecessor a row names is hashed into it. */
  lemma {:induction false} PredecessorRanksBelow(host: Host, rank: string -> nat, r: Record)
    requires WellFounded(host, rank) && HashMatches(host, r) && r.previousHash != ""
    ensures rank(r.previousHash) < rank(r.integrityHash)
  {
    hide Candidate, Join;
    var parts :| Candidate(host, r, parts) && host.sha(Join(parts)) == r.integrityHash;
    CandidateHoldsPredecessor(host, r, parts);
  }

  ghost function IndexOf(records: seq<Record>, hash: string): (i: nat)
    requires HasHash(records, hash)
    ensures i < |records| && records[i].integrityHash == hash
  {
    var i :| 0 <= i < |records| && records[i].integrityHash == hash; i
  }

  /** From the row at `at` back to the root, listed root first. */
  ghost function Walk(host: Host, rank: string -> nat, records: seq<Record>, at: nat): seq<nat>
    requires WellFounded(host, rank) && Checks(host, records) && at < |records|
    decreases rank(records[at].integrityHash)
  {
    if records[at].previousHash == "" then [at]
    else
      PredecessorRanksBelow(host, rank, records[at]);
      Walk(host, rank, records, IndexOf(records, records[at].previousHash)) + [at]
  }

  lemma {:induction false} WalkIsLinked(host: Host, rank: string -> nat, records: seq<Record>, at: nat)
    requires WellFounded(host, rank) && Checks(host, records) && at < |records|
    ensures var walk := Walk(host, rank, records, at);
      && walk != [] && walk[|walk| - 1] == at
      && (forall k :: 0 <= k < |walk| ==> walk[k] < |records|)
      && Linked(records, walk)
      && (forall k :: 0 <= k < |walk| ==> rank(records[walk[k]].integrityHash) <= rank(records[at].integrityHash))
      && (forall k, l :: 0 <= k < l < |walk| ==> walk[k] != walk[l])
    decreases rank(records[at].integrityHash)
  {
    hide HashMatches, WellFounded, DistinctHashes, OnlyRoot, OnlyTip;
    if records[at].previousHash != "" {
      PredecessorRanksBelow(host, rank, records[at]);
      WalkIsLinked(host, rank, records, IndexOf(records, records[at].previousHash));
    }
  }

  ghost function TopRank(rank: string -> nat, records: seq<Record>): (top: nat)
    ensures forall i :: 0 <= i < |records| ==> rank(records[i].integrityHash) <= top
  {
    if records == [] then 0
    else
      var top := TopRank(rank, records[1..]);
      assert forall i :: 1 <= i < |records| ==> records[i] == records[1..][i - 1];
      if top < rank(records[0].integrityHash) then rank(records[0].integrityHash) else top
  }

  /** No row is off the walk back from the tip: it would be referenced, and by
      descending rank the row that references it is on the walk. */
  lemma {:induction false} WalkCovers(host: Host, rank: string -> nat, records: seq<Record>, tip: nat, at: nat)
    requires WellFounded(host, rank) && Checks(host, records)
    requires OnlyTip(records, records, tip) && at < |records|
    ensures at in Walk(host, rank, records, tip)
    decreases TopRank(rank, records) - rank(records[at].integrityHash)
  {
    WalkIsLinked(host, rank, records, tip);
    if at != tip {
      assert Referenced(records, records[at].integrityHash);
      var next: nat :| next < |records| && records[next].previousHash == records[at].integrityHash;
      PredecessorRanksBelow(host, rank, records[next]);
      WalkCovers(host, rank, records, tip, next);
      var walk := Walk(host, rank, records, tip);
      var k :| 0 <= k < |walk| && walk[k] == next;
      assert records[walk[k - 1]].integrityHash == records[at].integrityHash;
      assert walk[k - 1] == at;
    }
  }

  ghost predicate DistinctUnder(order: seq<nat>, n: nat) {
    && (forall k :: 0 <= k < |order| ==> order[k] < n)
    && (forall k, l :: 0 <= k < l < |order| ==> order[k] != order[l])
  }

  lemma {:induction false} WithoutTop(order: seq<nat>, n: nat, k: nat) returns (rest: seq<nat>)
    requires DistinctUnder(order, n) && n > 0 && k < |order| && order[k] == n - 1
    ensures |rest| == |order| - 1 && DistinctUnder(rest, n - 1)
    ensures forall i: nat :: i in order <==> i in rest || i == n - 1
  {
    rest := order[..k] + order[k + 1..];
    assert forall j :: 0 <= j < |rest| ==> rest[j] == order[if j < k then j else j + 1];
    assert order == order[..k] + [n - 1] + order[k + 1..];
  }

  /** Distinct numbers below n: at most n of them, and with n of them none is missing. */
  lemma {:induction false} DistinctBelow(order: seq<nat>, n: nat)
    requires DistinctUnder(order, n)
    ensures |order| <= n
    ensures |order| == n <==> forall i: nat :: i < n ==> i in order
    decreases n
  {
    if order == [] {
      var missing: nat := 0;
      assert missing !in order;
    } else {
      assert order[0] < n;
      var top: nat := n - 1;
      if top in order {
        var k: nat :| k < |order| && order[k] == top;
        var rest := WithoutTop(order, n, k);
        DistinctBelow(rest, n - 1);
      } else {
        DistinctBelow(order, n - 1);
      }
    }
  }

  /** The export's counts suffice: "valid" means one chain through every row,
      without forks, gaps or detached cycles; and such a chain is reported
      valid. */
  lemma {:induction false} ValidExactlyWhenOneChain(host: Host, rank: string -> nat, records: seq<Record>)
    requires WellFounded(host, rank)
    ensures ChainErrors(host, records) == [] <==> OneChain(host, records)
  {
    NoErrorsMeansChecks(host, records);
    if Checks(host, records) {
      ChecksGiveAnOrder(host, rank, records);
    }
    if OneChain(host, records) {
      var order :| LinearOrder(records, order);
      OrderGivesChecks(host, records, order);
    }
  }

  lemma {:induction false} ChecksGiveAnOrder(host: Host, rank: string -> nat, records: seq<Record>)
    requires WellFounded(host, rank) && Checks(host, records)
    ensures exists order :: LinearOrder(records, order)
  {
    if records == [] {
      assert LinearOrder(records, []);
    } else {
      var tip: nat :| OnlyTip(records, records, tip);
      var walk := Walk(host, rank, records, tip);
      WalkIsLinked(host, rank, records, tip);
      forall i: nat | 0 <= i < |records| ensures i in walk { WalkCovers(host, rank, records, tip, i); }
      DistinctBelow(walk, |records|);
      assert LinearOrder(records, walk);
    }
  }

  // The neighbours of the k-th row of a linear order.
  lemma {:induction false} NeighboursInOrder(records: seq<Record>, order: seq<nat>, k: nat)
    requires DistinctHashes(records) && LinearOrder(records, order) && k < |order|
    ensures records[order[k]].previousHash == "" <==> k == 0
    ensures records[order[k]].previousHash != "" ==> HasHash(records, records[order[k]].previousHash)
    ensures k + 1 < |order| ==> Referenced(records, records[order[k]].integrityHash)
  {
    if k > 0 { assert records[order[k]].previousHash == records[order[k - 1]].integrityHash; }
    if k + 1 < |order| { assert records[order[k + 1]].previousHash == records[order[k]].integrityHash; }
  }

  lemma {:induction false} LastIsNotReferenced(records: seq<Record>, order: seq<nat>)
    requires DistinctHashes(records) && LinearOrder(records, order) && order != []
    ensures !Referenced(records, records[order[|order| - 1]].integrityHash)
  {
    var n := |records|;
    DistinctBelow(order, n);
    forall j: nat | j < n ensures records[j].previousHash != records[order[n - 1]].integrityHash {
      assert j in order;
      var l :| 0 <= l < n && order[l] == j;
      if l > 0 {
        assert records[j].previousHash == records[order[l - 1]].integrityHash;
        assert order[l - 1] != order[n - 1];
      }
    }
  }

  lemma {:induction false} OrderGivesChecks(host: Host, records: seq<Record>, order: seq<nat>)
    requires Sealed(host, records) && DistinctHashes(records) && LinearOrder(records, order)
    ensures Checks(host, records)
  {
    hide Sealed, DistinctHashes, HasHash, Referenced;
    DistinctBelow(order, |records|);
    if records != [] {
      hide Linked;
      var n := |records|;
      LastIsNotReferenced(records, order);
      forall i: nat | i < n
        ensures records[i].previousHash == "" <==> i == order[0]
        ensures records[i].previousHash != "" ==> HasHash(records, records[i].previousHash)
        ensures i != order[n - 1] ==> Referenced(records, records[i].integrityHash)
      {
        assert i in order;
        var k: nat :| k < n && order[k] == i;
        NeighboursInOrder(records, order, k);
      }
      assert OnlyRoot(records, order[0]);
      assert OnlyTip(records, records, order[n - 1]);
    }
  }
}
