/** What the export says of a row that was changed after it was written. */
module AlteredRows {
  import opened Bytes
  import opened HashChain
  import opened ChainWriters
  import Texts

  const BAR := '|'

  /** No two texts have the same digest: the other half of the usual idealisation of a hash. */
  ghost predicate CollisionFree(host: Host) {
    forall a, b :: host.sha(a) == host.sha(b) ==> a == b
  }

  /** The texts the host makes hold no bar, the character that separates hashed texts. */
  ghost predicate WritesNoBar(host: Host) {
    && (forall text :: BAR !in host.sha(text) && BAR !in host.numeral(text))
    && (forall t :: BAR !in host.iso(t) && BAR !in host.stored(t))
    && (forall text :: host.canonical(text).Some? ==> BAR !in host.canonical(text).value)
  }

  predicate PlainOwner(owner: Owner) { BAR !in owner.employee && BAR !in owner.organization }

  predicate PlainEntry(entry: Entry) {
    match entry
    case Clocked(_, kind, correctedKind, corrects, _, _, _, reason, requestId) =>
      BAR !in kind && BAR !in correctedKind && BAR !in corrects && BAR !in reason && BAR !in requestId
    case Manual(kind, _, _, request, _) => BAR !in kind && BAR !in request
    case Voiding(target, targetOccurredAt, _, request, _) =>
      BAR !in target && BAR !in targetOccurredAt && BAR !in request
    case AtTerminal(kind, _, _, _, reason, requestId, terminal, _, _, _, _) =>
      BAR !in kind && BAR !in reason && BAR !in requestId && BAR !in terminal
  }

  predicate PlainRow(r: Record) {
    && BAR !in r.employee && BAR !in r.organization && BAR !in r.kind && BAR !in r.correctedKind && BAR !in r.corrects
    && BAR !in r.occurredAt && BAR !in r.recordedAt && BAR !in r.adjustmentReason && BAR !in r.clientRequestId
    && BAR !in r.previousHash && BAR !in r.terminal && BAR !in r.deviceCapturedAt && BAR !in r.clockSyncedAt
    && BAR !in r.manualRequest
  }

  /** The stored date is the hashed one, or another spelling of it. */
  predicate Spells(host: Host, stored: string, hashed: string) {
    stored == hashed || host.canonical(stored) == Some(hashed)
  }

  /** A row of the formats before "v2" is read as a void, as a manual event, or plainly. */
  predicate ReadAsVoid(r: Record) { r.source == "manual" && r.voidsTarget }

  predicate ReadAsManual(r: Record) { r.source == "manual" && !r.voidsTarget && r.manualRequest != "" }

  /** The row still says what was hashed into it, field by field. */
  predicate Keeps(host: Host, owner: Owner, entry: Entry, previousHash: string, r: Record) {
    && r.employee == owner.employee && r.organization == owner.organization && r.previousHash == previousHash
    && match entry
       case Clocked(_, kind, correctedKind, corrects, occurredAt, recordedAt, seconds, reason, requestId) =>
         && r.integrityVersion == "v2"
         && r.kind == kind && r.correctedKind == correctedKind && r.corrects == corrects
         && Spells(host, r.occurredAt, host.iso(occurredAt)) && Spells(host, r.recordedAt, host.iso(recordedAt))
         && r.adjustmentSeconds == seconds && r.adjustmentReason == reason && r.clientRequestId == requestId
       case Manual(kind, occurredAt, _, request, index) =>
         && r.integrityVersion !in {"v2", "v3"} && ReadAsManual(r)
         && r.kind == kind && Spells(host, r.occurredAt, host.stored(occurredAt)) && r.manualRequest == request
         && host.numeral(AfterLastDash(r.clientRequestId)) == Decimal(index)
       case Voiding(target, targetOccurredAt, _, request, index) =>
         && r.integrityVersion !in {"v2", "v3"}
         && (ReadAsVoid(r) || (!ReadAsManual(r) && r.kind == "correction" && r.correctedKind == "void"))
         && r.corrects == target && Spells(host, r.occurredAt, targetOccurredAt)
         && r.clientRequestId == VoidId(request, index)
       case AtTerminal(kind, occurredAt, recordedAt, seconds, reason, requestId, terminal, captured, synced, sequence,
                       offline) =>
         && r.integrityVersion == "v3"
         && r.kind == kind && r.correctedKind == "" && r.corrects == ""
         && Spells(host, r.occurredAt, host.iso(occurredAt)) && Spells(host, r.recordedAt, host.iso(recordedAt))
         && r.adjustmentSeconds == seconds && r.adjustmentReason == reason && r.clientRequestId == requestId
         && r.terminal == terminal && Spells(host, r.deviceCapturedAt, host.iso(captured))
         && Spells(host, r.clockSyncedAt, host.iso(synced)) && r.deviceSequence == sequence
         && r.queuedOffline == offline
  }

  // ------------------------------------------------------------------- numerals

  lemma {:induction false} NumeralDetermines(a: nat, b: nat)
    requires Numeral(a) == Numeral(b)
    ensures a == b
  {
    NumeralIsNumber(a);
    NumeralIsNumber(b);
  }

  function NumberOf(text: string): int {
    if text == "" then 0 else 10 * NumberOf(text[..|text| - 1]) + (text[|text| - 1] as int - '0' as int)
  }

  lemma {:induction false} NumeralIsNumber(n: nat)
    ensures NumberOf(Numeral(n)) == n && Numeral(n) != ""
  {
    if n >= 10 {
      NumeralIsNumber(n / 10);
      assert Numeral(n)[..|Numeral(n)| - 1] == Numeral(n / 10);
    } else {
      assert Numeral(n)[..0] == "";
    }
  }

  lemma {:induction false} DecimalDetermines(a: int, b: int)
    requires Decimal(a) == Decimal(b)
    ensures a == b
  {
    hide Numeral;
    if a < 0 { MinusFirst(-a); } else { NumeralHasNoDash(a); NumeralIsNumber(a); }
    if b < 0 { MinusFirst(-b); } else { NumeralHasNoDash(b); NumeralIsNumber(b); }
    if a < 0 { NumeralDetermines(-a, -b); } else { NumeralDetermines(a, b); }
  }

  lemma {:induction false} MinusFirst(n: nat)
    ensures ("-" + Numeral(n))[0] == '-' && ("-" + Numeral(n))[1..] == Numeral(n)
  {
  }

  lemma {:induction false} NoBarInDecimal(n: int)
    ensures BAR !in Decimal(n)
  {
    hide Numeral;
    NumeralHasNoDash(if n < 0 then -n else n);
    assert BAR !in DIGITS;
  }

  // ------------------------------------------------------- what a hash determines

  lemma {:induction false} NoBarInVariants(host: Host, text: string, v: string)
    requires WritesNoBar(host) && BAR !in text && v in DateVariants(host, text)
    ensures BAR !in v
  {
  }

  lemma {:induction false} VariantSpells(host: Host, text: string, v: string)
    ensures v in DateVariants(host, text) <==> Spells(host, text, v)
  {
  }

  lemma {:induction false} PlainCandidate(host: Host, r: Record, parts: seq<string>)
    requires WritesNoBar(host) && PlainRow(r) && Candidate(host, r, parts)
    ensures parts != [] && Texts.Plain(BAR, parts)
  {
    hide DateVariants, AfterLastDash, Decimal;
    NoBarInDecimal(r.adjustmentSeconds);
    NoBarInDecimal(r.deviceSequence);
    if r.integrityVersion == "v3" {
      var o, d, c, s :| o in DateVariants(host, r.occurredAt) && d in DateVariants(host, r.recordedAt)
        && c in DateVariants(host, r.deviceCapturedAt) && s in DateVariants(host, r.clockSyncedAt)
        && parts == V3Parts(r, o, d, c, s);
      NoBarInVariants(host, r.occurredAt, o);
      NoBarInVariants(host, r.recordedAt, d);
      NoBarInVariants(host, r.deviceCapturedAt, c);
      NoBarInVariants(host, r.clockSyncedAt, s);
    } else if r.integrityVersion == "v2" {
      var o, d :| o in DateVariants(host, r.occurredAt) && d in DateVariants(host, r.recordedAt)
        && parts == V2Parts(r, o, d);
      NoBarInVariants(host, r.occurredAt, o);
      NoBarInVariants(host, r.recordedAt, d);
    } else {
      var o :| o in DateVariants(host, r.occurredAt) && parts == V1Parts(host, r, o);
      NoBarInVariants(host, r.occurredAt, o);
    }
  }

  lemma {:induction false} PlainHashed(host: Host, owner: Owner, entry: Entry, previousHash: string)
    requires WritesNoBar(host) && PlainOwner(owner) && PlainEntry(entry) && BAR !in previousHash
    ensures var parts := HashedParts(host, owner, entry, previousHash); parts != [] && Texts.Plain(BAR, parts)
  {
    hide Decimal;
    match entry
    case Clocked(_, _, _, _, _, _, seconds, _, _) => NoBarInDecimal(seconds);
    case Manual(_, _, _, _, index) => NoBarInDecimal(index);
    case Voiding(_, _, _, request, index) => NoBarInDecimal(index);
    case AtTerminal(_, _, _, seconds, _, _, _, _, _, sequence, _) =>
      NoBarInDecimal(seconds);
      NoBarInDecimal(sequence);
  }

  // A candidate of the row is the list that was hashed exactly if the row keeps it.
  lemma {:induction false} KeepsIsCandidate(host: Host, owner: Owner, entry: Entry, previousHash: string, r: Record)
    requires WellFormed(entry)
    ensures Candidate(host, r, HashedParts(host, owner, entry, previousHash))
      <==> Keeps(host, owner, entry, previousHash, r)
  {
    hide Candidate, Keeps, HashedParts;
    match entry
    case Clocked(_, _, _, _, _, _, _, _, _) => KeepsClocked(host, owner, entry, previousHash, r);
    case Manual(_, _, _, _, _) => KeepsManual(host, owner, entry, previousHash, r);
    case Voiding(_, _, _, _, _) => KeepsVoiding(host, owner, entry, previousHash, r);
    case AtTerminal(_, _, _, _, _, _, _, _, _, _, _) => KeepsAtTerminal(host, owner, entry, previousHash, r);
  }

  lemma {:induction false} KeepsClocked(host: Host, owner: Owner, entry: Entry, previousHash: string, r: Record)
    requires entry.Clocked?
    ensures Candidate(host, r, HashedParts(host, owner, entry, previousHash))
      <==> Keeps(host, owner, entry, previousHash, r)
  {
    hide DateVariants, AfterLastDash, Decimal, Spells;
    var parts := HashedParts(host, owner, entry, previousHash);
    var o, d := host.iso(entry.occurredAt), host.iso(entry.recordedAt);
    VariantSpells(host, r.occurredAt, o);
    VariantSpells(host, r.recordedAt, d);
    if r.integrityVersion == "v2" {
      if V2Candidate(host, r, parts) {
        var o', d' :| o' in DateVariants(host, r.occurredAt) && d' in DateVariants(host, r.recordedAt)
          && parts == V2Parts(r, o', d');
        assert parts[1] == r.employee && parts[2] == r.organization && parts[3] == r.kind
            && parts[4] == r.correctedKind;
        assert parts[5] == r.corrects && parts[6] == o' && parts[7] == d' && parts[8] == Decimal(r.adjustmentSeconds);
        assert parts[9] == r.adjustmentReason && parts[10] == r.clientRequestId && parts[11] == r.previousHash;
        DecimalDetermines(r.adjustmentSeconds, entry.adjustmentSeconds);
      }
      if Keeps(host, owner, entry, previousHash, r) { assert parts == V2Parts(r, o, d); }
    }
  }

  lemma {:induction false} KeepsManual(host: Host, owner: Owner, entry: Entry, previousHash: string, r: Record)
    requires entry.Manual? && WellFormed(entry)
    ensures Candidate(host, r, HashedParts(host, owner, entry, previousHash))
      <==> Keeps(host, owner, entry, previousHash, r)
  {
    hide DateVariants, AfterLastDash, Decimal, Spells;
    var parts := HashedParts(host, owner, entry, previousHash);
    var o := host.stored(entry.occurredAt);
    VariantSpells(host, r.occurredAt, o);
    if r.integrityVersion !in {"v2", "v3"} {
      if V1Candidate(host, r, parts) {
        var o' :| o' in DateVariants(host, r.occurredAt) && parts == V1Parts(host, r, o');
        assert |parts| == 7 && parts == ManualParts(host, r, o');
        assert parts[0] == r.employee && parts[1] == r.organization && parts[2] == r.kind && parts[3] == o';
        assert parts[4] == r.manualRequest && parts[5] == host.numeral(AfterLastDash(r.clientRequestId));
        assert parts[6] == r.previousHash;
      }
      if Keeps(host, owner, entry, previousHash, r) { assert parts == V1Parts(host, r, o); }
    }
  }

  lemma {:induction false} KeepsVoiding(host: Host, owner: Owner, entry: Entry, previousHash: string, r: Record)
    requires entry.Voiding?
    ensures Candidate(host, r, HashedParts(host, owner, entry, previousHash))
      <==> Keeps(host, owner, entry, previousHash, r)
  {
    hide DateVariants, AfterLastDash, Decimal, Spells, VoidId;
    var parts := HashedParts(host, owner, entry, previousHash);
    var o := entry.targetOccurredAt;
    VariantSpells(host, r.occurredAt, o);
    if r.integrityVersion !in {"v2", "v3"} {
      if V1Candidate(host, r, parts) {
        var o' :| o' in DateVariants(host, r.occurredAt) && parts == V1Parts(host, r, o');
        assert |parts| == 8 && !ReadAsManual(r);
        assert parts[0] == r.employee && parts[1] == r.organization && parts[4] == r.corrects && parts[5] == o';
        assert parts[6] == r.clientRequestId && parts[7] == r.previousHash;
        assert !ReadAsVoid(r) ==> parts[2] == r.kind && parts[3] == r.correctedKind;
      }
      if Keeps(host, owner, entry, previousHash, r) { assert parts == V1Parts(host, r, o); }
    }
  }

  lemma {:induction false} KeepsAtTerminal(host: Host, owner: Owner, entry: Entry, previousHash: string, r: Record)
    requires entry.AtTerminal?
    ensures Candidate(host, r, HashedParts(host, owner, entry, previousHash))
      <==> Keeps(host, owner, entry, previousHash, r)
  {
    hide DateVariants, Spells, V3Parts, HashedParts, AfterLastDash, Decimal;
    SeventeenParts(host, owner, entry, previousHash);
    var o, d := host.iso(entry.occurredAt), host.iso(entry.recordedAt);
    var c, s := host.iso(entry.capturedAt), host.iso(entry.syncedAt);
    VariantSpells(host, r.occurredAt, o);
    VariantSpells(host, r.recordedAt, d);
    VariantSpells(host, r.deviceCapturedAt, c);
    VariantSpells(host, r.clockSyncedAt, s);
    if r.integrityVersion == "v3" && V3Candidate(host, r, HashedParts(host, owner, entry, previousHash)) {
      var o', d', c', s' :| o' in DateVariants(host, r.occurredAt) && d' in DateVariants(host, r.recordedAt)
        && c' in DateVariants(host, r.deviceCapturedAt) && s' in DateVariants(host, r.clockSyncedAt)
        && HashedParts(host, owner, entry, previousHash) == V3Parts(r, o', d', c', s');
      FieldsOfV3(host, owner, entry, previousHash, r, o', d', c', s');
    }
    if Keeps(host, owner, entry, previousHash, r) {
      FieldsOfV3(host, owner, entry, previousHash, r, o, d, c, s);
      assert V3Candidate(host, r, V3Parts(r, o, d, c, s));
    }
  }

  lemma {:induction false} SeventeenParts(host: Host, owner: Owner, entry: Entry, previousHash: string)
    requires entry.AtTerminal?
    ensures |HashedParts(host, owner, entry, previousHash)| == 17
  {
  }

  // The list of a row is the hashed one exactly if field by field it is.
  lemma {:induction false} FieldsOfV3(host: Host, owner: Owner, entry: Entry, previousHash: string, r: Record,
                                      o: string, d: string, c: string, s: string)
    requires entry.AtTerminal?
    ensures V3Parts(r, o, d, c, s) == HashedParts(host, owner, entry, previousHash) <==>
      && r.employee == owner.employee && r.organization == owner.organization && r.kind == entry.kind
      && r.correctedKind == "" && r.corrects == "" && o == host.iso(entry.occurredAt) && d == host.iso(entry.recordedAt)
      && r.adjustmentSeconds == entry.adjustmentSeconds && r.adjustmentReason == entry.adjustmentReason
      && r.clientRequestId == entry.requestId && r.previousHash == previousHash && r.terminal == entry.terminal
      && c == host.iso(entry.capturedAt) && s == host.iso(entry.syncedAt) && r.deviceSequence == entry.sequence
      && r.queuedOffline == entry.offline
  {
    hide Decimal;
    var parts, hashed := V3Parts(r, o, d, c, s), HashedParts(host, owner, entry, previousHash);
    if parts == hashed {
      assert forall i :: 0 <= i < 17 ==> parts[i] == hashed[i];
      DecimalDetermines(r.adjustmentSeconds, entry.adjustmentSeconds);
      DecimalDetermines(r.deviceSequence, entry.sequence);
      assert parts[16] == Truth(r.queuedOffline) && hashed[16] == Truth(entry.offline);
    }
  }

  /** Of all rows with the hash of a written row, the export's check passes exactly those
      that still say what was hashed, up to the spelling of dates. */
  lemma {:induction false} OnlyWhatWasHashedMatches(host: Host, owner: Owner, entry: Entry, previousHash: string,
                                                    r: Record)
    requires CollisionFree(host) && WritesNoBar(host) && WellFormed(entry)
    requires PlainOwner(owner) && PlainEntry(entry) && BAR !in previousHash && PlainRow(r)
    requires r.integrityHash == Written(host, owner, entry, previousHash).integrityHash
    ensures HashMatches(host, r) <==> Keeps(host, owner, entry, previousHash, r)
  {
    hide Candidate, Keeps, HashedParts, PlainRow, PlainEntry, PlainOwner, WritesNoBar, Texts.Join;
    var hashed := HashedParts(host, owner, entry, previousHash);
    assert r.integrityHash == host.sha(Join(hashed));
    KeepsIsCandidate(host, owner, entry, previousHash, r);
    if HashMatches(host, r) {
      var parts :| Candidate(host, r, parts) && host.sha(Join(parts)) == r.integrityHash;
      PlainCandidate(host, r, parts);
      PlainHashed(host, owner, entry, previousHash);
      Texts.JoinDetermines(BAR, parts, hashed);
    }
  }

  // ----------------------------------------------------------------- altered logs

  predicate PlainRun(appends: seq<(Owner, Entry)>) {
    forall i :: 0 <= i < |appends| ==> PlainOwner(appends[i].0) && PlainEntry(appends[i].1)
  }

  // Every row of a run was written by its own append.
  lemma {:induction false} RowIsWritten(host: Host, appends: seq<(Owner, Entry)>, i: nat)
    requires i < |appends|
    ensures var row := Run(host, appends)[i];
      row == Written(host, appends[i].0, appends[i].1, row.previousHash)
  {
    hide TipHash, HashedParts;
    var n := |appends| - 1;
    if i < n { RowIsWritten(host, appends[..n], i); }
  }

  lemma {:induction false} MismatchIsListed(host: Host, rows: seq<Record>, k: nat)
    requires k < |rows| && !HashMatches(host, rows[k])
    ensures HashMismatch(rows[k].id) in HashErrors(host, rows)
  {
    hide HashMatches, PresenceErrors;
    if k < |rows| - 1 { MismatchIsListed(host, rows[..|rows| - 1], k); }
  }

  /** A row of any run, the first included, is reported if it no longer says what was
      hashed into it, whatever rows the export finds beside it. */
  lemma {:induction false} AlteredRowIsReported(host: Host, rank: string -> nat, appends: seq<(Owner, Entry)>, i: nat,
                                                rows: seq<Record>, k: nat)
    requires Lawful(host) && WellFounded(host, rank) && CollisionFree(host) && WritesNoBar(host)
    requires WellFormedRun(appends) && PlainRun(appends) && i < |appends|
    requires k < |rows| && PlainRow(rows[k]) && rows[k].integrityHash == Run(host, appends)[i].integrityHash
    ensures !Keeps(host, appends[i].0, appends[i].1, Run(host, appends)[i].previousHash, rows[k]) ==>
      HashMismatch(rows[k].id) in ChainErrors(host, rows)
    ensures Keeps(host, appends[i].0, appends[i].1, Run(host, appends)[i].previousHash, rows[k]) ==>
      HashMatches(host, rows[k])
  {
    hide Keeps, HashMatches, Written, Lawful, WellFounded, TipHash, PlainRow, PlainEntry, PlainOwner, Run,
         PredecessorErrors, HashErrors, Roots, Tips, CollisionFree, WellFormed;
    var row := Run(host, appends)[i];
    RunsStayStraight(host, rank, appends);
    RowIsWritten(host, appends, i);
    if i > 0 { RowIsWritten(host, appends, i - 1); }
    HashHasNoBar(host, appends[i].0, appends[i].1, row.previousHash);
    if i > 0 { HashHasNoBar(host, appends[i - 1].0, appends[i - 1].1, Run(host, appends)[i - 1].previousHash); }
    OnlyWhatWasHashedMatches(host, appends[i].0, appends[i].1, row.previousHash, rows[k]);
    if !HashMatches(host, rows[k]) { MismatchIsListed(host, rows, k); }
  }

  lemma {:induction false} HashHasNoBar(host: Host, owner: Owner, entry: Entry, previousHash: string)
    requires WritesNoBar(host)
    ensures BAR !in Written(host, owner, entry, previousHash).integrityHash
  {
    hide HashedParts;
  }

  // ------------------------------------------------------------- such hashes exist

  function Escape(c: char): string { if c == BAR then "/b" else ['c', c] }

  function Escaped(text: string): string {
    if text == "" then "" else Escaped(text[..|text| - 1]) + Escape(text[|text| - 1])
  }

  lemma {:induction false} EscapedHasNoBar(text: string)
    ensures BAR !in Escaped(text) && |Escaped(text)| == 2 * |text|
  {
    if text != "" { EscapedHasNoBar(text[..|text| - 1]); }
  }

  lemma {:induction false} SamePair(p: string, q: string, a: char, b: char)
    requires p + Escape(a) == q + Escape(b)
    ensures p == q && a == b
  {
    var left, right := p + Escape(a), q + Escape(b);
    assert |left| == |p| + 2 && |right| == |q| + 2;
    assert p == left[..|p|] && q == right[..|p|];
    assert left[|p|] == Escape(a)[0] && right[|p|] == Escape(b)[0];
    assert left[|p| + 1] == Escape(a)[1] && right[|p| + 1] == Escape(b)[1];
  }

  lemma {:induction false} EscapedDetermines(a: string, b: string)
    requires Escaped(a) == Escaped(b)
    ensures a == b
    decreases |a|
  {
    hide Escape;
    EscapedHasNoBar(a);
    EscapedHasNoBar(b);
    if a != "" {
      var m, n := |a| - 1, |b| - 1;
      SamePair(Escaped(a[..m]), Escaped(b[..n]), a[m], b[n]);
      EscapedDetermines(a[..m], b[..n]);
      assert a == a[..m] + [a[m]] && b == b[..n] + [b[n]];
    }
  }

  /** A hash that meets every assumption: the hashed text escaped, ranked by length. */
  lemma {:induction false} SomeHostIsCollisionFree()
    ensures exists host, rank: string -> nat ::
      Lawful(host) && WellFounded(host, rank) && CollisionFree(host) && WritesNoBar(host)
  {
    hide Texts.Join, Decimal, Escaped;
    var host := Host(text => Escaped(text) + "h", text => if BAR in text then None else Some(text),
                     t => Decimal(t), t => Decimal(t), text => if BAR in text then "" else text);
    var rank: string -> nat := text => |text|;
    forall parts: seq<string>, part | part in parts && part != "" ensures rank(part) < rank(host.sha(Join(parts))) {
      Texts.PartsAreNoLonger(BAR, parts, part);
      EscapedHasNoBar(Join(parts));
    }
    forall t: int ensures BAR !in Decimal(t) { NoBarInDecimal(t); }
    forall text: string ensures BAR !in host.sha(text) { EscapedHasNoBar(text); }
    forall a, b | host.sha(a) == host.sha(b) ensures a == b {
      assert Escaped(a) == host.sha(a)[..|host.sha(a)| - 1] && Escaped(b) == host.sha(b)[..|host.sha(b)| - 1];
      EscapedDetermines(a, b);
    }
    assert Lawful(host) && WellFounded(host, rank);
    assert CollisionFree(host) && WritesNoBar(host);
  }
}
