/** The bytes of the terminal's employee cache. */
module CacheCodec {
  import opened Bytes
  import opened OutboxFormat

  const MAGIC: Bytes := [79, 74, 67, 65]
  const FORMAT: byte := 1
  const CAPACITY := 30
  const HEADER_SIZE := 13
  const CRC_SIZE := 4
  const MAX_EMPLOYEE_ID := 64
  const MAX_DISPLAY_NAME := 96
  const MAX_UID := 20
  const MAX_ENCODED := 8192
  const INT_LIMIT := 0x8000_0000

  /** `kind` is the number of the enumerator; the seconds are 32-bit integers. */
  datatype Entry = Entry(
    employeeId: Bytes, displayName: Bytes, uid: Bytes, kind: byte, worked: int, onBreak: int,
    longShift: bool, staleBreak: bool)

  datatype Snapshot = Snapshot(revision: u32, entries: seq<Entry>)

  // ------------------------------------------------------------------ validation

  predicate PlainText(s: Bytes, maximum: nat) {
    s != [] && |s| <= maximum && forall i :: 0 <= i < |s| ==> s[i] != 0 && s[i] != 13 && s[i] != 10
  }

  predicate HexText(s: Bytes) {
    && s != [] && |s| <= MAX_UID && |s| % 2 == 0
    && forall i :: 0 <= i < |s| ==> 48 <= s[i] <= 57 || 65 <= s[i] <= 70
  }

  predicate ValidEntry(e: Entry) {
    && PlainText(e.employeeId, MAX_EMPLOYEE_ID) && PlainText(e.displayName, MAX_DISPLAY_NAME) && HexText(e.uid)
    && e.kind <= 2 && e.worked >= 0 && e.onBreak >= 0
  }

  predicate InRange(e: Entry) {
    -INT_LIMIT <= e.worked < INT_LIMIT && -INT_LIMIT <= e.onBreak < INT_LIMIT
  }

  predicate Repeats(entries: seq<Entry>, i: nat)
    requires i < |entries|
  {
    exists j :: 0 <= j < i && (entries[j].employeeId == entries[i].employeeId || entries[j].uid == entries[i].uid)
  }

  /** A snapshot the codec takes: at most thirty valid entries, each employee and
      each tag once. */
  predicate ValidSnapshot(s: Snapshot) {
    && |s.entries| <= CAPACITY
    && forall i :: 0 <= i < |s.entries| ==> ValidEntry(s.entries[i]) && !Repeats(s.entries, i)
  }

  /** What an entry can hold: texts of one line within their lengths, a card of up to ten
      bytes in upper-case hexadecimal, one of the three states, and no negative time. */
  lemma {:induction false} EntriesACacheHolds(e: Entry)
    ensures ValidEntry(e) <==>
      && 1 <= |e.employeeId| <= 64 && 0 !in e.employeeId && 10 !in e.employeeId && 13 !in e.employeeId
      && 1 <= |e.displayName| <= 96 && 0 !in e.displayName && 10 !in e.displayName && 13 !in e.displayName
      && IsHex(e.uid, 65, 1, 10) && e.kind in {0, 1, 2} && 0 <= e.worked && 0 <= e.onBreak
  {
    hide IsHex;
    HexTexts(e.uid, 65, 1, 10);
    PlainTexts(e.employeeId, 64);
    PlainTexts(e.displayName, 96);
  }

  lemma {:induction false} PlainTexts(s: Bytes, maximum: nat)
    ensures PlainText(s, maximum) <==> 1 <= |s| <= maximum && 0 !in s && 10 !in s && 13 !in s
  {
    if PlainText(s, maximum) { assert forall b :: b in s ==> b != 0 && b != 13 && b != 10; }
  }

  /** `validateSnapshot`. */
  method Validate(s: Snapshot) returns (error: OutboxError)
    ensures error == NoError <==> ValidSnapshot(s)
    ensures error == NoError <==>
      && |s.entries| <= 30
      && (forall i :: 0 <= i < |s.entries| ==> ValidEntry(s.entries[i]))
      && forall i, j :: 0 <= i < j < |s.entries| ==>
        s.entries[i].employeeId != s.entries[j].employeeId && s.entries[i].uid != s.entries[j].uid
  {
    if |s.entries| > CAPACITY { return Capacity; }
    var employeeIds: set<Bytes> := {};
    var uids: set<Bytes> := {};
    for i := 0 to |s.entries|
      invariant forall k :: 0 <= k < i ==> ValidEntry(s.entries[k]) && !Repeats(s.entries, k)
      invariant forall id :: id in employeeIds <==> exists k :: 0 <= k < i && s.entries[k].employeeId == id
      invariant forall uid :: uid in uids <==> exists k :: 0 <= k < i && s.entries[k].uid == uid
    {
      var entry := s.entries[i];
      if |entry.employeeId| > MAX_EMPLOYEE_ID || |entry.displayName| > MAX_DISPLAY_NAME {
        assert !ValidEntry(entry);
        return Capacity;
      }
      if !ValidEntry(entry) || entry.employeeId in employeeIds || entry.uid in uids {
        assert ValidEntry(entry) ==> Repeats(s.entries, i);
        return InvalidData;
      }
      employeeIds := employeeIds + {entry.employeeId};
      uids := uids + {entry.uid};
    }
    return NoError;
  }

  // --------------------------------------------------------------------- entries

  function ShortText(s: Bytes): Bytes
    requires |s| < 256
  {
    [|s|] + s
  }

  function TakeShort(input: Bytes, maximum: nat): Option<(Bytes, Bytes)> {
    if input == [] || input[0] > maximum || |input| - 1 < input[0] then None
    else Some((input[1..1 + input[0]], input[1 + input[0]..]))
  }

  lemma {:induction false} TakeShortOfText(s: Bytes, rest: Bytes, maximum: nat)
    requires |s| <= maximum < 256
    ensures TakeShort(ShortText(s) + rest, maximum) == Some((s, rest))
  {
    var input := ShortText(s) + rest;
    assert input[1..1 + |s|] == s && input[1 + |s|..] == rest;
  }

  function Unsigned(v: int): u32
    requires -INT_LIMIT <= v < INT_LIMIT
  {
    if v < 0 then v + 0x1_0000_0000 else v
  }

  function Signed(v: u32): (r: int)
    ensures -INT_LIMIT <= r < INT_LIMIT
  {
    if v < INT_LIMIT then v else v - 0x1_0000_0000
  }

  function Flags(e: Entry): byte {
    (if e.longShift then 1 else 0) + (if e.staleBreak then 2 else 0)
  }

  predicate Encodable(e: Entry) {
    ValidEntry(e) && InRange(e)
  }

  // One function per field, each writing that field and the later ones.
  function FromBreak(e: Entry): Bytes requires Encodable(e) { U32(Unsigned(e.onBreak)) + [Flags(e)] }
  function FromWorked(e: Entry): Bytes requires Encodable(e) { U32(Unsigned(e.worked)) + FromBreak(e) }
  function FromKind(e: Entry): Bytes requires Encodable(e) { [e.kind] + FromWorked(e) }
  function FromUid(e: Entry): Bytes requires Encodable(e) { ShortText(e.uid) + FromKind(e) }
  function FromName(e: Entry): Bytes requires Encodable(e) { ShortText(e.displayName) + FromUid(e) }
  function EntryBytes(e: Entry): Bytes requires Encodable(e) { ShortText(e.employeeId) + FromName(e) }

  datatype Parsed<T> = Read(value: T, rest: Bytes) | Bad(error: OutboxError)

  /** One entry and what follows it. */
  function TakeEntry(input: Bytes): Parsed<Entry> {
    match TakeShort(input, MAX_EMPLOYEE_ID)
    case None => Bad(Truncated)
    case Some((employeeId, r1)) =>
      match TakeShort(r1, MAX_DISPLAY_NAME)
      case None => Bad(Truncated)
      case Some((displayName, r2)) =>
        match TakeShort(r2, MAX_UID)
        case None => Bad(Truncated)
        case Some((uid, r3)) =>
          if |r3| < 10 then Bad(Truncated)
          else if r3[0] > 2 || r3[9] > 3 then Bad(InvalidData)
          else
            Read(Entry(employeeId, displayName, uid, r3[0], Signed(ReadU32(r3[1..])), Signed(ReadU32(r3[5..])),
                       r3[9] % 2 == 1, r3[9] / 2 == 1), r3[10..])
  }

  lemma {:induction false} TakeEntryOfBytes(e: Entry, rest: Bytes)
    requires Encodable(e)
    ensures TakeEntry(EntryBytes(e) + rest) == Read(e, rest)
  {
    hide U32, ReadU32;
    assert EntryBytes(e) + rest == ShortText(e.employeeId) + (FromName(e) + rest);
    TakeShortOfText(e.employeeId, FromName(e) + rest, MAX_EMPLOYEE_ID);
    assert FromName(e) + rest == ShortText(e.displayName) + (FromUid(e) + rest);
    TakeShortOfText(e.displayName, FromUid(e) + rest, MAX_DISPLAY_NAME);
    assert FromUid(e) + rest == ShortText(e.uid) + (FromKind(e) + rest);
    TakeShortOfText(e.uid, FromKind(e) + rest, MAX_UID);
    FixedPartIsRead(e, rest);
  }

  lemma {:induction false} FixedPartIsRead(e: Entry, rest: Bytes)
    requires Encodable(e)
    ensures var r := FromKind(e) + rest;
      && |r| >= 10 && r[0] == e.kind && r[9] == Flags(e) && r[10..] == rest
      && ReadU32(r[1..]) == Unsigned(e.worked) && ReadU32(r[5..]) == Unsigned(e.onBreak)
  {
    hide U32, ReadU32;
    var r := FromKind(e) + rest;
    assert |U32(Unsigned(e.worked))| == 4 && |U32(Unsigned(e.onBreak))| == 4;
    assert r[1..] == U32(Unsigned(e.worked)) + (FromBreak(e) + rest);
    U32RoundTrip(Unsigned(e.worked), FromBreak(e) + rest);
    assert r[5..] == U32(Unsigned(e.onBreak)) + ([Flags(e)] + rest);
    U32RoundTrip(Unsigned(e.onBreak), [Flags(e)] + rest);
  }

  lemma {:induction false} EntrySize(e: Entry)
    requires Encodable(e)
    ensures |EntryBytes(e)| <= 193
  {
    hide U32;
    assert |U32(Unsigned(e.worked))| == 4 && |U32(Unsigned(e.onBreak))| == 4;
  }

  // ------------------------------------------------------------------- snapshots

  predicate AllEncodable(entries: seq<Entry>) {
    forall i :: 0 <= i < |entries| ==> Encodable(entries[i])
  }

  function EntriesBytes(entries: seq<Entry>): Bytes
    requires AllEncodable(entries)
  {
    if entries == [] then [] else EntriesBytes(entries[..|entries| - 1]) + EntryBytes(entries[|entries| - 1])
  }

  function PayloadOf(s: Snapshot): Bytes
    requires ValidSnapshot(s) && AllEncodable(s.entries)
  {
    [|s.entries|] + EntriesBytes(s.entries)
  }

  function Unsealed(s: Snapshot): Bytes
    requires ValidSnapshot(s) && AllEncodable(s.entries) && |PayloadOf(s)| < 0x1_0000_0000
  {
    MAGIC + [FORMAT] + U32(s.revision) + U32(|PayloadOf(s)|) + PayloadOf(s)
  }

  function Encoded(crc: Checksum, s: Snapshot): Bytes
    requires ValidSnapshot(s) && AllEncodable(s.entries) && |PayloadOf(s)| < 0x1_0000_0000
  {
    Unsealed(s) + U32(crc(Unsealed(s)))
  }

  lemma {:induction false} EntriesSize(entries: seq<Entry>)
    requires AllEncodable(entries)
    ensures |EntriesBytes(entries)| <= 193 * |entries|
  {
    hide EntryBytes;
    if entries != [] {
      EntriesSize(entries[..|entries| - 1]);
      EntrySize(entries[|entries| - 1]);
    }
  }

  /** Every valid snapshot fits, so encoding never fails on one. */
  lemma {:induction false} ValidSnapshotsFit(s: Snapshot)
    requires ValidSnapshot(s) && AllEncodable(s.entries)
    ensures HEADER_SIZE + |PayloadOf(s)| + CRC_SIZE <= MAX_ENCODED
  {
    EntriesSize(s.entries);
  }

  /** `CacheCodec::encode`. */
  method Encode(crc: Checksum, s: Snapshot) returns (error: OutboxError, output: Bytes)
    requires forall i :: 0 <= i < |s.entries| ==> InRange(s.entries[i])
    ensures error == NoError <==> ValidSnapshot(s)
    ensures error == NoError ==> |PayloadOf(s)| < 0x1_0000_0000 && output == Encoded(crc, s)
    ensures error != NoError ==> output == []
  {
    hide ValidEntry, EntryBytes;
    error := Validate(s);
    if error != NoError { return error, []; }
    assert AllEncodable(s.entries);
    ValidSnapshotsFit(s);
    var payload: Bytes := [|s.entries|];
    for i := 0 to |s.entries|
      invariant payload == [|s.entries|] + EntriesBytes(s.entries[..i])
    {
      assert s.entries[..i + 1][..i] == s.entries[..i];
      payload := payload + EntryBytes(s.entries[i]);
    }
    assert s.entries[..|s.entries|] == s.entries;
    output := MAGIC + [FORMAT] + U32(s.revision) + U32(|payload|) + payload;
    output := output + U32(crc(output));
  }

  /** The entry loop of `CacheCodec::decode`, on the remaining payload. */
  function TakeEntries(input: Bytes, count: nat): Parsed<seq<Entry>>
    decreases count
  {
    if count == 0 then Read([], input)
    else
      match TakeEntry(input)
      case Bad(e) => Bad(e)
      case Read(entry, rest) =>
        match TakeEntries(rest, count - 1)
        case Bad(e) => Bad(e)
        case Read(entries, last) => Read([entry] + entries, last)
  }

  function Decode(crc: Checksum, input: Bytes): Result<Snapshot> {
    if |input| < HEADER_SIZE + CRC_SIZE then Failure(Truncated)
    else if |input| > MAX_ENCODED then Failure(Length)
    else if input[..4] != MAGIC then Failure(Magic)
    else if input[4] != FORMAT then Failure(Version)
    else
      var n := ReadU32(input[9..]);
      if n > MAX_ENCODED then Failure(Length)
      else if |input| < HEADER_SIZE + n + CRC_SIZE then Failure(Truncated)
      else if |input| > HEADER_SIZE + n + CRC_SIZE then Failure(Length)
      else if crc(input[..|input| - CRC_SIZE]) != ReadU32(input[|input| - CRC_SIZE..]) then Failure(Checksum)
      else DecodePayload(ReadU32(input[5..]), input[HEADER_SIZE..HEADER_SIZE + n])
  }

  function DecodePayload(revision: u32, payload: Bytes): Result<Snapshot> {
    if payload == [] then Failure(Truncated)
    else if payload[0] > CAPACITY then Failure(Capacity)
    else
      match TakeEntries(payload[1..], payload[0])
      case Bad(e) => Failure(e)
      case Read(entries, rest) =>
        if rest != [] then Failure(Length)
        else if !ValidSnapshot(Snapshot(revision, entries)) then Failure(InvalidData)
        else Success(Snapshot(revision, entries))
  }

  /** `CacheCodec::decode`; a snapshot that parses but is not valid is refused
      with the error of the validation. */
  method DecodeSnapshot(crc: Checksum, input: Bytes) returns (r: Result<Snapshot>)
    ensures r.Success? <==> Decode(crc, input).Success?
    ensures r.Success? ==> r == Decode(crc, input)
  {
    hide TakeEntry, ValidSnapshot;
    if |input| < HEADER_SIZE + CRC_SIZE { return Failure(Truncated); }
    if |input| > MAX_ENCODED { return Failure(Length); }
    for index := 0 to 4
      invariant input[..index] == MAGIC[..index]
    {
      if input[index] != MAGIC[index] {
        assert input[..4][index] != MAGIC[index];
        return Failure(Magic);
      }
      assert input[..index + 1] == input[..index] + [input[index]];
    }
    assert input[..4] == MAGIC;
    if input[4] != FORMAT { return Failure(Version); }
    var payloadLength := ReadU32(input[9..]);
    if payloadLength > MAX_ENCODED { return Failure(Length); }
    var expectedSize := HEADER_SIZE + payloadLength + CRC_SIZE;
    if |input| < expectedSize { return Failure(Truncated); }
    if |input| > expectedSize { return Failure(Length); }
    if crc(input[..|input| - CRC_SIZE]) != ReadU32(input[|input| - CRC_SIZE..]) { return Failure(Checksum); }
    var payload := input[HEADER_SIZE..HEADER_SIZE + payloadLength];
    if payload == [] { return Failure(Truncated); }
    var count := payload[0];
    if count > CAPACITY { return Failure(Capacity); }
    var rest := payload[1..];
    var entries: seq<Entry> := [];
    NothingTakenYet(rest, count);
    for index := 0 to count
      invariant AfterEntries(payload[1..], count, entries, rest, count - index)
    {
      var taken := TakeEntry(rest);
      if taken.Bad? { return Failure(taken.error); }
      OneEntryMore(payload[1..], count, entries, rest, count - index);
      entries, rest := entries + [taken.value], taken.rest;
    }
    assert TakeEntries(payload[1..], count) == Read(entries, rest) by {
      AllEntries(payload[1..], count, entries, rest);
    }
    if rest != [] { return Failure(Length); }
    var candidate := Snapshot(ReadU32(input[5..]), entries);
    var validation := Validate(candidate);
    if validation != NoError { return Failure(validation); }
    r := Success(candidate);
  }

  // Some entries are taken and `left` are still to come.
  predicate AfterEntries(input: Bytes, count: nat, entries: seq<Entry>, rest: Bytes, left: nat) {
    TakeEntries(input, count) ==
      match TakeEntries(rest, left) case Bad(e) => Bad(e) case Read(more, last) => Read(entries + more, last)
  }

  lemma {:induction false} NothingTakenYet(input: Bytes, count: nat)
    ensures AfterEntries(input, count, [], input, count)
  {
    if TakeEntries(input, count).Read? {
      assert [] + TakeEntries(input, count).value == TakeEntries(input, count).value;
    }
  }

  lemma {:induction false} OneEntryMore(input: Bytes, count: nat, entries: seq<Entry>, rest: Bytes, left: nat)
    requires left > 0 && AfterEntries(input, count, entries, rest, left)
    ensures TakeEntry(rest).Read? ==>
      AfterEntries(input, count, entries + [TakeEntry(rest).value], TakeEntry(rest).rest, left - 1)
    ensures TakeEntry(rest).Bad? ==> TakeEntries(input, count).Bad?
  {
    hide TakeEntry;
    if TakeEntry(rest).Read? && TakeEntries(TakeEntry(rest).rest, left - 1).Read? {
      var more := TakeEntries(TakeEntry(rest).rest, left - 1).value;
      assert entries + ([TakeEntry(rest).value] + more) == entries + [TakeEntry(rest).value] + more;
    }
  }

  lemma {:induction false} AllEntries(input: Bytes, count: nat, entries: seq<Entry>, rest: Bytes)
    requires AfterEntries(input, count, entries, rest, 0)
    ensures TakeEntries(input, count) == Read(entries, rest)
  {
    assert entries + [] == entries;
  }

  // ----------------------------------------------------------------- round trip

  lemma {:induction false} EntriesFront(entries: seq<Entry>)
    requires AllEncodable(entries) && entries != []
    ensures EntriesBytes(entries) == EntryBytes(entries[0]) + EntriesBytes(entries[1..])
  {
    hide EntryBytes, Encodable;
    var n := |entries| - 1;
    if n > 0 {
      EntriesFront(entries[..n]);
      var rest := entries[1..];
      assert entries[..n][1..] == rest[..n - 1] && rest[n - 1] == entries[n];
      assert EntriesBytes(rest) == EntriesBytes(rest[..n - 1]) + EntryBytes(rest[n - 1]);
    } else {
      assert EntriesBytes(entries[..0]) == [] && EntriesBytes(entries[1..]) == [];
    }
  }

  lemma {:induction false} TakeEntriesOfBytes(entries: seq<Entry>)
    requires AllEncodable(entries)
    ensures TakeEntries(EntriesBytes(entries), |entries|) == Read(entries, [])
  {
    hide EntryBytes, TakeEntry, EntriesBytes, Encodable;
    if entries == [] {
      NoEntries();
    } else {
      EntriesFront(entries);
      TakeEntryOfBytes(entries[0], EntriesBytes(entries[1..]));
      TakeEntriesOfBytes(entries[1..]);
      assert [entries[0]] + entries[1..] == entries;
    }
  }

  lemma {:induction false} NoEntries()
    ensures EntriesBytes([]) == []
  {
  }

  /** Whatever was encoded from a valid snapshot decodes to that snapshot. */
  lemma {:induction false} SnapshotRoundTrip(crc: Checksum, s: Snapshot)
    requires ValidSnapshot(s) && AllEncodable(s.entries)
    ensures |PayloadOf(s)| < 0x1_0000_0000 && Decode(crc, Encoded(crc, s)) == Success(s)
  {
    hide U32, ReadU32, TakeEntries, EntriesBytes, ValidSnapshot;
    ValidSnapshotsFit(s);
    var payload, input := PayloadOf(s), Encoded(crc, s);
    EncodedParts(crc, s);
    TakeEntriesOfBytes(s.entries);
    assert payload[1..] == EntriesBytes(s.entries);
    assert |s.entries| <= CAPACITY by { CountFits(s); }
  }

  lemma {:induction false} CountFits(s: Snapshot)
    requires ValidSnapshot(s)
    ensures |s.entries| <= CAPACITY
  {
  }

  // Where the parts of an encoded snapshot lie.
  lemma {:induction false} EncodedParts(crc: Checksum, s: Snapshot)
    requires ValidSnapshot(s) && AllEncodable(s.entries) && |PayloadOf(s)| < 0x1_0000_0000
    ensures var input, n := Encoded(crc, s), |PayloadOf(s)|;
      && |input| == HEADER_SIZE + n + CRC_SIZE && input[..4] == MAGIC && input[4] == FORMAT
      && ReadU32(input[5..]) == s.revision && ReadU32(input[9..]) == n
      && input[HEADER_SIZE..HEADER_SIZE + n] == PayloadOf(s)
      && input[..|input| - CRC_SIZE] == Unsealed(s) && ReadU32(input[|input| - CRC_SIZE..]) == crc(Unsealed(s))
  {
    hide U32, ReadU32, PayloadOf, ValidSnapshot;
    var payload, input := PayloadOf(s), Encoded(crc, s);
    var seal := U32(crc(Unsealed(s)));
    assert |U32(s.revision)| == 4 && |U32(|payload|)| == 4 && |seal| == 4;
    assert input[5..] == U32(s.revision) + (U32(|payload|) + payload + seal);
    U32RoundTrip(s.revision, U32(|payload|) + payload + seal);
    assert input[9..] == U32(|payload|) + (payload + seal);
    U32RoundTrip(|payload|, payload + seal);
    assert input[|input| - CRC_SIZE..] == seal + [];
    U32RoundTrip(crc(Unsealed(s)), []);
  }

  /** A write cut short is never taken for a snapshot, whatever the checksum. */
  lemma {:induction false} CutSnapshotIsRefused(crc: Checksum, s: Snapshot, k: nat)
    requires ValidSnapshot(s) && AllEncodable(s.entries) && |PayloadOf(s)| < 0x1_0000_0000
    requires k < |Encoded(crc, s)|
    ensures Decode(crc, Encoded(crc, s)[..k]) == Failure(Truncated)
  {
    hide U32, PayloadOf, ValidSnapshot;
    var input := Encoded(crc, s);
    var cut := input[..k];
    EncodedParts(crc, s);
    ValidSnapshotsFit(s);
    if k >= HEADER_SIZE + CRC_SIZE {
      assert cut[..4] == input[..4] && cut[4] == input[4];
      assert cut[9..][..4] == input[9..][..4];
      assert ReadU32(cut[9..]) == ReadU32(input[9..]);
    }
  }

  /** Only valid snapshots are decoded. */
  lemma {:induction false} DecodedIsValid(crc: Checksum, input: Bytes)
    ensures Decode(crc, input).Success? ==> ValidSnapshot(Decode(crc, input).value)
  {
    hide TakeEntries, ValidSnapshot;
  }

  lemma {:induction false} EntryErrors(input: Bytes, count: nat)
    ensures TakeEntries(input, count).Bad? ==> TakeEntries(input, count).error in {Truncated, InvalidData}
    decreases count
  {
    if count > 0 && TakeEntry(input).Read? { EntryErrors(TakeEntry(input).rest, count - 1); }
  }

  lemma {:induction false} DecodeErrors(crc: Checksum, input: Bytes)
    ensures Decode(crc, input).Failure? ==> Decode(crc, input).error !in {NoError, NotFound}
  {
    hide TakeEntries, ValidSnapshot;
    if |input| >= HEADER_SIZE + CRC_SIZE {
      var n := ReadU32(input[9..]);
      if |input| == HEADER_SIZE + n + CRC_SIZE && n > 0 {
        var payload := input[HEADER_SIZE..HEADER_SIZE + n];
        EntryErrors(payload[1..], payload[0]);
      }
    }
  }

  // --------------------------------------------------------- the other way round

  lemma {:induction false} ShortOfTaken(input: Bytes, maximum: nat)
    requires maximum < 256 && TakeShort(input, maximum).Some?
    ensures var (s, rest) := TakeShort(input, maximum).value; |s| <= maximum && input == ShortText(s) + rest
  {
    var (s, rest) := TakeShort(input, maximum).value;
    assert input == [input[0]] + (s + rest);
  }

  // The state, the two times and the flags, of which every bit says something.
  lemma {:induction false} FixedPartOfRead(e: Entry, r: Bytes)
    requires |r| >= 10 && r[9] <= 3 && Encodable(e)
    requires e.kind == r[0] && e.worked == Signed(ReadU32(r[1..])) && e.onBreak == Signed(ReadU32(r[5..]))
    requires e.longShift == (r[9] % 2 == 1) && e.staleBreak == (r[9] / 2 == 1)
    ensures r == FromKind(e) + r[10..]
  {
    hide U32, ReadU32;
    U32Injective(r[1..]);
    U32Injective(r[5..]);
    assert Flags(e) == r[9];
    assert r[1..][..4] == r[1..5] && r[5..][..4] == r[5..9];
    assert r == [r[0]] + (r[1..5] + (r[5..9] + [r[9]])) + r[10..];
  }

  lemma {:induction false} EntryOfTaken(input: Bytes)
    requires TakeEntry(input).Read?
    ensures InRange(TakeEntry(input).value)
    ensures ValidEntry(TakeEntry(input).value) ==>
      input == EntryBytes(TakeEntry(input).value) + TakeEntry(input).rest
  {
    hide ReadU32;
    var e := TakeEntry(input).value;
    var r1 := TakeShort(input, MAX_EMPLOYEE_ID).value.1;
    var r2 := TakeShort(r1, MAX_DISPLAY_NAME).value.1;
    var r3 := TakeShort(r2, MAX_UID).value.1;
    if ValidEntry(e) {
      ShortOfTaken(input, MAX_EMPLOYEE_ID);
      ShortOfTaken(r1, MAX_DISPLAY_NAME);
      ShortOfTaken(r2, MAX_UID);
      FixedPartOfRead(e, r3);
      Reassembled(e, input, r1, r2, r3, r3[10..]);
    }
  }

  lemma {:induction false} Reassembled(e: Entry, input: Bytes, r1: Bytes, r2: Bytes, r3: Bytes, rest: Bytes)
    requires Encodable(e)
    requires input == ShortText(e.employeeId) + r1 && r1 == ShortText(e.displayName) + r2
    requires r2 == ShortText(e.uid) + r3 && r3 == FromKind(e) + rest
    ensures input == EntryBytes(e) + rest
  {
    hide U32;
    assert r2 == FromUid(e) + rest;
    assert r1 == FromName(e) + rest;
  }

  lemma {:induction false} EntriesOfTaken(input: Bytes, count: nat)
    requires TakeEntries(input, count).Read?
    ensures var (entries, rest) := (TakeEntries(input, count).value, TakeEntries(input, count).rest);
      && |entries| == count
      && ((forall i :: 0 <= i < count ==> ValidEntry(entries[i])) ==>
            AllEncodable(entries) && input == EntriesBytes(entries) + rest)
    decreases count
  {
    hide TakeEntry, EntryBytes, ValidEntry, InRange, EntriesBytes;
    if count == 0 {
      NoEntries();
      assert input == [] + input;
    } else {
      var entry, middle := TakeEntry(input).value, TakeEntry(input).rest;
      EntryOfTaken(input);
      EntriesOfTaken(middle, count - 1);
      var later := TakeEntries(middle, count - 1).value;
      var entries := [entry] + later;
      assert TakeEntries(input, count).value == entries && entries[1..] == later && entries[0] == entry;
      if forall i :: 0 <= i < count ==> ValidEntry(entries[i]) {
        assert forall i :: 0 <= i < count - 1 ==> later[i] == entries[i + 1];
        EntriesFront(entries);
      }
    }
  }

  lemma {:induction false} PartsOfDecoded(crc: Checksum, input: Bytes)
    requires Decode(crc, input).Success?
    ensures var s := Decode(crc, input).value;
      && ValidSnapshot(s) && AllEncodable(s.entries) && |PayloadOf(s)| < 0x1_0000_0000 && |input| >= 17
      && input[..4] == MAGIC && input[4] == FORMAT && ReadU32(input[5..]) == s.revision
      && ReadU32(input[9..]) == |PayloadOf(s)| && input[13..|input| - 4] == PayloadOf(s)
      && crc(input[..|input| - 4]) == ReadU32(input[|input| - 4..])
  {
    hide TakeEntries, ReadU32, EntriesBytes, ValidEntry, InRange, Repeats;
    var s := Decode(crc, input).value;
    var payload := input[13..|input| - 4];
    EntriesOfTaken(payload[1..], payload[0]);
    assert payload == [payload[0]] + payload[1..];
    assert payload[1..] == EntriesBytes(s.entries) + [];
  }

  /** The codec is a bijection between the snapshots it takes and the bytes it accepts:
      what decodes is exactly what some valid snapshot is encoded as. */
  lemma {:induction false} SnapshotCodecInverse(crc: Checksum, s: Snapshot, input: Bytes)
    ensures Decode(crc, input) == Success(s)
      <==> ValidSnapshot(s) && AllEncodable(s.entries) && |PayloadOf(s)| < 0x1_0000_0000 && input == Encoded(crc, s)
  {
    hide Decode, ValidSnapshot, PayloadOf, U32, ReadU32;
    if ValidSnapshot(s) && AllEncodable(s.entries) && |PayloadOf(s)| < 0x1_0000_0000 && input == Encoded(crc, s) {
      SnapshotRoundTrip(crc, s);
    }
    if Decode(crc, input) == Success(s) {
      PartsOfDecoded(crc, input);
      var n := |input| - 4;
      U32Injective(input[5..]);
      U32Injective(input[9..]);
      U32Injective(input[n..]);
      assert input[5..][..4] == input[5..9] && input[9..][..4] == input[9..13] && input[n..][..4] == input[n..];
      assert input[..n] == input[..4] + [input[4]] + input[5..9] + input[9..13] + input[13..n];
      assert input == input[..n] + input[n..];
    }
  }

  /** The first bytes of an encoded snapshot, and the most it can take. */
  lemma {:induction false} EncodedStarts(crc: Checksum, s: Snapshot)
    requires ValidSnapshot(s) && AllEncodable(s.entries) && |PayloadOf(s)| < 0x1_0000_0000
    ensures Encoded(crc, s)[..5] == [79, 74, 67, 65, 1] && |Encoded(crc, s)| <= 8192
  {
    hide PayloadOf, ValidSnapshot, U32;
    ValidSnapshotsFit(s);
    EncodedParts(crc, s);
    assert Encoded(crc, s)[..5] == Encoded(crc, s)[..4] + [Encoded(crc, s)[4]];
  }
}
