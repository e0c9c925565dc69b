/** The record format of the terminal's outbox: queued actions and completion marks,
    each wrapped in a frame of magic, version, length, payload and checksum.
    The checksum is a parameter, so every result holds for any checksum function. */
module OutboxFormat {
  import opened Bytes

  type Checksum = Bytes -> u32

  const FORMAT_VERSION: byte := 1
  const HEADER_SIZE := 9
  const CRC_SIZE := 4
  const MAX_RECORD_SIZE := 1024
  const MAX_PAYLOAD := MAX_RECORD_SIZE - HEADER_SIZE - CRC_SIZE
  const CAPACITY := 10000
  const MAX_ID := 64
  const MAX_UID := 20
  const MAX_TIMESTAMP := 35
  const HASH_HEX_LENGTH := 64

  datatype OutboxError =
    | NoError | NotFound | Magic | Version | Truncated | Length
    | Checksum | Capacity | InvalidData | Io | Unsupported

  datatype Result<+T> = Success(value: T) | Failure(error: OutboxError)

  datatype Kind = Actions | Completions

  /** A stored attendance action; `command` is the number of the enumerator. */
  datatype Action = Action(
    clientRequestId: Bytes, uid: Bytes, command: byte, deviceCapturedAt: Bytes, appliedAt: Bytes,
    clockSyncedAt: Bytes, deviceSequence: u32, rebootId: Bytes, previousLocalHash: Bytes, signature: Bytes)

  datatype Item = Queued(action: Action) | Done(id: Bytes)

  predicate TextByte(b: byte) { b != 0 && b != 13 && b != 10 && b != 124 }

  predicate ValidText(s: Bytes, maximum: nat, allowEmpty: bool) {
    && (|s| > 0 || allowEmpty)
    && |s| <= maximum
    && forall i :: 0 <= i < |s| ==> TextByte(s[i])
  }

  predicate ValidUpperHex(s: Bytes, minimum: nat, maximum: nat, allowEmpty: bool) {
    if |s| == 0 then allowEmpty else
    && minimum <= |s| <= maximum
    && |s| % 2 == 0
    && forall i :: 0 <= i < |s| ==> 48 <= s[i] <= 57 || 65 <= s[i] <= 70
  }

  predicate ValidLowerHex(s: Bytes, allowEmpty: bool) {
    if |s| == 0 then allowEmpty else
    && |s| == HASH_HEX_LENGTH
    && forall i :: 0 <= i < |s| ==> 48 <= s[i] <= 57 || 97 <= s[i] <= 102
  }

  predicate ValidAction(a: Action) {
    && ValidText(a.clientRequestId, MAX_ID, false)
    && ValidUpperHex(a.uid, 8, MAX_UID, false)
    && a.command <= 3
    && ValidText(a.deviceCapturedAt, MAX_TIMESTAMP, false)
    && ValidText(a.appliedAt, MAX_TIMESTAMP, true)
    && ValidText(a.clockSyncedAt, MAX_TIMESTAMP, false)
    && a.deviceSequence != 0
    && ValidText(a.rebootId, MAX_ID, false)
    && ValidLowerHex(a.previousLocalHash, true)
    && ValidLowerHex(a.signature, false)
  }

  predicate ValidItem(kind: Kind, item: Item) {
    match kind
    case Actions => item.Queued? && ValidAction(item.action)
    case Completions => item.Done? && ValidText(item.id, MAX_ID, false)
  }

  function IdOf(item: Item): Bytes {
    match item
    case Queued(a) => a.clientRequestId
    case Done(id) => id
  }

  // ---------------------------------------------------------------- strings

  function Str(s: Bytes): Bytes
    requires |s| < 0x1_0000
  {
    U16(|s|) + s
  }

  /** Reads one length-prefixed string and returns it with what follows it. */
  function TakeString(input: Bytes, maximum: nat): Option<(Bytes, Bytes)> {
    if |input| < 2 then None else
    var n := ReadU16(input);
    if n > maximum || |input| - 2 < n then None
    else Some((input[2..2 + n], input[2 + n..]))
  }

  lemma {:induction false} TakeStringOfStr(s: Bytes, rest: Bytes, maximum: nat)
    requires |s| <= maximum < 0x1_0000
    ensures TakeString(Str(s) + rest, maximum) == Some((s, rest))
  {
    var input := Str(s) + rest;
    U16RoundTrip(|s|, s + rest);
    assert input == U16(|s|) + (s + rest);
    assert input[2..2 + |s|] == s && input[2 + |s|..] == rest;
  }

  lemma {:induction false} StrOfTakeString(input: Bytes, maximum: nat)
    requires maximum < 0x1_0000 && TakeString(input, maximum).Some?
    ensures var (s, rest) := TakeString(input, maximum).value;
            |s| <= maximum && input == Str(s) + rest
  {
    U16Injective(input);
    var (s, rest) := TakeString(input, maximum).value;
    assert input == input[..2] + (s + rest);
    assert Str(s) + rest == U16(|s|) + (s + rest);
  }

  // ---------------------------------------------------------------- payloads
  // One function per field, each writing that field and all later ones.

  function FromSignature(a: Action): Bytes requires ValidAction(a) { Str(a.signature) }
  function FromPrevious(a: Action): Bytes requires ValidAction(a) { Str(a.previousLocalHash) + FromSignature(a) }
  function FromReboot(a: Action): Bytes requires ValidAction(a) { Str(a.rebootId) + FromPrevious(a) }
  function FromSequence(a: Action): Bytes requires ValidAction(a) { U32(a.deviceSequence) + FromReboot(a) }
  function FromSynced(a: Action): Bytes requires ValidAction(a) { Str(a.clockSyncedAt) + FromSequence(a) }
  function FromApplied(a: Action): Bytes requires ValidAction(a) { Str(a.appliedAt) + FromSynced(a) }
  function FromCaptured(a: Action): Bytes requires ValidAction(a) { Str(a.deviceCapturedAt) + FromApplied(a) }
  function FromCommand(a: Action): Bytes requires ValidAction(a) { [a.command] + FromCaptured(a) }
  function FromUid(a: Action): Bytes requires ValidAction(a) { Str(a.uid) + FromCommand(a) }
  function ActionPayload(a: Action): Bytes requires ValidAction(a) { Str(a.clientRequestId) + FromUid(a) }

  function Payload(kind: Kind, item: Item): Bytes
    requires ValidItem(kind, item)
  {
    match kind
    case Actions => ActionPayload(item.action)
    case Completions => Str(item.id)
  }

  /** The fields of an action payload, in order, with nothing left over. */
  function ParseAction(payload: Bytes): Option<Action> {
    var (clientRequestId, r1) :- TakeString(payload, MAX_ID);
    var (uid, r2) :- TakeString(r1, MAX_UID);
    if |r2| < 1 then None else
    var command := r2[0];
    var (captured, r4) :- TakeString(r2[1..], MAX_TIMESTAMP);
    var (applied, r5) :- TakeString(r4, MAX_TIMESTAMP);
    var (synced, r6) :- TakeString(r5, MAX_TIMESTAMP);
    if |r6| < 4 then None else
    var sequence := ReadU32(r6);
    var (reboot, r8) :- TakeString(r6[4..], MAX_ID);
    var (previous, r9) :- TakeString(r8, HASH_HEX_LENGTH);
    var (signature, r10) :- TakeString(r9, HASH_HEX_LENGTH);
    if r10 != [] then None else
    Some(Action(clientRequestId, uid, command, captured, applied, synced, sequence, reboot, previous, signature))
  }

  lemma {:induction false} ParseActionOfPayload(a: Action)
    requires ValidAction(a)
    ensures ParseAction(ActionPayload(a)) == Some(a)
  {
    TakeStringOfStr(a.clientRequestId, FromUid(a), MAX_ID);
    TakeStringOfStr(a.uid, FromCommand(a), MAX_UID);
    assert FromCommand(a)[1..] == FromCaptured(a);
    TakeStringOfStr(a.deviceCapturedAt, FromApplied(a), MAX_TIMESTAMP);
    TakeStringOfStr(a.appliedAt, FromSynced(a), MAX_TIMESTAMP);
    TakeStringOfStr(a.clockSyncedAt, FromSequence(a), MAX_TIMESTAMP);
    U32RoundTrip(a.deviceSequence, FromReboot(a));
    assert FromSequence(a)[4..] == FromReboot(a);
    TakeStringOfStr(a.rebootId, FromPrevious(a), MAX_ID);
    TakeStringOfStr(a.previousLocalHash, FromSignature(a), HASH_HEX_LENGTH);
    assert FromSignature(a) == Str(a.signature) + [];
    TakeStringOfStr(a.signature, [], HASH_HEX_LENGTH);
  }

  lemma {:induction false} PayloadOfParseAction(payload: Bytes)
    requires ParseAction(payload).Some? && ValidAction(ParseAction(payload).value)
    ensures ActionPayload(ParseAction(payload).value) == payload
  {
    var a := ParseAction(payload).value;
    var r1 := Remainder(payload, MAX_ID, a.clientRequestId);
    var r2 := Remainder(r1, MAX_UID, a.uid);
    var r4 := Remainder(r2[1..], MAX_TIMESTAMP, a.deviceCapturedAt);
    var r5 := Remainder(r4, MAX_TIMESTAMP, a.appliedAt);
    var r6 := Remainder(r5, MAX_TIMESTAMP, a.clockSyncedAt);
    var r8 := Remainder(r6[4..], MAX_ID, a.rebootId);
    var r9 := Remainder(r8, HASH_HEX_LENGTH, a.previousLocalHash);
    var r10 := Remainder(r9, HASH_HEX_LENGTH, a.signature);
    U32Injective(r6);
    Reassemble(a, payload, r1, r2, r4, r5, r6, r8, r9);
  }

  lemma {:induction false} Reassemble(a: Action, payload: Bytes, r1: Bytes, r2: Bytes, r4: Bytes, r5: Bytes, r6: Bytes,
                                      r8: Bytes, r9: Bytes)
    requires ValidAction(a)
    requires payload == Str(a.clientRequestId) + r1 && r1 == Str(a.uid) + r2
    requires |r2| > 0 && r2[0] == a.command && r2[1..] == Str(a.deviceCapturedAt) + r4
    requires r4 == Str(a.appliedAt) + r5 && r5 == Str(a.clockSyncedAt) + r6
    requires |r6| >= 4 && r6[..4] == U32(a.deviceSequence) && r6[4..] == Str(a.rebootId) + r8
    requires r8 == Str(a.previousLocalHash) + r9 && r9 == Str(a.signature) + []
    ensures payload == ActionPayload(a)
  {
    assert r9 == FromSignature(a);
    assert r6 == r6[..4] + r6[4..] == FromSequence(a);
    assert r2 == [r2[0]] + r2[1..] == FromCommand(a);
  }

  lemma {:induction false} Remainder(input: Bytes, maximum: nat, s: Bytes) returns (rest: Bytes)
    requires maximum < 0x1_0000 && TakeString(input, maximum).Some?
    requires TakeString(input, maximum).value.0 == s
    ensures |s| < 0x1_0000 && input == Str(s) + rest && rest == TakeString(input, maximum).value.1
  {
    StrOfTakeString(input, maximum);
    rest := TakeString(input, maximum).value.1;
  }

  lemma {:induction false} PayloadSize(kind: Kind, item: Item)
    requires ValidItem(kind, item)
    ensures 3 <= |Payload(kind, item)| <= 402
    ensures kind == Actions ==> |Payload(kind, item)| >= 97
  {
    if kind == Actions {
      var a := item.action;
      assert |FromReboot(a)| == 6 + |a.rebootId| + |a.previousLocalHash| + |a.signature|;
      assert |FromApplied(a)| == 8 + |a.appliedAt| + |a.clockSyncedAt| + |FromReboot(a)|;
      assert |ActionPayload(a)| == 7 + |a.clientRequestId| + |a.uid| + |a.deviceCapturedAt| + |FromApplied(a)|;
    }
  }

  // ---------------------------------------------------------------- frames

  function MagicOf(kind: Kind): (m: Bytes)
    ensures |m| == 4
  {
    match kind
    case Actions => [79, 74, 65, 67]
    case Completions => [79, 74, 68, 78]
  }

  function Unsealed(kind: Kind, payload: Bytes): Bytes
    requires |payload| < 0x1_0000_0000
  {
    MagicOf(kind) + [FORMAT_VERSION] + U32(|payload|) + payload
  }

  function FramePayload(crc: Checksum, kind: Kind, payload: Bytes): Result<Bytes> {
    if HEADER_SIZE + |payload| + CRC_SIZE > MAX_RECORD_SIZE then Failure(Capacity)
    else Success(Unsealed(kind, payload) + U32(crc(Unsealed(kind, payload))))
  }

  function EncodeItem(crc: Checksum, kind: Kind, item: Item): Result<Bytes> {
    if !ValidItem(kind, item) then Failure(InvalidData)
    else FramePayload(crc, kind, Payload(kind, item))
  }

  function Frame(crc: Checksum, kind: Kind, item: Item): (f: Bytes)
    requires ValidItem(kind, item)
    ensures 16 <= |f| <= 415
  {
    PayloadSize(kind, item);
    FramePayload(crc, kind, Payload(kind, item)).value
  }

  /** The nine bytes a frame with this payload size starts with. */
  function HeaderOf(kind: Kind, payload: nat): Bytes
    requires payload <= MAX_PAYLOAD
  {
    MagicOf(kind) + [FORMAT_VERSION] + U32(payload)
  }

  /** The checks on the nine header bytes; the result is the length of the whole frame. */
  function HeaderLength(kind: Kind, input: Bytes): (r: Result<nat>)
    ensures r.Success? ==> HEADER_SIZE + CRC_SIZE <= r.value <= MAX_RECORD_SIZE
  {
    if |input| < HEADER_SIZE then Failure(Truncated)
    else if input[..4] != MagicOf(kind) then Failure(Magic)
    else if input[4] != FORMAT_VERSION then Failure(Version)
    else if ReadU32(input[5..9]) > MAX_PAYLOAD then Failure(Length)
    else Success(HEADER_SIZE + ReadU32(input[5..9]) + CRC_SIZE)
  }

  /** Exactly the headers of frames that fit are accepted, each with its frame's
      length; of the others the first part that is wrong decides the error. */
  lemma {:induction false} AcceptedHeaders(kind: Kind, input: Bytes, n: nat)
    ensures HeaderLength(kind, input) == Success(n)
      <==> 13 <= n <= 1024 && HeaderOf(kind, n - 13) <= input
    ensures HeaderLength(kind, input) == Failure(Truncated) <==> |input| < 9
    ensures HeaderLength(kind, input) == Failure(Magic) <==> |input| >= 9 && !(MagicOf(kind) <= input)
    ensures HeaderLength(kind, input) == Failure(Version)
      <==> |input| >= 9 && MagicOf(kind) <= input && input[4] != 1
    ensures HeaderLength(kind, input) == Failure(Length)
      <==> |input| >= 9 && MagicOf(kind) <= input && input[4] == 1
           && exists size: u32 :: size > 1011 && U32(size) == input[5..9]
    ensures MagicOf(kind) == if kind == Actions then [79, 74, 65, 67] else [79, 74, 68, 78]
  {
    hide U32, ReadU32;
    if |input| >= HEADER_SIZE {
      var rest := input[5..9];
      assert input[..9] == input[..4] + [input[4]] + rest;
      U32Injective(rest);
      assert rest[..4] == rest;
      assert forall size: u32 :: U32(size) == rest ==> ReadU32(rest) == size by {
        forall size: u32 | U32(size) == rest ensures ReadU32(rest) == size {
          U32RoundTrip(size, []);
          assert U32(size) + [] == U32(size);
        }
      }
      if HEADER_SIZE + CRC_SIZE <= n <= MAX_RECORD_SIZE {
        var payload := n - HEADER_SIZE - CRC_SIZE;
        U32RoundTrip(payload, []);
        assert U32(payload) + [] == U32(payload);
        if HeaderOf(kind, payload) <= input {
          assert HeaderOf(kind, payload) == input[..9];
          assert input[..9][5..9] == U32(payload) && input[..9][..4] == MagicOf(kind)
              && input[..9][4] == FORMAT_VERSION;
        }
      }
    }
  }

  predicate ChecksumMatches(crc: Checksum, frame: Bytes)
    requires |frame| >= HEADER_SIZE + CRC_SIZE
  {
    crc(frame[..|frame| - CRC_SIZE]) == ReadU32(frame[|frame| - CRC_SIZE..])
  }

  function DecodeAction(crc: Checksum, record: Bytes): Result<Action> {
    if |record| < HEADER_SIZE + CRC_SIZE || |record| > MAX_RECORD_SIZE then Failure(Length) else
    match HeaderLength(Actions, record)
    case Failure(e) => Failure(e)
    case Success(n) =>
      if n != |record| then Failure(Length)
      else if !ChecksumMatches(crc, record) then Failure(OutboxError.Checksum)
      else
        match ParseAction(record[HEADER_SIZE..|record| - CRC_SIZE])
        case None => Failure(InvalidData)
        case Some(a) => if ValidAction(a) then Success(a) else Failure(InvalidData)
  }

  function DecodeCompletion(frame: Bytes): Result<Bytes> {
    if |frame| < HEADER_SIZE + CRC_SIZE then Failure(Truncated) else
    match TakeString(frame[HEADER_SIZE..|frame| - CRC_SIZE], MAX_ID)
    case None => Failure(InvalidData)
    case Some((id, rest)) =>
      if rest != [] || !ValidText(id, MAX_ID, false) then Failure(InvalidData) else Success(id)
  }

  /** Decodes a frame whose header and checksum have been read as `NextFrame` does. */
  function DecodeItem(crc: Checksum, kind: Kind, frame: Bytes): Result<Item> {
    match kind
    case Actions =>
      (match DecodeAction(crc, frame) case Success(a) => Success(Queued(a)) case Failure(e) => Failure(e))
    case Completions =>
      (match DecodeCompletion(frame) case Success(id) => Success(Done(id)) case Failure(e) => Failure(e))
  }

  lemma {:induction false} Slices(magic: Bytes, version: byte, length: Bytes, payload: Bytes, seal: Bytes, rest: Bytes)
    requires |magic| == 4 && |length| == 4 && |seal| == CRC_SIZE
    ensures var body := magic + [version] + length + payload;
            var f := body + seal;
            && (f + rest)[..4] == magic && (f + rest)[4] == version && (f + rest)[5..9] == length
            && f[HEADER_SIZE..|f| - CRC_SIZE] == payload
            && f[..|f| - CRC_SIZE] == body && f[|f| - CRC_SIZE..] == seal
  {
  }

  /** The parts of a frame, by position. */
  lemma {:induction false} FrameParts(crc: Checksum, kind: Kind, item: Item, rest: Bytes)
    requires ValidItem(kind, item)
    ensures var f := Frame(crc, kind, item);
            && |f| == HEADER_SIZE + |Payload(kind, item)| + CRC_SIZE
            && HeaderLength(kind, f + rest) == Success(|f|)
            && f[HEADER_SIZE..|f| - CRC_SIZE] == Payload(kind, item)
            && ChecksumMatches(crc, f)
  {
    PayloadSize(kind, item);
    var p := Payload(kind, item);
    var u := Unsealed(kind, p);
    Slices(MagicOf(kind), FORMAT_VERSION, U32(|p|), p, U32(crc(u)), rest);
    U32RoundTrip(|p|, []);
    U32RoundTrip(crc(u), []);
    assert U32(|p|) + [] == U32(|p|) && U32(crc(u)) + [] == U32(crc(u));
  }

  /** Decoding what was encoded gives the item back. */
  lemma {:induction false} DecodeOfFrame(crc: Checksum, kind: Kind, item: Item)
    requires ValidItem(kind, item)
    ensures DecodeItem(crc, kind, Frame(crc, kind, item)) == Success(item)
  {
    FrameParts(crc, kind, item, []);
    var f := Frame(crc, kind, item);
    assert f + [] == f;
    if kind == Actions {
      ParseActionOfPayload(item.action);
    } else {
      assert Str(item.id) == Str(item.id) + [];
      TakeStringOfStr(item.id, [], MAX_ID);
    }
  }

  lemma {:induction false} PayloadOfDecode(crc: Checksum, kind: Kind, frame: Bytes)
    requires HeaderLength(kind, frame) == Success(|frame|)
    requires DecodeItem(crc, kind, frame).Success?
    ensures var item := DecodeItem(crc, kind, frame).value;
            ValidItem(kind, item) && Payload(kind, item) == frame[HEADER_SIZE..|frame| - CRC_SIZE]
  {
    var item := DecodeItem(crc, kind, frame).value;
    var payload := frame[HEADER_SIZE..|frame| - CRC_SIZE];
    if kind == Actions {
      PayloadOfParseAction(payload);
    } else {
      StrOfTakeString(payload, MAX_ID);
      assert payload == Str(item.id) + [];
    }
  }

  /** A frame is determined by its payload once header and checksum are accepted. */
  lemma {:induction false} SealedBytes(crc: Checksum, kind: Kind, frame: Bytes)
    requires HeaderLength(kind, frame) == Success(|frame|) && ChecksumMatches(crc, frame)
    ensures FramePayload(crc, kind, frame[HEADER_SIZE..|frame| - CRC_SIZE]) == Success(frame)
  {
    var payload := frame[HEADER_SIZE..|frame| - CRC_SIZE];
    var body := frame[..|frame| - CRC_SIZE];
    U32Injective(frame[5..9]);
    assert U32(|payload|) == frame[5..9][..4] == frame[5..9];
    assert body == frame[..4] + [frame[4]] + frame[5..9] + payload;
    assert body == Unsealed(kind, payload);
    var seal := frame[|frame| - CRC_SIZE..];
    U32Injective(seal);
    assert seal == seal[..4] && frame == body + seal;
  }

  /** Encoding what a reader accepted gives the accepted bytes back. */
  lemma {:induction false} FrameOfDecode(crc: Checksum, kind: Kind, frame: Bytes)
    requires HeaderLength(kind, frame) == Success(|frame|) && ChecksumMatches(crc, frame)
    requires DecodeItem(crc, kind, frame).Success?
    ensures ValidItem(kind, DecodeItem(crc, kind, frame).value)
    ensures Frame(crc, kind, DecodeItem(crc, kind, frame).value) == frame
  {
    PayloadOfDecode(crc, kind, frame);
    SealedBytes(crc, kind, frame);
  }

  /** Every valid action fits a record, and encoding and decoding are mutual inverses on
      valid actions and accepted records. */
  lemma {:induction false} ActionCodecInverse(crc: Checksum, a: Action, record: Bytes)
    ensures EncodeItem(crc, Actions, Queued(a)).Success? <==> ValidAction(a)
    ensures DecodeAction(crc, record) == Success(a) <==> EncodeItem(crc, Actions, Queued(a)) == Success(record)
  {
    if ValidAction(a) {
      var f := Frame(crc, Actions, Queued(a));
      DecodeOfFrame(crc, Actions, Queued(a));
    }
    if DecodeAction(crc, record) == Success(a) {
      FrameOfDecode(crc, Actions, record);
    }
  }

  // ------------------------------------------------------ what a record can hold

  /** Half a byte as a hexadecimal digit, the letters from `a` on. */
  function HexDigit(n: nat, a: byte): byte
    requires n < 16 && a < 250
  {
    if n < 10 then 48 + n else a + (n - 10)
  }

  function HexOf(raw: Bytes, a: byte): Bytes
    requires a < 250
  {
    if raw == [] then [] else [HexDigit(raw[0] / 16, a), HexDigit(raw[0] % 16, a)] + HexOf(raw[1..], a)
  }

  predicate IsHexDigit(b: byte, a: byte) { 48 <= b < 58 || a <= b < a + 6 }

  function HexValue(b: byte, a: byte): nat
    requires IsHexDigit(b, a)
    ensures HexValue(b, a) < 16
  {
    if 48 <= b < 58 then b - 48 else b - a + 10
  }

  lemma {:induction false} HexDigits(raw: Bytes, a: byte)
    requires a < 250
    ensures |HexOf(raw, a)| == 2 * |raw| && forall i :: 0 <= i < 2 * |raw| ==> IsHexDigit(HexOf(raw, a)[i], a)
  {
    if raw != [] { HexDigits(raw[1..], a); }
  }

  lemma {:induction false} RawOf(s: Bytes, a: byte) returns (raw: Bytes)
    requires 58 <= a < 250 && |s| % 2 == 0 && forall i :: 0 <= i < |s| ==> IsHexDigit(s[i], a)
    ensures 2 * |raw| == |s| && HexOf(raw, a) == s
  {
    if s == [] {
      raw := [];
    } else {
      var rest := RawOf(s[2..], a);
      var first: byte := 16 * HexValue(s[0], a) + HexValue(s[1], a);
      raw := [first] + rest;
      assert raw[1..] == rest && s == [s[0], s[1]] + s[2..];
    }
  }

  predicate IsText(s: Bytes, minimum: nat, maximum: nat) {
    minimum <= |s| <= maximum && 0 !in s && 10 !in s && 13 !in s && 124 !in s
  }

  ghost predicate IsHex(s: Bytes, a: byte, minimum: nat, maximum: nat)
    requires a < 250
  {
    exists raw :: minimum <= |raw| <= maximum && s == HexOf(raw, a)
  }

  lemma {:induction false} HexTexts(s: Bytes, a: byte, minimum: nat, maximum: nat)
    requires 58 <= a < 250
    ensures IsHex(s, a, minimum, maximum)
      <==> |s| % 2 == 0 && 2 * minimum <= |s| <= 2 * maximum && forall i :: 0 <= i < |s| ==> IsHexDigit(s[i], a)
  {
    if IsHex(s, a, minimum, maximum) {
      var raw :| minimum <= |raw| <= maximum && s == HexOf(raw, a);
      HexDigits(raw, a);
    }
    if |s| % 2 == 0 && forall i :: 0 <= i < |s| ==> IsHexDigit(s[i], a) { var raw := RawOf(s, a); }
  }

  /** The actions a record can hold: a card of four to ten bytes in upper-case
      hexadecimal, a signature and a link of thirty-two in lower case or none, one of
      the four commands, a sequence number, and texts within their lengths that no
      separator of a signed text or of a line can be in. */
  lemma {:induction false} ActionsARecordHolds(a: Action)
    ensures ValidAction(a) <==>
      && IsText(a.clientRequestId, 1, 64) && IsHex(a.uid, 65, 4, 10) && a.command in {0, 1, 2, 3}
      && IsText(a.deviceCapturedAt, 1, 35) && IsText(a.appliedAt, 0, 35) && IsText(a.clockSyncedAt, 1, 35)
      && a.deviceSequence > 0 && IsText(a.rebootId, 1, 64)
      && (a.previousLocalHash == [] || IsHex(a.previousLocalHash, 97, 32, 32)) && IsHex(a.signature, 97, 32, 32)
  {
    hide IsHex;
    HexTexts(a.uid, 65, 4, 10);
    HexTexts(a.previousLocalHash, 97, 32, 32);
    HexTexts(a.signature, 97, 32, 32);
    TextsAre(a.clientRequestId, 64, false);
    TextsAre(a.deviceCapturedAt, 35, false);
    TextsAre(a.appliedAt, 35, true);
    TextsAre(a.clockSyncedAt, 35, false);
    TextsAre(a.rebootId, 64, false);
  }

  lemma {:induction false} TextsAre(s: Bytes, maximum: nat, allowEmpty: bool)
    ensures ValidText(s, maximum, allowEmpty) <==> IsText(s, if allowEmpty then 0 else 1, maximum)
  {
    if ValidText(s, maximum, allowEmpty) { assert forall b :: b in s ==> TextByte(b); }
  }
}
