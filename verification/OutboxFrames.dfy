/** One frame at the front of a journal: when it is accepted, and how a cut one is classified. */
module OutboxFrames {
  import opened Bytes
  import opened OutboxFormat
  import opened Journal

  predicate ValidFrameAt(crc: Checksum, kind: Kind, input: Bytes) {
    match HeaderLength(kind, input)
    case Failure(_) => false
    case Success(n) =>
      n <= |input| && ChecksumMatches(crc, input[..n]) && DecodeItem(crc, kind, input[..n]).Success?
  }

  /** A complete valid frame starts somewhere after the first byte. */
  predicate HasValidLaterFrame(crc: Checksum, kind: Kind, input: Bytes) {
    exists offset :: 1 <= offset <= |input| - HEADER_SIZE && ValidFrameAt(crc, kind, input[offset..])
  }

  /** The frame at the front of the input: its item and its length. */
  function NextFrame(crc: Checksum, kind: Kind, input: Bytes): (r: Result<(Item, nat)>)
    ensures r.Success? ==> 0 < r.value.1 <= |input|
    ensures r.Failure? ==> r.error != NoError
  {
    match HeaderLength(kind, input)
    case Failure(e) => Failure(e)
    case Success(n) =>
      if n > |input| then Failure(if HasValidLaterFrame(crc, kind, input) then Length else Truncated)
      else if !ChecksumMatches(crc, input[..n]) then Failure(OutboxError.Checksum)
      else
        match DecodeItem(crc, kind, input[..n])
        case Failure(e) => Failure(e)
        case Success(item) => Success((item, n))
  }

  lemma {:induction false} NextFrameOfFrame(crc: Checksum, kind: Kind, item: Item, rest: Bytes)
    requires ValidItem(kind, item)
    ensures NextFrame(crc, kind, Frame(crc, kind, item) + rest) == Success((item, |Frame(crc, kind, item)|))
  {
    var f := Frame(crc, kind, item);
    FrameParts(crc, kind, item, rest);
    DecodeOfFrame(crc, kind, item);
    assert (f + rest)[..|f|] == f;
  }

  // ------------------------------------------------ a cut frame hides no other frame

  predicate ZeroPair(b: Bytes, p: int) {
    0 <= p < |b| - 1 && b[p] == 0 && b[p + 1] == 0
  }

  predicate NoZero(s: Bytes) {
    forall i :: 0 <= i < |s| ==> s[i] != 0
  }

  /** Two zero bytes in a row cannot lie in a non-empty text or before its end. */
  lemma {:induction false} SkipText(s: Bytes, rest: Bytes, p: int)
    requires 0 < |s| < 256 && NoZero(s) && ZeroPair(Str(s) + rest, p)
    ensures ZeroPair(rest, p - 2 - |s|) && (Str(s) + rest)[p + 2..] == rest[p - |s|..]
  {
    var all := Str(s) + rest;
    assert all[0] == |s| && all[1] == 0;
    assert forall i :: 0 <= i < |s| ==> all[2 + i] == s[i];
    assert p + 1 < |all| && all[p] == rest[p - 2 - |s|];
    assert all[p + 1] == rest[p + 1 - 2 - |s|];
  }

  /** An empty text is itself such a pair. */
  lemma {:induction false} SkipEmptyText(rest: Bytes, p: int)
    requires |rest| > 0 && rest[0] != 0 && ZeroPair(Str([]) + rest, p)
    ensures p == 0 || ZeroPair(rest, p - 2)
    ensures (Str([]) + rest)[p + 2..] == rest[p..]
  {
    var all := Str([]) + rest;
    assert all[1..] == [0] + rest && all[2..] == rest;
    assert all[2] == rest[0];
    if p > 1 {
      assert all[p] == rest[p - 2] && all[p + 1] == rest[p - 1];
    }
  }

  /** Where two zero bytes in a row can occur in an action payload, told by what follows them. */
  predicate FollowsZeroPair(a: Action, after: Bytes)
    requires ValidAction(a)
  {
    || after == FromSynced(a)
    || after == FromSignature(a)
    || after == FromReboot(a)
    || after == FromSequence(a)[3..]
    || after == FromSequence(a)[2..]
  }

  lemma {:induction false} ZeroPairsFromPrevious(a: Action, p: int)
    requires ValidAction(a) && ZeroPair(FromPrevious(a), p)
    ensures FromPrevious(a)[p + 2..] == FromSignature(a)
  {
    var n := |a.previousLocalHash|;
    assert FromSignature(a) == Str(a.signature) + [];
    if n == 0 {
      SkipEmptyText(FromSignature(a), p);
    } else {
      SkipText(a.previousLocalHash, FromSignature(a), p);
    }
    if n != 0 || p != 0 {
      SkipText(a.signature, [], p - 2 - n);
    }
  }

  lemma {:induction false} ZeroPairsFromSequence(a: Action, p: int)
    requires ValidAction(a) && ZeroPair(FromSequence(a), p)
    ensures FollowsZeroPair(a, FromSequence(a)[p + 2..])
  {
    var all := FromSequence(a);
    assert all[4..] == FromReboot(a);
    assert all[4] == FromReboot(a)[0] == |a.rebootId|;
    if p > 2 {
      assert all[p + 2..] == FromReboot(a)[p - 2..];
      SkipText(a.rebootId, FromPrevious(a), p - 4);
      ZeroPairsFromPrevious(a, p - 6 - |a.rebootId|);
    }
  }

  lemma {:induction false} ZeroPairsFromSynced(a: Action, p: int)
    requires ValidAction(a) && ZeroPair(FromSynced(a), p)
    ensures FollowsZeroPair(a, FromSynced(a)[p + 2..])
  {
    hide FollowsZeroPair, FromSequence;
    SkipText(a.clockSyncedAt, FromSequence(a), p);
    ZeroPairsFromSequence(a, p - 2 - |a.clockSyncedAt|);
  }

  lemma {:induction false} ZeroPairsFromApplied(a: Action, p: int)
    requires ValidAction(a) && ZeroPair(FromApplied(a), p)
    ensures FollowsZeroPair(a, FromApplied(a)[p + 2..])
  {
    var tail := FromSynced(a);
    assert tail[0] == |a.clockSyncedAt|;
    if a.appliedAt == [] {
      SkipEmptyText(tail, p);
    } else {
      SkipText(a.appliedAt, tail, p);
    }
    if a.appliedAt != [] || p != 0 {
      ZeroPairsFromSynced(a, p - 2 - |a.appliedAt|);
    }
  }

  lemma {:induction false} ZeroPairsFromCommand(a: Action, p: int)
    requires ValidAction(a) && ZeroPair(FromCommand(a), p)
    ensures FollowsZeroPair(a, FromCommand(a)[p + 2..])
  {
    hide FollowsZeroPair, FromApplied;
    assert FromCommand(a)[1..] == FromCaptured(a);
    assert FromCommand(a)[1] == FromCaptured(a)[0] == |a.deviceCapturedAt|;
    assert FromCommand(a)[p + 2..] == FromCaptured(a)[p - 1 + 2..];
    SkipText(a.deviceCapturedAt, FromApplied(a), p - 1);
    ZeroPairsFromApplied(a, p - 3 - |a.deviceCapturedAt|);
  }

  lemma {:induction false} ZeroPairsFromUid(a: Action, p: int)
    requires ValidAction(a) && ZeroPair(FromUid(a), p)
    ensures FollowsZeroPair(a, FromUid(a)[p + 2..])
  {
    hide FollowsZeroPair, FromCommand;
    SkipText(a.uid, FromCommand(a), p);
    ZeroPairsFromCommand(a, p - 2 - |a.uid|);
  }

  lemma {:induction false} ZeroPairsInPayload(a: Action, p: int)
    requires ValidAction(a) && ZeroPair(ActionPayload(a), p)
    ensures FollowsZeroPair(a, ActionPayload(a)[p + 2..])
  {
    hide FollowsZeroPair, FromUid;
    SkipText(a.clientRequestId, FromUid(a), p);
    ZeroPairsFromUid(a, p - 2 - |a.clientRequestId|);
  }

  /** How every action payload begins: an id of length c, then a tag of at least eight
      hexadecimal digits. */
  predicate HeadedBy(y: Bytes, c: int, u: int) {
    && 1 <= c <= 64 && 8 <= u <= 20 && |y| >= 88 + c + u
    && y[0] == c && y[1] == 0 && y[2 + c] == u && y[3 + c] == 0
    && (forall i :: 2 <= i < 2 + c ==> y[i] != 0)
    && (forall i :: 4 + c <= i < 4 + c + u ==> y[i] != 0)
  }

  lemma {:induction false} PayloadHead(a: Action, y: Bytes)
    requires ValidAction(a) && y == ActionPayload(a)
    ensures HeadedBy(y, |a.clientRequestId|, |a.uid|)
  {
    var c, u := |a.clientRequestId|, |a.uid|;
    assert |FromReboot(a)| == 6 + |a.rebootId| + |a.previousLocalHash| + |a.signature|;
    assert |FromApplied(a)| == 8 + |a.appliedAt| + |a.clockSyncedAt| + |FromReboot(a)|;
    assert |y| == 7 + c + u + |a.deviceCapturedAt| + |FromApplied(a)|;
    assert y[2 + c..] == FromUid(a);
    assert y[4 + c..] == a.uid + FromCommand(a);
    assert forall i :: 2 <= i < 2 + c ==> y[i] == a.clientRequestId[i - 2];
    assert forall i :: 4 + c <= i < 4 + c + u ==> y[i] == (a.uid + FromCommand(a))[i - 4 - c] == a.uid[i - 4 - c];
  }

  lemma {:induction false} NotHeadedAfterApplied(a: Action, y: Bytes, c: int, u: int)
    requires ValidAction(a) && y < FromSynced(a)
    ensures !HeadedBy(y, c, u)
  {
    var s := |a.clockSyncedAt|;
    var after := FromSynced(a);
    assert after[0] == s;
    assert after[2 + s..] == FromSequence(a) && FromSequence(a)[4..] == FromReboot(a);
    assert after[4 + s + 3] == FromReboot(a)[1] == 0;
  }

  lemma {:induction false} NotHeadedAtReboot(a: Action, y: Bytes, c: int, u: int)
    requires ValidAction(a) && y < FromReboot(a)
    ensures !HeadedBy(y, c, u)
  {
    var n := |a.rebootId|;
    var after := FromReboot(a);
    assert after[0] == n;
    assert after[2 + n..] == FromPrevious(a);
    assert after[2 + n] == FromPrevious(a)[0] == |a.previousLocalHash|;
  }

  lemma {:induction false} NotHeadedInSequence(a: Action, y: Bytes, k: nat, c: int, u: int)
    requires ValidAction(a) && 2 <= k <= 3 && y < FromSequence(a)[k..]
    ensures !HeadedBy(y, c, u)
  {
    var all := FromSequence(a);
    assert all[4..] == FromReboot(a);
    assert all[4] == FromReboot(a)[0] == |a.rebootId| && all[5] == FromReboot(a)[1] == 0;
    if |y| >= 4 {
      assert y[1] == all[k + 1] && y[2] == all[k + 2] && y[3] == all[k + 3];
    }
  }

  /** No action payload starts right after a pair of zeros inside another one and ends before it. */
  lemma {:induction false} NoPayloadWithin(a: Action, inner: Action, p: int)
    requires ValidAction(a) && ValidAction(inner) && ZeroPair(ActionPayload(a), p)
    ensures !(ActionPayload(inner) < ActionPayload(a)[p + 2..])
  {
    var y := ActionPayload(inner);
    var after := ActionPayload(a)[p + 2..];
    if y < after {
      ZeroPairsInPayload(a, p);
      PayloadHead(inner, y);
      var c, u := |inner.clientRequestId|, |inner.uid|;
      if after == FromSynced(a) {
        NotHeadedAfterApplied(a, y, c, u);
      } else if after == FromReboot(a) {
        NotHeadedAtReboot(a, y, c, u);
      } else if after != FromSignature(a) {
        NotHeadedInSequence(a, y, if after == FromSequence(a)[3..] then 3 else 2, c, u);
      }
    }
  }

  /** Positions of a frame lying inside the frame `head + p + seal` and ending before it. */
  lemma {:induction false} InnerPosition(f: Bytes, head: Bytes, p: Bytes, seal: Bytes, frame: Bytes, offset: nat)
    requires f == head + p + seal && |head| == HEADER_SIZE && |seal| == CRC_SIZE
    requires p != [] && p[0] != 0
    requires HEADER_SIZE + CRC_SIZE <= |frame| && 1 <= offset && offset + |frame| < |f|
    requires frame == f[offset..offset + |frame|] && frame[7] == 0 && frame[8] == 0
    ensures ZeroPair(p, offset - 2)
    ensures frame[HEADER_SIZE..|frame| - CRC_SIZE] < p[offset..]
  {
    assert frame[7] == f[offset + 7] && frame[8] == f[offset + 8];
    assert f[HEADER_SIZE] == p[0];
    assert forall i :: 0 <= i < |p| ==> f[HEADER_SIZE + i] == p[i];
    assert p[offset - 2] == f[offset + 7] && p[offset - 1] == f[offset + 8];
  }

  lemma {:induction false} NoFrameWithin(crc: Checksum, kind: Kind, item: Item, f: Bytes, frame: Bytes, offset: nat)
    requires ValidItem(kind, item) && f == Frame(crc, kind, item)
    requires 1 <= offset && offset + |frame| < |f| && frame == f[offset..offset + |frame|]
    requires HeaderLength(kind, frame) == Success(|frame|)
    ensures !DecodeItem(crc, kind, frame).Success?
  {
    hide Frame, DecodeItem, HeaderLength, Payload;
    if DecodeItem(crc, kind, frame).Success? {
      var inner, y := InnerPayload(crc, kind, frame);
      var head, p, seal := FrameSlices(crc, kind, item, f);
      InnerPosition(f, head, p, seal, frame, offset);
      NoZeroPairBefore(kind, item, inner, offset - 2);
    }
  }

  lemma {:induction false} FrameSlices(crc: Checksum, kind: Kind, item: Item, f: Bytes)
    returns (head: Bytes, p: Bytes, seal: Bytes)
    requires ValidItem(kind, item) && f == Frame(crc, kind, item)
    ensures f == head + p + seal && |head| == HEADER_SIZE && |seal| == CRC_SIZE
    ensures p == Payload(kind, item) && p != [] && p[0] != 0
  {
    FrameParts(crc, kind, item, []);
    head, p, seal := f[..HEADER_SIZE], Payload(kind, item), f[|f| - CRC_SIZE..];
    assert p[0] == |IdOf(item)|;
  }

  lemma {:induction false} NoZeroPairBefore(kind: Kind, item: Item, inner: Item, p: int)
    requires ValidItem(kind, item) && ValidItem(kind, inner) && ZeroPair(Payload(kind, item), p)
    ensures !(Payload(kind, inner) < Payload(kind, item)[p + 2..])
  {
    if kind == Actions {
      NoPayloadWithin(item.action, inner.action, p);
    } else {
      assert Str(item.id) + [] == Str(item.id);
      SkipText(item.id, [], p);
    }
  }

  lemma {:induction false} InnerPayload(crc: Checksum, kind: Kind, frame: Bytes) returns (inner: Item, y: Bytes)
    requires HeaderLength(kind, frame) == Success(|frame|) && DecodeItem(crc, kind, frame).Success?
    ensures ValidItem(kind, inner) && y == Payload(kind, inner)
    ensures y == frame[HEADER_SIZE..|frame| - CRC_SIZE]
    ensures frame[7] == 0 && frame[8] == 0
  {
    PayloadOfDecode(crc, kind, frame);
    inner := DecodeItem(crc, kind, frame).value;
    y := Payload(kind, inner);
    assert frame[5..9][2] == frame[7] && frame[5..9][3] == frame[8];
  }

  lemma {:induction false} HeaderOfPrefix(kind: Kind, input: Bytes, n: nat)
    requires HEADER_SIZE <= n <= |input|
    ensures HeaderLength(kind, input[..n]) == HeaderLength(kind, input)
  {
    assert input[..n][..4] == input[..4] && input[..n][5..9] == input[5..9];
  }

  lemma {:induction false} NoValidFrameAt(crc: Checksum, kind: Kind, item: Item, f: Bytes, cut: Bytes, offset: nat)
    requires ValidItem(kind, item) && f == Frame(crc, kind, item) && cut < f
    requires 1 <= offset <= |cut| - HEADER_SIZE
    ensures !ValidFrameAt(crc, kind, cut[offset..])
  {
    hide Frame, DecodeItem, HeaderLength, ChecksumMatches;
    var input := cut[offset..];
    var header := HeaderLength(kind, input);
    if header.Success? && header.value <= |input| {
      var frame := input[..header.value];
      HeaderOfPrefix(kind, input, header.value);
      assert frame == f[offset..offset + |frame|];
      NoFrameWithin(crc, kind, item, f, frame, offset);
    }
  }

  lemma {:induction false} NoValidLaterFrame(crc: Checksum, kind: Kind, item: Item, f: Bytes, cut: Bytes)
    requires ValidItem(kind, item) && f == Frame(crc, kind, item) && cut < f
    ensures !HasValidLaterFrame(crc, kind, cut)
  {
    hide Frame, ValidFrameAt;
    forall offset | 1 <= offset <= |cut| - HEADER_SIZE
      ensures !ValidFrameAt(crc, kind, cut[offset..])
    {
      NoValidFrameAt(crc, kind, item, f, cut, offset);
    }
  }

  lemma {:induction false} HeaderOfFrame(crc: Checksum, kind: Kind, item: Item)
    requires ValidItem(kind, item)
    ensures HeaderLength(kind, Frame(crc, kind, item)) == Success(|Frame(crc, kind, item)|)
  {
    hide Frame, HeaderLength;
    FrameParts(crc, kind, item, []);
    assert Frame(crc, kind, item) + [] == Frame(crc, kind, item);
  }

  /** A frame cut short is read as Truncated: nothing later looks like a frame. */
  lemma {:induction false} CutFrameIsTruncated(crc: Checksum, kind: Kind, item: Item, cut: Bytes)
    requires ValidItem(kind, item) && cut != [] && cut < Frame(crc, kind, item)
    ensures NextFrame(crc, kind, cut) == Failure(Truncated)
  {
    hide Frame, HasValidLaterFrame, DecodeItem, ChecksumMatches, ValidItem;
    var f := Frame(crc, kind, item);
    HeaderOfFrame(crc, kind, item);
    NoValidLaterFrame(crc, kind, item, f, cut);
    if |cut| >= HEADER_SIZE {
      assert cut == f[..|cut|];
      HeaderOfPrefix(kind, f, |cut|);
    }
  }

  lemma {:induction false} AcceptedFrame(crc: Checksum, kind: Kind, input: Bytes)
    requires NextFrame(crc, kind, input).Success?
    ensures var (item, n) := NextFrame(crc, kind, input).value;
            ValidItem(kind, item) && Frame(crc, kind, item) == input[..n]
  {
    var (item, n) := NextFrame(crc, kind, input).value;
    HeaderOfPrefix(kind, input, n);
    FrameOfDecode(crc, kind, input[..n]);
  }

  /** The outbox's own codec. */
  function OutboxCodec(crc: Checksum, kind: Kind): Codec {
    Codec(x => ValidItem(kind, x),
          x => if ValidItem(kind, x) then Frame(crc, kind, x) else [],
          input => NextFrame(crc, kind, input))
  }

  lemma {:induction false} OutboxCodecIsLawful(crc: Checksum, kind: Kind)
    ensures Lawful(OutboxCodec(crc, kind))
  {
    hide NextFrame, Frame, ValidItem;
    var c := OutboxCodec(crc, kind);
    forall x, rest ensures ReadsBack(c, x, rest) {
      if c.valid(x) { NextFrameOfFrame(crc, kind, x, rest); }
    }
    forall x, cut ensures ReportsCut(c, x, cut) {
      if c.valid(x) && cut != [] && cut < c.frame(x) { CutFrameIsTruncated(crc, kind, x, cut); }
    }
    forall input ensures Sound(c, input) {
      if c.next(input).Success? { AcceptedFrame(crc, kind, input); }
    }
  }
}
