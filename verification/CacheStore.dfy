/** The two-slot employee cache: choosing a slot, loading, and replacing the
    snapshot so that a loss of power leaves the old one or the new one. */
module CacheStore {
  import opened Bytes
  import opened OutboxFormat
  import opened CacheCodec

  datatype Slot = SlotA | SlotB

  datatype Selector = Missing | Pointing(slot: Slot) | Corrupt

  /** The two files and the stored selector. */
  datatype Disk = Disk(a: Option<Bytes>, b: Option<Bytes>, selector: Selector)

  function FileOf(d: Disk, slot: Slot): Option<Bytes> { if slot == SlotA then d.a else d.b }

  function WithFile(d: Disk, slot: Slot, file: Option<Bytes>): Disk {
    if slot == SlotA then d.(a := file) else d.(b := file)
  }

  function Other(slot: Slot): Slot { if slot == SlotA then SlotB else SlotA }

  // -------------------------------------------------------------------- reading

  function ReadFile(crc: Checksum, file: Option<Bytes>): Result<Snapshot> {
    match file
    case None => Failure(NotFound)
    case Some(bytes) => if |bytes| > MAX_ENCODED then Failure(Length) else Decode(crc, bytes)
  }

  datatype Selection = Selection(slot: Option<Slot>, repair: bool)

  /** `selectCacheSlot`: the higher revision; on a tie the one pointed at, or A. */
  function Select(selector: Selector, a: Result<Snapshot>, b: Result<Snapshot>): Selection {
    var selected :=
      if a.Success? && b.Success? then
        (if a.value.revision > b.value.revision then Some(SlotA)
         else if b.value.revision > a.value.revision then Some(SlotB)
         else if selector == Pointing(SlotB) then Some(SlotB)
         else Some(SlotA))
      else if a.Success? then Some(SlotA)
      else if b.Success? then Some(SlotB)
      else None;
    var pointed := if selector.Pointing? then Some(selector.slot) else None;
    Selection(selected, selected.Some? && selected != pointed)
  }

  function SelectionOf(crc: Checksum, d: Disk): Selection {
    Select(d.selector, ReadFile(crc, d.a), ReadFile(crc, d.b))
  }

  function NoSnapshotError(selector: Selector, a: Result<Snapshot>, b: Result<Snapshot>): OutboxError {
    var errorA := if a.Failure? then a.error else NoError;
    var errorB := if b.Failure? then b.error else NoError;
    if selector == Pointing(SlotA) && errorA != NotFound then errorA
    else if selector == Pointing(SlotB) && errorB != NotFound then errorB
    else if errorA != NotFound then errorA
    else if errorB != NotFound then errorB
    else NotFound
  }

  /** What `load` returns. */
  function Loaded(crc: Checksum, d: Disk): Result<Snapshot> {
    var selection := SelectionOf(crc, d);
    match selection.slot
    case None => Failure(NoSnapshotError(d.selector, ReadFile(crc, d.a), ReadFile(crc, d.b)))
    case Some(slot) => ReadFile(crc, FileOf(d, slot))
  }

  lemma {:induction false} ReadErrors(crc: Checksum, file: Option<Bytes>)
    ensures ReadFile(crc, file).Failure? ==> ReadFile(crc, file).error != NoError
    ensures file.Some? && ReadFile(crc, file).Failure? ==> ReadFile(crc, file).error != NotFound
  {
    hide Decode;
    if file.Some? { DecodeErrors(crc, file.value); }
  }

  /** What is loaded is a valid snapshot, and no readable slot holds a newer one. */
  lemma {:induction false} LoadedIsNewestValid(crc: Checksum, d: Disk, slot: Slot)
    ensures Loaded(crc, d).Success? ==> ValidSnapshot(Loaded(crc, d).value)
    ensures ReadFile(crc, FileOf(d, slot)).Success? ==>
      Loaded(crc, d).Success? && Loaded(crc, d).value.revision >= ReadFile(crc, FileOf(d, slot)).value.revision
  {
    hide Decode, ValidSnapshot;
    ReadIsValid(crc, d.a);
    ReadIsValid(crc, d.b);
  }

  /** Of two snapshots of one revision the one pointed at is loaded, or A's; without
      any, the error is that of the file pointed at, or else A's, or else B's. */
  lemma {:induction false} WhatIsLoaded(crc: Checksum, d: Disk)
    ensures var a, b := ReadFile(crc, d.a), ReadFile(crc, d.b);
      && (a.Success? && b.Success? && a.value.revision == b.value.revision ==>
            Loaded(crc, d) == if d.selector == Pointing(SlotB) then b else a)
      && (a.Failure? && b.Failure? ==>
            Loaded(crc, d).Failure?
            && (if d.a == None && d.b == None then Loaded(crc, d) == Failure(NotFound)
                else if d.a == None then Loaded(crc, d) == b
                else if d.b == None then Loaded(crc, d) == a
                else Loaded(crc, d) == if d.selector == Pointing(SlotB) then b else a))
  {
    hide Decode;
    ReadErrors(crc, d.a);
    ReadErrors(crc, d.b);
  }

  lemma {:induction false} ReadIsValid(crc: Checksum, file: Option<Bytes>)
    ensures ReadFile(crc, file).Success? ==> ValidSnapshot(ReadFile(crc, file).value)
  {
    hide Decode, ValidSnapshot;
    if file.Some? { DecodedIsValid(crc, file.value); }
  }

  // ------------------------------------------------------- the calls of a replace

  datatype Call = SelectSlot(slot: Slot) | WriteFile(slot: Slot, bytes: Bytes)

  function Applied(d: Disk, call: Call): Disk {
    match call
    case SelectSlot(slot) => d.(selector := Pointing(slot))
    case WriteFile(slot, bytes) => WithFile(d, slot, Some(bytes))
  }

  /** A call cut by a loss of power: nothing, or for a write any prefix in a file
      already emptied, or everything. */
  ghost predicate Cut(d: Disk, call: Call, after: Disk) {
    || after == d
    || after == Applied(d, call)
    || (call.WriteFile? && exists k :: 0 <= k <= |call.bytes| && after == WithFile(d, call.slot, Some(call.bytes[..k])))
  }

  function AllApplied(d: Disk, calls: seq<Call>): Disk
    decreases |calls|
  {
    if calls == [] then d else AllApplied(Applied(d, calls[0]), calls[1..])
  }

  ghost predicate Interrupted(d: Disk, calls: seq<Call>, after: Disk)
    decreases |calls|
  {
    if calls == [] then after == d
    else Cut(d, calls[0], after) || Interrupted(Applied(d, calls[0]), calls[1..], after)
  }

  /** The slot a replace writes to, if it writes at all. */
  function Target(crc: Checksum, d: Disk): Option<Slot> {
    var selected := SelectionOf(crc, d).slot;
    var active := if selected.Some? then selected else if d.selector.Pointing? then Some(d.selector.slot) else None;
    if active == Some(SlotA) then Some(SlotB)
    else if active == None && ReadFile(crc, d.a) != Failure(NotFound) then
      (if ReadFile(crc, d.b) != Failure(NotFound) then None else Some(SlotB))
    else Some(SlotA)
  }

  /** A replace never writes over what is loaded, nor over the file pointed at while
      nothing can be loaded; with no file pointed at it takes a free one, A first, and
      where both files are there it writes nothing. */
  lemma {:induction false} WhereAReplaceWrites(crc: Checksum, d: Disk)
    ensures Loaded(crc, d).Success? ==>
      Target(crc, d).Some? && Loaded(crc, d) == ReadFile(crc, FileOf(d, Other(Target(crc, d).value)))
    ensures Loaded(crc, d).Failure? ==>
      Target(crc, d) ==
        if d.selector.Pointing? then Some(Other(d.selector.slot))
        else if d.a == None then Some(SlotA)
        else if d.b == None then Some(SlotB)
        else None
  {
    hide Decode;
    ReadErrors(crc, d.a);
    ReadErrors(crc, d.b);
  }

  /** The selector's repair, if it needs one. */
  function RepairCalls(crc: Checksum, d: Disk): seq<Call> {
    var selection := SelectionOf(crc, d);
    if selection.repair && selection.slot.Some? then [SelectSlot(selection.slot.value)] else []
  }

  function ReplaceCalls(crc: Checksum, d: Disk, bytes: Bytes): seq<Call> {
    match Target(crc, d)
    case None => RepairCalls(crc, d)
    case Some(target) => RepairCalls(crc, d) + [WriteFile(target, bytes), SelectSlot(target)]
  }

  predicate Storable(s: Snapshot) {
    ValidSnapshot(s) && AllEncodable(s.entries)
  }

  /** The bytes read as the snapshot when whole and as nothing when cut. */
  ghost predicate Whole(crc: Checksum, s: Snapshot, bytes: Bytes) {
    && ReadFile(crc, Some(bytes)) == Success(s)
    && forall k :: 0 <= k < |bytes| ==> ReadFile(crc, Some(bytes[..k])).Failure?
  }

  lemma {:induction false} EncodedIsWhole(crc: Checksum, s: Snapshot)
    requires Storable(s)
    ensures |PayloadOf(s)| < 0x1_0000_0000 && Whole(crc, s, Encoded(crc, s))
  {
    hide ValidSnapshot, PayloadOf, Decode;
    ValidSnapshotsFit(s);
    EncodedParts(crc, s);
    SnapshotRoundTrip(crc, s);
    forall k | 0 <= k < |Encoded(crc, s)| ensures ReadFile(crc, Some(Encoded(crc, s)[..k])).Failure? {
      CutSnapshotIsRefused(crc, s, k);
    }
  }

  /** Repairing the selector, done or not, changes nothing that is loaded. */
  lemma {:induction false} RepairKeepsLoaded(crc: Checksum, d: Disk)
    requires SelectionOf(crc, d).slot.Some?
    ensures var repaired := d.(selector := Pointing(SelectionOf(crc, d).slot.value));
      Loaded(crc, repaired) == Loaded(crc, d) && !SelectionOf(crc, repaired).repair
      && SelectionOf(crc, repaired).slot == SelectionOf(crc, d).slot && Target(crc, repaired) == Target(crc, d)
  {
    hide ReadFile;
  }

  /** With the selector in step, writing the other slot up to any point leaves the
      old snapshot, or both, to choose from. */
  ghost predicate OldOrNew(crc: Checksum, before: Disk, after: Disk, s: Snapshot) {
    || Loaded(crc, after) == Success(s)
    || Loaded(crc, after) == Loaded(crc, before)
    || (Loaded(crc, before).Failure? && Loaded(crc, after).Failure?)
  }

  predicate NotOlder(crc: Checksum, d: Disk, s: Snapshot) {
    Loaded(crc, d).Success? ==> s.revision >= Loaded(crc, d).value.revision
  }

  lemma {:induction false} WriteKeepsOldOrNew(crc: Checksum, d: Disk, s: Snapshot, file: Option<Bytes>)
    requires !SelectionOf(crc, d).repair && Target(crc, d).Some?
    requires ReadFile(crc, file).Failure? || ReadFile(crc, file) == Success(s)
      || file == FileOf(d, Target(crc, d).value)
    ensures OldOrNew(crc, d, WithFile(d, Target(crc, d).value, file), s)
  {
    hide ReadFile;
  }

  lemma {:induction false} AfterSelecting(crc: Checksum, d: Disk, s: Snapshot, bytes: Bytes)
    requires !SelectionOf(crc, d).repair && Target(crc, d).Some? && ReadFile(crc, Some(bytes)) == Success(s)
    ensures var target := Target(crc, d).value;
      var after := WithFile(d, target, Some(bytes)).(selector := Pointing(target));
      && OldOrNew(crc, d, after, s)
      && (Loaded(crc, after) == Success(s) <==> NotOlder(crc, d, s))
  {
    hide ReadFile;
  }

  lemma {:induction false} FilesAreWritten(d: Disk, slot: Slot, file: Option<Bytes>)
    ensures FileOf(WithFile(d, slot, file), slot) == file && WithFile(d, slot, FileOf(d, slot)) == d
    ensures WithFile(d, slot, file).selector == d.selector
  {
  }

  // A replace on a disk whose selector is in step.
  lemma {:induction false} WriteAndSelect(crc: Checksum, d: Disk, s: Snapshot, bytes: Bytes, after: Disk)
    requires Whole(crc, s, bytes) && !SelectionOf(crc, d).repair && Target(crc, d).Some?
    requires Interrupted(d, [WriteFile(Target(crc, d).value, bytes), SelectSlot(Target(crc, d).value)], after)
    ensures OldOrNew(crc, d, after, s)
  {
    hide SelectionOf, Target, ReadFile, OldOrNew;
    var target := Target(crc, d).value;
    var calls := [WriteFile(target, bytes), SelectSlot(target)];
    FilesAreWritten(d, target, Some(bytes));
    var written := WithFile(d, target, Some(bytes));
    assert calls[1..] == [SelectSlot(target)] && calls[1..][1..] == [];
    WriteKeepsOldOrNew(crc, d, s, Some(bytes));
    AfterSelecting(crc, d, s, bytes);
    if Cut(d, calls[0], after) && after != written {
      FilesAreWritten(d, target, None);
      if after == d {
        WriteKeepsOldOrNew(crc, d, s, FileOf(d, target));
      } else {
        var k :| 0 <= k <= |bytes| && after == WithFile(d, target, Some(bytes[..k]));
        assert bytes[..|bytes|] == bytes;
        WriteKeepsOldOrNew(crc, d, s, Some(bytes[..k]));
      }
    } else {
      SelectCut(written, target, after);
    }
  }

  lemma {:induction false} SelectCut(d: Disk, target: Slot, after: Disk)
    requires Interrupted(d, [SelectSlot(target)], after) || after == d
    ensures after == d || after == d.(selector := Pointing(target))
  {
    assert [SelectSlot(target)][1..] == [];
  }

  /** A loss of power anywhere in a replace leaves the snapshot that was loaded
      before, or the new one whole; where nothing could be loaded, nothing or the
      new one. */
  lemma {:induction false} ReplaceIsAtomic(crc: Checksum, d: Disk, s: Snapshot, bytes: Bytes, after: Disk)
    requires Whole(crc, s, bytes) && Interrupted(d, ReplaceCalls(crc, d, bytes), after)
    ensures OldOrNew(crc, d, after, s)
  {
    hide SelectionOf, Target, ReadFile, Loaded, Whole;
    var repair := RepairCalls(crc, d);
    if Target(crc, d).None? {
      NoTargetNoSelection(crc, d);
    } else {
      var rest := [WriteFile(Target(crc, d).value, bytes), SelectSlot(Target(crc, d).value)];
      if repair == [] {
        InStep(crc, d);
        assert repair + rest == rest;
        WriteAndSelect(crc, d, s, bytes, after);
      } else {
        var slot := SelectionOf(crc, d).slot.value;
        var repaired := d.(selector := Pointing(slot));
        RepairKeepsLoaded(crc, d);
        assert (repair + rest)[0] == SelectSlot(slot) && (repair + rest)[1..] == rest;
        if Interrupted(repaired, rest, after) { WriteAndSelect(crc, repaired, s, bytes, after); }
      }
    }
  }

  lemma {:induction false} InStep(crc: Checksum, d: Disk)
    requires RepairCalls(crc, d) == []
    ensures !SelectionOf(crc, d).repair
  {
  }

  lemma {:induction false} NoTargetNoSelection(crc: Checksum, d: Disk)
    requires Target(crc, d).None?
    ensures RepairCalls(crc, d) == []
  {
  }

  /** After a replace that wrote and selected, loading returns the new snapshot
      exactly when no valid one of a higher revision was stored: revisions that
      never decrease, equal ones included, are enough and are needed. */
  lemma {:induction false} ReplacedIsLoaded(crc: Checksum, d: Disk, s: Snapshot, bytes: Bytes)
    requires Whole(crc, s, bytes) && Target(crc, d).Some?
    ensures Loaded(crc, AllApplied(d, ReplaceCalls(crc, d, bytes))) == Success(s) <==> NotOlder(crc, d, s)
  {
    hide SelectionOf, Target, ReadFile, Loaded;
    var repair, target := RepairCalls(crc, d), Target(crc, d).value;
    if repair == [] {
      InStep(crc, d);
      AfterSelecting(crc, d, s, bytes);
    } else {
      RepairKeepsLoaded(crc, d);
      AfterSelecting(crc, d.(selector := Pointing(SelectionOf(crc, d).slot.value)), s, bytes);
    }
    AppliedInTurn(d, repair, target, bytes);
  }

  lemma {:induction false} AppliedInTurn(d: Disk, repair: seq<Call>, target: Slot, bytes: Bytes)
    requires |repair| <= 1
    ensures var repaired := if repair == [] then d else Applied(d, repair[0]);
      && AllApplied(d, repair) == repaired
      && AllApplied(d, repair + [WriteFile(target, bytes), SelectSlot(target)])
           == WithFile(repaired, target, Some(bytes)).(selector := Pointing(target))
  {
    var rest := [WriteFile(target, bytes), SelectSlot(target)];
    assert rest[1..] == [SelectSlot(target)] && rest[1..][1..] == [];
    var repaired := if repair == [] then d else Applied(d, repair[0]);
    var written := Applied(repaired, rest[0]);
    assert AllApplied(Applied(written, SelectSlot(target)), []) == Applied(written, SelectSlot(target));
    assert AllApplied(written, rest[1..]) == Applied(written, SelectSlot(target));
    assert AllApplied(repaired, rest) == AllApplied(written, rest[1..]);
    if repair == [] {
      assert repair + rest == rest;
    } else {
      assert (repair + rest)[0] == repair[0] && (repair + rest)[1..] == rest && repair[1..] == [];
    }
  }

  // -------------------------------------------------------------------- the store

  /** The store over its files and preferences. Every call that changes them is
      recorded; with `faulty` set, calls may fail. */
  class Store {
    const crc: Checksum
    const faulty: bool
    var disk: Disk
    ghost var calls: seq<Call>

    constructor (crc: Checksum, faulty: bool, disk: Disk)
      ensures this.crc == crc && this.faulty == faulty && this.disk == disk && calls == []
    {
      this.crc, this.faulty, this.disk := crc, faulty, disk;
      calls := [];
    }

    method SelectSlot(slot: Slot) returns (ok: bool)
      modifies this
      ensures ok ==> disk == Applied(old(disk), Call.SelectSlot(slot)) && calls == old(calls) + [Call.SelectSlot(slot)]
      ensures !faulty ==> ok
    {
      ok := *;
      ok := ok || !faulty;
      if ok {
        disk := disk.(selector := Pointing(slot));
        calls := calls + [Call.SelectSlot(slot)];
      }
    }

    method WriteSlot(slot: Slot, bytes: Bytes) returns (ok: bool)
      modifies this
      ensures ok ==>
        disk == Applied(old(disk), WriteFile(slot, bytes)) && calls == old(calls) + [WriteFile(slot, bytes)]
      ensures !faulty ==> ok
    {
      ok := *;
      ok := ok || !faulty;
      if ok {
        disk := WithFile(disk, slot, Some(bytes));
        calls := calls + [WriteFile(slot, bytes)];
      } else {
        disk := WithFile(disk, slot, None);
      }
    }

    method ReadSlot(slot: Slot) returns (r: Result<Snapshot>)
      ensures r.Success? || !faulty ==> r == ReadFile(crc, FileOf(disk, slot))
    {
      var broken := *;
      if faulty && broken { return Failure(Io); }
      r := ReadFile(crc, FileOf(disk, slot));
    }

    /** `load`: a selector out of step is put right on the way. Even where calls
        fail, only valid snapshots are returned. */
    method Load() returns (r: Result<Snapshot>)
      modifies this
      ensures r.Success? ==> ValidSnapshot(r.value)
      ensures !faulty ==>
        && r == Loaded(crc, old(disk)) && disk == AllApplied(old(disk), RepairCalls(crc, old(disk)))
        && calls == old(calls) + RepairCalls(crc, old(disk))
    {
      hide ReadFile, AllApplied, ValidSnapshot;
      AppliedInTurn(disk, RepairCalls(crc, disk), SlotA, []);
      ReadIsValid(crc, disk.a);
      ReadIsValid(crc, disk.b);
      var a := ReadSlot(SlotA);
      var b := ReadSlot(SlotB);
      var selection := Select(disk.selector, a, b);
      if selection.slot == None { return Failure(NoSnapshotError(disk.selector, a, b)); }
      if selection.repair {
        var ok := SelectSlot(selection.slot.value);
        if !ok { return Failure(Io); }
      }
      r := if selection.slot == Some(SlotA) then a else b;
    }

    /** `replaceAtomically`. */
    method ReplaceAtomically(s: Snapshot) returns (error: OutboxError)
      requires forall i :: 0 <= i < |s.entries| ==> InRange(s.entries[i])
      modifies this
      ensures !ValidSnapshot(s) ==> error != NoError && disk == old(disk) && calls == old(calls)
      ensures ValidSnapshot(s) ==> Storable(s) && |PayloadOf(s)| < 0x1_0000_0000
      ensures !faulty && ValidSnapshot(s) ==>
        && (error == NoError <==> Target(crc, old(disk)).Some?)
        && disk == AllApplied(old(disk), ReplaceCalls(crc, old(disk), Encoded(crc, s)))
        && calls == old(calls) + ReplaceCalls(crc, old(disk), Encoded(crc, s))
    {
      hide ReadFile, ValidEntry, Encoded, AllApplied, PayloadOf;
      var encoded;
      error, encoded := Encode(crc, s);
      if error != NoError { return; }
      EncodedIsWhole(crc, s);
      ghost var repair := RepairCalls(crc, disk);
      AppliedInTurn(disk, repair, SlotA, encoded);
      AppliedInTurn(disk, repair, SlotB, encoded);
      var a := ReadSlot(SlotA);
      var b := ReadSlot(SlotB);
      var selection := Select(disk.selector, a, b);
      var active := selection.slot;
      if active == None && disk.selector.Pointing? { active := Some(disk.selector.slot); }
      if selection.repair {
        var ok := SelectSlot(selection.slot.value);
        if !ok { return Io; }
      }
      var target := SlotA;
      if active == Some(SlotA) {
        target := SlotB;
      } else if active == None && a != Failure(NotFound) {
        if b != Failure(NotFound) {
          ReadErrors(crc, FileOf(old(disk), SlotA));
          ReadErrors(crc, FileOf(old(disk), SlotB));
          return NoSnapshotError(disk.selector, a, b);
        }
        target := SlotB;
      }
      var written := WriteSlot(target, encoded);
      if !written { return Io; }
      var verified := ReadSlot(target);
      if verified.Failure? {
        disk := WithFile(disk, target, None);
        return verified.error;
      }
      var selected := SelectSlot(target);
      if !selected { return Io; }
      return NoError;
    }
  }
}
