/** The outbox itself: storage, journal readers and queue operations that work in place,
    proved to make exactly the storage calls the crash results are about. */
module OutboxStore {
  import opened Bytes
  import opened OutboxFormat
  import opened OutboxFrames
  import opened Journal
  import opened Flash
  import opened OutboxRecovery
  import opened OutboxQueue
  import R = OutboxRuns

  /** The file storage. Unless it is faulty, every call that can succeed does; `calls` records
      the changes made. */
  class OutboxStorage {
    var files: Files
    ghost var calls: seq<Call>
    const faulty: bool

    constructor (files: Files, faulty: bool)
      ensures this.files == files && this.faulty == faulty && calls == []
    {
      this.files, this.calls, this.faulty := files, [], faulty;
    }

    /** The calls made since a given moment, and their effect. */
    ghost predicate Did(before: Files, trace: seq<Call>, done: seq<Call>)
      reads this
    {
      files == Run(before, done) && calls == trace + done
    }

    /** Calls made after other calls. */
    lemma {:induction false} DidThen(before: Files, trace: seq<Call>, first: seq<Call>, middle: Files,
                                     middleTrace: seq<Call>, second: seq<Call>)
      requires middle == Run(before, first) && middleTrace == trace + first && Did(middle, middleTrace, second)
      ensures Did(before, trace, first + second)
    {
      RunAppend(before, first, second);
    }

    method Exists(path: Path) returns (found: bool)
      ensures found == (path in files)
    {
      found := path in files;
    }

    method Size(path: Path) returns (ok: bool, size: nat)
      ensures ok ==> path in files && size == |files[path]|
      ensures !faulty && path in files ==> ok
    {
      ok := *;
      ok := path in files && (ok || !faulty);
      size := if ok then |files[path]| else 0;
    }

    method Read(path: Path, offset: nat, length: nat) returns (ok: bool, bytes: Bytes)
      ensures ok ==> path in files && offset + length <= |files[path]| && bytes == files[path][offset..offset + length]
      ensures !faulty && path in files && offset + length <= |files[path]| ==> ok
    {
      ok := *;
      ok := path in files && offset + length <= |files[path]| && (ok || !faulty);
      bytes := if ok then files[path][offset..offset + length] else [];
    }

    method AppendAndFlush(path: Path, bytes: Bytes) returns (ok: bool)
      modifies this
      ensures ok ==> Did(old(files), old(calls), [Append(path, bytes)])
      ensures !faulty ==> ok
    {
      RunOne(files, Call.Append(path, bytes));
      ok := *;
      ok := ok || !faulty;
      if ok {
        calls := calls + [Append(path, bytes)];
        files := files[path := (if path in files then files[path] else []) + bytes];
      }
    }

    method WriteAndFlush(path: Path, bytes: Bytes) returns (ok: bool)
      modifies this
      ensures ok ==> Did(old(files), old(calls), [Write(path, bytes)])
      ensures !faulty ==> ok
    {
      RunOne(files, Call.Write(path, bytes));
      ok := *;
      ok := ok || !faulty;
      if ok {
        calls := calls + [Write(path, bytes)];
        files := files[path := bytes];
      }
    }

    method RemoveIfPresent(path: Path) returns (ok: bool)
      modifies this
      ensures ok ==> Did(old(files), old(calls), Drop(old(files), path))
      ensures !faulty ==> ok
    {
      RunOne(files, Call.Remove(path));
      ok := *;
      ok := ok || !faulty || path !in files;
      if ok && path in files {
        calls := calls + [Call.Remove(path)];
        files := files - {path};
      }
    }

    method RenameFile(from: Path, to: Path) returns (ok: bool)
      modifies this
      ensures ok ==> Did(old(files), old(calls), [Call.Rename(from, to)])
      ensures !faulty && from in old(files) && to !in old(files) ==> ok
    {
      RunOne(files, Call.Rename(from, to));
      ok := *;
      ok := from in files && to !in files && (ok || !faulty);
      if ok {
        calls := calls + [Call.Rename(from, to)];
        files := (files - {from})[to := files[from]];
      }
    }
  }

  /** Reads the header at an offset: readHeader. */
  method ReadHeader(storage: OutboxStorage, path: Path, size: nat, offset: nat, kind: Kind)
    returns (result: Result<nat>)
    requires path in storage.files && size == |storage.files[path]| && offset <= size
    ensures !storage.faulty ==> result == HeaderLength(kind, storage.files[path][offset..])
    ensures result.Success? ==> HEADER_SIZE + CRC_SIZE <= result.value <= MAX_RECORD_SIZE
  {
    if size - offset < HEADER_SIZE {
      return Failure(Truncated);
    }
    var ok, header := storage.Read(path, offset, HEADER_SIZE);
    if !ok {
      return Failure(Io);
    }
    var rest := storage.files[path][offset..];
    assert header == rest[..HEADER_SIZE];
    assert header[..4] == rest[..4] && header[5..9] == rest[5..9];
    result := HeaderLength(kind, header);
  }

  /** Reads a whole frame and checks its checksum: readCompleteFrame. */
  method ReadCompleteFrame(storage: OutboxStorage, crc: Checksum, path: Path, size: nat, offset: nat, kind: Kind)
    returns (result: Result<Bytes>)
    requires path in storage.files && size == |storage.files[path]| && offset <= size
    ensures !storage.faulty ==>
              var rest := storage.files[path][offset..];
              match HeaderLength(kind, rest)
              case Failure(e) => result == Failure(e)
              case Success(n) =>
                if n > |rest| then result == Failure(Truncated)
                else if ChecksumMatches(crc, rest[..n]) then result == Success(rest[..n])
                else result == Failure(OutboxError.Checksum)
    ensures result.Success? ==>
      0 < |result.value| && offset + |result.value| <= size
          && result.value == storage.files[path][offset..offset + |result.value|]
  {
    var header := ReadHeader(storage, path, size, offset, kind);
    if header.Failure? {
      return Failure(header.error);
    }
    var n := header.value;
    if n > size - offset {
      return Failure(Truncated);
    }
    var ok, frame := storage.Read(path, offset, n);
    if !ok {
      return Failure(Io);
    }
    assert frame == storage.files[path][offset..][..n];
    if !ChecksumMatches(crc, frame) {
      return Failure(OutboxError.Checksum);
    }
    result := Success(frame);
  }

  method ValidFrame(storage: OutboxStorage, crc: Checksum, path: Path, size: nat, offset: nat, kind: Kind)
    returns (failed: bool, valid: bool)
    requires path in storage.files && size == |storage.files[path]| && offset <= size
    ensures !storage.faulty ==> !failed && valid == ValidFrameAt(crc, kind, storage.files[path][offset..])
  {
    var frame := ReadCompleteFrame(storage, crc, path, size, offset, kind);
    if frame == Failure(Io) {
      return true, false;
    }
    failed := false;
    valid := frame.Success? && DecodeItem(crc, kind, frame.value).Success?;
  }

  /** Looks for a complete valid frame after a torn one: hasValidLaterFrame. */
  method FindValidLaterFrame(storage: OutboxStorage, crc: Checksum, path: Path, size: nat, offset: nat, kind: Kind)
    returns (failed: bool, found: bool)
    requires path in storage.files && size == |storage.files[path]| && offset <= size
    ensures !storage.faulty ==> !failed && found == HasValidLaterFrame(crc, kind, storage.files[path][offset..])
  {
    hide HeaderLength, DecodeItem, ChecksumMatches;
    failed, found := false, false;
    ghost var rest := storage.files[path][offset..];
    var at := offset + 1;
    while at + HEADER_SIZE <= size
      invariant offset + 1 <= at
      invariant !storage.faulty ==> forall o :: 1 <= o < at - offset && o <= |rest| - HEADER_SIZE ==>
        !ValidFrameAt(crc, kind, rest[o..])
    {
      var ok, prefix := storage.Read(path, at, 4);
      if !ok {
        return true, false;
      }
      assert storage.files[path][at..] == rest[at - offset..];
      if prefix == MagicOf(kind) {
        var valid: bool;
        failed, valid := ValidFrame(storage, crc, path, size, at, kind);
        if failed {
          return;
        }
        if valid {
          return false, true;
        }
      } else {
        assert rest[at - offset..][..4] == prefix;
        WrongMagic(crc, kind, rest[at - offset..]);
      }
      at := at + 1;
    }
  }

  lemma {:induction false} WrongMagic(crc: Checksum, kind: Kind, input: Bytes)
    requires |input| >= 4 && input[..4] != MagicOf(kind)
    ensures !ValidFrameAt(crc, kind, input)
  {
  }

  /** The frame at an offset, read and decoded, or why it cannot be. */
  method ReadNextFrame(storage: OutboxStorage, crc: Checksum, path: Path, size: nat, offset: nat, kind: Kind)
    returns (result: Result<(Item, Bytes)>)
    requires path in storage.files && size == |storage.files[path]| && offset < size
    ensures result.Success? ==> 0 < |result.value.1| && offset + |result.value.1| <= size
    ensures !storage.faulty ==>
              match NextFrame(crc, kind, storage.files[path][offset..])
              case Failure(e) => result == Failure(e)
              case Success((item, n)) =>
                result.Success? && result.value == (item, storage.files[path][offset..offset + n])
  {
    hide HasValidLaterFrame, DecodeItem, HeaderLength, ChecksumMatches;
    var header := ReadHeader(storage, path, size, offset, kind);
    if header.Failure? {
      return Failure(header.error);
    }
    if header.value > size - offset {
      var failed, later := FindValidLaterFrame(storage, crc, path, size, offset, kind);
      return Failure(if failed then Io else if later then Length else Truncated);
    }
    var frame := ReadCompleteFrame(storage, crc, path, size, offset, kind);
    if frame.Failure? {
      return Failure(frame.error);
    }
    match DecodeItem(crc, kind, frame.value) {
      case Failure(e) => result := Failure(e);
      case Success(item) => result := Success((item, frame.value));
    }
  }

  /** What remains to be read after a frame, and what is known when no frame can be read. */
  ghost predicate SplitAt(c: Codec, file: Bytes, offset: nat, seen: seq<Item>, whole: Inspection)
    requires Lawful(c)
  {
    && offset <= |file| && |seen| <= CAPACITY
    && var rest := ReadJournal(c, file[offset..], CAPACITY - |seen|);
       whole == Inspection(rest.error, seen + rest.items, offset + rest.validPrefix)
  }

  lemma {:induction false} SplitAdvances(c: Codec, file: Bytes, offset: nat, seen: seq<Item>, whole: Inspection)
    requires Lawful(c) && SplitAt(c, file, offset, seen, whole)
    requires offset < |file| && c.next(file[offset..]).Success? && |seen| < CAPACITY
    ensures var (x, n) := c.next(file[offset..]).value;
            && offset + n <= |file| && c.frame(x) == file[offset..offset + n]
            && |seen| < |whole.items| && whole.items[|seen|] == x
            && SplitAt(c, file, offset + n, seen + [x], whole)
  {
    var input := file[offset..];
    assert Sound(c, input);
    var (x, n) := c.next(input).value;
    assert input[n..] == file[offset + n..] && input[..n] == file[offset..offset + n];
    var tail := ReadJournal(c, input[n..], CAPACITY - |seen| - 1);
    assert seen + ([x] + tail.items) == (seen + [x]) + tail.items;
  }

  lemma {:induction false} SplitStops(c: Codec, file: Bytes, offset: nat, seen: seq<Item>, whole: Inspection)
    requires Lawful(c) && SplitAt(c, file, offset, seen, whole)
    requires offset == |file| || c.next(file[offset..]).Failure? || |seen| == CAPACITY
    ensures whole == Inspection(
              if offset == |file| then NoError
              else if c.next(file[offset..]).Failure? then c.next(file[offset..]).error else Capacity, seen, offset)
  {
    assert seen + [] == seen;
    if offset < |file| { assert Sound(c, file[offset..]); }
  }

  /** Reads a journal frame by frame: ActionReader and CompletionReader. */
  class JournalReader {
    const storage: OutboxStorage
    const path: Path
    const kind: Kind
    const crc: Checksum
    const exists_: bool
    const size: nat
    var offset: nat
    var count: nat
    var error: OutboxError
    ghost var seen: seq<Item>

    ghost function C(): Codec { OutboxCodec(crc, kind) }

    /** Everything a reader of this file will ever report. */
    ghost function Whole(): Inspection
      requires Lawful(C())
      reads storage
    {
      ReadOrEmpty(C(), storage.files, path)
    }

    ghost predicate Sized()
      reads this, storage
    {
      && exists_ == (path in storage.files)
      && (exists_ && error == NoError ==> size == |storage.files[path]|)
      && (error == NoError ==> offset <= size)
      && (!exists_ ==> size == 0 && offset == 0 && error == NoError)
    }

    ghost predicate Valid()
      reads this, storage
    {
      && Sized() && Lawful(C())
      && count == |seen| <= CAPACITY
      && (error == NoError && exists_ ==> SplitAt(C(), storage.files[path], offset, seen, Whole()))
      && (error == NoError && !exists_ ==> seen == [])
      && (error != NoError ==> Whole().error == error && Whole().items == seen && Whole().validPrefix == offset)
    }

    constructor (storage: OutboxStorage, path: Path, kind: Kind, crc: Checksum)
      ensures this.storage == storage && this.path == path && this.kind == kind && this.crc == crc
      ensures Sized() && (!storage.faulty ==> Valid())
      ensures seen == [] && offset == 0 && count == 0
    {
      var found := storage.Exists(path);
      var ok, bytes := true, 0;
      if found {
        ok, bytes := storage.Size(path);
      }
      this.storage, this.path, this.kind, this.crc := storage, path, kind, crc;
      exists_, size, offset, count, seen := found, bytes, 0, 0, [];
      error := if ok then NoError else Io;
      new;
      OutboxCodecIsLawful(crc, kind);
      if path in storage.files {
        assert storage.files[path][0..] == storage.files[path];
      }
    }

    method Next() returns (result: OutboxError, available: bool, item: Item, frame: Bytes)
      requires Sized() && (!storage.faulty ==> Valid())
      modifies this
      ensures Sized() && (!storage.faulty ==> Valid())
      ensures available ==> result == NoError && old(offset) < offset <= size
      ensures !storage.faulty ==>
                var whole := Whole();
                if |old(seen)| < |whole.items| then
                  && result == NoError && available
                  && item == whole.items[|old(seen)|] && frame == C().frame(item)
                  && seen == old(seen) + [item]
                else
                  !available && result == whole.error && seen == old(seen)
    {
      hide NextFrame, Frame, SplitAt, ReadOrEmpty;
      available, item, frame := false, Item.Done([]), [];
      if error != NoError {
        return error, available, item, frame;
      }
      if !exists_ || offset == size {
        StopsHere();
        return NoError, available, item, frame;
      }
      var read := ReadNextFrame(storage, crc, path, size, offset, kind);
      if read.Failure? {
        StopsHere();
        error := read.error;
        return error, available, item, frame;
      }
      if count >= CAPACITY {
        StopsHere();
        error := Capacity;
        return error, available, item, frame;
      }
      if !storage.faulty {
        SplitAdvances(C(), storage.files[path], offset, seen, Whole());
      }
      item, frame := read.value.0, read.value.1;
      count := count + 1;
      offset := offset + |frame|;
      seen := seen + [item];
      available := true;
      result := NoError;
    }

    /** Once everything has been seen, the reader stands at the end of the valid prefix. */
    lemma {:induction false} Finished()
      requires Valid() && seen == Whole().items
      ensures offset == Whole().validPrefix
    {
      if error == NoError && exists_ {
        assert SplitAt(C(), storage.files[path], offset, seen, Whole());
      }
    }

    lemma {:induction false} StopsHere()
      requires Sized() && error == NoError
      ensures !storage.faulty && Valid() && !exists_ ==> Whole() == Inspection(NoError, seen, offset)
      ensures !storage.faulty && Valid() && exists_ && offset == size ==> Whole() == Inspection(NoError, seen, offset)
      ensures (!storage.faulty && Valid() && exists_ && offset < size
               && NextFrame(crc, kind, storage.files[path][offset..]).Failure?) ==>
                Whole() == Inspection(NextFrame(crc, kind, storage.files[path][offset..]).error, seen, offset)
      ensures (!storage.faulty && Valid() && exists_ && offset < size && count == CAPACITY
               && NextFrame(crc, kind, storage.files[path][offset..]).Success?) ==>
                Whole() == Inspection(Capacity, seen, offset)
    {
      hide NextFrame, SplitAt;
      if Valid() && exists_ && (offset == size || count == CAPACITY
          || NextFrame(crc, kind, storage.files[path][offset..]).Failure?) {
        SplitStops(C(), storage.files[path], offset, seen, Whole());
      }
    }
  }

  /** inspectJournal; the items read are kept for the proofs only. */
  method InspectJournal(storage: OutboxStorage, crc: Checksum, path: Path, kind: Kind)
    returns (found: bool, error: OutboxError, validPrefix: nat, count: nat, ghost items: seq<Item>)
    ensures found == (path in storage.files)
    ensures Lawful(OutboxCodec(crc, kind))
    ensures !storage.faulty ==>
              Inspection(error, items, validPrefix) == Inspect(OutboxCodec(crc, kind), storage.files, path)
                  && count == |items|
  {
    hide ReadJournal, SplitAt, NextFrame, Frame;
    OutboxCodecIsLawful(crc, kind);
    found := storage.Exists(path);
    if !found {
      return found, NotFound, 0, 0, [];
    }
    var reader := new JournalReader(storage, path, kind, crc);
    while true
      invariant reader.storage == storage && reader.path == path && reader.kind == kind && reader.crc == crc
      invariant fresh(reader) && reader.Sized()
      invariant (!storage.faulty ==> reader.Valid() && reader.seen <= reader.Whole().items)
      decreases reader.size - reader.offset
    {
      var result, available, item, frame := reader.Next();
      if !available {
        error, validPrefix, count, items := result, reader.offset, reader.count, reader.seen;
        if !storage.faulty {
          reader.Finished();
        }
        return;
      }
    }
  }

  method VerifyJournal(storage: OutboxStorage, crc: Checksum, path: Path, kind: Kind, expected: nat)
    returns (error: OutboxError)
    ensures Lawful(OutboxCodec(crc, kind))
    ensures !storage.faulty ==>
              var state := Inspect(OutboxCodec(crc, kind), storage.files, path);
              error
                == if state.error != NoError then state.error
                   else if |state.items| == expected then NoError
                   else InvalidData
  {
    var found, e, prefix, count, items := InspectJournal(storage, crc, path, kind);
    error := if e != NoError then e else if count == expected then NoError else InvalidData;
  }

  lemma {:induction false} NoBlocks(to: Path, made: seq<Call>)
    ensures made + Blocks(to, []) == made
  {
  }

  lemma {:induction false} NextBlock(to: Path, prefix: Bytes, offset: nat, n: nat, made: seq<Call>)
    requires offset < |prefix| && made + Blocks(to, prefix[offset..]) == Blocks(to, prefix)
    requires n == if MAX_RECORD_SIZE <= |prefix| - offset then MAX_RECORD_SIZE else |prefix| - offset
    ensures made + [Append(to, prefix[offset..offset + n])] + Blocks(to, prefix[offset + n..]) == Blocks(to, prefix)
  {
    var rest := prefix[offset..];
    assert rest[..n] == prefix[offset..offset + n] && rest[n..] == prefix[offset + n..];
    assert Blocks(to, rest) == [Append(to, rest[..n])] + Blocks(to, rest[n..]);
    assert made + ([Append(to, rest[..n])] + Blocks(to, rest[n..]))
        == made + [Append(to, rest[..n])] + Blocks(to, rest[n..]);
  }

  /** Copies the first bytes of a file, block by block, onto the end of another. */
  method CopyBlocks(storage: OutboxStorage, from: Path, to: Path, length: nat) returns (ok: bool)
    modifies storage
    ensures !storage.faulty && from != to && from in old(storage.files) && length <= |old(storage.files)[from]| ==>
              ok && storage.Did(old(storage.files), old(storage.calls), Blocks(to, old(storage.files)[from][..length]))
  {
    hide Blocks;
    ghost var files, calls := storage.files, storage.calls;
    ghost var usable := !storage.faulty && from != to && from in files && length <= |files[from]|;
    ghost var prefix := if usable then files[from][..length] else [];
    ghost var made: seq<Call> := [];
    var offset := 0;
    assert prefix[0..] == prefix;
    while offset < length
      invariant offset <= length
      invariant usable ==>
                  && storage.Did(files, calls, made)
                  && from in storage.files && storage.files[from] == files[from]
                  && made + Blocks(to, prefix[offset..]) == Blocks(to, prefix)
    {
      var n := if MAX_RECORD_SIZE <= length - offset then MAX_RECORD_SIZE else length - offset;
      var chunk: Bytes;
      ok, chunk := storage.Read(from, offset, n);
      if !ok {
        return false;
      }
      ghost var middle, trace := storage.files, storage.calls;
      ok := storage.AppendAndFlush(to, chunk);
      if !ok {
        return false;
      }
      if usable {
        RunOne(middle, Append(to, chunk));
        storage.DidThen(files, calls, made, middle, trace, [Append(to, chunk)]);
        NextBlock(to, prefix, offset, n, made);
        assert chunk == prefix[offset..offset + n];
      }
      made := made + [Append(to, chunk)];
      offset := offset + n;
    }
    ok := true;
    assert usable ==> prefix[offset..] == [];
    NoBlocks(to, made);
  }

  /** Rewrites the fresh file with the valid prefix of another one. */
  method CopyPrefix(storage: OutboxStorage, crc: Checksum, from: Path, kind: Kind, validPrefix: nat, expected: nat)
    returns (error: OutboxError)
    requires from != FreshPath(kind)
    requires !storage.faulty ==> PrefixOf(crc, kind, storage.files, from, validPrefix, expected)
    modifies storage
    ensures !storage.faulty ==>
              && error == NoError
              && storage.Did(old(storage.files), old(storage.calls),
                             [Write(FreshPath(kind), [])]
                             + Blocks(FreshPath(kind), old(storage.files)[from][..validPrefix]))
  {
    ghost var files, calls := storage.files, storage.calls;
    var fresh_ := FreshPath(kind);
    var ok := storage.WriteAndFlush(fresh_, []);
    if !ok {
      return Io;
    }
    ghost var middle, trace := storage.files, storage.calls;
    RunOne(files, Write(fresh_, []));
    ok := CopyBlocks(storage, from, fresh_, validPrefix);
    if !ok {
      return Io;
    }
    if !storage.faulty {
      ghost var prefix := files[from][..validPrefix];
      storage.DidThen(files, calls, [Write(fresh_, [])], middle, trace, Blocks(fresh_, prefix));
      RunFreshCopy(files, fresh_, prefix);
      PrefixIsWhole(crc, kind, files, from, validPrefix, expected, storage.files, fresh_);
    }
    error := VerifyJournal(storage, crc, fresh_, kind, expected);
  }

  /** A length and a count that inspecting a file reported. */
  ghost predicate PrefixOf(crc: Checksum, kind: Kind, files: Files, path: Path, validPrefix: nat, count: nat) {
    && Lawful(OutboxCodec(crc, kind)) && path in files
    && var state := Inspect(OutboxCodec(crc, kind), files, path);
       validPrefix == state.validPrefix && count == |state.items|
  }

  /** A file holding the valid prefix of another is a whole journal with as many items. */
  lemma {:induction false} PrefixIsWhole(crc: Checksum, kind: Kind, files: Files, from: Path, validPrefix: nat,
                                         count: nat, after: Files, path: Path)
    requires PrefixOf(crc, kind, files, from, validPrefix, count)
    requires path in after && after[path] == files[from][..validPrefix]
    ensures Inspect(OutboxCodec(crc, kind), after, path).error == NoError
    ensures |Inspect(OutboxCodec(crc, kind), after, path).items| == count
  {
    var c := OutboxCodec(crc, kind);
    AcceptedBytes(c, files[from], CAPACITY);
    InspectEncoded(c, after, path, Inspect(c, files, from).items);
  }

  /** The swap of the fresh file for the current one, undone if its second half fails: the end of
      atomicRepairPrefix, of compact and of atomicallyClearCompletions. */
  method SwapIn(storage: OutboxStorage, crc: Checksum, kind: Kind, hadCurrent: bool, expected: nat)
    returns (error: OutboxError)
    requires !storage.faulty ==>
               && Lawful(OutboxCodec(crc, kind))
               && hadCurrent == (CurrentPath(kind) in storage.files) && OldPath(kind) !in storage.files
               && Inspect(OutboxCodec(crc, kind), storage.files, FreshPath(kind)).error == NoError
               && |Inspect(OutboxCodec(crc, kind), storage.files, FreshPath(kind)).items| == expected
    modifies storage
    ensures !storage.faulty ==>
              && error == NoError
              && storage.Did(old(storage.files), old(storage.calls),
                             if hadCurrent then SwapPlan(kind) else [Rename(FreshPath(kind), CurrentPath(kind))])
  {
    hide ReadJournal;
    ghost var files, calls := storage.files, storage.calls;
    var current, fresh_, old_ := CurrentPath(kind), FreshPath(kind), OldPath(kind);
    if hadCurrent {
      var moved := storage.RenameFile(current, old_);
      if !moved {
        return Io;
      }
    }
    ghost var first := if hadCurrent then [Rename(current, old_)] else [];
    ghost var middle, trace := storage.files, storage.calls;
    assert !storage.faulty ==> storage.Did(files, calls, first);
    RunOne(files, Rename(current, old_));
    var renamed := storage.RenameFile(fresh_, current);
    if !renamed {
      if hadCurrent {
        var undone := storage.RenameFile(old_, current);
      }
      return Io;
    }
    RunOne(middle, Rename(fresh_, current));
    ghost var second := first + [Rename(fresh_, current)];
    ghost var late, lateTrace := storage.files, storage.calls;
    if !storage.faulty {
      storage.DidThen(files, calls, first, middle, trace, [Rename(fresh_, current)]);
      assert late[current] == files[fresh_];
    }
    error := VerifyJournal(storage, crc, current, kind, expected);
    if error != NoError {
      var removed := storage.RemoveIfPresent(current);
      if hadCurrent {
        var undone := storage.RenameFile(old_, current);
      }
      return error;
    }
    var removed := storage.RemoveIfPresent(old_);
    if !storage.faulty {
      storage.DidThen(files, calls, second, late, lateTrace, Drop(late, old_));
      assert second + Drop(late, old_) == if hadCurrent then SwapPlan(kind) else [Rename(fresh_, current)];
    }
    error := if removed then NoError else Io;
  }

  lemma {:induction false} InspectMoved(crc: Checksum, kind: Kind, a: Files, p: Path, b: Files, q: Path)
    requires Lawful(OutboxCodec(crc, kind)) && p in a && q in b && a[p] == b[q]
    ensures Inspect(OutboxCodec(crc, kind), a, p) == Inspect(OutboxCodec(crc, kind), b, q)
  {
  }

  method AtomicRepairPrefix(storage: OutboxStorage, crc: Checksum, kind: Kind, validPrefix: nat, expected: nat)
    returns (error: OutboxError)
    requires !storage.faulty ==> PrefixOf(crc, kind, storage.files, CurrentPath(kind), validPrefix, expected)
    modifies storage
    ensures !storage.faulty ==>
              && error == NoError
              && storage.Did(old(storage.files), old(storage.calls),
                             RepairPlan(kind, old(storage.files), old(storage.files)[CurrentPath(kind)][..validPrefix]))
  {
    hide ReadJournal, Blocks;
    ghost var files, calls := storage.files, storage.calls;
    var current, fresh_, old_ := CurrentPath(kind), FreshPath(kind), OldPath(kind);
    var ok := storage.RemoveIfPresent(fresh_);
    if !ok {
      return Io;
    }
    ghost var files1, calls1 := storage.files, storage.calls;
    ok := storage.RemoveIfPresent(old_);
    if !ok {
      return Io;
    }
    ghost var files2, calls2 := storage.files, storage.calls;
    ghost var drops := Drop(files, fresh_) + Drop(files1, old_);
    if !storage.faulty {
      RunDrop(files, fresh_);
      RunDrop(files1, old_);
      storage.DidThen(files, calls, Drop(files, fresh_), files1, calls1, Drop(files1, old_));
      InspectMoved(crc, kind, files, current, files2, current);
    }
    error := CopyPrefix(storage, crc, current, kind, validPrefix, expected);
    if error != NoError {
      return;
    }
    ghost var files3, calls3 := storage.files, storage.calls;
    ghost var prefix := if storage.faulty then [] else files[current][..validPrefix];
    ghost var copy := [Write(fresh_, [])] + Blocks(fresh_, prefix);
    if !storage.faulty {
      storage.DidThen(files, calls, drops, files2, calls2, copy);
      RunFreshCopy(files2, fresh_, prefix);
      PrefixIsWhole(crc, kind, files, current, validPrefix, expected, files3, fresh_);
      assert drops + copy == CopyPlan(kind, files, prefix);
    }
    error := SwapIn(storage, crc, kind, true, expected);
    if !storage.faulty {
      storage.DidThen(files, calls, drops + copy, files3, calls3, SwapPlan(kind));
    }
  }

  method ActivateCandidate(storage: OutboxStorage, crc: Checksum, kind: Kind, expected: nat)
    returns (error: OutboxError)
    requires !storage.faulty ==>
               && Lawful(OutboxCodec(crc, kind))
               && Inspect(OutboxCodec(crc, kind), storage.files, FreshPath(kind)).error == NoError
               && |Inspect(OutboxCodec(crc, kind), storage.files, FreshPath(kind)).items| == expected
    modifies storage
    ensures !storage.faulty ==>
              error == NoError && storage.Did(old(storage.files), old(storage.calls),
                                              ActivatePlan(kind, old(storage.files)))
  {
    hide ReadJournal;
    ghost var files, calls := storage.files, storage.calls;
    var current, fresh_, old_ := CurrentPath(kind), FreshPath(kind), OldPath(kind);
    var ok := storage.RemoveIfPresent(current);
    if !ok {
      return Io;
    }
    RunDrop(files, current);
    ghost var files1, calls1 := storage.files, storage.calls;
    ok := storage.RenameFile(fresh_, current);
    if !ok {
      return Io;
    }
    ghost var files2, calls2 := storage.files, storage.calls;
    ghost var first := Drop(files, current) + [Rename(fresh_, current)];
    if !storage.faulty {
      RunOne(files1, Rename(fresh_, current));
      storage.DidThen(files, calls, Drop(files, current), files1, calls1, [Rename(fresh_, current)]);
      InspectMoved(crc, kind, files, fresh_, files2, current);
    }
    error := VerifyJournal(storage, crc, current, kind, expected);
    if error != NoError {
      return;
    }
    ok := storage.RemoveIfPresent(old_);
    if !storage.faulty {
      assert Drop(files2, old_) == Drop(files, old_);
      storage.DidThen(files, calls, first, files2, calls2, Drop(files, old_));
    }
    error := if ok then NoError else Io;
  }

  method RestoreOld(storage: OutboxStorage, crc: Checksum, kind: Kind, expected: nat) returns (error: OutboxError)
    requires !storage.faulty ==>
               && Lawful(OutboxCodec(crc, kind))
               && Inspect(OutboxCodec(crc, kind), storage.files, OldPath(kind)).error == NoError
               && |Inspect(OutboxCodec(crc, kind), storage.files, OldPath(kind)).items| == expected
    modifies storage
    ensures !storage.faulty ==>
              error == NoError && storage.Did(old(storage.files), old(storage.calls),
                                              RestorePlan(kind, old(storage.files)))
  {
    hide ReadJournal;
    ghost var files, calls := storage.files, storage.calls;
    var current, fresh_, old_ := CurrentPath(kind), FreshPath(kind), OldPath(kind);
    var ok := storage.RemoveIfPresent(current);
    if !ok {
      return Io;
    }
    RunDrop(files, current);
    ghost var files1, calls1 := storage.files, storage.calls;
    ok := storage.RenameFile(old_, current);
    if !ok {
      return Io;
    }
    ghost var files2, calls2 := storage.files, storage.calls;
    ghost var first := Drop(files, current) + [Rename(old_, current)];
    if !storage.faulty {
      RunOne(files1, Rename(old_, current));
      storage.DidThen(files, calls, Drop(files, current), files1, calls1, [Rename(old_, current)]);
      InspectMoved(crc, kind, files, old_, files2, current);
    }
    error := VerifyJournal(storage, crc, current, kind, expected);
    if error != NoError {
      return;
    }
    ok := storage.RemoveIfPresent(fresh_);
    if !storage.faulty {
      assert Drop(files2, fresh_) == Drop(files, fresh_);
      storage.DidThen(files, calls, first, files2, calls2, Drop(files, fresh_));
    }
    error := if ok then NoError else Io;
  }

  method PromoteTruncatedOld(storage: OutboxStorage, crc: Checksum, kind: Kind, validPrefix: nat, expected: nat)
    returns (error: OutboxError)
    requires !storage.faulty ==> PrefixOf(crc, kind, storage.files, OldPath(kind), validPrefix, expected)
    modifies storage
    ensures !storage.faulty ==>
              && error == NoError
              && storage.Did(old(storage.files), old(storage.calls),
                             PromotePlan(kind, old(storage.files), old(storage.files)[OldPath(kind)][..validPrefix]))
  {
    hide ReadJournal, Blocks;
    ghost var files, calls := storage.files, storage.calls;
    var current, fresh_, old_ := CurrentPath(kind), FreshPath(kind), OldPath(kind);
    var ok := storage.RemoveIfPresent(fresh_);
    if !ok {
      return Io;
    }
    RunDrop(files, fresh_);
    ghost var files1, calls1 := storage.files, storage.calls;
    if !storage.faulty {
      InspectMoved(crc, kind, files, old_, files1, old_);
    }
    error := CopyPrefix(storage, crc, old_, kind, validPrefix, expected);
    if error != NoError {
      return;
    }
    ghost var files2, calls2 := storage.files, storage.calls;
    ghost var prefix := if storage.faulty then [] else files[old_][..validPrefix];
    ghost var copy := [Write(fresh_, [])] + Blocks(fresh_, prefix);
    if !storage.faulty {
      storage.DidThen(files, calls, Drop(files, fresh_), files1, calls1, copy);
      RunFreshCopy(files1, fresh_, prefix);
    }
    if !storage.faulty {
      PrefixIsWhole(crc, kind, files, old_, validPrefix, expected, files2, fresh_);
      assert ActivatePlan(kind, files2) == ActivatePlan(kind, files);
    }
    error := ActivateCandidate(storage, crc, kind, expected);
    if !storage.faulty {
      storage.DidThen(files, calls, Drop(files, fresh_) + copy, files2, calls2, ActivatePlan(kind, files));
    }
  }

  method RecoverJournal(storage: OutboxStorage, crc: Checksum, kind: Kind) returns (error: OutboxError)
    modifies storage
    ensures Lawful(OutboxCodec(crc, kind))
    ensures !storage.faulty ==>
              var plan := RecoverPlan(OutboxCodec(crc, kind), kind, old(storage.files));
              error == plan.error && storage.Did(old(storage.files), old(storage.calls), plan.calls)
  {
    hide ReadJournal, RepairPlan, ActivatePlan, RestorePlan, PromotePlan;
    ghost var files, calls := storage.files, storage.calls;
    var current, fresh_, old_ := CurrentPath(kind), FreshPath(kind), OldPath(kind);
    var hasCurrent, currentError, currentPrefix, currentCount, currentItems :=
      InspectJournal(storage, crc, current, kind);
    if currentError == NoError {
      var ok := storage.RemoveIfPresent(fresh_);
      if !ok {
        return Io;
      }
      RunDrop(files, fresh_);
      ghost var files1, calls1 := storage.files, storage.calls;
      ok := storage.RemoveIfPresent(old_);
      if !storage.faulty {
        assert Drop(files1, old_) == Drop(files, old_);
        storage.DidThen(files, calls, Drop(files, fresh_), files1, calls1, Drop(files, old_));
      }
      return if ok then NoError else Io;
    }
    var hasFresh, freshError, freshPrefix, freshCount, freshItems := InspectJournal(storage, crc, fresh_, kind);
    var hasOld, oldError, oldPrefix, oldCount, oldItems := InspectJournal(storage, crc, old_, kind);
    if currentError == Truncated && oldError != NoError {
      error := AtomicRepairPrefix(storage, crc, kind, currentPrefix, currentCount);
    } else if !hasCurrent && freshError == NoError {
      error := ActivateCandidate(storage, crc, kind, freshCount);
    } else if oldError == NoError {
      error := RestoreOld(storage, crc, kind, oldCount);
    } else if freshError == NoError {
      error := ActivateCandidate(storage, crc, kind, freshCount);
    } else if oldError == Truncated {
      error := PromoteTruncatedOld(storage, crc, kind, oldPrefix, oldCount);
    } else if !hasCurrent && !hasFresh && !hasOld {
      error := NoError;
      assert calls + [] == calls;
    } else {
      error := if hasCurrent then currentError else if hasOld then oldError else freshError;
      assert calls + [] == calls;
    }
  }

  function OutboxCodecs(crc: Checksum): Codecs {
    Codecs(OutboxCodec(crc, Actions), OutboxCodec(crc, Completions))
  }

  /** The crash results hold of the outbox's own record format. */
  lemma {:induction false} OutboxCodecsArePaired(crc: Checksum)
    ensures Paired(OutboxCodecs(crc))
  {
    OutboxCodecIsLawful(crc, Actions);
    OutboxCodecIsLawful(crc, Completions);
  }

  ghost predicate Reads(reader: JournalReader, storage: OutboxStorage, crc: Checksum, kind: Kind)
    reads reader, storage
  {
    && reader.storage == storage && reader.crc == crc && reader.kind == kind && reader.path == CurrentPath(kind)
    && reader.Sized() && Lawful(reader.C()) && (!storage.faulty ==> reader.Valid())
  }

  /** Frames as the action codec writes them. */
  ghost predicate Framed(crc: Checksum, actions: seq<Item>, frames: seq<Bytes>) {
    |frames| == |actions| && forall i :: 0 <= i < |actions| ==> frames[i] == OutboxCodec(crc, Actions).frame(actions[i])
  }

  lemma {:induction false} ScanUnfolds(marks: Inspection, whole: Inspection, i: nat)
    requires i <= |marks.items| && i <= |whole.items|
    ensures i == |marks.items| ==>
              ScanFrom(marks, whole, i) == if marks.error != NoError then Scanned(marks.error, whole.items[..i], i)
                                           else Scanned(whole.error, whole.items, i)
    ensures i < |marks.items| && i == |whole.items| ==>
              ScanFrom(marks, whole, i) == Scanned(if whole.error != NoError then whole.error else InvalidData,
                                                   whole.items, i)
    ensures i < |marks.items| && i < |whole.items| ==>
              ScanFrom(marks, whole, i)
                == if IdOf(whole.items[i]) != IdOf(marks.items[i]) then Scanned(InvalidData, whole.items[..i], i)
                   else ScanFrom(marks, whole, i + 1)
  {
  }

  /** The first loop of scanQueue: each completion mark is matched with the next action. */
  method ScanCompleted(storage: OutboxStorage, crc: Checksum, marked: JournalReader, queued: JournalReader)
    returns (error: OutboxError, actions: seq<Item>, frames: seq<Bytes>)
    requires marked != queued && Reads(marked, storage, crc, Completions) && Reads(queued, storage, crc, Actions)
    requires marked.seen == queued.seen == []
    modifies marked, queued
    ensures Reads(queued, storage, crc, Actions) && |frames| == |actions|
    ensures !storage.faulty ==>
              var marks, whole := marked.Whole(), queued.Whole();
              && Framed(crc, actions, frames) && |actions| <= |whole.items|
              && if error == NoError
                 then
                   && actions == queued.seen == whole.items[..|actions|]
                   && ScanFrom(marks, whole, 0) == Scanned(whole.error, whole.items, |actions|)
                 else ScanFrom(marks, whole, 0) == Scanned(error, actions, |actions|)
  {
    hide ReadJournal, SplitAt, NextFrame, Frame, ReadOrEmpty, Lawful, JournalReader.Valid, JournalReader.Whole,
         ScanFrom;
    actions, frames := [], [];
    ghost var works := !storage.faulty;
    while true
      invariant Reads(marked, storage, crc, Completions) && Reads(queued, storage, crc, Actions)
      invariant |frames| == |actions|
      invariant works ==>
                  && Framed(crc, actions, frames)
                  && |actions| == |marked.seen| <= |marked.Whole().items| && |actions| <= |queued.Whole().items|
                  && actions == queued.seen == queued.Whole().items[..|actions|]
                  && ScanFrom(marked.Whole(), queued.Whole(), 0) == ScanFrom(marked.Whole(), queued.Whole(), |actions|)
      decreases marked.size - marked.offset
    {
      var available: bool;
      var mark, action: Item;
      var bytes: Bytes;
      if works {
        ScanUnfolds(marked.Whole(), queued.Whole(), |actions|);
      }
      error, available, mark, bytes := marked.Next();
      if error != NoError || !available {
        return;
      }
      error, available, action, bytes := queued.Next();
      if error != NoError {
        return;
      }
      if !available || IdOf(action) != IdOf(mark) {
        error := InvalidData;
        return;
      }
      actions, frames := actions + [action], frames + [bytes];
    }
  }

  /** The second loop of scanQueue: the actions that are still pending. */
  method ScanPending(storage: OutboxStorage, crc: Checksum, queued: JournalReader, actions: seq<Item>,
                     frames: seq<Bytes>)
    returns (error: OutboxError, all: seq<Item>, allFrames: seq<Bytes>)
    requires Reads(queued, storage, crc, Actions) && |frames| == |actions|
    requires !storage.faulty ==>
               && Framed(crc, actions, frames) && |actions| <= |queued.Whole().items|
               && actions == queued.seen == queued.Whole().items[..|actions|]
    modifies queued
    ensures |allFrames| == |all| >= |actions|
    ensures !storage.faulty ==>
              && Framed(crc, all, allFrames)
              && error == queued.Whole().error && all == queued.Whole().items
  {
    hide ReadJournal, SplitAt, NextFrame, Frame, ReadOrEmpty, Lawful, JournalReader.Valid, JournalReader.Whole;
    all, allFrames := actions, frames;
    ghost var works := !storage.faulty;
    while true
      invariant Reads(queued, storage, crc, Actions)
      invariant |allFrames| == |all| >= |actions|
      invariant works ==>
                  && Framed(crc, all, allFrames) && |all| <= |queued.Whole().items|
                  && all == queued.seen == queued.Whole().items[..|all|]
      decreases queued.size - queued.offset
    {
      var available: bool;
      var action: Item;
      var bytes: Bytes;
      error, available, action, bytes := queued.Next();
      if error != NoError || !available {
        return;
      }
      all, allFrames := all + [action], allFrames + [bytes];
    }
  }

  /** scanQueue: the actions in order with their frames, the first of them completed. The visitor of
      each operation runs over what this method returns. */
  method ScanQueue(storage: OutboxStorage, crc: Checksum)
    returns (error: OutboxError, actions: seq<Item>, frames: seq<Bytes>, completed: nat)
    ensures Paired(OutboxCodecs(crc)) && |frames| == |actions| && completed <= |actions|
    ensures !storage.faulty ==>
              && Scan(OutboxCodecs(crc), storage.files) == Scanned(error, actions, completed)
              && Framed(crc, actions, frames)
  {
    hide ReadJournal, SplitAt, NextFrame, Frame, ReadOrEmpty, Lawful, JournalReader.Valid, ScanFrom;
    OutboxCodecsArePaired(crc);
    var queued := new JournalReader(storage, CurrentPath(Actions), Actions, crc);
    var marked := new JournalReader(storage, CurrentPath(Completions), Completions, crc);
    error, actions, frames := ScanCompleted(storage, crc, marked, queued);
    completed := |actions|;
    if error == NoError {
      error, actions, frames := ScanPending(storage, crc, queued, actions, frames);
    }
  }

  const MAX_IN_MEMORY_BATCH := 50

  /** Appends frames one after another: the visitor of compact. */
  method AppendFrames(storage: OutboxStorage, crc: Checksum, path: Path, ghost items: seq<Item>, frames: seq<Bytes>)
    returns (ok: bool)
    requires !storage.faulty ==> Framed(crc, items, frames)
    modifies storage
    ensures !storage.faulty ==>
              ok && storage.Did(old(storage.files), old(storage.calls),
                                FrameCalls(OutboxCodec(crc, Actions), path, items))
  {
    hide Frame, FrameCalls;
    ghost var files, calls := storage.files, storage.calls;
    ghost var c := OutboxCodec(crc, Actions);
    ghost var made: seq<Call> := [];
    if !storage.faulty {
      assert items[0..] == items && made + FrameCalls(c, path, items) == FrameCalls(c, path, items);
    }
    for i := 0 to |frames|
      invariant !storage.faulty ==>
                  && storage.Did(files, calls, made)
                  && made + FrameCalls(c, path, items[i..]) == FrameCalls(c, path, items)
    {
      ghost var middle, trace := storage.files, storage.calls;
      ok := storage.AppendAndFlush(path, frames[i]);
      if !ok {
        return;
      }
      ghost var call := Append(path, frames[i]);
      if !storage.faulty {
        storage.DidThen(files, calls, made, middle, trace, [call]);
        OneMoreFrameCall(c, path, items, i, made);
      }
      made := made + [call];
    }
    ok := true;
    if !storage.faulty { NoMoreFrameCalls(c, path, items, made); }
  }

  lemma {:induction false} OneMoreFrameCall(c: Codec, path: Path, items: seq<Item>, i: nat, made: seq<Call>)
    requires i < |items|
    ensures made + FrameCalls(c, path, items[i..])
      == made + [Append(path, c.frame(items[i]))] + FrameCalls(c, path, items[i + 1..])
  {
    assert items[i..][1..] == items[i + 1..];
    var rest := FrameCalls(c, path, items[i + 1..]);
    assert made + ([Append(path, c.frame(items[i]))] + rest) == made + [Append(path, c.frame(items[i]))] + rest;
  }

  lemma {:induction false} NoMoreFrameCalls(c: Codec, path: Path, items: seq<Item>, made: seq<Call>)
    ensures made + FrameCalls(c, path, items[|items|..]) == made
  {
  }

  /** The old file is removed and the fresh one swapped in. */
  method Exchange(storage: OutboxStorage, crc: Checksum, kind: Kind, expected: nat) returns (error: OutboxError)
    requires !storage.faulty ==>
               && Lawful(OutboxCodec(crc, kind))
               && Inspect(OutboxCodec(crc, kind), storage.files, FreshPath(kind)).error == NoError
               && |Inspect(OutboxCodec(crc, kind), storage.files, FreshPath(kind)).items| == expected
    modifies storage
    ensures !storage.faulty ==>
              error == NoError && storage.Did(old(storage.files), old(storage.calls),
                                              ExchangePlan(kind, old(storage.files)))
  {
    hide ReadJournal;
    ghost var files, calls := storage.files, storage.calls;
    var ok := storage.RemoveIfPresent(OldPath(kind));
    if !ok {
      return Io;
    }
    RunDrop(files, OldPath(kind));
    ghost var middle, trace := storage.files, storage.calls;
    var hadCurrent := storage.Exists(CurrentPath(kind));
    if !storage.faulty {
      InspectMoved(crc, kind, files, FreshPath(kind), middle, FreshPath(kind));
    }
    error := SwapIn(storage, crc, kind, hadCurrent, expected);
    if !storage.faulty {
      storage.DidThen(files, calls, Drop(files, OldPath(kind)), middle, trace,
                      if hadCurrent then SwapPlan(kind) else [Rename(FreshPath(kind), CurrentPath(kind))]);
    }
  }

  /** An empty fresh file. */
  method StartFresh(storage: OutboxStorage, kind: Kind) returns (ok: bool)
    modifies storage
    ensures !storage.faulty ==>
              && ok
              && storage.files == old(storage.files)[FreshPath(kind) := []]
              && storage.Did(old(storage.files), old(storage.calls),
                             Drop(old(storage.files), FreshPath(kind)) + [Write(FreshPath(kind), [])])
  {
    ghost var files, calls := storage.files, storage.calls;
    ok := storage.RemoveIfPresent(FreshPath(kind));
    if !ok {
      return;
    }
    RunDrop(files, FreshPath(kind));
    ghost var middle, trace := storage.files, storage.calls;
    ok := storage.WriteAndFlush(FreshPath(kind), []);
    if !storage.faulty {
      RunOne(middle, Write(FreshPath(kind), []));
      storage.DidThen(files, calls, Drop(files, FreshPath(kind)), middle, trace, [Write(FreshPath(kind), [])]);
      assert storage.files == files[FreshPath(kind) := []];
    }
  }

  method AtomicallyClearCompletions(storage: OutboxStorage, crc: Checksum) returns (error: OutboxError)
    modifies storage
    ensures !storage.faulty ==>
              error == NoError && storage.Did(old(storage.files), old(storage.calls),
                                              ClearPlan(OutboxCodecs(crc), old(storage.files)))
  {
    hide ReadJournal;
    ghost var files, calls := storage.files, storage.calls;
    ghost var c := OutboxCodec(crc, Completions);
    OutboxCodecIsLawful(crc, Completions);
    var ok := StartFresh(storage, Completions);
    if !ok {
      return Io;
    }
    ghost var middle, trace := storage.files, storage.calls;
    if !storage.faulty {
      InspectEncoded(c, middle, FreshPath(Completions), []);
    }
    error := VerifyJournal(storage, crc, FreshPath(Completions), Completions, 0);
    if error != NoError {
      return;
    }
    error := Exchange(storage, crc, Completions, 0);
    if !storage.faulty {
      ghost var fill := Drop(files, FreshPath(Completions)) + [Write(FreshPath(Completions), [])];
      assert fill == FillPlan(c, Completions, files, []);
      assert ExchangePlan(Completions, middle) == ExchangePlan(Completions, files);
      storage.DidThen(files, calls, fill, middle, trace, ExchangePlan(Completions, files));
    }
  }

  lemma {:induction false} ScanIgnoresFresh(crc: Checksum, a: Files, b: Files)
    requires Paired(OutboxCodecs(crc)) && b == a[FreshPath(Actions) := []]
    ensures Scan(OutboxCodecs(crc), a) == Scan(OutboxCodecs(crc), b)
  {
  }

  lemma {:induction false} ScannedAreValid(crc: Checksum, files: Files)
    requires Paired(OutboxCodecs(crc))
    ensures AllValid(OutboxCodec(crc, Actions), Scan(OutboxCodecs(crc), files).actions)
    ensures |Scan(OutboxCodecs(crc), files).actions| <= CAPACITY
  {
    var c := OutboxCodec(crc, Actions);
    var whole := ReadOrEmpty(c, files, CurrentPath(Actions));
    if CurrentPath(Actions) in files { AcceptedBytes(c, files[CurrentPath(Actions)], CAPACITY); }
    assert Scan(OutboxCodecs(crc), files).actions <= whole.items;
  }

  lemma {:induction false} RunFill(c: Codec, kind: Kind, files: Files, items: seq<Item>)
    ensures Run(files, FillPlan(c, kind, files, items)) == files[FreshPath(kind) := Encoded(c, items)]
  {
    var path := FreshPath(kind);
    var start := Drop(files, path) + [Write(path, [])];
    RunAppend(files, start, FrameCalls(c, path, items));
    RunAppend(files, Drop(files, path), [Write(path, [])]);
    RunDrop(files, path);
    RunOne(files - {path}, Write(path, []));
    var begun := (files - {path})[path := []];
    RunFrameCalls(c, begun, path, items);
    assert [] + Encoded(c, items) == Encoded(c, items);
    assert begun[path := Encoded(c, items)] == files[path := Encoded(c, items)];
  }

  /** After the pending frames have been copied, the fresh file is whole and the calls still to come
      are those planned from the initial files. */
  lemma {:induction false} CopiedPending(crc: Checksum, files: Files, pending: seq<Item>, filled: Files)
    requires Paired(OutboxCodecs(crc)) && AllValid(OutboxCodec(crc, Actions), pending) && |pending| <= CAPACITY
    requires filled == Run(files, FillPlan(OutboxCodec(crc, Actions), Actions, files, pending))
    ensures var state := Inspect(OutboxCodec(crc, Actions), filled, FreshPath(Actions));
            state.error == NoError && state.items == pending
    ensures ClearPlan(OutboxCodecs(crc), filled) == ClearPlan(OutboxCodecs(crc), files)
    ensures ExchangePlan(Actions, filled) == ExchangePlan(Actions, files)
  {
    hide ReadJournal, Lawful, OutboxCodec, Inspect, Encoded, AllValid, Run, FrameCalls;
    RunFill(OutboxCodec(crc, Actions), Actions, files, pending);
    InspectEncoded(OutboxCodec(crc, Actions), filled, FreshPath(Actions), pending);
  }

  lemma {:induction false} ClearedKeepsActions(crc: Checksum, files: Files)
    requires Paired(OutboxCodecs(crc))
    ensures var cleared := Run(files, ClearPlan(OutboxCodecs(crc), files));
            && ExchangePlan(Actions, cleared) == ExchangePlan(Actions, files)
            && Inspect(OutboxCodec(crc, Actions), cleared, FreshPath(Actions))
                == Inspect(OutboxCodec(crc, Actions), files, FreshPath(Actions))
  {
    var cs := OutboxCodecs(crc);
    var clear := ClearPlan(cs, files);
    FrameCallsWithin(cs.completions, FreshPath(Completions), []);
    assert Within(clear, PathsOf(Completions));
    OtherExchangeKept(Completions, Actions, files, clear);
    RunIsInterrupted(files, clear);
    UntouchedOutside(files, clear, PathsOf(Completions), Run(files, clear));
    var p := FreshPath(Actions);
    assert p !in PathsOf(Completions);
    assert p in files <==> p in Outside(files, PathsOf(Completions));
    assert p in Run(files, clear) <==> p in Outside(Run(files, clear), PathsOf(Completions));
    assert p in files ==> Outside(files, PathsOf(Completions))[p] == files[p];
    assert p in Run(files, clear) ==> Outside(Run(files, clear), PathsOf(Completions))[p] == Run(files, clear)[p];
  }

  /** The visitor of append: the same id with the same action, and with another one. */
  method FindDuplicates(actions: seq<Item>, x: Item) returns (exactDuplicate: bool, conflictingDuplicate: bool)
    ensures exactDuplicate <==> x in actions
    ensures conflictingDuplicate <==> exists j :: 0 <= j < |actions| && IdOf(actions[j]) == IdOf(x) && actions[j] != x
  {
    exactDuplicate, conflictingDuplicate := false, false;
    for i := 0 to |actions|
      invariant exactDuplicate <==> x in actions[..i]
      invariant conflictingDuplicate <==> exists j :: 0 <= j < i && IdOf(actions[j]) == IdOf(x) && actions[j] != x
    {
      if IdOf(actions[i]) == IdOf(x) {
        if actions[i] == x {
          exactDuplicate := true;
        } else {
          conflictingDuplicate := true;
        }
      }
      assert actions[..i + 1] == actions[..i] + [actions[i]];
    }
    assert actions[..|actions|] == actions;
  }

  /** The terminal's durable queue of actions. */
  class Outbox {
    const storage: OutboxStorage
    const crc: Checksum
    var begun: bool

    constructor (storage: OutboxStorage, crc: Checksum)
      ensures this.storage == storage && this.crc == crc && !begun
    {
      this.storage, this.crc, begun := storage, crc, false;
    }

    method Begin() returns (error: OutboxError)
      modifies this, storage
      ensures Paired(OutboxCodecs(crc))
      ensures begun == (old(begun) || error == NoError)
      ensures !storage.faulty ==>
                var plan := BeginPlan(OutboxCodecs(crc), old(storage.files));
                error == plan.error && storage.Did(old(storage.files), old(storage.calls), plan.calls)
    {
      hide RecoverPlan, ReadJournal, Scan, Lawful;
      OutboxCodecsArePaired(crc);
      ghost var files, calls := storage.files, storage.calls;
      error := RecoverJournal(storage, crc, Actions);
      if error != NoError {
        return;
      }
      ghost var middle, trace := storage.files, storage.calls;
      error := RecoverJournal(storage, crc, Completions);
      if !storage.faulty {
        storage.DidThen(files, calls, RecoverPlan(OutboxCodec(crc, Actions), Actions, files).calls, middle, trace,
                        RecoverPlan(OutboxCodec(crc, Completions), Completions, middle).calls);
      }
      if error != NoError {
        return;
      }
      var actions, frames, completed;
      error, actions, frames, completed := ScanQueue(storage, crc);
      if error == NoError {
        begun := true;
      }
    }

    /** The oldest pending actions, at most fifty of them. */
    method List(limit: nat) returns (error: OutboxError, output: seq<Item>)
      ensures !begun ==> error == Unsupported && output == []
      ensures Paired(OutboxCodecs(crc))
      ensures begun && !storage.faulty ==>
                var scan := Scan(OutboxCodecs(crc), storage.files);
                var pending := scan.actions[scan.completed..];
                && error == scan.error
                && output <= pending && |output| <= limit && |output| <= 50
                && (|output| < |pending| ==> |output| == limit || |output| == 50)
    {
      hide Scan, Lawful;
      OutboxCodecsArePaired(crc);
      if !begun {
        return Unsupported, [];
      }
      var actions, frames, completed;
      error, actions, frames, completed := ScanQueue(storage, crc);
      var bounded := if limit < MAX_IN_MEMORY_BATCH then limit else MAX_IN_MEMORY_BATCH;
      output := [];
      for i := 0 to |actions|
        invariant output == if i <= completed then []
                            else actions[completed..if i <= completed + bounded then i else completed + bounded]
      {
        if i >= completed && |output| < bounded {
          output := output + [actions[i]];
        }
      }
    }

    method PendingCount() returns (error: OutboxError, count: nat)
      ensures !begun ==> error == Unsupported && count == 0
      ensures Paired(OutboxCodecs(crc))
      ensures begun && !storage.faulty ==>
                var scan := Scan(OutboxCodecs(crc), storage.files);
                error == scan.error && count == if scan.error == NoError then |scan.actions| - scan.completed else 0
    {
      hide Scan, Lawful;
      OutboxCodecsArePaired(crc);
      if !begun {
        return Unsupported, 0;
      }
      var actions, frames, completed;
      error, actions, frames, completed := ScanQueue(storage, crc);
      count := if error == NoError then |actions| - completed else 0;
    }

    method Compact() returns (error: OutboxError)
      modifies storage
      ensures Paired(OutboxCodecs(crc))
      ensures !begun ==>
        error == Unsupported && storage.files == old(storage.files) && storage.calls == old(storage.calls)
      ensures begun && !storage.faulty ==>
                var plan := CompactPlan(OutboxCodecs(crc), old(storage.files));
                error == plan.error && storage.Did(old(storage.files), old(storage.calls), plan.calls)
    {
      hide Scan, Lawful, ReadJournal, Inspect, ClearPlan, ExchangePlan, FrameCalls;
      OutboxCodecsArePaired(crc);
      if !begun {
        return Unsupported;
      }
      ghost var files, calls := storage.files, storage.calls;
      ghost var cs := OutboxCodecs(crc);
      var ok := StartFresh(storage, Actions);
      if !ok {
        return Io;
      }
      ghost var files1, calls1 := storage.files, storage.calls;
      var actions, frames, completed;
      error, actions, frames, completed := ScanQueue(storage, crc);
      ghost var pending := actions[completed..];
      if !storage.faulty {
        ScanIgnoresFresh(crc, files, files1);
        ScannedAreValid(crc, files);
      }
      ok := AppendFrames(storage, crc, FreshPath(Actions), pending, frames[completed..]);
      if !ok {
        return Io;
      }
      ghost var fill := FillPlan(cs.actions, Actions, files, pending);
      ghost var files2, calls2 := storage.files, storage.calls;
      if !storage.faulty {
        storage.DidThen(files, calls, Drop(files, FreshPath(Actions)) + [Write(FreshPath(Actions), [])], files1, calls1,
                        FrameCalls(cs.actions, FreshPath(Actions), pending));
        CopiedPending(crc, files, pending, files2);
      }
      if error != NoError {
        return;
      }
      error := VerifyJournal(storage, crc, FreshPath(Actions), Actions, |actions| - completed);
      if error != NoError {
        return;
      }
      error := AtomicallyClearCompletions(storage, crc);
      if error != NoError {
        return;
      }
      ghost var files3, calls3 := storage.files, storage.calls;
      if !storage.faulty {
        storage.DidThen(files, calls, fill, files2, calls2, ClearPlan(cs, files));
        ClearedKeepsActions(crc, files2);
      }
      error := Exchange(storage, crc, Actions, |actions| - completed);
      if !storage.faulty {
        storage.DidThen(files, calls, fill + ClearPlan(cs, files), files3, calls3, ExchangePlan(Actions, files));
      }
    }

    method Append(action: Action) returns (error: OutboxError)
      modifies storage
      ensures Paired(OutboxCodecs(crc))
      ensures !begun ==>
        error == Unsupported && storage.files == old(storage.files) && storage.calls == old(storage.calls)
      ensures begun && !storage.faulty ==>
                var plan := AppendPlan(OutboxCodecs(crc), old(storage.files), Queued(action));
                error == plan.error && storage.Did(old(storage.files), old(storage.calls), plan.calls)
      ensures begun && !storage.faulty ==> forall q :: R.ReadyQueue(OutboxCodecs(crc), old(storage.files), q) ==>
                R.AppendAnswered(OutboxCodecs(crc), q, Queued(action), error, storage.files)
    {
      hide Scan, Lawful, CompactPlan, Frame, Ready, R.AppendAnswered;
      OutboxCodecsArePaired(crc);
      if !begun {
        return Unsupported;
      }
      ghost var files, calls := storage.files, storage.calls;
      ghost var cs := OutboxCodecs(crc);
      assert calls + [] == calls;
      var x := Queued(action);
      forall q | R.ReadyQueue(cs, files, q)
        ensures R.AppendAnswered(cs, q, x, AppendPlan(cs, files, x).error, Run(files, AppendPlan(cs, files, x).calls))
      {
        R.AppendIsAnswered(cs, files, q, x);
      }
      EncodedIsFrame(crc, Actions, x);
      var encoded := EncodeItem(crc, Actions, x);
      if encoded.Failure? {
        return encoded.error;
      }
      var actions, frames, completed;
      error, actions, frames, completed := ScanQueue(storage, crc);
      if error != NoError {
        return;
      }
      var exactDuplicate, conflictingDuplicate := FindDuplicates(actions, x);
      if conflictingDuplicate {
        return InvalidData;
      }
      if exactDuplicate {
        return NoError;
      }
      ghost var room: seq<Call> := [];
      if |actions| >= CAPACITY {
        if completed == 0 {
          return Capacity;
        }
        error := Compact();
        if error != NoError {
          return;
        }
        room := if storage.faulty then [] else CompactPlan(cs, files).calls;
      }
      ghost var middle, trace := storage.files, storage.calls;
      var ok := storage.AppendAndFlush(CurrentPath(Actions), encoded.value);
      if !storage.faulty {
        storage.DidThen(files, calls, room, middle, trace, [Call.Append(CurrentPath(Actions), encoded.value)]);
      }
      error := if ok then NoError else Io;
    }

    method Complete(clientRequestId: Bytes) returns (error: OutboxError)
      modifies storage
      ensures Paired(OutboxCodecs(crc))
      ensures !begun ==>
        error == Unsupported && storage.files == old(storage.files) && storage.calls == old(storage.calls)
      ensures begun && !storage.faulty ==>
                var plan := CompletePlan(OutboxCodecs(crc), old(storage.files), clientRequestId);
                error == plan.error && storage.Did(old(storage.files), old(storage.calls), plan.calls)
      ensures begun && !storage.faulty ==> forall q :: R.ReadyQueue(OutboxCodecs(crc), old(storage.files), q) ==>
                R.CompleteAnswered(OutboxCodecs(crc), q, clientRequestId, error, storage.files)
    {
      hide Scan, Lawful, Frame, Ready, R.CompleteAnswered;
      OutboxCodecsArePaired(crc);
      if !begun {
        return Unsupported;
      }
      assert storage.calls + [] == storage.calls;
      ghost var files, cs := storage.files, OutboxCodecs(crc);
      forall q | R.ReadyQueue(cs, files, q)
        ensures R.CompleteAnswered(cs, q, clientRequestId, CompletePlan(cs, files, clientRequestId).error,
                                   Run(files, CompletePlan(cs, files, clientRequestId).calls))
      {
        R.CompleteIsAnswered(cs, files, q, clientRequestId);
      }
      if !ValidText(clientRequestId, MAX_ID, false) {
        return InvalidData;
      }
      var actions, frames, completed;
      error, actions, frames, completed := ScanQueue(storage, crc);
      if error != NoError {
        return;
      }
      var alreadyCompleted := false;
      var firstPending: Option<Bytes> := None;
      for i := 0 to |actions|
        invariant alreadyCompleted <==> exists j :: 0 <= j < i && j < completed && IdOf(actions[j]) == clientRequestId
        invariant firstPending == if i <= completed then None else Some(IdOf(actions[completed]))
      {
        if i < completed && IdOf(actions[i]) == clientRequestId {
          alreadyCompleted := true;
        }
        if i >= completed && firstPending.None? {
          firstPending := Some(IdOf(actions[i]));
        }
      }
      if alreadyCompleted {
        return NoError;
      }
      if firstPending.None? {
        return NotFound;
      }
      if firstPending.value != clientRequestId {
        return InvalidData;
      }
      var mark := Item.Done(clientRequestId);
      var ok := storage.AppendAndFlush(CurrentPath(Completions), Frame(crc, Completions, mark));
      error := if ok then NoError else Io;
    }
  }

  lemma {:induction false} EncodedIsFrame(crc: Checksum, kind: Kind, x: Item)
    ensures EncodeItem(crc, kind, x)
      == if OutboxCodec(crc, kind).valid(x) then Success(OutboxCodec(crc, kind).frame(x)) else Failure(InvalidData)
  {
    if ValidItem(kind, x) { PayloadSize(kind, x); }
  }
}
