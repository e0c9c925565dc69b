/** The terminal's file storage as a map from paths to bytes, the storage calls that change it,
    and what a loss of power during a sequence of calls can leave behind. */
module Flash {
  import opened Bytes
  import opened OutboxFormat

  /** Each journal has a current file, a freshly written one and the one it replaces. */
  datatype Role = Current | Fresh | Old
  datatype Path = Path(kind: Kind, role: Role)

  type Files = map<Path, Bytes>

  datatype Call =
    | Append(path: Path, bytes: Bytes)
    | Write(path: Path, bytes: Bytes)
    | Remove(path: Path)
    | Rename(from: Path, to: Path)

  function Content(files: Files, path: Path): Bytes {
    if path in files then files[path] else []
  }

  /** The effect of a call that completes; a rename onto an existing file is refused. */
  function Apply(files: Files, call: Call): Files {
    match call
    case Append(path, bytes) => files[path := Content(files, path) + bytes]
    case Write(path, bytes) => files[path := bytes]
    case Remove(path) => files - {path}
    case Rename(from, to) => if from in files && to !in files then (files - {from})[to := files[from]] else files
  }

  /** What is left when power is lost during a call: a write or append may be cut to any prefix,
      a removal or a rename is done or not done. */
  ghost predicate Cut(files: Files, call: Call, after: Files) {
    || after == files
    || match call
       case Append(path, bytes) =>
         exists n :: 0 <= n <= |bytes| && after == files[path := Content(files, path) + bytes[..n]]
       case Write(path, bytes) =>
         exists n :: 0 <= n <= |bytes| && after == files[path := bytes[..n]]
       case _ => after == Apply(files, call)
  }

  ghost function Run(files: Files, calls: seq<Call>): Files
    decreases |calls|
  {
    if calls == [] then files else Run(Apply(files, calls[0]), calls[1..])
  }

  /** What is left when power is lost before, during, between or after the calls. */
  ghost predicate Interrupted(files: Files, calls: seq<Call>, after: Files)
    decreases |calls|
  {
    || after == files
    || (calls != [] &&
        (Cut(files, calls[0], after) || Interrupted(Apply(files, calls[0]), calls[1..], after)))
  }

  lemma {:induction false} RunAppend(files: Files, a: seq<Call>, b: seq<Call>)
    ensures Run(files, a + b) == Run(Run(files, a), b)
    decreases |a|
  {
    if a == [] {
      assert a + b == b;
    } else {
      assert (a + b)[1..] == a[1..] + b;
      RunAppend(Apply(files, a[0]), a[1..], b);
    }
  }

  /** Losing power in a sequence is losing it in its first part or, after that, in its second. */
  lemma {:induction false} InterruptedAppend(files: Files, a: seq<Call>, b: seq<Call>, after: Files)
    ensures Interrupted(files, a + b, after) <==> Interrupted(files, a, after) || Interrupted(Run(files, a), b, after)
    decreases |a|
  {
    if a == [] {
      assert a + b == b;
    } else {
      assert (a + b)[1..] == a[1..] + b;
      InterruptedAppend(Apply(files, a[0]), a[1..], b, after);
    }
  }

  lemma {:induction false} RunOne(files: Files, call: Call)
    ensures Run(files, [call]) == Apply(files, call)
  {
    assert [call][1..] == [];
  }

  lemma {:induction false} InterruptedOne(files: Files, call: Call, after: Files)
    ensures Interrupted(files, [call], after) <==> Cut(files, call, after) || after == Apply(files, call)
  {
    assert [call][1..] == [];
  }

  /** All calls stay within a set of paths. */
  predicate Within(calls: seq<Call>, paths: set<Path>) {
    forall i :: 0 <= i < |calls| ==> CallWithin(calls[i], paths)
  }

  predicate CallWithin(call: Call, paths: set<Path>) {
    match call
    case Rename(from, to) => from in paths && to in paths
    case _ => call.path in paths
  }

  lemma {:induction false} WithinAppend(a: seq<Call>, b: seq<Call>, paths: set<Path>)
    requires Within(a, paths) && Within(b, paths)
    ensures Within(a + b, paths)
  {
  }

  lemma {:induction false} WithinLarger(calls: seq<Call>, paths: set<Path>, more: set<Path>)
    requires Within(calls, paths) && paths <= more
    ensures Within(calls, more)
  {
    forall i | 0 <= i < |calls| ensures CallWithin(calls[i], more) {
      assert CallWithin(calls[i], paths);
    }
  }

  /** The files outside a set of paths. */
  function Outside(files: Files, paths: set<Path>): Files {
    files - paths
  }

  lemma {:induction false} UntouchedOutside(files: Files, calls: seq<Call>, paths: set<Path>, after: Files)
    requires Within(calls, paths) && Interrupted(files, calls, after)
    ensures Outside(after, paths) == Outside(files, paths)
    decreases |calls|
  {
    if after != files && !Cut(files, calls[0], after) {
      var next := Apply(files, calls[0]);
      assert CallWithin(calls[0], paths);
      assert Outside(next, paths) == Outside(files, paths);
      UntouchedOutside(next, calls[1..], paths, after);
    } else if after != files {
      assert CallWithin(calls[0], paths);
    }
  }

  lemma {:induction false} RunIsInterrupted(files: Files, calls: seq<Call>)
    ensures Interrupted(files, calls, Run(files, calls))
    decreases |calls|
  {
    if calls != [] {
      RunIsInterrupted(Apply(files, calls[0]), calls[1..]);
    }
  }

  // ---------------------------------------------------------------- shared call sequences

  /** removeIfPresent. */
  function Drop(files: Files, path: Path): seq<Call> {
    if path in files then [Remove(path)] else []
  }

  lemma {:induction false} RunDrop(files: Files, path: Path)
    ensures Run(files, Drop(files, path)) == files - {path}
  {
    RunOne(files, Remove(path));
    if path !in files {
      assert files - {path} == files;
    }
  }

  /** A file copied by appending blocks of at most one record. */
  function Blocks(path: Path, bytes: Bytes): seq<Call>
    decreases |bytes|
  {
    if bytes == [] then [] else
    var n := if |bytes| <= MAX_RECORD_SIZE then |bytes| else MAX_RECORD_SIZE;
    [Append(path, bytes[..n])] + Blocks(path, bytes[n..])
  }

  lemma {:induction false} BlocksWithin(path: Path, bytes: Bytes)
    ensures Within(Blocks(path, bytes), {path})
    decreases |bytes|
  {
    if bytes != [] {
      var n := if |bytes| <= MAX_RECORD_SIZE then |bytes| else MAX_RECORD_SIZE;
      BlocksWithin(path, bytes[n..]);
    }
  }

  lemma {:induction false} RunBlocks(files: Files, path: Path, bytes: Bytes)
    requires path in files
    ensures Run(files, Blocks(path, bytes)) == files[path := files[path] + bytes]
    decreases |bytes|
  {
    if bytes == [] {
      assert files[path] + bytes == files[path];
    } else {
      var n := if |bytes| <= MAX_RECORD_SIZE then |bytes| else MAX_RECORD_SIZE;
      var next := Apply(files, Append(path, bytes[..n]));
      RunBlocks(next, path, bytes[n..]);
      assert files[path] + bytes == next[path] + bytes[n..];
    }
  }
}
