/** Append-only journals over an abstract frame codec: what a reader returns for a file,
    and what it returns for a file cut short. */
module Journal {
  import opened Bytes
  import opened OutboxFormat

  /** How one item is framed, and how the frame at the front of an input is read. */
  datatype Codec = Codec(valid: Item -> bool, frame: Item -> Bytes, next: Bytes -> Result<(Item, nat)>)

  /** The laws a codec must obey: frames are read back whatever follows them, nothing else is
      accepted, and a frame cut short is reported as Truncated. */
  ghost predicate Lawful(c: Codec) {
    && (forall x :: Bounded(c, x))
    && (forall x, rest :: ReadsBack(c, x, rest))
    && (forall x, cut :: ReportsCut(c, x, cut))
    && (forall input :: Sound(c, input))
  }

  predicate Bounded(c: Codec, x: Item) {
    c.valid(x) ==> 0 < |c.frame(x)| <= MAX_RECORD_SIZE
  }

  predicate ReadsBack(c: Codec, x: Item, rest: Bytes) {
    c.valid(x) ==> c.next(c.frame(x) + rest) == Success((x, |c.frame(x)|))
  }

  predicate ReportsCut(c: Codec, x: Item, cut: Bytes) {
    c.valid(x) && cut != [] && cut < c.frame(x) ==> c.next(cut) == Failure(Truncated)
  }

  predicate Sound(c: Codec, input: Bytes) {
    match c.next(input)
    case Failure(e) => e != NoError
    case Success((x, n)) => c.valid(x) && 0 < n <= |input| && c.frame(x) == input[..n]
  }

  datatype Inspection = Inspection(error: OutboxError, items: seq<Item>, validPrefix: nat)

  /** Reads frames to the end of the input or to the first error; `room` is how many more
      frames the capacity allows. */
  ghost function ReadJournal(c: Codec, input: Bytes, room: nat): (r: Inspection)
    requires Lawful(c)
    ensures r.validPrefix <= |input| && |r.items| <= room
    ensures r.error == NoError ==> r.validPrefix == |input|
    decreases |input|
  {
    if input == [] then Inspection(NoError, [], 0) else
    assert Sound(c, input);
    match c.next(input)
    case Failure(e) => Inspection(e, [], 0)
    case Success((item, n)) =>
      if room == 0 then Inspection(Capacity, [], 0) else
      var rest := ReadJournal(c, input[n..], room - 1);
      Inspection(rest.error, [item] + rest.items, n + rest.validPrefix)
  }

  ghost predicate AllValid(c: Codec, items: seq<Item>) {
    forall i :: 0 <= i < |items| ==> c.valid(items[i])
  }

  /** The bytes of a journal holding exactly these items. */
  ghost function Encoded(c: Codec, items: seq<Item>): Bytes {
    if items == [] then [] else c.frame(items[0]) + Encoded(c, items[1..])
  }

  lemma {:induction false} EncodedAppend(c: Codec, a: seq<Item>, b: seq<Item>)
    ensures Encoded(c, a + b) == Encoded(c, a) + Encoded(c, b)
  {
    if a == [] {
      assert a + b == b;
    } else {
      assert (a + b)[1..] == a[1..] + b;
      EncodedAppend(c, a[1..], b);
    }
  }

  lemma {:induction false} EncodedSnoc(c: Codec, a: seq<Item>, x: Item)
    ensures Encoded(c, a + [x]) == Encoded(c, a) + c.frame(x)
  {
    EncodedAppend(c, a, [x]);
    assert Encoded(c, [x][1..]) == [];
  }

  /** What can follow the last complete frame: nothing, or a strict prefix of one more frame. */
  ghost predicate IsTail(c: Codec, tail: Bytes) {
    tail == [] || exists x :: c.valid(x) && tail < c.frame(x)
  }

  lemma {:induction false} ReadOneFrame(c: Codec, x: Item, rest: Bytes, room: nat)
    requires Lawful(c) && c.valid(x) && room > 0
    ensures var later := ReadJournal(c, rest, room - 1);
      ReadJournal(c, c.frame(x) + rest, room)
        == Inspection(later.error, [x] + later.items, |c.frame(x)| + later.validPrefix)
  {
    var input := c.frame(x) + rest;
    assert input[|c.frame(x)|..] == rest;
    assert ReadsBack(c, x, rest) && Bounded(c, x);
  }

  lemma {:induction false} ReadCutFrame(c: Codec, tail: Bytes, room: nat)
    requires Lawful(c) && IsTail(c, tail)
    ensures ReadJournal(c, tail, room) == Inspection(if tail == [] then NoError else Truncated, [], 0)
  {
    if tail != [] {
      var x :| c.valid(x) && tail < c.frame(x);
      assert ReportsCut(c, x, tail);
    }
  }

  /** Reading concatenated frames and a cut one gives exactly the complete items. */
  lemma {:induction false} ReadBack(c: Codec, items: seq<Item>, tail: Bytes, room: nat)
    requires Lawful(c) && AllValid(c, items) && |items| <= room && IsTail(c, tail)
    ensures ReadJournal(c, Encoded(c, items) + tail, room)
         == Inspection(if tail == [] then NoError else Truncated, items, |Encoded(c, items)|)
    decreases |items|
  {
    hide ReadJournal, Lawful, IsTail;
    if items == [] {
      assert Encoded(c, items) + tail == tail;
      ReadCutFrame(c, tail, room);
    } else {
      var rest := Encoded(c, items[1..]) + tail;
      assert Encoded(c, items) + tail == c.frame(items[0]) + rest;
      ReadOneFrame(c, items[0], rest, room);
      ReadBack(c, items[1..], tail, room - 1);
      assert [items[0]] + items[1..] == items;
    }
  }

  /** Whatever a reader accepts is the encoding of the items it returned, and nothing else. */
  lemma {:induction false} AcceptedBytes(c: Codec, input: Bytes, room: nat)
    requires Lawful(c)
    ensures var r := ReadJournal(c, input, room);
            AllValid(c, r.items) && Encoded(c, r.items) == input[..r.validPrefix]
    decreases |input|
  {
    var r := ReadJournal(c, input, room);
    if input != [] && c.next(input).Success? && room > 0 {
      var (item, n) := c.next(input).value;
      assert Sound(c, input);
      AcceptedBytes(c, input[n..], room - 1);
      var rest := ReadJournal(c, input[n..], room - 1);
      assert r.items[1..] == rest.items;
      assert input[..r.validPrefix] == input[..n] + input[n..][..rest.validPrefix];
    }
  }

  /** How many frames fit in the first `n` bytes, and the cut one that follows them. */
  lemma {:induction false} SplitPrefix(c: Codec, items: seq<Item>, n: nat) returns (k: nat, tail: Bytes)
    requires AllValid(c, items) && n <= |Encoded(c, items)|
    ensures k <= |items| && IsTail(c, tail)
    ensures Encoded(c, items)[..n] == Encoded(c, items[..k]) + tail
    ensures k < |items| ==> tail < c.frame(items[k])
    decreases |items|
  {
    if items == [] {
      k, tail := 0, [];
    } else {
      var f, rest := c.frame(items[0]), Encoded(c, items[1..]);
      if n < |f| {
        k, tail := 0, f[..n];
        assert Encoded(c, items)[..n] == [] + tail;
      } else {
        k, tail := SplitPrefix(c, items[1..], n - |f|);
        assert items[..k + 1][1..] == items[1..][..k];
        assert (f + rest)[..n] == f + rest[..n - |f|] == f + Encoded(c, items[1..][..k]) + tail;
        k := k + 1;
      }
    }
  }

  /** A journal cut at any byte is read as a prefix of its items, with error Truncated exactly when
      the cut is not on a frame boundary, and stopping before the first frame that does not fit. */
  lemma {:induction false} CutJournalIsReadBack(c: Codec, items: seq<Item>, n: nat, room: nat)
    requires Lawful(c) && AllValid(c, items) && |items| <= room && n <= |Encoded(c, items)|
    ensures var r := ReadJournal(c, Encoded(c, items)[..n], room);
            && r.items <= items
            && r.validPrefix == |Encoded(c, r.items)| <= n
            && r.error == (if n == r.validPrefix then NoError else Truncated)
            && (|r.items| < |items| ==> n < |Encoded(c, items[..|r.items| + 1])|)
  {
    var k, tail := SplitPrefix(c, items, n);
    ReadBack(c, items[..k], tail, room);
    if k < |items| {
      assert items[..k + 1] == items[..k] + [items[k]];
      EncodedSnoc(c, items[..k], items[k]);
    }
  }
}
