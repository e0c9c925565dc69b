/** What the response parser accepts: a body in chunks is taken as complete only if it
    is one, whatever bytes arrive. */
module HttpAccepted {
  import opened Bytes
  import opened HttpParser

  lemma {:induction false} FirstByte(p: Parser, input: Bytes)
    requires Sound(p) && p.status == NeedMore && Fed(p, input).status == Complete
    ensures input != [] && Sound(Step(p, input[0])) && Fed(p, input) == Fed(Step(p, input[0]), input[1..])
    ensures Step(p, input[0]).status in {NeedMore, Complete}
  {
    hide Step, Sound;
    assert Fed(p, []) == p;
    StepKeepsSound(p, input[0]);
    var q := Step(p, input[0]);
    if q.status !in {NeedMore, Complete} { FinalStatusStays(q, input[1..]); }
  }

  /** The rest of a line, as the parser takes it: its bytes and a line end. */
  lemma {:induction false} TakeLine(p: Parser, input: Bytes) returns (line: Bytes, rest: Bytes)
    requires Sound(p) && p.state in {ChunkSize, Trailers} && !p.lineSawCr && Fed(p, input).status == Complete
    requires GoodLine(p.line)
    ensures input == line + CRLF + rest && GoodLine(p.line + line)
    ensures p.state == Trailers ==> p.trailerBytes + |line| + 2 <= MAX_TRAILER
    decreases |input|
  {
    hide FramingOf, HexSize, Fed;
    FirstByte(p, input);
    var q := Step(p, input[0]);
    if input[0] == CR {
      FirstByte(q, input[1..]);
      line, rest := [], input[2..];
      assert p.line + line == p.line;
      assert input == [] + ([input[0]] + [input[1]]) + rest;
    } else {
      assert q.line == p.line + [input[0]];
      line, rest := TakeLine(q, input[1..]);
      assert input == [input[0]] + input[1..];
      assert q.line + line == p.line + ([input[0]] + line);
      line := [input[0]] + line;
    }
  }

  /** Feeding a taken line. */
  lemma {:induction false} FedTaken(p: Parser, line: Bytes, rest: Bytes)
    requires (AtLineStart(p, ChunkSize) || AtLineStart(p, Trailers)) && GoodLine(line)
    requires p.state == Trailers ==> p.trailerBytes + |line| + 2 <= MAX_TRAILER
    ensures var taken := p.(line := line, lineSawCr := true,
                            trailerBytes := p.trailerBytes + if p.state == Trailers then |line| + 2 else 0);
      && Fed(p, line + CRLF) == (if p.state == Trailers then AfterTrailerLine(taken) else AfterSizeLine(taken))
      && Fed(p, line + CRLF + rest) == Fed(Fed(p, line + CRLF), rest)
  {
    hide FramingOf, HexSize, Step;
    assert p.line + line == line;
    FedInPieces(p, line, CRLF);
    FedLine(p, line);
    FedLineEnd(Fed(p, line));
    FedInPieces(p, line + CRLF, rest);
  }

  /** The trailers are lines, up to an empty one. */
  lemma {:induction false} TakeTrailers(p: Parser, input: Bytes) returns (trailers: seq<Bytes>, rest: Bytes)
    requires AtLineStart(p, Trailers) && Fed(p, input).status == Complete
    ensures input == BytesOfLines(trailers) + CRLF + rest && Fed(p, input).body == p.body
    ensures forall i :: 0 <= i < |trailers| ==> trailers[i] != [] && GoodLine(trailers[i])
    ensures p.trailerBytes + |BytesOfLines(trailers)| + 2 <= MAX_TRAILER
    decreases |input|
  {
    hide Step;
    var line, after := TakeLine(p, input);
    assert p.line + line == line;
    FedTaken(p, line, after);
    var q := Fed(p, line + CRLF);
    if line == [] {
      trailers, rest := [], after;
      FinalStatusStays(q, after);
      assert input == [] + CRLF + rest;
    } else {
      var more;
      more, rest := TakeTrailers(q, after);
      trailers := [line] + more;
      assert trailers[1..] == more;
      assert input == line + CRLF + (BytesOfLines(more) + CRLF + rest);
      assert input == (line + CRLF + BytesOfLines(more)) + CRLF + rest;
    }
  }

  lemma {:induction false} TooLittleData(p: Parser, input: Bytes)
    requires Sound(p) && p.state == ChunkData && |input| < p.chunkRemaining
    ensures Fed(p, input).status == NeedMore
    decreases |input|
  {
    if input != [] {
      hide FramingOf, HexSize;
      StepKeepsSound(p, input[0]);
      TooLittleData(Step(p, input[0]), input[1..]);
    }
  }

  /** A chunk's data are as long as its line says, and end with a line end. */
  lemma {:induction false} TakeData(p: Parser, input: Bytes) returns (data: Bytes, rest: Bytes)
    requires Sound(p) && p.state == ChunkData && Fed(p, input).status == Complete
    ensures |data| == p.chunkRemaining && input == data + CRLF + rest
    ensures Fed(p, data + CRLF) == p.(body := p.body + data, chunkRemaining := 0, state := ChunkSize)
    ensures Fed(p, input) == Fed(Fed(p, data + CRLF), rest)
  {
    hide FramingOf, HexSize, Fed;
    var n := p.chunkRemaining;
    if |input| < n { TooLittleData(p, input); }
    data := input[..n];
    var after := input[n..];
    assert input == data + after;
    FedInPieces(p, data, after);
    FedData(p, data);
    var q := Fed(p, data);
    FirstByte(q, after);
    FirstByte(Step(q, after[0]), after[1..]);
    rest := after[2..];
    assert after == CRLF + rest;
    FedChunkEnd(q);
    FedInPieces(p, data, CRLF);
    assert input == data + CRLF + rest;
    FedInPieces(p, data + CRLF, rest);
  }

  /** What follows the header block of a complete response in chunks. */
  datatype Coded = Coded(chunks: seq<Chunk>, last: Bytes, trailers: seq<Bytes>)

  function BytesOfCoded(c: Coded): Bytes {
    BytesOfChunks(c.chunks) + (c.last + CRLF) + BytesOfLines(c.trailers) + CRLF
  }

  predicate GoodCoded(max: nat, room: int, c: Coded) {
    && (forall i :: 0 <= i < |c.chunks| ==> GoodChunk(max, c.chunks[i])) && |BodyOf(c.chunks)| <= room
    && GoodLine(c.last) && HexSize(max, c.last) == Some(0) && GoodTrailers(c.trailers)
  }

  lemma {:induction false} OneChunkMore(max: nat, room: int, chunk: Chunk, c: Coded, rest: Bytes)
    requires GoodChunk(max, chunk) && GoodCoded(max, room - |chunk.data|, c)
    ensures var more := c.(chunks := [chunk] + c.chunks);
      && GoodCoded(max, room, more) && BodyOf(more.chunks) == chunk.data + BodyOf(c.chunks)
      && BytesOfCoded(more) + rest == chunk.line + CRLF + (chunk.data + CRLF + (BytesOfCoded(c) + rest))
  {
    hide GoodChunk, HexSize, GoodTrailers;
    var chunks := [chunk] + c.chunks;
    assert chunks[1..] == c.chunks && chunks[0] == chunk;
    assert BytesOfChunks(chunks) == BytesOfChunk(chunk) + BytesOfChunks(c.chunks);
    var tail := (c.last + CRLF) + BytesOfLines(c.trailers) + CRLF;
    assert BytesOfCoded(c) == BytesOfChunks(c.chunks) + tail;
    assert BytesOfCoded(c.(chunks := chunks)) == BytesOfChunks(chunks) + tail;
  }

  lemma {:induction false} AfterTakenSize(p: Parser, line: Bytes, rest: Bytes)
    requires AtLineStart(p, ChunkSize) && GoodLine(line) && Fed(p, line + CRLF + rest).status == Complete
    ensures HexSize(p.max, line).Some? && HexSize(p.max, line).value <= p.cap - |p.body|
    ensures var n, q := HexSize(p.max, line).value, Fed(p, line + CRLF);
      && Fed(p, line + CRLF + rest) == Fed(q, rest)
      && q == p.(chunkRemaining := n, state := if n == 0 then Trailers else ChunkData)
  {
    hide FramingOf, HexSize, Step, Fed;
    FedTaken(p, line, rest);
    var q := Fed(p, line + CRLF);
    if q.status != NeedMore { FinalStatusStays(q, rest); }
  }

  lemma {:induction false} TakeCoded(p: Parser, input: Bytes) returns (c: Coded, rest: Bytes)
    requires AtLineStart(p, ChunkSize) && p.trailerBytes == 0 && p.chunkRemaining == 0
    requires Fed(p, input).status == Complete
    ensures GoodCoded(p.max, p.cap - |p.body|, c) && input == BytesOfCoded(c) + rest
    ensures Fed(p, input).body == p.body + BodyOf(c.chunks)
    decreases |input|
  {
    hide Step, HexSize, BytesOfCoded, GoodCoded, Fed, BodyOf;
    var line, after := TakeLine(p, input);
    assert p.line + line == line;
    AfterTakenSize(p, line, after);
    var q := Fed(p, line + CRLF);
    if HexSize(p.max, line) == Some(0) {
      var trailers;
      trailers, rest := TakeTrailers(q, after);
      c := Coded([], line, trailers);
      NoChunks(p, c, rest);
      assert input == (line + CRLF) + BytesOfLines(trailers) + CRLF + rest;
    } else {
      var data, later := TakeData(q, after);
      var chunk := Chunk(line, data);
      var r := Fed(q, data + CRLF);
      c, rest := TakeCoded(r, later);
      assert GoodChunk(p.max, chunk);
      OneChunkMore(p.max, p.cap - |p.body|, chunk, c, rest);
      assert p.body + (data + BodyOf(c.chunks)) == p.body + data + BodyOf(c.chunks);
      c := c.(chunks := [chunk] + c.chunks);
    }
  }

  lemma {:induction false} NoChunks(p: Parser, c: Coded, rest: Bytes)
    requires Sound(p) && c.chunks == [] && GoodLine(c.last) && HexSize(p.max, c.last) == Some(0)
    requires GoodTrailers(c.trailers)
    ensures GoodCoded(p.max, p.cap - |p.body|, c) && p.body + BodyOf(c.chunks) == p.body
    ensures BytesOfCoded(c) + rest == (c.last + CRLF) + BytesOfLines(c.trailers) + CRLF + rest
  {
    hide HexSize;
    assert [] + (c.last + CRLF) == c.last + CRLF;
  }

  /** After a head that says chunks, whatever bytes come are taken as complete exactly if
      they start with such a body: chunks as long as their lines say, each with its line
      ends, a last line of size zero, and trailers up to an empty line. */
  lemma {:induction false} CompleteOnlyIfChunked(max: nat, cap: nat, lines: seq<Bytes>, input: Bytes)
    requires GoodBlock(lines) && FramingOfLines(max, cap, lines) == InChunks
    ensures var p := Fed(Fresh(max, cap), BlockOf(lines) + input);
      p.status == Complete <==>
        exists r :: WellFormed(max, cap, r) && r.lines == lines && BytesOfResponse(r) <= BlockOf(lines) + input
                    && p.body == BodyOf(r.chunks)
  {
    hide GoodBlock, FramingOfLines, StatusCode, HexSize, GoodChunk, Step, BlockOf, BytesOfChunks, BytesOfLines;
    var all := BlockOf(lines) + input;
    if Fed(Fresh(max, cap), all).status == Complete {
      FedHead(max, cap, lines);
      FedInPieces(Fresh(max, cap), BlockOf(lines), input);
      var p := Fed(Fresh(max, cap), BlockOf(lines));
      var c, rest := TakeCoded(p, input);
      var r := Response(lines, c.chunks, c.last, c.trailers);
      assert p.body + BodyOf(c.chunks) == BodyOf(c.chunks);
      SameBytes(r, c, rest);
      assert WellFormed(max, cap, r) && BytesOfResponse(r) <= all;
    }
    if r :| WellFormed(max, cap, r) && r.lines == lines && BytesOfResponse(r) <= all {
      var n := |BytesOfResponse(r)|;
      assert n > 0 by { SameBytes(r, Coded(r.chunks, r.last, r.trailers), []); }
      ChunkedResponseCompletes(max, cap, r, 0);
      assert all == BytesOfResponse(r) + all[n..];
      FedInPieces(Fresh(max, cap), BytesOfResponse(r), all[n..]);
      FinalStatusStays(Fed(Fresh(max, cap), BytesOfResponse(r)), all[n..]);
    }
  }

  lemma {:induction false} SameBytes(r: Response, c: Coded, rest: Bytes)
    requires c == Coded(r.chunks, r.last, r.trailers)
    ensures BytesOfResponse(r) + rest == BlockOf(r.lines) + (BytesOfCoded(c) + rest) && |BytesOfResponse(r)| > 0
  {
    hide BlockOf, BytesOfChunks, BytesOfLines;
    var chunks, last, trailers := BytesOfChunks(c.chunks), c.last + CRLF, BytesOfLines(c.trailers);
    assert BytesOfResponse(r) == BlockOf(r.lines) + (chunks + last + trailers + CRLF);
  }
}
