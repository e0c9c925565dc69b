/** Chunked responses by the grammar of sections 4, 5 and 7.1 of RFC 9112 and
    section 5.6 of RFC 9110, and which of them the parser completes. */
module HttpGrammar {
  import opened Bytes
  import opened HttpParser

  const EQUALS: byte := 61
  const QUOTE: byte := 34
  const BACKSLASH: byte := 92

  // ------------------------------------------------------------------ characters

  predicate TokenByte(b: byte) {
    || b == 33 || 35 <= b <= 39 || b == 42 || b == 43 || b == 45 || b == 46 || 48 <= b <= 57
    || 65 <= b <= 90 || 94 <= b <= 122 || b == 124 || b == 126
  }

  predicate IsToken(s: Bytes) {
    s != [] && forall i :: 0 <= i < |s| ==> TokenByte(s[i])
  }

  /** Tab, space, a visible character, or an octet of obs-text. */
  predicate TextByte(b: byte) { b == TAB || 0x20 <= b <= 0x7E || b >= 0x80 }

  predicate IsText(s: Bytes) {
    forall i :: 0 <= i < |s| ==> TextByte(s[i])
  }

  predicate IsBlank(s: Bytes) {
    forall i :: 0 <= i < |s| ==> Blank(s[i])
  }

  // ----------------------------------------------------------------- field lines

  /** A field's name and, with the blanks around it, its value. */
  datatype Field = Field(name: Bytes, value: Bytes)

  predicate GoodFieldLine(f: Field) { IsToken(f.name) && IsText(f.value) }

  function LineOfField(f: Field): Bytes { f.name + [COLON] + f.value }

  function LinesOfFields(fields: seq<Field>): seq<Bytes> {
    seq(|fields|, i requires 0 <= i < |fields| => LineOfField(fields[i]))
  }

  predicate Named(f: Field, name: Bytes) { Lower(f.name) == name }

  // ------------------------------------------------------------------ size lines

  datatype Quotable = Plainly(b: byte) | Escaped(b: byte)

  datatype ExtensionValue = Token(text: Bytes) | Quoted(parts: seq<Quotable>)

  datatype Assigned = Assigned(before: Bytes, after: Bytes, value: ExtensionValue)

  /** A chunk extension: its name and perhaps a value, with blanks around the marks. */
  datatype Extension = Extension(before: Bytes, after: Bytes, name: Bytes, value: Option<Assigned>)

  datatype SizeLine = SizeLine(digits: Bytes, extensions: seq<Extension>)

  predicate GoodQuotable(q: Quotable) {
    TextByte(q.b) && (q.Plainly? ==> q.b != QUOTE && q.b != BACKSLASH)
  }

  predicate GoodValue(v: ExtensionValue) {
    match v
    case Token(text) => IsToken(text)
    case Quoted(parts) => forall i :: 0 <= i < |parts| ==> GoodQuotable(parts[i])
  }

  predicate GoodExtension(e: Extension) {
    && IsBlank(e.before) && IsBlank(e.after) && IsToken(e.name)
    && (e.value.Some? ==>
          IsBlank(e.value.value.before) && IsBlank(e.value.value.after) && GoodValue(e.value.value.value))
  }

  function BytesOfParts(parts: seq<Quotable>): Bytes {
    if parts == [] then []
    else (match parts[0] case Plainly(b) => [b] case Escaped(b) => [BACKSLASH, b]) + BytesOfParts(parts[1..])
  }

  function BytesOfValue(v: ExtensionValue): Bytes {
    match v
    case Token(text) => text
    case Quoted(parts) => [QUOTE] + BytesOfParts(parts) + [QUOTE]
  }

  /** What follows an extension's semicolon. */
  function AfterMark(e: Extension): Bytes {
    e.after + e.name
    + match e.value case None => [] case Some(v) => v.before + [EQUALS] + v.after + BytesOfValue(v.value)
  }

  function BytesOfExtensions(extensions: seq<Extension>): Bytes {
    if extensions == [] then []
    else extensions[0].before + [SEMICOLON] + AfterMark(extensions[0]) + BytesOfExtensions(extensions[1..])
  }

  function LineOfSize(s: SizeLine): Bytes { s.digits + BytesOfExtensions(s.extensions) }

  /** A hexadecimal number of any length with any extensions. */
  predicate GoodSizeLine(s: SizeLine, size: nat) {
    && s.digits != [] && Value(HexDigit, 16, s.digits) == Some(size)
    && forall i :: 0 <= i < |s.extensions| ==> GoodExtension(s.extensions[i])
  }

  // ------------------------------------------------------------------- responses

  datatype WireChunk = WireChunk(size: SizeLine, data: Bytes)

  /** A chunked response, part by part: the code's three digits and the reason, the
      header fields, the chunks, the last chunk's size line, the trailer fields. */
  datatype Chunked = Chunked(
    code: Bytes, reason: Bytes, fields: seq<Field>, chunks: seq<WireChunk>, last: SizeLine, trailers: seq<Field>)

  function StatusLine(r: Chunked): Bytes { HTTP11 + r.code + [SPACE] + r.reason }

  /** A final status that has a body. */
  predicate GoodCode(code: Bytes) {
    && |code| == 3 && Value(DecimalDigit, 10, code).Some?
    && var n := Value(DecimalDigit, 10, code).value; 200 <= n <= 599 && n != 204 && n != 304
  }

  /** One chunked transfer coding and no length. */
  predicate SaysChunked(fields: seq<Field>) {
    && (forall i :: 0 <= i < |fields| ==> !Named(fields[i], CONTENT_LENGTH))
    && exists k :: 0 <= k < |fields| && Named(fields[k], TRANSFER_ENCODING) && Lower(Trim(fields[k].value)) == CHUNKED
                   && forall i :: 0 <= i < |fields| && i != k ==> !Named(fields[i], TRANSFER_ENCODING)
  }

  predicate Grammatical(r: Chunked) {
    && GoodCode(r.code) && IsText(r.reason)
    && (forall i :: 0 <= i < |r.fields| ==> GoodFieldLine(r.fields[i])) && SaysChunked(r.fields)
    && (forall i :: 0 <= i < |r.chunks| ==>
          r.chunks[i].data != [] && GoodSizeLine(r.chunks[i].size, |r.chunks[i].data|))
    && GoodSizeLine(r.last, 0)
    && (forall i :: 0 <= i < |r.trailers| ==> GoodFieldLine(r.trailers[i]))
  }

  function HeadOf(r: Chunked): seq<Bytes> { [StatusLine(r)] + LinesOfFields(r.fields) }

  function ChunkOf(c: WireChunk): Chunk { Chunk(LineOfSize(c.size), c.data) }

  function ChunksOf(chunks: seq<WireChunk>): seq<Chunk> {
    seq(|chunks|, i requires 0 <= i < |chunks| => ChunkOf(chunks[i]))
  }

  /** The lines and chunks the response is sent as. */
  function Sent(r: Chunked): Response {
    Response(HeadOf(r), ChunksOf(r.chunks), LineOfSize(r.last), LinesOfFields(r.trailers))
  }

  /** The parser's sizes: of the header, of a line, of the trailers, of the body. */
  predicate WithinLimits(max: nat, cap: nat, r: Chunked) {
    && cap <= max
    && |BytesOfLines(HeadOf(r))| + 2 <= 4096
    && (forall i :: 0 <= i < |r.chunks| ==> |LineOfSize(r.chunks[i].size)| <= 128)
    && |LineOfSize(r.last)| <= 128
    && |BodyOf(ChunksOf(r.chunks))| <= cap
    && (forall i :: 0 <= i < |r.trailers| ==> |LineOfField(r.trailers[i])| <= 128)
    && |BytesOfLines(LinesOfFields(r.trailers))| + 2 <= 1024
  }

  // ----------------------------------------------------- what the parser adds to it

  predicate PrintableExtensions(s: SizeLine) {
    forall i :: 0 <= i < |BytesOfExtensions(s.extensions)| ==> 0x20 <= BytesOfExtensions(s.extensions)[i] < 0x7F
  }

  predicate Tabless(f: Field) { TAB !in f.value }

  /** No extension holds a byte below 0x20 or from 0x7F on, and no trailer a tab. */
  predicate Unadorned(r: Chunked) {
    && (forall i :: 0 <= i < |r.chunks| ==> PrintableExtensions(r.chunks[i].size))
    && PrintableExtensions(r.last)
    && forall i :: 0 <= i < |r.trailers| ==> Tabless(r.trailers[i])
  }

  // ------------------------------------------------------------------ single lines

  lemma {:induction false} PartsAreText(parts: seq<Quotable>)
    requires forall i :: 0 <= i < |parts| ==> GoodQuotable(parts[i])
    ensures IsText(BytesOfParts(parts))
    decreases |parts|
  {
    if parts != [] { PartsAreText(parts[1..]); }
  }

  lemma {:induction false} AfterMarkIsText(e: Extension)
    requires GoodExtension(e)
    ensures IsText(AfterMark(e)) && AfterMark(e) != []
  {
    if e.value.Some? && e.value.value.value.Quoted? { PartsAreText(e.value.value.value.parts); }
  }

  lemma {:induction false} ExtensionsAreText(extensions: seq<Extension>)
    requires forall i :: 0 <= i < |extensions| ==> GoodExtension(extensions[i])
    ensures IsText(BytesOfExtensions(extensions))
    decreases |extensions|
  {
    hide AfterMark;
    if extensions != [] {
      AfterMarkIsText(extensions[0]);
      ExtensionsAreText(extensions[1..]);
    }
  }

  lemma {:induction false} DigitsAreDigits(s: Bytes)
    requires Value(HexDigit, 16, s).Some?
    ensures forall i :: 0 <= i < |s| ==> HexDigit(s[i]).Some?
  {
    if s != [] { DigitsAreDigits(s[..|s| - 1]); }
  }

  lemma {:induction false} TrimSpacesBehind(s: Bytes, blanks: Bytes)
    requires s != [] && !Blank(s[0]) && !Blank(s[|s| - 1]) && IsBlank(blanks)
    ensures Trim(s + blanks) == s
    decreases |blanks|
  {
    if blanks == [] {
      assert s + blanks == s;
      NothingToTrim(s);
    } else {
      var fewer := blanks[..|blanks| - 1];
      TrimSpacesBehind(s, fewer);
      assert (s + blanks)[..|s + blanks| - 1] == s + fewer;
      assert TrimLeft(s + blanks) == s + blanks && TrimLeft(s + fewer) == s + fewer;
    }
  }

  lemma {:induction false} FirstPlace(a: Bytes, mark: byte, b: Bytes)
    requires mark !in a
    ensures IndexOf(a + [mark] + b, mark) == |a|
    decreases |a|
  {
    if a != [] {
      assert a[0] in a && (a + [mark] + b)[1..] == a[1..] + [mark] + b;
      FirstPlace(a[1..], mark, b);
    }
  }

  lemma {:induction false} BareLineIsRead(max: nat, digits: Bytes, size: nat)
    requires digits != [] && Value(HexDigit, 16, digits) == Some(size) && size <= max
    ensures HexSize(max, digits) == Some(size)
  {
    hide Value;
    DigitsAreDigits(digits);
    NotThere(digits, SEMICOLON);
    NothingToTrim(digits);
    assert digits[..|digits|] == digits;
  }

  lemma {:induction false} MarkedLineIsRead(max: nat, digits: Bytes, before: Bytes, after: Bytes, size: nat)
    requires digits != [] && Value(HexDigit, 16, digits) == Some(size) && size <= max && IsBlank(before)
    ensures HexSize(max, digits + before + [SEMICOLON] + after) == if Printable(after) then Some(size) else None
  {
    hide Value, Printable;
    DigitsAreDigits(digits);
    var front, line := digits + before, digits + before + [SEMICOLON] + after;
    forall i | 0 <= i < |front| ensures front[i] != SEMICOLON {
      assert front[i] == if i < |digits| then digits[i] else before[i - |digits|];
    }
    FirstPlace(front, SEMICOLON, after);
    TrimSpacesBehind(digits, before);
    assert line[..|front|] == front && line[|front| + 1..] == after;
  }

  // Bytes of a blank part, the mark and a text part: printable where both parts are.
  lemma {:induction false} MarkedIsPrintable(before: Bytes, after: Bytes)
    requires IsBlank(before) && IsText(after) && after != []
    ensures var rest := before + [SEMICOLON] + after;
      (forall i :: 0 <= i < |rest| ==> 0x20 <= rest[i] < 0x7F) <==> TAB !in before && Printable(after)
    ensures TAB in before + [SEMICOLON] + after <==> TAB in before || TAB in after
  {
    var rest := before + [SEMICOLON] + after;
    assert forall i :: 0 <= i < |before| ==> rest[i] == before[i];
    assert forall i :: 0 <= i < |after| ==> rest[|before| + 1 + i] == after[i];
  }

  /** How the parser reads a grammatical size line: by its digits, unless an
      extension is not printable. */
  lemma {:induction false} SizeLineIsRead(max: nat, s: SizeLine, size: nat)
    requires GoodSizeLine(s, size) && size <= max
    ensures IsText(LineOfSize(s)) && LineOfSize(s) != []
    ensures PrintableExtensions(s) ==> HexSize(max, LineOfSize(s)) == Some(size)
    ensures !PrintableExtensions(s) && TAB !in LineOfSize(s) ==> HexSize(max, LineOfSize(s)) == None
    ensures PrintableExtensions(s) ==> TAB !in LineOfSize(s)
  {
    hide AfterMark, Value, HexSize, Printable;
    var line, rest := LineOfSize(s), BytesOfExtensions(s.extensions);
    ExtensionsAreText(s.extensions);
    DigitsAreDigits(s.digits);
    assert TAB in line <==> TAB in rest;
    if s.extensions == [] {
      assert line == s.digits;
      BareLineIsRead(max, s.digits, size);
    } else {
      var before, after := s.extensions[0].before, AfterMark(s.extensions[0]) + BytesOfExtensions(s.extensions[1..]);
      AfterMarkIsText(s.extensions[0]);
      ExtensionsAreText(s.extensions[1..]);
      assert rest == before + [SEMICOLON] + after;
      assert line == s.digits + before + [SEMICOLON] + after;
      MarkedLineIsRead(max, s.digits, before, after, size);
      MarkedIsPrintable(before, after);
      assert PrintableExtensions(s) ==> TAB !in rest;
    }
  }

  lemma {:induction false} FieldLineIsText(f: Field)
    requires GoodFieldLine(f)
    ensures IsText(LineOfField(f)) && LineOfField(f) != []
    ensures TAB in LineOfField(f) <==> !Tabless(f)
  {
    var line := LineOfField(f);
    assert TAB !in f.name && TAB !in [COLON];
    assert TAB in line <==> TAB in f.name || TAB in [COLON] || TAB in f.value;
    forall i | 0 <= i < |line| ensures TextByte(line[i]) {
      assert line[i] == if i < |f.name| then f.name[i] else if i == |f.name| then COLON else f.value[i - |f.name| - 1];
    }
  }

  // ---------------------------------------------------------------------- the head

  lemma {:induction false} FieldIsRead(max: nat, f: Fields, field: Field)
    requires GoodFieldLine(field) && !Named(field, CONTENT_LENGTH)
    requires Named(field, TRANSFER_ENCODING) ==> !f.chunked && Lower(Trim(field.value)) == CHUNKED
    ensures FieldStep(max, f, LineOfField(field))
      == Some(if Named(field, TRANSFER_ENCODING) then f.(chunked := true) else f)
  {
    hide Lower;
    var line := LineOfField(field);
    assert COLON !in field.name;
    FirstPlace(field.name, COLON, field.value);
    var k := |field.name|;
    assert line[..k] == field.name && line[k + 1..] == field.value;
    NothingToTrim(field.name);
  }

  lemma {:induction false} FieldsAreRead(max: nat, f: Fields, fields: seq<Field>)
    requires forall i :: 0 <= i < |fields| ==> GoodFieldLine(fields[i]) && !Named(fields[i], CONTENT_LENGTH)
    requires f.chunked ==> forall i :: 0 <= i < |fields| ==> !Named(fields[i], TRANSFER_ENCODING)
    requires !f.chunked ==> SaysChunked(fields)
    ensures FieldsOf(max, f, LinesOfFields(fields)) == Some(f.(chunked := true))
    decreases |fields|
  {
    hide FieldStep, Named, Lower, GoodFieldLine;
    if fields != [] {
      FieldIsRead(max, f, fields[0]);
      assert LinesOfFields(fields)[0] == LineOfField(fields[0])
          && LinesOfFields(fields)[1..] == LinesOfFields(fields[1..]);
      if f.chunked || Named(fields[0], TRANSFER_ENCODING) {
        FieldsAreRead(max, f.(chunked := true), fields[1..]);
      } else {
        var k :| 0 <= k < |fields| && Named(fields[k], TRANSFER_ENCODING) && Lower(Trim(fields[k].value)) == CHUNKED
                 && forall i :: 0 <= i < |fields| && i != k ==> !Named(fields[i], TRANSFER_ENCODING);
        assert fields[1..][k - 1] == fields[k];
        FieldsAreRead(max, f, fields[1..]);
      }
    }
  }

  /** The parser takes a grammatical head for a chunked response. */
  lemma {:induction false} HeadIsRead(max: nat, cap: nat, r: Chunked)
    requires Grammatical(r) && |BytesOfLines(HeadOf(r))| + 2 <= 4096
    ensures GoodBlock(HeadOf(r)) && FramingOfLines(max, cap, HeadOf(r)) == InChunks
    ensures StatusCode(HeadOf(r)[0]) == Value(DecimalDigit, 10, r.code)
  {
    hide Value, BytesOfLines, FieldsOf, SaysChunked;
    var lines, status := HeadOf(r), StatusLine(r);
    assert status[9..12] == r.code && HTTP11 <= status && status[..9] == HTTP11;
    assert lines[1..] == LinesOfFields(r.fields);
    assert GoodField(status) by {
      CodeIsDigits(r.code);
      assert forall i :: 0 <= i < |status| ==> TextByte(status[i]);
    }
    forall i | 0 <= i < |r.fields| ensures GoodField(LineOfField(r.fields[i])) { FieldLineIsText(r.fields[i]); }
    FieldsAreRead(max, Fields(None, false), r.fields) by {
      assert forall i :: 0 <= i < |r.fields| ==> !Named(r.fields[i], CONTENT_LENGTH) by { NoLength(r.fields); }
    }
  }

  lemma {:induction false} NoLength(fields: seq<Field>)
    requires SaysChunked(fields)
    ensures forall i :: 0 <= i < |fields| ==> !Named(fields[i], CONTENT_LENGTH)
  {
  }

  lemma {:induction false} CodeIsDigits(s: Bytes)
    requires Value(DecimalDigit, 10, s).Some?
    ensures forall i :: 0 <= i < |s| ==> 48 <= s[i] <= 57
  {
    if s != [] { CodeIsDigits(s[..|s| - 1]); }
  }

  // ------------------------------------------------------------ what is refused

  /** A line with a tab is refused at the tab. */
  lemma {:induction false} FedTab(p: Parser, line: Bytes)
    requires Sound(p) && (p.state == ChunkSize || p.state == Trailers) && !p.lineSawCr
    requires IsText(line) && TAB in line && |p.line| + |line| <= MAX_CHUNK_LINE
    requires p.state == Trailers ==> p.trailerBytes + |line| <= MAX_TRAILER
    ensures Fed(p, line).status == Invalid
    decreases |line|
  {
    hide FramingOf, HexSize;
    StepKeepsSound(p, line[0]);
    if line[0] == TAB {
      FinalStatusStays(Step(p, TAB), line[1..]);
    } else {
      FedTab(Step(p, line[0]), line[1..]);
    }
  }

  lemma {:induction false} GoodLineOfText(line: Bytes)
    requires IsText(line) && TAB !in line && |line| <= MAX_CHUNK_LINE
    ensures GoodLine(line)
  {
    forall i | 0 <= i < |line| ensures line[i] >= 0x20 { assert line[i] in line; }
  }

  lemma {:induction false} FedBadSize(p: Parser, s: SizeLine, size: nat)
    requires AtLineStart(p, ChunkSize) && GoodSizeLine(s, size) && size <= p.max
    requires !PrintableExtensions(s) && |LineOfSize(s)| <= MAX_CHUNK_LINE
    ensures Fed(p, LineOfSize(s) + CRLF).status == Invalid
  {
    hide FramingOf, HexSize, Step, LineOfSize, PrintableExtensions;
    var line := LineOfSize(s);
    SizeLineIsRead(p.max, s, size);
    FedInPieces(p, line, CRLF);
    if TAB in line {
      FedTab(p, line);
      FinalStatusStays(Fed(p, line), CRLF);
    } else {
      GoodLineOfText(line);
      assert p.line + line == line;
      FedLine(p, line);
      FedLineEnd(Fed(p, line));
    }
  }

  lemma {:induction false} PlainSizeIsGood(max: nat, c: WireChunk)
    requires c.data != [] && GoodSizeLine(c.size, |c.data|) && |c.data| <= max
    requires PrintableExtensions(c.size) && |LineOfSize(c.size)| <= MAX_CHUNK_LINE
    ensures GoodChunk(max, ChunkOf(c))
  {
    hide PrintableExtensions, LineOfSize, HexSize;
    SizeLineIsRead(max, c.size, |c.data|);
    GoodLineOfText(LineOfSize(c.size));
  }

  predicate SendableChunks(max: nat, chunks: seq<WireChunk>) {
    forall i :: 0 <= i < |chunks| ==>
      && chunks[i].data != [] && GoodSizeLine(chunks[i].size, |chunks[i].data|) && |chunks[i].data| <= max
      && |LineOfSize(chunks[i].size)| <= MAX_CHUNK_LINE
  }

  predicate PrintableChunks(chunks: seq<WireChunk>) {
    forall i :: 0 <= i < |chunks| ==> PrintableExtensions(chunks[i].size)
  }

  lemma {:induction false} FedBadChunks(p: Parser, chunks: seq<WireChunk>)
    requires AtLineStart(p, ChunkSize) && SendableChunks(p.max, chunks) && !PrintableChunks(chunks)
    requires |p.body| + |BodyOf(ChunksOf(chunks))| <= p.cap
    ensures Fed(p, BytesOfChunks(ChunksOf(chunks))).status == Invalid
    decreases |chunks|
  {
    hide FramingOf, HexSize, Step, LineOfSize, PrintableExtensions, GoodSizeLine, GoodChunk;
    assert ChunksOf(chunks)[1..] == ChunksOf(chunks[1..]) && ChunksOf(chunks)[0] == ChunkOf(chunks[0]);
    var first, rest := BytesOfChunk(ChunkOf(chunks[0])), BytesOfChunks(ChunksOf(chunks[1..]));
    FedInPieces(p, first, rest);
    if PrintableExtensions(chunks[0].size) {
      PlainSizeIsGood(p.max, chunks[0]);
      FedChunk(p, ChunkOf(chunks[0]));
      FedBadChunks(Fed(p, first), chunks[1..]);
    } else {
      var line := LineOfSize(chunks[0].size) + CRLF;
      assert first == line + (chunks[0].data + CRLF);
      FedInPieces(p, line, chunks[0].data + CRLF);
      FedBadSize(p, chunks[0].size, |chunks[0].data|);
      FinalStatusStays(Fed(p, line), chunks[0].data + CRLF);
      FinalStatusStays(Fed(p, first), rest);
    }
  }

  lemma {:induction false} OneLine(line: Bytes)
    ensures BytesOfLines([line]) == line + CRLF
  {
    var none: seq<Bytes> := [line][1..];
    assert none == [];
    assert BytesOfLines([line]) == line + CRLF + BytesOfLines(none);
  }

  lemma {:induction false} FedBadTrailers(p: Parser, trailers: seq<Field>)
    requires AtLineStart(p, Trailers)
    requires forall i :: 0 <= i < |trailers| ==>
      GoodFieldLine(trailers[i]) && |LineOfField(trailers[i])| <= MAX_CHUNK_LINE
    requires p.trailerBytes + |BytesOfLines(LinesOfFields(trailers))| <= MAX_TRAILER
    requires exists i :: 0 <= i < |trailers| && !Tabless(trailers[i])
    ensures Fed(p, BytesOfLines(LinesOfFields(trailers))).status == Invalid
    decreases |trailers|
  {
    hide Step, LineOfField, Tabless, GoodFieldLine;
    var line, rest := LineOfField(trailers[0]), BytesOfLines(LinesOfFields(trailers[1..]));
    assert LinesOfFields(trailers)[1..] == LinesOfFields(trailers[1..]) && LinesOfFields(trailers)[0] == line;
    FieldLineIsText(trailers[0]);
    if Tabless(trailers[0]) {
      GoodLineOfText(line);
      OneLine(line);
      FedTrailers(p, [line]);
      FedInPieces(p, line + CRLF, rest);
      FedBadTrailers(Fed(p, line + CRLF), trailers[1..]);
    } else {
      FedInPieces(p, line, CRLF + rest);
      FedTab(p, line);
      FinalStatusStays(Fed(p, line), CRLF + rest);
      assert BytesOfLines(LinesOfFields(trailers)) == line + (CRLF + rest);
    }
  }

  // --------------------------------------------------------------- the whole response

  lemma {:induction false} DataFits(chunks: seq<WireChunk>, i: nat)
    requires i < |chunks|
    ensures |chunks[i].data| <= |BodyOf(ChunksOf(chunks))|
    decreases i
  {
    assert ChunksOf(chunks)[1..] == ChunksOf(chunks[1..]);
    if i > 0 { DataFits(chunks[1..], i - 1); }
  }

  lemma {:induction false} Sendable(max: nat, cap: nat, r: Chunked)
    requires Grammatical(r) && WithinLimits(max, cap, r)
    ensures SendableChunks(max, r.chunks)
  {
    hide LineOfSize, GoodSizeLine, BodyOf;
    forall i | 0 <= i < |r.chunks| ensures |r.chunks[i].data| <= max { DataFits(r.chunks, i); }
  }

  /** What the parser calls well-formed, of a grammatical response within the limits. */
  lemma {:induction false} UnadornedIsWellFormed(max: nat, cap: nat, r: Chunked)
    requires Grammatical(r) && WithinLimits(max, cap, r) && Unadorned(r)
    ensures WellFormed(max, cap, Sent(r))
  {
    hide LineOfSize, GoodSizeLine, BodyOf, HexSize, PrintableExtensions, GoodChunk, BytesOfLines, FramingOfLines,
         GoodBlock, LineOfField, Tabless, GoodFieldLine, SaysChunked, GoodCode;
    HeadIsRead(max, cap, r);
    Sendable(max, cap, r);
    forall i | 0 <= i < |r.chunks| ensures GoodChunk(max, ChunksOf(r.chunks)[i]) { PlainSizeIsGood(max, r.chunks[i]); }
    SizeLineIsRead(max, r.last, 0);
    GoodLineOfText(LineOfSize(r.last));
    forall i | 0 <= i < |r.trailers| ensures LineOfField(r.trailers[i]) != [] && GoodLine(LineOfField(r.trailers[i])) {
      FieldLineIsText(r.trailers[i]);
      GoodLineOfText(LineOfField(r.trailers[i]));
    }
  }

  lemma {:induction false} AdornedIsRefused(max: nat, cap: nat, r: Chunked)
    requires Grammatical(r) && WithinLimits(max, cap, r) && !Unadorned(r)
    ensures Fed(Fresh(max, cap), BytesOfResponse(Sent(r))).status == Invalid
  {
    hide LineOfSize, GoodSizeLine, HexSize, PrintableExtensions, GoodChunk, BytesOfLines, FramingOfLines, GoodBlock,
         BlockOf, LineOfField, Tabless, GoodFieldLine, SaysChunked, GoodCode, Step, FramingOf, BytesOfChunks, BodyOf,
         StatusCode;
    var p0 := Fresh(max, cap);
    var block, chunks := BlockOf(HeadOf(r)), BytesOfChunks(ChunksOf(r.chunks));
    var last, trailers := LineOfSize(r.last) + CRLF, BytesOfLines(LinesOfFields(r.trailers));
    HeadIsRead(max, cap, r);
    Sendable(max, cap, r);
    FedHead(max, cap, HeadOf(r));
    var p1 := Fed(p0, block);
    FedInPieces(p0, block, chunks);
    FedInPieces(p0, block + chunks, last);
    FedInPieces(p0, block + chunks + last, trailers);
    FedInPieces(p0, block + chunks + last + trailers, CRLF);
    if !PrintableChunks(r.chunks) {
      FedBadChunks(p1, r.chunks);
    } else {
      forall i | 0 <= i < |r.chunks| ensures GoodChunk(max, ChunksOf(r.chunks)[i]) {
        PlainSizeIsGood(max, r.chunks[i]);
      }
      FedChunks(p1, ChunksOf(r.chunks));
      var p2 := Fed(p1, chunks);
      if !PrintableExtensions(r.last) {
        FedBadSize(p2, r.last, 0);
      } else {
        SizeLineIsRead(max, r.last, 0);
        GoodLineOfText(LineOfSize(r.last));
        FedLastSize(p2, LineOfSize(r.last));
        FedBadTrailers(Fed(p2, last), r.trailers);
      }
    }
    RefusedStays(p0, block + chunks, last + trailers + CRLF);
    RefusedStays(p0, block + chunks + last, trailers + CRLF);
    RefusedStays(p0, block + chunks + last + trailers, CRLF);
    assert BytesOfResponse(Sent(r)) == block + chunks + last + trailers + CRLF;
    assert block + chunks + last + trailers + CRLF == block + chunks + (last + trailers + CRLF);
    assert block + chunks + last + trailers + CRLF == block + chunks + last + (trailers + CRLF);
  }

  lemma {:induction false} RefusedStays(p: Parser, input: Bytes, more: Bytes)
    requires Sound(p)
    ensures Fed(p, input).status == Invalid ==> Fed(p, input + more).status == Invalid
  {
    hide Step;
    FedInPieces(p, input, more);
    if Fed(p, input).status == Invalid { FinalStatusStays(Fed(p, input), more); }
  }

  /** Of the grammatical chunked responses within the limits, the parser completes
      exactly those whose extensions are printable and whose trailers hold no tab,
      at their last byte and not before, with the data of the chunks as body. The
      others it refuses. */
  lemma {:induction false} ChunkedCompletesExactly(max: nat, cap: nat, r: Chunked)
    requires Grammatical(r) && WithinLimits(max, cap, r)
    ensures var p := Fed(Fresh(max, cap), BytesOfResponse(Sent(r)));
      && (p.status == Complete <==> Unadorned(r))
      && (!Unadorned(r) ==> p.status == Invalid)
      && (Unadorned(r) ==> p.body == BodyOf(ChunksOf(r.chunks)) && Some(p.code) == Value(DecimalDigit, 10, r.code))
    ensures Unadorned(r) ==> forall n :: 0 <= n < |BytesOfResponse(Sent(r))| ==>
      Fed(Fresh(max, cap), BytesOfResponse(Sent(r))[..n]).status == NeedMore
  {
    hide Grammatical, WithinLimits, Unadorned, WellFormed, Fed, BytesOfResponse, StatusCode, Value;
    if Unadorned(r) {
      UnadornedIsWellFormed(max, cap, r);
      HeadIsRead(max, cap, r) by { FitsHeader(max, cap, r); }
      forall n | 0 <= n < |BytesOfResponse(Sent(r))|
        ensures Fed(Fresh(max, cap), BytesOfResponse(Sent(r))[..n]).status == NeedMore
      {
        ChunkedResponseCompletes(max, cap, Sent(r), n);
      }
      NotEmpty(Sent(r));
      ChunkedResponseCompletes(max, cap, Sent(r), 0);
    } else {
      AdornedIsRefused(max, cap, r);
    }
  }

  lemma {:induction false} FitsHeader(max: nat, cap: nat, r: Chunked)
    requires WithinLimits(max, cap, r)
    ensures |BytesOfLines(HeadOf(r))| + 2 <= 4096
  {
  }

  lemma {:induction false} NotEmpty(r: Response)
    ensures |BytesOfResponse(r)| > 0
  {
  }

  // ---------------------------------------------------------- two refused responses

  /** "200 OK", one field, no chunk but the last. */
  function Empty(extensions: seq<Extension>, trailers: seq<Field>): Chunked {
    Chunked([50, 48, 48], [79, 75], [Field(TRANSFER_ENCODING, CHUNKED)], [], SizeLine([48], extensions), trailers)
  }

  const TAB_IN_TRAILER := Empty([], [Field([65], [TAB, 98])])

  /** 0;a="\xE9" */
  const ACCENT_IN_EXTENSION := Empty([Extension([], [], [97], Some(Assigned([], [], Quoted([Plainly(0xE9)]))))], [])

  lemma {:induction false} EmptyHeadIsGood(extensions: seq<Extension>, trailers: seq<Field>)
    ensures var r := Empty(extensions, trailers);
      GoodCode(r.code) && IsText(r.reason) && GoodFieldLine(r.fields[0]) && SaysChunked(r.fields)
    ensures |BytesOfLines(HeadOf(Empty(extensions, trailers)))| == 44
  {
    var r := Empty(extensions, trailers);
    assert r.code[..2] == [50, 48] && [50, 48][..1] == [50] && [50][..0] == [];
    assert Value(DecimalDigit, 10, []) == Some(0);
    assert Value(DecimalDigit, 10, [50]) == Some(2);
    assert Value(DecimalDigit, 10, [50, 48]) == Some(20);
    assert Value(DecimalDigit, 10, r.code) == Some(200);
    NothingToTrim(CHUNKED);
    assert Lower(CHUNKED) == CHUNKED && Lower(TRANSFER_ENCODING) == TRANSFER_ENCODING;
    assert Named(r.fields[0], TRANSFER_ENCODING) && Lower(Trim(r.fields[0].value)) == CHUNKED;
    var head := HeadOf(r);
    assert head == [StatusLine(r), LineOfField(r.fields[0])] && head[1..] == [LineOfField(r.fields[0])];
    OneLine(LineOfField(r.fields[0]));
  }

  lemma {:induction false} ZeroIsRead()
    ensures Value(HexDigit, 16, [48]) == Some(0)
  {
    assert [48][..0] == [];
  }

  /** Grammatical and as small as can be, and the parser refuses it. */
  lemma {:induction false} TabInTrailerIsRefused(max: nat, cap: nat)
    requires cap <= max
    ensures Grammatical(TAB_IN_TRAILER) && WithinLimits(max, cap, TAB_IN_TRAILER)
    ensures Fed(Fresh(max, cap), BytesOfResponse(Sent(TAB_IN_TRAILER))).status == Invalid
  {
    hide SaysChunked, GoodCode, StatusLine, BytesOfLines, Fed, BytesOfResponse, Value, HeadOf;
    var r := TAB_IN_TRAILER;
    EmptyHeadIsGood(r.last.extensions, r.trailers);
    ZeroIsRead();
    var line := LineOfField(r.trailers[0]);
    assert LinesOfFields(r.trailers) == [line] && line == [65, COLON, TAB, 98];
    OneLine(line);
    assert r.trailers[0].value[0] == TAB && !Tabless(r.trailers[0]);
    ChunkedCompletesExactly(max, cap, r);
  }

  /** So is the extension's accent. */
  lemma {:induction false} AccentInExtensionIsRefused(max: nat, cap: nat)
    requires cap <= max
    ensures Grammatical(ACCENT_IN_EXTENSION) && WithinLimits(max, cap, ACCENT_IN_EXTENSION)
    ensures Fed(Fresh(max, cap), BytesOfResponse(Sent(ACCENT_IN_EXTENSION))).status == Invalid
  {
    hide SaysChunked, GoodCode, StatusLine, BytesOfLines, Fed, BytesOfResponse, Value, HeadOf, BytesOfExtensions;
    var r := ACCENT_IN_EXTENSION;
    EmptyHeadIsGood(r.last.extensions, r.trailers);
    ZeroIsRead();
    AccentBytes();
    assert BytesOfExtensions(r.last.extensions)[4] == 0xE9 && !PrintableExtensions(r.last);
    assert LinesOfFields(r.trailers) == [];
    NoLines();
    ChunkedCompletesExactly(max, cap, r);
  }

  lemma {:induction false} AccentBytes()
    ensures BytesOfExtensions(ACCENT_IN_EXTENSION.last.extensions) == [SEMICOLON, 97, EQUALS, QUOTE, 0xE9, QUOTE]
  {
    var e := ACCENT_IN_EXTENSION.last.extensions[0];
    var none: seq<Extension> := ACCENT_IN_EXTENSION.last.extensions[1..];
    var parts: seq<Quotable> := [Plainly(0xE9)];
    var rest: seq<Quotable> := parts[1..];
    assert none == [] && rest == [] && BytesOfParts(rest) == [] && BytesOfParts(parts) == [0xE9];
    assert BytesOfValue(e.value.value.value) == [QUOTE, 0xE9, QUOTE];
    assert AfterMark(e) == [97, EQUALS, QUOTE, 0xE9, QUOTE];
  }

  lemma {:induction false} NoLines()
    ensures BytesOfLines([]) == []
  {
  }
}
