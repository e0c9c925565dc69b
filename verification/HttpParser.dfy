/** The terminal's incremental parser of HTTP/1.1 responses with a bounded body. */
module HttpParser {
  import opened Bytes

  const CR: byte := 13
  const LF: byte := 10
  const SPACE: byte := 32
  const TAB: byte := 9
  const COLON: byte := 58
  const SEMICOLON: byte := 59
  const CRLF: Bytes := [CR, LF]

  const MAX_HEADER := 4096
  const MAX_TRAILER := 1024
  const MAX_CHUNK_LINE := 128

  datatype Status = NeedMore | Complete | Invalid | HeaderTooLarge | BodyTooLarge

  datatype State =
    | Headers | FixedBody | UntilClose | ChunkSize | ChunkData | ChunkDataCr | ChunkDataLf | Trailers
    | Finished | Failed

  // -------------------------------------------------------------- pieces of text

  predicate Blank(b: byte) { b == SPACE || b == TAB }

  function TrimLeft(s: Bytes): Bytes {
    if s != [] && Blank(s[0]) then TrimLeft(s[1..]) else s
  }

  function TrimRight(s: Bytes): Bytes {
    if s != [] && Blank(s[|s| - 1]) then TrimRight(s[..|s| - 1]) else s
  }

  function Trim(s: Bytes): Bytes { TrimRight(TrimLeft(s)) }

  function Lower(s: Bytes): Bytes {
    seq(|s|, i requires 0 <= i < |s| => if 65 <= s[i] <= 90 then s[i] + 32 else s[i])
  }

  /** The first place of `b`, or the length when there is none. */
  function IndexOf(s: Bytes, b: byte): (k: nat)
    ensures k <= |s| && (k < |s| ==> s[k] == b) && b !in s[..k]
  {
    if s == [] || s[0] == b then 0 else
      var k := IndexOf(s[1..], b);
      assert s[..k + 1] == [s[0]] + s[1..][..k];
      k + 1
  }

  /** The first place of a line end at or after `from`, or the length. */
  function LineEnd(s: Bytes, from: nat): (k: nat)
    requires from <= |s|
    ensures from <= k <= |s|
    ensures k < |s| ==> k + 2 <= |s| && s[k] == CR && s[k + 1] == LF
    ensures forall i :: from <= i < k && i + 1 < |s| ==> !(s[i] == CR && s[i + 1] == LF)
    decreases |s| - from
  {
    if from + 2 > |s| then |s|
    else if s[from] == CR && s[from + 1] == LF then from
    else LineEnd(s, from + 1)
  }

  function DecimalDigit(b: byte): Option<nat> {
    if 48 <= b <= 57 then Some(b - 48) else None
  }

  function HexDigit(b: byte): Option<nat> {
    if 48 <= b <= 57 then Some(b - 48)
    else if 97 <= b <= 102 then Some(b - 87)
    else if 65 <= b <= 70 then Some(b - 55)
    else None
  }

  /** The number a list of digits stands for; None if one of them is no digit. */
  function Value(digit: byte -> Option<nat>, radix: nat, s: Bytes): Option<nat> {
    if s == [] then Some(0)
    else
      match (Value(digit, radix, s[..|s| - 1]), digit(s[|s| - 1]))
      case (Some(high), Some(low)) => Some(high * radix + low)
      case _ => None
  }

  /** The number, when there is at least one digit and it fits the machine's sizes. */
  function Size(digit: byte -> Option<nat>, radix: nat, max: nat, s: Bytes): Option<nat> {
    if s == [] then None
    else match Value(digit, radix, s) case Some(n) => if n <= max then Some(n) else None case None => None
  }

  function DecimalSize(max: nat, value: Bytes): Option<nat> {
    Size(DecimalDigit, 10, max, Trim(value))
  }

  predicate Printable(s: Bytes) {
    s != [] && forall i :: 0 <= i < |s| ==> 0x20 <= s[i] < 0x7F
  }

  /** A chunk-size line: a hexadecimal number, blanks around it, and after a
      semicolon any non-empty printable extension. */
  function HexSize(max: nat, value: Bytes): Option<nat> {
    var extension := IndexOf(value, SEMICOLON);
    if extension < |value| && !Printable(value[extension + 1..]) then None
    else Size(HexDigit, 16, max, Trim(value[..extension]))
  }

  lemma {:induction false} TimesKeepsOrder(a: nat, b: nat, radix: nat)
    requires a <= b
    ensures a * radix <= b * radix
  {
  }

  lemma {:induction false} MultiplyBack(parsed: nat, digit: nat, radix: nat, max: nat)
    requires 0 < radix && digit <= max
    ensures parsed > (max - digit) / radix <==> parsed * radix + digit > max
  {
    var q := (max - digit) / radix;
    assert q * radix + (max - digit) % radix == max - digit;
    assert (q + 1) * radix == q * radix + radix;
    if parsed > q {
      TimesKeepsOrder(q + 1, parsed, radix);
    } else {
      TimesKeepsOrder(parsed, q, radix);
    }
  }

  lemma {:induction false} ValueOfMore(digit: byte -> Option<nat>, radix: nat, s: Bytes, n: nat)
    requires n <= |s| && radix > 0 && Value(digit, radix, s).Some?
    ensures Value(digit, radix, s[..n]).Some? && Value(digit, radix, s[..n]).value <= Value(digit, radix, s).value
  {
    if n < |s| {
      ValueOfMore(digit, radix, s[..|s| - 1], n);
      assert s[..|s| - 1][..n] == s[..n];
      var high := Value(digit, radix, s[..|s| - 1]).value;
      assert high <= high * radix by { Grows(high, radix); }
    } else {
      assert s[..n] == s;
    }
  }

  lemma {:induction false} Grows(n: nat, radix: nat)
    requires radix > 0
    ensures n <= n * radix
  {
  }

  /** The digit loop of `decimalSize` and `hexSize`: its overflow test refuses
      exactly the numbers that do not fit. */
  method ParseSize(digit: byte -> Option<nat>, radix: nat, max: nat, raw: Bytes) returns (r: Option<nat>)
    requires radix > 0 && forall b :: digit(b).Some? ==> digit(b).value < radix <= max
    ensures r == Size(digit, radix, max, raw)
  {
    if raw == [] { return None; }
    var parsed := 0;
    for i := 0 to |raw|
      invariant Value(digit, radix, raw[..i]) == Some(parsed) && parsed <= max
    {
      assert raw[..i + 1][..i] == raw[..i];
      var d := digit(raw[i]);
      if d.None? {
        NoValue(digit, radix, raw, i + 1);
        return None;
      }
      MultiplyBack(parsed, d.value, radix, max);
      if parsed > (max - d.value) / radix {
        if Value(digit, radix, raw).Some? { ValueOfMore(digit, radix, raw, i + 1); }
        return None;
      }
      parsed := parsed * radix + d.value;
    }
    assert raw[..|raw|] == raw;
    return Some(parsed);
  }

  lemma {:induction false} NoValue(digit: byte -> Option<nat>, radix: nat, s: Bytes, n: nat)
    requires n <= |s| && Value(digit, radix, s[..n]).None?
    ensures Value(digit, radix, s).None?
  {
    if n < |s| {
      assert s[..|s| - 1][..n] == s[..n];
      NoValue(digit, radix, s[..|s| - 1], n);
    } else {
      assert s[..n] == s;
    }
  }

  // ------------------------------------------------------------ the header block

  const HTTP11: Bytes := [72, 84, 84, 80, 47, 49, 46, 49, 32]
  const HTTP10: Bytes := [72, 84, 84, 80, 47, 49, 46, 48, 32]
  const CONTENT_LENGTH: Bytes := [99, 111, 110, 116, 101, 110, 116, 45, 108, 101, 110, 103, 116, 104]
  const TRANSFER_ENCODING: Bytes :=
    [116, 114, 97, 110, 115, 102, 101, 114, 45, 101, 110, 99, 111, 100, 105, 110, 103]
  const CHUNKED: Bytes := [99, 104, 117, 110, 107, 101, 100]

  /** The text cut at its line ends; no line follows a last line end. */
  function Lines(s: Bytes): seq<Bytes> {
    if s == [] then []
    else
      var end := LineEnd(s, 0);
      if end == |s| then [s] else [s[..end]] + Lines(s[end + 2..])
  }

  function StatusCode(line: Bytes): Option<int> {
    if !(HTTP11 <= line || HTTP10 <= line) || |line| < 12 then None
    else
      match Value(DecimalDigit, 10, line[9..12])
      case None => None
      case Some(code) => Some(code)
  }

  datatype Fields = Fields(length: Option<nat>, chunked: bool)

  function FieldStep(max: nat, f: Fields, line: Bytes): Option<Fields> {
    var colon := IndexOf(line, COLON);
    if colon == |line| || colon == 0 then None
    else
      var name, value := Lower(Trim(line[..colon])), Trim(line[colon + 1..]);
      if name == CONTENT_LENGTH then
        (if f.length.Some? || DecimalSize(max, value).None? then None else Some(f.(length := DecimalSize(max, value))))
      else if name == TRANSFER_ENCODING then
        (if f.chunked || Lower(value) != CHUNKED then None else Some(f.(chunked := true)))
      else Some(f)
  }

  function FieldsOf(max: nat, f: Fields, lines: seq<Bytes>): Option<Fields>
    decreases |lines|
  {
    if lines == [] then Some(f)
    else match FieldStep(max, f, lines[0]) case None => None case Some(g) => FieldsOf(max, g, lines[1..])
  }

  /** What the header block says about the body. */
  datatype Framing = Malformed | TooLong | NoBody | InChunks | OfLength(length: nat) | ToClose

  function FramingOf(max: nat, cap: nat, header: Bytes): Framing {
    if |header| < 4 then Malformed
    else
      var lines := Lines(header[..|header| - 4]);
      if lines == [] then Malformed
      else
        match StatusCode(lines[0])
        case None => Malformed
        case Some(code) =>
          if code < 200 || code > 599 then Malformed
          else
            match FieldsOf(max, Fields(None, false), lines[1..])
            case None => Malformed
            case Some(f) => FramingOfFields(cap, code, f)
  }

  function FramingOfFields(cap: nat, code: int, f: Fields): Framing {
    if f.length.Some? && f.chunked then Malformed
    else if f.length.Some? && f.length.value > cap then TooLong
    else if code == 204 || code == 304 || f.length == Some(0) then NoBody
    else if f.chunked then InChunks
    else if f.length.Some? then OfLength(f.length.value)
    else ToClose
  }

  lemma {:induction false} FramingOfParts(max: nat, cap: nat, header: Bytes, lines: seq<Bytes>, code: int)
    requires |header| >= 4 && lines == Lines(header[..|header| - 4])
    requires lines != [] && StatusCode(lines[0]) == Some(code)
    ensures ShownCode(header) == Some(code)
    ensures code < 200 || code > 599 ==> FramingOf(max, cap, header) == Malformed
    ensures 200 <= code <= 599 ==>
      FramingOf(max, cap, header) ==
        match FieldsOf(max, Fields(None, false), lines[1..])
        case None => Malformed
        case Some(f) => FramingOfFields(cap, code, f)
  {
    hide Lines, StatusCode, FieldsOf;
  }

  /** The code a block shows, as far as its status line has one. */
  function ShownCode(header: Bytes): Option<int> {
    if |header| < 4 || Lines(header[..|header| - 4]) == [] then None else StatusCode(Lines(header[..|header| - 4])[0])
  }

  // -------------------------------------------------------------- the state machine

  datatype Parser = Parser(
    max: nat, cap: nat, state: State, status: Status, code: int, header: Bytes, body: Bytes, line: Bytes,
    fixedRemaining: nat, chunkRemaining: nat, trailerBytes: nat, lineSawCr: bool)

  function Fresh(max: nat, cap: nat): Parser {
    Parser(max, cap, Headers, NeedMore, 0, [], [], [], 0, 0, 0, false)
  }

  function Fail(p: Parser, status: Status): Parser {
    p.(state := Failed, status := status)
  }

  function Done(p: Parser): Parser {
    p.(state := Finished, status := Complete)
  }

  function AfterHeaders(p: Parser): Parser {
    var shown := match ShownCode(p.header) case Some(code) => p.(code := code) case None => p;
    AfterFraming(shown, FramingOf(p.max, p.cap, p.header))
  }

  function AfterFraming(p: Parser, framing: Framing): Parser {
    match framing
    case Malformed => Fail(p, Invalid)
    case TooLong => Fail(p, BodyTooLarge)
    case NoBody => Done(p)
    case InChunks => p.(state := ChunkSize)
    case OfLength(n) => p.(state := FixedBody, fixedRemaining := n)
    case ToClose => p.(state := UntilClose)
  }

  function AfterSizeLine(p: Parser): Parser
    requires |p.body| <= p.cap
  {
    var q := p.(lineSawCr := false, line := []);
    match HexSize(p.max, p.line)
    case None => Fail(q, Invalid)
    case Some(n) =>
      if n > p.cap - |p.body| then Fail(q, BodyTooLarge)
      else q.(chunkRemaining := n, state := if n == 0 then Trailers else ChunkData)
  }

  function AfterTrailerLine(p: Parser): Parser {
    var q := p.(lineSawCr := false, line := []);
    if p.line == [] then Done(q) else q
  }

  function LineByte(p: Parser, b: byte): Parser
    requires |p.body| <= p.cap
  {
    if p.lineSawCr then
      (if b != LF then Fail(p, Invalid) else if p.state == Trailers then AfterTrailerLine(p) else AfterSizeLine(p))
    else if b == CR then p.(lineSawCr := true)
    else if b == LF || |p.line| >= MAX_CHUNK_LINE || b < 0x20 then Fail(p, Invalid)
    else p.(line := p.line + [b])
  }

  function BodyByte(p: Parser, b: byte): Parser {
    if |p.body| >= p.cap then Fail(p, BodyTooLarge) else p.(body := p.body + [b])
  }

  function FixedByte(p: Parser, b: byte): Parser
    requires p.fixedRemaining > 0
  {
    if |p.body| >= p.cap then Fail(p, BodyTooLarge)
    else
      var q := p.(body := p.body + [b], fixedRemaining := p.fixedRemaining - 1);
      if q.fixedRemaining == 0 then Done(q) else q
  }

  function ChunkByte(p: Parser, b: byte): Parser
    requires p.chunkRemaining > 0
  {
    if |p.body| >= p.cap then Fail(p, BodyTooLarge)
    else
      var q := p.(body := p.body + [b], chunkRemaining := p.chunkRemaining - 1);
      if q.chunkRemaining == 0 then q.(state := ChunkDataCr) else q
  }

  /** One byte. */
  function Step(p: Parser, b: byte): Parser
    requires Sound(p)
  {
    if p.status != NeedMore then p
    else
      match p.state
      case Headers =>
        if |p.header| >= MAX_HEADER then Fail(p, HeaderTooLarge)
        else
          var q := p.(header := p.header + [b]);
          if |q.header| >= 4 && q.header[|q.header| - 4..] == CRLF + CRLF then AfterHeaders(q) else q
      case FixedBody => FixedByte(p, b)
      case UntilClose => BodyByte(p, b)
      case ChunkSize => LineByte(p, b)
      case Trailers =>
        var q := p.(trailerBytes := p.trailerBytes + 1);
        if q.trailerBytes > MAX_TRAILER then Fail(q, HeaderTooLarge) else LineByte(q, b)
      case ChunkData => ChunkByte(p, b)
      case ChunkDataCr => if b != CR then Fail(p, Invalid) else p.(state := ChunkDataLf)
      case ChunkDataLf => if b != LF then Fail(p, Invalid) else p.(state := ChunkSize)
      case Finished => p
      case Failed => p
  }

  /** What every state of the parser keeps: the body within its cap, and while a
      count runs it is positive and what it still announces fits the cap. */
  predicate Sound(p: Parser) {
    && |p.body| <= p.cap && |p.header| <= MAX_HEADER && |p.line| <= MAX_CHUNK_LINE
    && (p.status == NeedMore <==> p.state != Finished && p.state != Failed)
    && (p.status == Complete <==> p.state == Finished)
    && (p.state == FixedBody ==> 0 < p.fixedRemaining <= p.cap - |p.body|)
    && (p.state == ChunkData ==> 0 < p.chunkRemaining <= p.cap - |p.body|)
    && (p.status == NeedMore ==> p.trailerBytes <= MAX_TRAILER)
    && (p.state == Headers ==> p.body == [])
  }

  lemma {:induction false} StepKeepsSound(p: Parser, b: byte)
    requires Sound(p)
    ensures Sound(Step(p, b))
  {
    hide FramingOf, HexSize, ShownCode, LineByte;
    match p.state {
      case Headers => FramingFits(p.max, p.cap, p.header + [b]);
      case ChunkSize => LineByteKeepsSound(p, b);
      case Trailers =>
        if p.trailerBytes < MAX_TRAILER { LineByteKeepsSound(p.(trailerBytes := p.trailerBytes + 1), b); }
      case _ =>
    }
  }

  lemma {:induction false} LineByteKeepsSound(p: Parser, b: byte)
    requires Sound(p) && (p.state == ChunkSize || p.state == Trailers)
    ensures Sound(LineByte(p, b))
  {
    hide HexSize;
  }

  lemma {:induction false} FramingFits(max: nat, cap: nat, header: Bytes)
    ensures FramingOf(max, cap, header).OfLength? ==> 0 < FramingOf(max, cap, header).length <= cap
  {
  }

  function Fed(p: Parser, input: Bytes): (q: Parser)
    requires Sound(p)
    ensures Sound(q)
    decreases |input|
  {
    if input == [] then p
    else
      StepKeepsSound(p, input[0]);
      Fed(Step(p, input[0]), input[1..])
  }

  // ------------------------------------------------------------------- the class

  class ResponseParser {
    const max: nat
    const cap: nat
    var state: State
    var status: Status
    var code: int
    var header: Bytes
    var body: Bytes
    var line: Bytes
    var fixedRemaining: nat
    var chunkRemaining: nat
    var trailerBytes: nat
    var lineSawCr: bool

    ghost function Parsed(): Parser
      reads this
    {
      Parser(max, cap, state, status, code, header, body, line, fixedRemaining, chunkRemaining, trailerBytes, lineSawCr)
    }

    constructor (max: nat, maxBodyBytes: nat)
      requires max >= 16
      ensures Parsed() == Fresh(max, maxBodyBytes) && Sound(Parsed())
    {
      this.max, cap := max, maxBodyBytes;
      state, status, code := Headers, NeedMore, 0;
      header, body, line := [], [], [];
      fixedRemaining, chunkRemaining, trailerBytes, lineSawCr := 0, 0, 0, false;
    }

    method FailWith(failure: Status)
      modifies this
      ensures Parsed() == Fail(old(Parsed()), failure)
    {
      state, status := Failed, failure;
    }

    method AppendBody(b: byte) returns (ok: bool)
      modifies this
      ensures ok <==> |old(body)| < cap
      ensures Parsed() == if ok then old(Parsed()).(body := old(body) + [b]) else old(Parsed())
    {
      if |body| >= cap { return false; }
      body := body + [b];
      return true;
    }

    /** `consume`. */
    method Consume(b: byte) returns (r: Status)
      requires Sound(Parsed()) && max >= 16
      modifies this
      ensures Parsed() == Step(old(Parsed()), b) && r == status && Sound(Parsed())
    {
      hide FramingOf, HexSize, ShownCode;
      StepKeepsSound(Parsed(), b);
      if status != NeedMore { return status; }
      match state {
        case Headers =>
          if |header| >= MAX_HEADER {
            FailWith(HeaderTooLarge);
          } else {
            header := header + [b];
            if |header| >= 4 && header[|header| - 4..] == CRLF + CRLF { ParseHeaders(); }
          }
        case FixedBody =>
          ConsumeFixed(b);
        case UntilClose =>
          var ok := AppendBody(b);
          if !ok { FailWith(BodyTooLarge); }
        case ChunkSize =>
          ConsumeLine(b);
        case Trailers =>
          trailerBytes := trailerBytes + 1;
          if trailerBytes > MAX_TRAILER { FailWith(HeaderTooLarge); } else { ConsumeLine(b); }
        case ChunkData =>
          ConsumeChunk(b);
        case ChunkDataCr =>
          if b != CR { FailWith(Invalid); } else { state := ChunkDataLf; }
        case ChunkDataLf =>
          if b != LF { FailWith(Invalid); } else { state := ChunkSize; }
        case Finished =>
        case Failed =>
      }
      r := status;
    }

    method ConsumeFixed(b: byte)
      requires fixedRemaining > 0 && state == FixedBody
      modifies this
      ensures Parsed() == FixedByte(old(Parsed()), b)
    {
      var ok := AppendBody(b);
      if !ok {
        FailWith(BodyTooLarge);
        return;
      }
      fixedRemaining := fixedRemaining - 1;
      if fixedRemaining == 0 { state, status := Finished, Complete; }
    }

    method ConsumeChunk(b: byte)
      requires chunkRemaining > 0 && state == ChunkData
      modifies this
      ensures Parsed() == ChunkByte(old(Parsed()), b)
    {
      var ok := AppendBody(b);
      if !ok {
        FailWith(BodyTooLarge);
        return;
      }
      chunkRemaining := chunkRemaining - 1;
      if chunkRemaining == 0 { state := ChunkDataCr; }
    }

    /** The shared branch for chunk-size and trailer lines. */
    method ConsumeLine(b: byte)
      requires status == NeedMore && (state == ChunkSize || state == Trailers) && |body| <= cap && max >= 16
      modifies this
      ensures Parsed() == LineByte(old(Parsed()), b)
    {
      hide HexSize;
      if lineSawCr {
        if b != LF { FailWith(Invalid); } else { FinishLine(state == Trailers); }
      } else if b == CR {
        lineSawCr := true;
      } else if b == LF || |line| >= MAX_CHUNK_LINE || b < 0x20 {
        FailWith(Invalid);
      } else {
        line := line + [b];
      }
    }

    /** `finishLine`. */
    method FinishLine(trailer: bool)
      requires |body| <= cap && max >= 16
      modifies this
      ensures Parsed() == if trailer then AfterTrailerLine(old(Parsed())) else AfterSizeLine(old(Parsed()))
    {
      hide HexSize;
      lineSawCr := false;
      if trailer {
        if line == [] { state, status := Finished, Complete; }
        line := [];
        return;
      }
      var chunkSize := ParseHexSize(max, line);
      line := [];
      if chunkSize.None? {
        FailWith(Invalid);
      } else if chunkSize.value > cap - |body| {
        FailWith(BodyTooLarge);
      } else {
        chunkRemaining := chunkSize.value;
        state := if chunkSize.value == 0 then Trailers else ChunkData;
      }
    }

    /** `parseHeaders`: the status line, then field by field to the end of the block. */
    method ParseHeaders()
      requires status == NeedMore && max >= 16
      modifies this
      ensures Parsed() == AfterHeaders(old(Parsed()))
    {
      hide FieldStep, Lines, StatusCode, Value, FramingOf, ShownCode, FramingOfFields;
      if |header| < 4 {
        TooShort(max, cap, header);
        FailWith(Invalid);
        return;
      }
      var headers := header[..|header| - 4];
      LinesUnfold(headers);
      var firstEnd := LineEnd(headers, 0);
      var statusLine := headers[..firstEnd];
      var shown := StatusCode(statusLine);
      assert headers == [] ==> shown == None by { NoStatusLine(); }
      if shown.None? {
        assert headers[..|headers|] == headers;
        NoCode(max, cap, header);
        FailWith(Invalid);
        return;
      }
      code := shown.value;
      assert headers[..|headers|] == headers;
      assert statusLine == Lines(headers)[0];
      FramingOfParts(max, cap, header, Lines(headers), code);
      if code < 100 || code > 599 || (code >= 100 && code < 200) {
        FailWith(Invalid);
        return;
      }
      var cursor := if firstEnd == |headers| then |headers| else firstEnd + 2;
      assert Lines(headers)[1..] == Lines(headers[cursor..]) by { LinesUnfold([]); assert headers[|headers|..] == []; }
      var parsed := ParseFields(max, headers, cursor);
      if parsed.None? {
        FailWith(Invalid);
        return;
      }
      var fields := parsed.value;
      ChooseFraming(fields);
    }

    /** The end of `parseHeaders`. */
    method ChooseFraming(fields: Fields)
      modifies this
      ensures Parsed() == AfterFraming(old(Parsed()), FramingOfFields(cap, old(code), fields))
    {
      if fields.length.Some? && fields.chunked {
        FailWith(Invalid);
      } else if fields.length.Some? && fields.length.value > cap {
        FailWith(BodyTooLarge);
      } else if code == 204 || code == 304 || fields.length == Some(0) {
        state, status := Finished, Complete;
      } else if fields.chunked {
        state := ChunkSize;
      } else if fields.length.Some? {
        fixedRemaining := fields.length.value;
        state := FixedBody;
      } else {
        state := UntilClose;
      }
    }

    /** `finishOnDisconnect`: the end of the connection ends a body that is read to
        it, and cuts every other one short. What was read stays as it is. */
    method FinishOnDisconnect() returns (r: Status)
      requires Sound(Parsed())
      modifies this
      ensures Parsed() == AtDisconnect(old(Parsed())) && r == status && Sound(Parsed())
      ensures r == Complete <==> old(status) == Complete || old(state) == UntilClose
      ensures old(status) == NeedMore && old(state) != UntilClose ==> r == Invalid
      ensures old(status) != NeedMore ==> Parsed() == old(Parsed())
      ensures r != NeedMore && body == old(body) && code == old(code) && header == old(header)
    {
      if status != NeedMore { return status; }
      if state == UntilClose {
        state, status := Finished, Complete;
      } else {
        FailWith(Invalid);
      }
      r := status;
    }
  }

  function AtDisconnect(p: Parser): Parser {
    if p.status != NeedMore then p else if p.state == UntilClose then Done(p) else Fail(p, Invalid)
  }

  /** The loop over the header fields, from the second line on. */
  method ParseFields(max: nat, headers: Bytes, start: nat) returns (r: Option<Fields>)
    requires start <= |headers|
    ensures r == FieldsOf(max, Fields(None, false), Lines(headers[start..]))
  {
    hide FieldStep, Lines;
    var cursor := start;
    var fields := Fields(None, false);
    while cursor < |headers|
      invariant start <= cursor <= |headers|
      invariant FieldsOf(max, Fields(None, false), Lines(headers[start..]))
        == FieldsOf(max, fields, Lines(headers[cursor..]))
    {
      var lineEnd := LineEnd(headers, cursor);
      LinesFrom(headers, cursor);
      var step := FieldStep(max, fields, headers[cursor..lineEnd]);
      if step.None? { return None; }
      fields := step.value;
      cursor := if lineEnd == |headers| then |headers| else lineEnd + 2;
    }
    LinesUnfold(headers[cursor..]);
    r := Some(fields);
  }

  method ParseHexSize(max: nat, value: Bytes) returns (r: Option<nat>)
    requires max >= 16
    ensures r == HexSize(max, value)
  {
    var extension := IndexOf(value, SEMICOLON);
    r := ParseSize(HexDigit, 16, max, Trim(value[..extension]));
    if r.Some? && extension < |value| {
      var suffix := value[extension + 1..];
      if suffix == [] { return None; }
      for i := 0 to |suffix|
        invariant forall k :: 0 <= k < i ==> 0x20 <= suffix[k] < 0x7F
      {
        if suffix[i] < 0x20 || suffix[i] >= 0x7F { return None; }
      }
    }
  }

  lemma {:induction false} LinesUnfold(s: Bytes)
    ensures Lines(s)
      == if s == [] then []
         else if LineEnd(s, 0) == |s| then [s]
         else [s[..LineEnd(s, 0)]] + Lines(s[LineEnd(s, 0) + 2..])
  {
  }

  lemma {:induction false} TooShort(max: nat, cap: nat, header: Bytes)
    requires |header| < 4
    ensures FramingOf(max, cap, header) == Malformed && ShownCode(header) == None
  {
  }

  lemma {:induction false} NoCode(max: nat, cap: nat, header: Bytes)
    requires |header| >= 4
    requires var lines := Lines(header[..|header| - 4]); lines == [] || StatusCode(lines[0]) == None
    ensures FramingOf(max, cap, header) == Malformed && ShownCode(header) == None
  {
    hide Lines, StatusCode, FieldsOf;
  }

  lemma {:induction false} NoStatusLine()
    ensures StatusCode([]) == None
  {
  }

  lemma {:induction false} LineEndOfSuffix(s: Bytes, cursor: nat, from: nat)
    requires cursor <= from <= |s|
    ensures LineEnd(s, from) == cursor + LineEnd(s[cursor..], from - cursor)
    decreases |s| - from
  {
    if from + 2 <= |s| && !(s[from] == CR && s[from + 1] == LF) { LineEndOfSuffix(s, cursor, from + 1); }
  }

  lemma {:induction false} LinesFrom(s: Bytes, cursor: nat)
    requires cursor < |s|
    ensures var end := LineEnd(s, cursor);
      var next := if end == |s| then |s| else end + 2;
      Lines(s[cursor..]) == [s[cursor..end]] + Lines(s[next..])
  {
    hide LineEnd, Lines;
    LineEndOfSuffix(s, cursor, cursor);
    LinesUnfold(s[cursor..]);
    var end := LineEnd(s, cursor);
    assert s[cursor..][..end - cursor] == s[cursor..end];
    if end < |s| {
      assert s[cursor..][end - cursor + 2..] == s[end + 2..];
    } else {
      assert s[|s|..] == [];
      LinesUnfold(s[|s|..]);
      assert s[cursor..end] == s[cursor..];
    }
  }

  // --------------------------------------------------------- feeding longer inputs

  lemma {:induction false} FedInPieces(p: Parser, a: Bytes, b: Bytes)
    requires Sound(p)
    ensures Fed(p, a + b) == Fed(Fed(p, a), b)
    decreases |a|
  {
    hide Step, Sound;
    if a == [] {
      assert a + b == b;
    } else {
      StepKeepsSound(p, a[0]);
      FedInPieces(Step(p, a[0]), a[1..], b);
      assert (a + b)[1..] == a[1..] + b;
    }
  }

  lemma {:induction false} FedOne(p: Parser, b: byte)
    requires Sound(p)
    ensures Fed(p, [b]) == Step(p, b)
  {
    StepKeepsSound(p, b);
    assert [b][1..] == [];
    assert Fed(Step(p, b), []) == Step(p, b);
  }

  /** Once the status is final, nothing changes any more. */
  lemma {:induction false} FinalStatusStays(p: Parser, input: Bytes)
    requires Sound(p) && p.status != NeedMore
    ensures Fed(p, input) == p
    decreases |input|
  {
    if input != [] { FinalStatusStays(Step(p, input[0]), input[1..]); }
  }

  /** For every input at all: the body stays within its cap, a head within 4096 bytes, a
      size or trailer line within 128 and the trailers within 1024, the counters stay
      positive while they run, and a prefix that ended stays as it ended. */
  lemma {:induction false} AnyInputIsBounded(max: nat, cap: nat, input: Bytes, n: nat)
    requires n <= |input|
    ensures var p := Fed(Fresh(max, cap), input);
      && |p.body| <= cap && Sound(p)
      && |p.header| <= 4096 && |p.line| <= 128 && (p.status == NeedMore ==> p.trailerBytes <= 1024)
      && (Fed(Fresh(max, cap), input[..n]).status != NeedMore ==> p == Fed(Fresh(max, cap), input[..n]))
  {
    FedKeepsLimits(Fresh(max, cap), input);
    assert input == input[..n] + input[n..];
    FedInPieces(Fresh(max, cap), input[..n], input[n..]);
    if Fed(Fresh(max, cap), input[..n]).status != NeedMore {
      FinalStatusStays(Fed(Fresh(max, cap), input[..n]), input[n..]);
    }
  }

  lemma {:induction false} FedKeepsLimits(p: Parser, input: Bytes)
    requires Sound(p)
    ensures Fed(p, input).cap == p.cap && Fed(p, input).max == p.max
    decreases |input|
  {
    if input != [] {
      hide Step;
      StepKeepsSound(p, input[0]);
      StepKeepsLimits(p, input[0]);
      FedKeepsLimits(Step(p, input[0]), input[1..]);
    }
  }

  lemma {:induction false} StepKeepsLimits(p: Parser, b: byte)
    requires Sound(p)
    ensures Step(p, b).cap == p.cap && Step(p, b).max == p.max
  {
    hide FramingOf, HexSize, ShownCode;
  }

  // -------------------------------------------------------- a well-formed response

  predicate GoodLine(line: Bytes) {
    |line| <= MAX_CHUNK_LINE && forall i :: 0 <= i < |line| ==> line[i] >= 0x20
  }

  datatype Chunk = Chunk(line: Bytes, data: Bytes)

  /** A size line for exactly the chunk's data. */
  predicate GoodChunk(max: nat, c: Chunk) {
    c.data != [] && GoodLine(c.line) && HexSize(max, c.line) == Some(|c.data|)
  }

  function BytesOfChunk(c: Chunk): Bytes { c.line + CRLF + c.data + CRLF }

  function BytesOfChunks(chunks: seq<Chunk>): Bytes {
    if chunks == [] then [] else BytesOfChunk(chunks[0]) + BytesOfChunks(chunks[1..])
  }

  function BodyOf(chunks: seq<Chunk>): Bytes {
    if chunks == [] then [] else chunks[0].data + BodyOf(chunks[1..])
  }

  function BytesOfLines(lines: seq<Bytes>): Bytes {
    if lines == [] then [] else lines[0] + CRLF + BytesOfLines(lines[1..])
  }

  predicate GoodTrailers(trailers: seq<Bytes>) {
    && (forall i :: 0 <= i < |trailers| ==> trailers[i] != [] && GoodLine(trailers[i]))
    && |BytesOfLines(trailers)| + 2 <= MAX_TRAILER
  }

  /** In a line state at the start of a line. */
  predicate AtLineStart(p: Parser, state: State) {
    Sound(p) && p.state == state && p.line == [] && !p.lineSawCr
  }

  lemma {:induction false} FedLine(p: Parser, line: Bytes)
    requires Sound(p) && (p.state == ChunkSize || p.state == Trailers) && !p.lineSawCr
    requires GoodLine(p.line + line)
    requires p.state == Trailers ==> p.trailerBytes + |line| <= MAX_TRAILER
    ensures Fed(p, line)
      == p.(line := p.line + line, trailerBytes := p.trailerBytes + if p.state == Trailers then |line| else 0)
    decreases |line|
  {
    if line == [] {
      assert p.line + line == p.line;
    } else {
      hide FramingOf, HexSize;
      assert (p.line + line)[|p.line|] == line[0];
      var q := Step(p, line[0]);
      assert q.line + line[1..] == p.line + line;
      StepKeepsSound(p, line[0]);
      FedLine(q, line[1..]);
    }
  }

  lemma {:induction false} FedLineEnd(p: Parser)
    requires Sound(p) && (p.state == ChunkSize || p.state == Trailers) && !p.lineSawCr
    requires p.state == Trailers ==> p.trailerBytes + 2 <= MAX_TRAILER
    ensures var q := p.(lineSawCr := true, trailerBytes := p.trailerBytes + if p.state == Trailers then 2 else 0);
      && Fed(p, [CR]).status == NeedMore
      && Fed(p, CRLF) == if p.state == Trailers then AfterTrailerLine(q) else AfterSizeLine(q)
  {
    hide FramingOf, HexSize;
    StepKeepsSound(p, CR);
    FedInPieces(p, [CR], [LF]);
    FedOne(p, CR);
    FedOne(Step(p, CR), LF);
    assert CRLF == [CR] + [LF];
  }

  lemma {:induction false} FedData(p: Parser, data: Bytes)
    requires Sound(p) && p.state == ChunkData && 0 < |data| == p.chunkRemaining
    ensures Fed(p, data) == p.(body := p.body + data, chunkRemaining := 0, state := ChunkDataCr)
    decreases |data|
  {
    hide FramingOf, HexSize;
    StepKeepsSound(p, data[0]);
    var q := Step(p, data[0]);
    assert p.body + data == q.body + data[1..];
    if |data| > 1 {
      FedData(q, data[1..]);
    } else {
      assert data[1..] == [] && Fed(q, []) == q;
      assert p.body + data == q.body;
    }
  }

  /** One chunk goes into the body and the parser is back at a size line. */
  lemma {:induction false} FedChunk(p: Parser, c: Chunk)
    requires AtLineStart(p, ChunkSize) && GoodChunk(p.max, c) && |p.body| + |c.data| <= p.cap
    ensures Fed(p, BytesOfChunk(c)) == p.(body := p.body + c.data, chunkRemaining := 0)
  {
    hide FramingOf, HexSize, Step;
    assert BytesOfChunk(c) == c.line + (CRLF + (c.data + CRLF));
    assert p.line + c.line == c.line;
    FedInPieces(p, c.line, CRLF + (c.data + CRLF));
    FedLine(p, c.line);
    var atEnd := Fed(p, c.line);
    FedInPieces(atEnd, CRLF, c.data + CRLF);
    FedLineEnd(atEnd);
    var inData := Fed(atEnd, CRLF);
    FedInPieces(inData, c.data, CRLF);
    FedData(inData, c.data);
    FedChunkEnd(Fed(inData, c.data));
  }

  lemma {:induction false} FedChunkEnd(p: Parser)
    requires Sound(p) && p.state == ChunkDataCr
    ensures Fed(p, CRLF) == p.(state := ChunkSize)
  {
    hide FramingOf, HexSize;
    StepKeepsSound(p, CR);
    FedInPieces(p, [CR], [LF]);
    FedOne(p, CR);
    FedOne(Step(p, CR), LF);
    assert CRLF == [CR] + [LF];
  }

  lemma {:induction false} FedChunks(p: Parser, chunks: seq<Chunk>)
    requires AtLineStart(p, ChunkSize) && p.chunkRemaining == 0
    requires forall i :: 0 <= i < |chunks| ==> GoodChunk(p.max, chunks[i])
    requires |p.body| + |BodyOf(chunks)| <= p.cap
    ensures Fed(p, BytesOfChunks(chunks)) == p.(body := p.body + BodyOf(chunks))
    decreases |chunks|
  {
    hide Step, GoodChunk, BytesOfChunk;
    if chunks == [] {
      assert p.body + BodyOf(chunks) == p.body;
    } else {
      FedInPieces(p, BytesOfChunk(chunks[0]), BytesOfChunks(chunks[1..]));
      FedChunk(p, chunks[0]);
      var q := Fed(p, BytesOfChunk(chunks[0]));
      FedChunks(q, chunks[1..]);
      assert p.body + BodyOf(chunks) == q.body + BodyOf(chunks[1..]);
    }
  }

  lemma {:induction false} FedTrailers(p: Parser, trailers: seq<Bytes>)
    requires AtLineStart(p, Trailers)
    requires forall i :: 0 <= i < |trailers| ==> trailers[i] != [] && GoodLine(trailers[i])
    requires p.trailerBytes + |BytesOfLines(trailers)| <= MAX_TRAILER
    ensures Fed(p, BytesOfLines(trailers)) == p.(trailerBytes := p.trailerBytes + |BytesOfLines(trailers)|)
    decreases |trailers|
  {
    hide Step;
    if trailers != [] {
      var line, rest := trailers[0], BytesOfLines(trailers[1..]);
      assert BytesOfLines(trailers) == line + (CRLF + rest);
      assert p.line + line == line;
      FedInPieces(p, line, CRLF + rest);
      FedLine(p, line);
      FedInPieces(Fed(p, line), CRLF, rest);
      FedLineEnd(Fed(p, line));
      FedTrailers(Fed(Fed(p, line), CRLF), trailers[1..]);
    }
  }

  /** A header block: non-empty lines without line-end characters, and an empty line. */
  predicate GoodBlock(lines: seq<Bytes>) {
    && lines != [] && |BytesOfLines(lines)| + 2 <= MAX_HEADER
    && forall i :: 0 <= i < |lines| ==> GoodField(lines[i])
  }

  predicate GoodField(line: Bytes) { line != [] && CR !in line && LF !in line }

  function BlockOf(lines: seq<Bytes>): Bytes { BytesOfLines(lines) + CRLF }

  /** What the lines of a header block say about the body. */
  function FramingOfLines(max: nat, cap: nat, lines: seq<Bytes>): Framing {
    if lines == [] || StatusCode(lines[0]) == None then Malformed
    else
      var code := StatusCode(lines[0]).value;
      if code < 200 || code > 599 then Malformed
      else
        match FieldsOf(max, Fields(None, false), lines[1..])
        case None => Malformed
        case Some(f) => FramingOfFields(cap, code, f)
  }

  /** The block ends at its last byte and not before. */
  predicate EndsBlock(s: Bytes, n: nat)
    requires n <= |s|
  {
    n >= 4 && s[n - 4..n] == CRLF + CRLF
  }

  lemma {:induction false} LinesAlternate(lines: seq<Bytes>, n: nat)
    requires forall i :: 0 <= i < |lines| ==> GoodField(lines[i])
    requires 2 <= n <= |BytesOfLines(lines)|
    ensures var s := BytesOfLines(lines); s[n - 1] == LF ==> s[n - 2] == CR && (n < 4 || s[n - 3] != LF)
    decreases |lines|
  {
    if lines != [] {
      var line, rest := lines[0], BytesOfLines(lines[1..]);
      var s := line + CRLF + rest;
      assert forall i :: 0 <= i < |line| ==> s[i] == line[i] && s[i] != LF;
      if n > |line| + 2 {
        var m := n - |line| - 2;
        assert s[n - 1] == rest[m - 1];
        if m >= 2 {
          LinesAlternate(lines[1..], m);
          assert s[n - 2] == rest[m - 2];
          if m >= 3 { assert s[n - 3] == rest[m - 3]; } else { FirstOfLines(lines[1..]); }
        } else {
          FirstOfLines(lines[1..]);
        }
      }
    }
  }

  lemma {:induction false} FirstOfLines(lines: seq<Bytes>)
    requires forall i :: 0 <= i < |lines| ==> GoodField(lines[i])
    requires lines != []
    ensures |BytesOfLines(lines)| >= 3 && BytesOfLines(lines)[0] != LF && BytesOfLines(lines)[0] != CR
    ensures BytesOfLines(lines)[1] != LF
  {
    assert lines[0][0] in lines[0];
    if |lines[0]| > 1 { assert lines[0][1] in lines[0]; }
  }

  // The four bytes of an empty line, one by one.
  lemma {:induction false} EndsBlockIs(s: Bytes, n: nat)
    requires n <= |s|
    ensures EndsBlock(s, n) <==> n >= 4 && s[n - 4] == CR && s[n - 3] == LF && s[n - 2] == CR && s[n - 1] == LF
  {
    if n >= 4 {
      var four := s[n - 4..n];
      assert four == [s[n - 4], s[n - 3], s[n - 2], s[n - 1]];
      assert CRLF + CRLF == [CR, LF, CR, LF];
    }
  }

  lemma {:induction false} BlockEndsOnce(lines: seq<Bytes>, n: nat)
    requires GoodBlock(lines) && n < |BlockOf(lines)|
    ensures !EndsBlock(BlockOf(lines), n)
    ensures EndsBlock(BlockOf(lines), |BlockOf(lines)|)
  {
    hide EndsBlock, BytesOfLines;
    var s, block := BytesOfLines(lines), BlockOf(lines);
    FirstOfLines(lines);
    LinesEnd(lines);
    EndsBlockIs(block, n);
    EndsBlockIs(block, |block|);
    if 4 <= n <= |s| { LinesAlternate(lines, n); }
    assert s[|s| - 2] == s[|s| - 2..][0] && s[|s| - 1] == s[|s| - 2..][1];
  }

  lemma {:induction false} LinesEnd(lines: seq<Bytes>)
    requires lines != []
    ensures |BytesOfLines(lines)| >= 2 && BytesOfLines(lines)[|BytesOfLines(lines)| - 2..] == CRLF
    decreases |lines|
  {
    if |lines| > 1 {
      LinesEnd(lines[1..]);
      var rest := BytesOfLines(lines[1..]);
      assert BytesOfLines(lines)[|lines[0]| + 2..] == rest;
    } else {
      assert lines[1..] == [] && BytesOfLines(lines) == lines[0] + CRLF + [];
    }
  }

  lemma {:induction false} FedBlockPrefix(max: nat, cap: nat, lines: seq<Bytes>, n: nat)
    requires GoodBlock(lines) && n < |BlockOf(lines)|
    ensures Fed(Fresh(max, cap), BlockOf(lines)[..n]) == Fresh(max, cap).(header := BlockOf(lines)[..n])
  {
    hide FramingOf, GoodBlock, BlockOf;
    var block := BlockOf(lines);
    if n > 0 {
      FedBlockPrefix(max, cap, lines, n - 1);
      assert block[..n] == block[..n - 1] + [block[n - 1]];
      FedInPieces(Fresh(max, cap), block[..n - 1], [block[n - 1]]);
      FedOne(Fed(Fresh(max, cap), block[..n - 1]), block[n - 1]);
      BlockEndsOnce(lines, n);
      BlockFits(lines);
      if n >= 4 { assert block[..n][n - 4..] == block[n - 4..n]; }
    }
  }

  lemma {:induction false} BlockFits(lines: seq<Bytes>)
    requires GoodBlock(lines)
    ensures 4 <= |BlockOf(lines)| <= MAX_HEADER
  {
    LinesEnd(lines);
  }

  lemma {:induction false} FedBlock(max: nat, cap: nat, lines: seq<Bytes>)
    requires GoodBlock(lines)
    ensures Fed(Fresh(max, cap), BlockOf(lines)) == AfterHeaders(Fresh(max, cap).(header := BlockOf(lines)))
  {
    hide FramingOf, GoodBlock, AfterHeaders;
    var block := BlockOf(lines);
    var n := |block|;
    BlockFits(lines);
    FedBlockPrefix(max, cap, lines, n - 1);
    BlockEndsOnce(lines, n - 1);
    assert block == block[..n - 1] + [block[n - 1]];
    FedInPieces(Fresh(max, cap), block[..n - 1], [block[n - 1]]);
    FedOne(Fed(Fresh(max, cap), block[..n - 1]), block[n - 1]);
  }

  lemma {:induction false} LineEndAfterLine(line: Bytes, rest: Bytes, from: nat)
    requires CR !in line && from <= |line|
    ensures LineEnd(line + CRLF + rest, from) == |line|
    ensures LineEnd(line, from) == |line|
    decreases |line| - from
  {
    if from < |line| {
      assert line[from] in line;
      LineEndAfterLine(line, rest, from + 1);
    }
  }

  lemma {:induction false} LinesOfBlock(lines: seq<Bytes>)
    requires lines != [] && forall i :: 0 <= i < |lines| ==> GoodField(lines[i])
    ensures |BytesOfLines(lines)| >= 2
    ensures Lines(BytesOfLines(lines)[..|BytesOfLines(lines)| - 2]) == lines
    decreases |lines|
  {
    hide LineEnd, Lines;
    var line := lines[0];
    var all := BytesOfLines(lines);
    if |lines| == 1 {
      assert BytesOfLines(lines[1..]) == [] && all == line + CRLF + [];
      assert all[..|all| - 2] == line;
      LineEndAfterLine(line, [], 0);
      LinesUnfold(line);
      assert lines == [line];
    } else {
      LinesOfBlock(lines[1..]);
      FirstOfLines(lines[1..]);
      var rest := BytesOfLines(lines[1..])[..|BytesOfLines(lines[1..])| - 2];
      var s := line + CRLF + rest;
      assert all[..|all| - 2] == s;
      LineEndAfterLine(line, rest, 0);
      LinesUnfold(s);
      assert s[..|line|] == line && s[|line| + 2..] == rest;
      assert lines == [line] + lines[1..];
    }
  }

  /** The parser reads a block as its lines. */
  lemma {:induction false} BlockIsItsLines(max: nat, cap: nat, lines: seq<Bytes>)
    requires GoodBlock(lines)
    ensures FramingOf(max, cap, BlockOf(lines)) == FramingOfLines(max, cap, lines)
    ensures ShownCode(BlockOf(lines)) == StatusCode(lines[0])
  {
    hide Lines, StatusCode, FieldsOf, FramingOfFields;
    var block := BlockOf(lines);
    LinesOfBlock(lines);
    LinesEnd(lines);
    assert block[..|block| - 4] == BytesOfLines(lines)[..|BytesOfLines(lines)| - 2];
  }

  /** A chunked response: header lines, chunks, the last size line and trailers. */
  datatype Response = Response(lines: seq<Bytes>, chunks: seq<Chunk>, last: Bytes, trailers: seq<Bytes>)

  function BytesOfResponse(r: Response): Bytes {
    BlockOf(r.lines) + BytesOfChunks(r.chunks) + (r.last + CRLF) + BytesOfLines(r.trailers) + CRLF
  }

  predicate WellFormed(max: nat, cap: nat, r: Response) {
    && GoodBlock(r.lines) && FramingOfLines(max, cap, r.lines) == InChunks
    && (forall i :: 0 <= i < |r.chunks| ==> GoodChunk(max, r.chunks[i]))
    && |BodyOf(r.chunks)| <= cap
    && GoodLine(r.last) && HexSize(max, r.last) == Some(0)
    && GoodTrailers(r.trailers)
  }

  /** Fed byte by byte, a well-formed chunked response within the limits completes
      exactly at its last byte, with the status code of its first line and the
      body its chunks hold. */
  lemma {:induction false} ChunkedResponseCompletes(max: nat, cap: nat, r: Response, n: nat)
    requires WellFormed(max, cap, r) && n < |BytesOfResponse(r)|
    ensures var p := Fed(Fresh(max, cap), BytesOfResponse(r));
      && p.status == Complete && p.body == BodyOf(r.chunks) && Some(p.code) == StatusCode(r.lines[0])
    ensures Fed(Fresh(max, cap), BytesOfResponse(r)[..n]).status == NeedMore
  {
    hide FramingOf, HexSize, Step, GoodBlock, GoodChunk, StatusCode, FramingOfLines, BytesOfChunks, BlockOf;
    var p0 := Fresh(max, cap);
    var block, chunks := BlockOf(r.lines), BytesOfChunks(r.chunks);
    var last, trailers := r.last + CRLF, BytesOfLines(r.trailers);
    FedHead(max, cap, r.lines);
    var p1 := Fed(p0, block);
    FedInPieces(p0, block, chunks);
    FedChunks(p1, r.chunks);
    var p2 := Fed(p1, chunks);
    FedInPieces(p0, block + chunks, last);
    FedLastSize(p2, r.last);
    var p3 := Fed(p2, last);
    FedInPieces(p0, block + chunks + last, trailers);
    FedTrailers(p3, r.trailers);
    var p4 := Fed(p3, trailers);
    FedInPieces(p0, block + chunks + last + trailers, CRLF);
    FedLineEnd(p4);
    CompletesAtTheEnd(p0, block + chunks + last + trailers, n);
  }

  lemma {:induction false} FedHead(max: nat, cap: nat, lines: seq<Bytes>)
    requires GoodBlock(lines) && FramingOfLines(max, cap, lines) == InChunks
    ensures StatusCode(lines[0]).Some?
    ensures Fed(Fresh(max, cap), BlockOf(lines))
      == Fresh(max, cap).(header := BlockOf(lines), state := ChunkSize, code := StatusCode(lines[0]).value)
  {
    hide FramingOf, GoodBlock, StatusCode, ShownCode, FieldsOf, FramingOfFields;
    FedBlock(max, cap, lines);
    BlockIsItsLines(max, cap, lines);
  }

  lemma {:induction false} FedLastSize(p: Parser, last: Bytes)
    requires AtLineStart(p, ChunkSize) && GoodLine(last) && HexSize(p.max, last) == Some(0)
    ensures Fed(p, last + CRLF) == p.(chunkRemaining := 0, state := Trailers)
  {
    hide FramingOf, HexSize, Step;
    assert p.line + last == last;
    FedInPieces(p, last, CRLF);
    FedLine(p, last);
    FedLineEnd(Fed(p, last));
  }

  lemma {:induction false} CompletesAtTheEnd(p: Parser, input: Bytes, n: nat)
    requires Sound(p) && n <= |input| + 1 && Fed(Fed(p, input), [CR]).status == NeedMore
    ensures Fed(p, (input + CRLF)[..n]).status == NeedMore
  {
    hide Step;
    var all := input + [CR];
    FedInPieces(p, input, [CR]);
    assert all == all[..n] + all[n..] && (input + CRLF)[..n] == all[..n];
    FedInPieces(p, all[..n], all[n..]);
    if Fed(p, all[..n]).status != NeedMore { FinalStatusStays(Fed(p, all[..n]), all[n..]); }
  }

  lemma {:induction false} FedFixed(p: Parser, data: Bytes)
    requires Sound(p) && p.state == FixedBody && p.fixedRemaining == |data|
    ensures Fed(p, data) == Done(p.(body := p.body + data, fixedRemaining := 0))
    ensures Fed(p, data[..|data| - 1]).status == NeedMore
    decreases |data|
  {
    hide FramingOf, HexSize;
    StepKeepsSound(p, data[0]);
    var q := Step(p, data[0]);
    assert p.body + data == q.body + data[1..];
    if |data| > 1 {
      FedFixed(q, data[1..]);
      assert data[..|data| - 1][1..] == data[1..][..|data| - 2];
    } else {
      assert data[1..] == [] && Fed(q, []) == q && p.body + data == q.body;
      assert data[..0] == [] && Fed(p, []) == p;
    }
  }

  /** A response with a content length completes exactly at the last byte of its body. */
  lemma {:induction false} FixedResponseCompletes(max: nat, cap: nat, lines: seq<Bytes>, body: Bytes)
    requires GoodBlock(lines) && FramingOfLines(max, cap, lines) == OfLength(|body|)
    ensures body != []
    ensures var p := Fed(Fresh(max, cap), BlockOf(lines) + body);
      p.status == Complete && p.body == body && Some(p.code) == StatusCode(lines[0])
    ensures Fed(Fresh(max, cap), BlockOf(lines) + body[..|body| - 1]).status == NeedMore
  {
    hide FramingOf, GoodBlock, StatusCode, FieldsOf;
    FedBlock(max, cap, lines);
    BlockIsItsLines(max, cap, lines);
    var p := Fed(Fresh(max, cap), BlockOf(lines));
    FedInPieces(Fresh(max, cap), BlockOf(lines), body);
    FedInPieces(Fresh(max, cap), BlockOf(lines), body[..|body| - 1]);
    FedFixed(p, body);
    assert p.body + body == body;
  }

  // ------------------------------------------------- when the connection ends

  /** A body read to the end of the connection is never left for another state. */
  lemma {:induction false} UntilCloseStays(p: Parser, input: Bytes)
    requires Sound(p) && p.state == UntilClose
    ensures Fed(p, input).state == (if |p.body| + |input| <= p.cap then UntilClose else Failed)
    ensures |p.body| + |input| <= p.cap ==> Fed(p, input) == p.(body := p.body + input)
    ensures |p.body| + |input| > p.cap ==> Fed(p, input).status == BodyTooLarge
    decreases |input|
  {
    hide FramingOf, HexSize;
    if input == [] {
      assert p.body + input == p.body;
    } else {
      StepKeepsSound(p, input[0]);
      var q := Step(p, input[0]);
      if |p.body| >= p.cap {
        FinalStatusStays(q, input[1..]);
      } else {
        UntilCloseStays(q, input[1..]);
        assert p.body + input == q.body + input[1..];
      }
    }
  }

  /** A response with neither a length nor chunks is whatever comes until the
      connection ends, and complete then, if it fits the cap. */
  lemma {:induction false} CloseDelimitedCompletes(max: nat, cap: nat, lines: seq<Bytes>, body: Bytes)
    requires GoodBlock(lines) && FramingOfLines(max, cap, lines) == ToClose
    ensures var p := Fed(Fresh(max, cap), BlockOf(lines) + body);
      if |body| <= cap then
        && p.status == NeedMore && p.body == body && Some(p.code) == StatusCode(lines[0])
        && AtDisconnect(p).status == Complete && AtDisconnect(p).body == body && AtDisconnect(p).code == p.code
      else p.status == BodyTooLarge && AtDisconnect(p) == p
  {
    hide FramingOf, GoodBlock, StatusCode, FieldsOf, Step;
    FedBlock(max, cap, lines);
    BlockIsItsLines(max, cap, lines);
    var p := Fed(Fresh(max, cap), BlockOf(lines));
    FedInPieces(Fresh(max, cap), BlockOf(lines), body);
    UntilCloseStays(p, body);
    assert [] + body == body;
  }

  /** A response that would have completed later is invalid if the connection ends
      first: no other framing looks like one read to the end of the connection. */
  lemma {:induction false} CutResponseIsInvalid(max: nat, cap: nat, input: Bytes, n: nat)
    requires n < |input| && Fed(Fresh(max, cap), input).status == Complete
    requires Fed(Fresh(max, cap), input[..n]).status == NeedMore
    ensures AtDisconnect(Fed(Fresh(max, cap), input[..n])).status == Invalid
  {
    hide Step;
    var p := Fed(Fresh(max, cap), input[..n]);
    assert input == input[..n] + input[n..];
    FedInPieces(Fresh(max, cap), input[..n], input[n..]);
    if p.state == UntilClose { UntilCloseStays(p, input[n..]); }
  }

  /** A fixed-length or chunked response cut anywhere is invalid. */
  lemma {:induction false} CutBodiesAreInvalid(max: nat, cap: nat, r: Response, lines: seq<Bytes>, body: Bytes, n: nat)
    ensures WellFormed(max, cap, r) && n < |BytesOfResponse(r)| ==>
      AtDisconnect(Fed(Fresh(max, cap), BytesOfResponse(r)[..n])).status == Invalid
    ensures GoodBlock(lines) && FramingOfLines(max, cap, lines) == OfLength(|body|) && n < |BlockOf(lines) + body| ==>
      AtDisconnect(Fed(Fresh(max, cap), (BlockOf(lines) + body)[..n])).status == Invalid
  {
    hide Step, WellFormed, GoodBlock, FramingOfLines, BytesOfResponse, BlockOf, AtDisconnect, StatusCode;
    if WellFormed(max, cap, r) && n < |BytesOfResponse(r)| {
      ChunkedResponseCompletes(max, cap, r, n);
      CutResponseIsInvalid(max, cap, BytesOfResponse(r), n);
    }
    if GoodBlock(lines) && FramingOfLines(max, cap, lines) == OfLength(|body|) && n < |BlockOf(lines) + body| {
      FixedResponseCompletes(max, cap, lines, body);
      var all := BlockOf(lines) + body;
      var front := BlockOf(lines) + body[..|body| - 1];
      assert front == all[..|all| - 1] && front == front[..n] + front[n..] && front[..n] == all[..n];
      FedInPieces(Fresh(max, cap), front[..n], front[n..]);
      if Fed(Fresh(max, cap), front[..n]).status != NeedMore {
        FinalStatusStays(Fed(Fresh(max, cap), front[..n]), front[n..]);
      }
      CutResponseIsInvalid(max, cap, all, n);
    }
  }

  function HexNumeral(n: nat): Bytes {
    if n < 16 then [HexOf(n)] else HexNumeral(n / 16) + [HexOf(n % 16)]
  }

  function HexOf(d: nat): byte
    requires d < 16
  {
    if d < 10 then 48 + d else 87 + d
  }

  lemma {:induction false} HexNumeralValue(n: nat)
    ensures Value(HexDigit, 16, HexNumeral(n)) == Some(n) && HexNumeral(n) != []
    ensures forall i :: 0 <= i < |HexNumeral(n)| ==> HexNumeral(n)[i] >= 48 && HexNumeral(n)[i] != SEMICOLON
  {
    if n < 16 {
      assert HexNumeral(n)[..0] == [];
    } else {
      HexNumeralValue(n / 16);
      assert HexNumeral(n)[..|HexNumeral(n)| - 1] == HexNumeral(n / 16);
    }
  }

  lemma {:induction false} NothingToTrim(s: Bytes)
    requires s != [] && !Blank(s[0]) && !Blank(s[|s| - 1])
    ensures Trim(s) == s
  {
  }

  lemma {:induction false} NotThere(s: Bytes, b: byte)
    requires b !in s
    ensures IndexOf(s, b) == |s|
  {
    if s != [] {
      assert s[0] in s;
      NotThere(s[1..], b);
    }
  }

  /** Every size that fits is read back from its usual numeral, so every chunk
      can be announced. */
  lemma {:induction false} HexSizeOfNumeral(max: nat, n: nat)
    requires n <= max
    ensures HexSize(max, HexNumeral(n)) == Some(n)
  {
    var s := HexNumeral(n);
    HexNumeralValue(n);
    NotThere(s, SEMICOLON);
    NothingToTrim(s);
    assert s[..|s|] == s;
  }
}
