/** How long a response's body is, by section 6.3 of RFC 9112: what each grammatical
    header block says of it, and what the parser makes of that. */
module HttpFraming {
  import opened Bytes
  import opened HttpParser
  import opened HttpGrammar

  function Ascii(text: string): Bytes
    requires forall i :: 0 <= i < |text| ==> text[i] as int < 128
  {
    seq(|text|, i requires 0 <= i < |text| => text[i] as int)
  }

  /** The status code's digits, the reason and the field lines. */
  datatype Head = Head(code: Bytes, reason: Bytes, fields: seq<Field>)

  function LinesOf(h: Head): seq<Bytes> { [Ascii("HTTP/1.1 ") + h.code + [SPACE] + h.reason] + LinesOfFields(h.fields) }

  predicate GoodHead(h: Head, code: nat) {
    && |h.code| == 3 && Value(DecimalDigit, 10, h.code) == Some(code) && 200 <= code <= 599 && IsText(h.reason)
    && forall i :: 0 <= i < |h.fields| ==> GoodFieldLine(h.fields[i])
  }

  /** The values of the fields of a name, without the blanks around them. */
  function ValuesOf(fields: seq<Field>, name: Bytes): seq<Bytes> {
    if fields == [] then []
    else (if Named(fields[0], name) then [Trim(fields[0].value)] else []) + ValuesOf(fields[1..], name)
  }

  function Lengths(h: Head): seq<Bytes> { ValuesOf(h.fields, Ascii("content-length")) }

  function Codings(h: Head): seq<Bytes> { ValuesOf(h.fields, Ascii("transfer-encoding")) }

  /** One field that says the length, a decimal number. */
  predicate SaysLength(h: Head, n: nat) {
    |Lengths(h)| == 1 && Lengths(h)[0] != [] && Value(DecimalDigit, 10, Lengths(h)[0]) == Some(n)
  }

  /** One field that says the body comes in chunks. */
  predicate SaysChunks(h: Head) { |Codings(h)| == 1 && Lower(Codings(h)[0]) == Ascii("chunked") }

  // ----------------------------------------------------------------- names and digits

  lemma {:induction false} NamesAreTheirText()
    ensures CONTENT_LENGTH == Ascii("content-length") && TRANSFER_ENCODING == Ascii("transfer-encoding")
    ensures CHUNKED == Ascii("chunked") && HTTP11 == Ascii("HTTP/1.1 ") && HTTP10 == Ascii("HTTP/1.0 ")
    ensures CRLF == [CR, LF] == Ascii("\r\n") && [SPACE, TAB, COLON, SEMICOLON] == Ascii(" \t:;")
  {
    assert Ascii("content-length") == CONTENT_LENGTH;
    assert Ascii("transfer-encoding") == TRANSFER_ENCODING;
    assert Ascii("chunked") == CHUNKED;
    assert Ascii("HTTP/1.1 ") == HTTP11;
    assert Ascii("HTTP/1.0 ") == HTTP10;
    assert Ascii("\r\n") == CRLF;
    assert Ascii(" \t:;") == [SPACE, TAB, COLON, SEMICOLON];
  }

  /** Names are compared without regard to the case of their letters, and to nothing else. */
  lemma {:induction false} NamesIgnoreCase(field: Field, name: Bytes)
    requires forall i :: 0 <= i < |name| ==> !(65 <= name[i] <= 90)
    ensures Named(field, name) <==>
      |field.name| == |name| && forall i :: 0 <= i < |name| ==>
        field.name[i] == name[i] || (97 <= name[i] <= 122 && field.name[i] == name[i] - 32)
  {
    var lower := Lower(field.name);
    assert forall i :: 0 <= i < |lower| ==>
        lower[i] == if 65 <= field.name[i] <= 90 then field.name[i] + 32 else field.name[i];
  }

  /** A hexadecimal digit of either case stands for its place in the row of digits, and a
      decimal one for its own; nothing else is a digit. */
  lemma {:induction false} DigitsAreTheirPlace(b: byte, d: nat)
    requires d < 16
    ensures HexDigit(b) == Some(d) <==> b == Ascii("0123456789abcdef")[d] || b == Ascii("0123456789ABCDEF")[d]
    ensures DecimalDigit(b) == Some(d) <==> d < 10 && b == Ascii("0123456789")[d % 10]
    ensures HexDigit(b).Some? ==> HexDigit(b).value < 16
  {
    var lower, upper := "0123456789abcdef", "0123456789ABCDEF";
    assert lower[d] as int == if d < 10 then 48 + d else 87 + d;
    assert upper[d] as int == if d < 10 then 48 + d else 55 + d;
    assert "0123456789"[d % 10] as int == 48 + d % 10;
  }

  lemma {:induction false} OneDigitMore(s: Bytes, b: byte)
    ensures Value(DecimalDigit, 10, s + [b]) ==
      if Value(DecimalDigit, 10, s).Some? && 48 <= b <= 57 then Some(10 * Value(DecimalDigit, 10, s).value + b - 48)
      else None
  {
    assert (s + [b])[..|s|] == s;
  }

  lemma {:induction false} ThreeDigits(s: Bytes)
    requires |s| == 3
    ensures Value(DecimalDigit, 10, s) ==
      if forall i :: 0 <= i < 3 ==> 48 <= s[i] <= 57
      then Some(100 * (s[0] as int - 48) + 10 * (s[1] as int - 48) + s[2] as int - 48)
      else None
  {
    assert Value(DecimalDigit, 10, []) == Some(0);
    hide Value;
    assert s == [] + [s[0]] + [s[1]] + [s[2]];
    OneDigitMore([], s[0]);
    OneDigitMore([] + [s[0]], s[1]);
    OneDigitMore([] + [s[0]] + [s[1]], s[2]);
  }

  /** A status line starts with one of the two versions and three digits; what comes after
      them is not looked at. */
  lemma {:induction false} StatusLineIsRead(line: Bytes, code: int)
    ensures StatusCode(line) == Some(code) <==>
      && |line| >= 12 && line[..9] in {Ascii("HTTP/1.1 "), Ascii("HTTP/1.0 ")}
      && (forall i :: 9 <= i < 12 ==> 48 <= line[i] <= 57)
      && code == 100 * (line[9] as int - 48) + 10 * (line[10] as int - 48) + line[11] as int - 48
  {
    hide Value;
    NamesAreTheirText();
    if |line| >= 12 {
      var digits := line[9..12];
      ThreeDigits(digits);
      assert HTTP11 <= line <==> line[..9] == HTTP11;
      assert HTTP10 <= line <==> line[..9] == HTTP10;
      assert digits[0] == line[9] && digits[1] == line[10] && digits[2] == line[11];
    }
  }

  /** A size line with a semicolon is read as the size before the first one exactly if
      something follows it, all of it printable. */
  lemma {:induction false} ExtensionsArePrintable(max: nat, line: Bytes, k: nat)
    requires k < |line| && line[k] == Ascii(";")[0] && line[k] !in line[..k]
    ensures HexSize(max, line) ==
      if k + 1 < |line| && (forall i :: k < i < |line| ==> 32 <= line[i] <= 126) then HexSize(max, line[..k]) else None
  {
    hide Size, Trim, IndexOf;
    assert SEMICOLON == Ascii(";")[0];
    FirstPlace(line[..k], SEMICOLON, line[k + 1..]);
    assert line == line[..k] + [SEMICOLON] + line[k + 1..];
    NoPlace(line[..k], SEMICOLON);
    assert line[..k][..k] == line[..k];
    var extension := line[k + 1..];
    assert forall i :: k < i < |line| ==> line[i] == extension[i - k - 1];
    assert forall i :: 0 <= i < |extension| ==> extension[i] == line[k + 1 + i];
  }

  lemma {:induction false} NoPlace(s: Bytes, b: byte)
    requires b !in s
    ensures IndexOf(s, b) == |s|
  {
    if s != [] { NoPlace(s[1..], b); }
  }

  // ------------------------------------------------------------------ the fields read

  lemma {:induction false} TrimmedLeft(s: Bytes)
    ensures TrimLeft(s) != [] ==> !Blank(TrimLeft(s)[0])
    ensures |TrimLeft(s)| <= |s|
  {
    if s != [] && Blank(s[0]) { TrimmedLeft(s[1..]); }
  }

  lemma {:induction false} TrimmedRight(s: Bytes)
    ensures TrimRight(s) <= s
    ensures TrimRight(s) != [] ==> !Blank(TrimRight(s)[|TrimRight(s)| - 1])
  {
    if s != [] && Blank(s[|s| - 1]) { TrimmedRight(s[..|s| - 1]); }
  }

  lemma {:induction false} TrimTwice(s: Bytes)
    ensures Trim(Trim(s)) == Trim(s)
  {
    hide TrimLeft, TrimRight;
    TrimmedLeft(s);
    TrimmedRight(TrimLeft(s));
    if Trim(s) != [] { NothingToTrim(Trim(s)); } else { NothingIsTrimmed(); }
  }

  lemma {:induction false} NothingIsTrimmed()
    ensures Trim([]) == []
  {
  }

  /** What one field line adds. */
  lemma {:induction false} LineIsRead(max: nat, f: Fields, field: Field)
    requires GoodFieldLine(field)
    ensures FieldStep(max, f, LineOfField(field)) ==
      if Named(field, CONTENT_LENGTH) then
        if f.length.Some? || DecimalSize(max, Trim(field.value)) == None then None
        else Some(f.(length := DecimalSize(max, Trim(field.value))))
      else if Named(field, TRANSFER_ENCODING) then
        if f.chunked || Lower(Trim(field.value)) != CHUNKED then None else Some(f.(chunked := true))
      else Some(f)
  {
    hide Lower, DecimalSize;
    var line := LineOfField(field);
    assert COLON !in field.name;
    FirstPlace(field.name, COLON, field.value);
    var k := |field.name|;
    assert line[..k] == field.name && line[k + 1..] == field.value;
    NothingToTrim(field.name);
  }

  predicate Conflicts(max: nat, f: Fields, lengths: seq<Bytes>, codings: seq<Bytes>) {
    || |lengths| + (if f.length.Some? then 1 else 0) > 1 || |codings| + (if f.chunked then 1 else 0) > 1
    || (lengths != [] && DecimalSize(max, lengths[0]) == None) || (codings != [] && Lower(codings[0]) != CHUNKED)
  }

  lemma {:induction false} ValuesOneMore(fields: seq<Field>, name: Bytes)
    requires fields != []
    ensures ValuesOf(fields, name)
      == if Named(fields[0], name) then [Trim(fields[0].value)] + ValuesOf(fields[1..], name)
         else ValuesOf(fields[1..], name)
  {
  }

  /** What all the field lines say together. */
  lemma {:induction false} LinesAreRead(max: nat, f: Fields, fields: seq<Field>)
    requires forall i :: 0 <= i < |fields| ==> GoodFieldLine(fields[i])
    ensures var lengths, codings := ValuesOf(fields, CONTENT_LENGTH), ValuesOf(fields, TRANSFER_ENCODING);
      FieldsOf(max, f, LinesOfFields(fields)) ==
        if Conflicts(max, f, lengths, codings) then None
        else Some(Fields(if lengths == [] then f.length else DecimalSize(max, lengths[0]), f.chunked || codings != []))
    decreases |fields|
  {
    hide FieldStep, Named, Lower, GoodFieldLine, DecimalSize, Trim;
    if fields != [] {
      LineIsRead(max, f, fields[0]);
      ValuesOneMore(fields, CONTENT_LENGTH);
      ValuesOneMore(fields, TRANSFER_ENCODING);
      OneName(fields[0]);
      assert LinesOfFields(fields)[0] == LineOfField(fields[0])
          && LinesOfFields(fields)[1..] == LinesOfFields(fields[1..]);
      var g := FieldStep(max, f, LineOfField(fields[0]));
      if g.Some? { LinesAreRead(max, g.value, fields[1..]); }
    }
  }

  lemma {:induction false} OneName(field: Field)
    ensures !(Named(field, CONTENT_LENGTH) && Named(field, TRANSFER_ENCODING))
  {
    assert |CONTENT_LENGTH| != |TRANSFER_ENCODING|;
  }

  lemma {:induction false} SizeIsValue(max: nat, value: Bytes, n: nat)
    requires Trim(value) == value
    ensures DecimalSize(max, value) == Some(n) <==> value != [] && Value(DecimalDigit, 10, value) == Some(n) && n <= max
  {
  }

  lemma {:induction false} ValuesAreTrimmed(fields: seq<Field>, name: Bytes, i: nat)
    requires i < |ValuesOf(fields, name)|
    ensures Trim(ValuesOf(fields, name)[i]) == ValuesOf(fields, name)[i]
  {
    hide Trim, Named;
    ValuesOneMore(fields, name);
    TrimTwice(fields[0].value);
    if Named(fields[0], name) {
      if i > 0 { ValuesAreTrimmed(fields[1..], name, i - 1); }
    } else {
      ValuesAreTrimmed(fields[1..], name, i);
    }
  }

  // -------------------------------------------------------------------- the framing

  /** The header block as a whole: the code, and no field or one field of each kind. */
  predicate IsConsistent(max: nat, h: Head) {
    && (Lengths(h) == [] || exists n: nat :: n <= max && SaysLength(h, n))
    && (Codings(h) == [] || SaysChunks(h))
    && (Lengths(h) == [] || Codings(h) == [])
  }

  lemma {:induction false} HeadFields(max: nat, h: Head, code: nat)
    requires GoodHead(h, code)
    ensures var f := FieldsOf(max, Fields(None, false), LinesOfFields(h.fields));
      && (f.Some? <==> (Lengths(h) == [] || exists n: nat :: n <= max && SaysLength(h, n))
                       && (Codings(h) == [] || SaysChunks(h)))
      && (f.Some? ==> (f.value.chunked <==> SaysChunks(h)))
      && (f.Some? ==> forall n: nat :: f.value.length == Some(n) <==> n <= max && SaysLength(h, n))
      && (f.Some? ==> (f.value.length == None <==> Lengths(h) == []) && (f.value.chunked <==> Codings(h) != []))
  {
    hide FieldsOf, ValuesOf, Value, DecimalSize, Lower, Trim;
    NamesAreTheirText();
    LinesAreRead(max, Fields(None, false), h.fields);
    if Lengths(h) != [] {
      ValuesAreTrimmed(h.fields, CONTENT_LENGTH, 0);
      forall n: nat ensures |Lengths(h)| == 1 ==>
        (DecimalSize(max, Lengths(h)[0]) == Some(n) <==> n <= max && SaysLength(h, n))
      {
        SizeIsValue(max, Lengths(h)[0], n);
      }
      if DecimalSize(max, Lengths(h)[0]).Some? && |Lengths(h)| == 1 {
        assert SaysLength(h, DecimalSize(max, Lengths(h)[0]).value);
      }
    }
  }

  /** What a header block says of the body, exactly: nothing after a 204 or 304 or a length
      of zero; chunks if it says so; so many bytes if it says how many, within the cap;
      everything to the end of the connection if it says neither. Two lengths, two
      codings, both at once, or a value that is none of these are refused. */
  lemma {:induction false} HeadIsFramed(max: nat, cap: nat, h: Head, code: nat)
    requires GoodHead(h, code) && cap <= max
    ensures var framing, empty := FramingOfLines(max, cap, LinesOf(h)), code in {204, 304};
      && (framing == Malformed <==> !IsConsistent(max, h))
      && (framing == TooLong <==> IsConsistent(max, h) && exists n: nat :: n > cap && SaysLength(h, n))
      && (framing == NoBody <==>
            IsConsistent(max, h) && (SaysLength(h, 0) || (empty && !exists n: nat :: n > cap && SaysLength(h, n))))
      && (framing == InChunks <==> IsConsistent(max, h) && SaysChunks(h) && !empty)
      && (framing == ToClose <==> Lengths(h) == [] && Codings(h) == [] && !empty)
      && (forall n: nat ::
            framing == OfLength(n) <==> IsConsistent(max, h) && SaysLength(h, n) && 0 < n <= cap && !empty)
  {
    hide Value, FieldsOf, Lengths, Codings;
    NamesAreTheirText();
    var line := LinesOf(h)[0];
    assert line[9..12] == h.code && HTTP11 <= line by { StatusParts(h); }
    assert LinesOf(h)[1..] == LinesOfFields(h.fields);
    HeadFields(max, h, code);
    OneLength(h);
  }

  /** Without a status line, or with a code outside 200 to 599, nothing is taken. */
  lemma {:induction false} OtherCodesAreRefused(max: nat, cap: nat, lines: seq<Bytes>)
    requires lines != [] && (StatusCode(lines[0]) == None || !(200 <= StatusCode(lines[0]).value <= 599))
    ensures FramingOfLines(max, cap, lines) == Malformed
  {
    hide StatusCode;
  }

  lemma {:induction false} StatusParts(h: Head)
    requires |h.code| == 3
    ensures LinesOf(h)[0][9..12] == h.code && Ascii("HTTP/1.1 ") <= LinesOf(h)[0] && |LinesOf(h)[0]| >= 12
  {
  }

  lemma {:induction false} OneLength(h: Head)
    ensures forall n: nat, m: nat :: SaysLength(h, n) && SaysLength(h, m) ==> n == m
  {
  }

  lemma {:induction false} LinesAreGood(h: Head, code: nat)
    requires GoodHead(h, code) && |BytesOfLines(LinesOf(h))| + 2 <= 4096
    ensures GoodBlock(LinesOf(h)) && StatusCode(LinesOf(h)[0]) == Some(code)
  {
    hide Value, BytesOfLines;
    NamesAreTheirText();
    StatusParts(h);
    var line := LinesOf(h)[0];
    assert GoodField(line) by {
      CodeIsDigits(h.code);
      assert forall i :: 0 <= i < |line| ==> TextByte(line[i]);
    }
    forall i | 0 <= i < |h.fields| ensures GoodField(LineOfField(h.fields[i])) { FieldLineIsText(h.fields[i]); }
  }

  /** A grammatical response that says its length completes exactly at the last byte of a
      body of that length, and one of no body at the end of its head. */
  lemma {:induction false} SaidLengthCompletes(max: nat, cap: nat, h: Head, code: nat, body: Bytes)
    requires GoodHead(h, code) && |BytesOfLines(LinesOf(h))| + 2 <= 4096
    requires IsConsistent(max, h) && SaysLength(h, |body|) && |body| <= cap <= max && code !in {204, 304}
    ensures var p := Fed(Fresh(max, cap), BlockOf(LinesOf(h)) + body);
      p.status == Complete && p.body == body && p.code == code
    ensures body != [] ==> Fed(Fresh(max, cap), BlockOf(LinesOf(h)) + body[..|body| - 1]).status == NeedMore
  {
    hide IsConsistent, SaysLength, FramingOfLines, Fed, StatusCode, GoodBlock, LinesOf;
    LinesAreGood(h, code);
    HeadIsFramed(max, cap, h, code);
    if body != [] {
      FixedResponseCompletes(max, cap, LinesOf(h), body);
    } else {
      BodylessCompletes(max, cap, LinesOf(h), code);
      assert BlockOf(LinesOf(h)) + body == BlockOf(LinesOf(h));
    }
  }

  lemma {:induction false} BodylessCompletes(max: nat, cap: nat, lines: seq<Bytes>, code: nat)
    requires GoodBlock(lines) && FramingOfLines(max, cap, lines) == NoBody && StatusCode(lines[0]) == Some(code)
    ensures var p := Fed(Fresh(max, cap), BlockOf(lines)); p.status == Complete && p.body == [] && p.code == code
  {
    hide FramingOf, GoodBlock, StatusCode, FieldsOf, Step;
    FedBlock(max, cap, lines);
    BlockIsItsLines(max, cap, lines);
  }
}
