/**
 * The request parser, `HttpRequest::from_stream`: one request line, header
 * lines up to a blank line, then a body of exactly `Content-Length` bytes.
 *
 * The connection is modelled as the finite sequence of bytes it delivers plus
 * the way the stream ends once they are used up.  A position index plays the
 * part of the buffered reader's cursor.
 */
module HttpRequest {

  import opened Wrappers
  import opened Text
  import opened Numeric
  import opened Wire

  /** What the stream does once its bytes are used up: report end of stream, or fail. */
  datatype End = Eof | Broken

  /** The bytes a connection delivers, in order, and how the stream ends. */
  datatype Input = Input(data: Str, end: End)

  datatype LineRead = Line(line: Str, next: nat) | LineFailed

  /** Index of the first LF at or after `pos`, or `|data|`. */
  function NextLf(data: Str, pos: nat): (k: nat)
    requires pos <= |data|
    ensures pos <= k <= |data|
    decreases |data| - pos
  {
    if pos == |data| || data[pos] == LF then pos else NextLf(data, pos + 1)
  }

  /** `NextLf` finds the first LF: none before it, and an LF at it unless it is the end. */
  lemma {:induction false} NextLfFirst(data: Str, pos: nat, e: nat)
    requires pos <= e < |data| && data[e] == LF
    requires forall j :: pos <= j < e ==> data[j] != LF
    ensures NextLf(data, pos) == e
    decreases e - pos
  {
    if pos < e {
      NextLfFirst(data, pos + 1, e);
    }
  }

  /**
   * `BufRead::read_line`: the bytes up to and including the next LF; at the end
   * of the stream whatever is left (possibly nothing).  It fails when the
   * transport fails before an LF arrives, or when the bytes are not UTF-8.
   */
  function ReadLine(input: Input, pos: nat): (r: LineRead)
    requires pos <= |input.data|
    ensures r.Line? ==> pos <= r.next <= |input.data| && r.line == input.data[pos..r.next]
  {
    var k := NextLf(input.data, pos);
    if k == |input.data| && input.end == Broken then LineFailed
    else
      var next := if k < |input.data| then k + 1 else k;
      if Utf8Range(input.data, pos, next) then Line(input.data[pos..next], next) else LineFailed
  }

  /** `Read::read_exact`: exactly `n` more bytes, or a failure when the stream has fewer. */
  function ReadExact(input: Input, pos: nat, n: nat): (r: Option<Str>)
    requires pos <= |input.data|
    ensures r.Some? <==> pos + n <= |input.data|
    ensures r.Some? ==> r.value == input.data[pos..pos + n]
  {
    if pos + n <= |input.data| then Some(input.data[pos..pos + n]) else None
  }

  /** The line that ends the header section: exactly CRLF or exactly LF. */
  predicate IsTerminator(line: Str)
  {
    line == CRLF || line == [LF]
  }

  /** A header line split at its first colon, both parts trimmed; `None` without a colon. */
  function FieldOf(line: Str): Option<(Str, Str)>
  {
    match SplitOnce(line, COLON)
    case None => None
    case Some((key, value)) => Some((Trim(key), Trim(value)))
  }

  /** One pass of the header loop: `HashMap::insert` of the line's field, if it has one. */
  function InsertField(headers: map<Str, Str>, field: Option<(Str, Str)>): map<Str, Str>
  {
    match field
    case None => headers
    case Some((key, value)) => headers[key := value]
  }

  /** The fields of a sequence of header lines, one entry per line (`None` for a line without a colon). */
  function FieldsOf(lines: seq<Str>): (fields: seq<Option<(Str, Str)>>)
    ensures |fields| == |lines|
    ensures forall i :: 0 <= i < |lines| ==> fields[i] == FieldOf(lines[i])
  {
    seq(|lines|, i requires 0 <= i < |lines| => FieldOf(lines[i]))
  }

  /** The header map after inserting `fields` in order. */
  function FoldFields(headers: map<Str, Str>, fields: seq<Option<(Str, Str)>>): map<Str, Str>
    decreases |fields|
  {
    if fields == [] then headers else FoldFields(InsertField(headers, fields[0]), fields[1..])
  }

  datatype HeadersRead = HeadersDone(headers: map<Str, Str>, next: nat) | HeadersFailed | HeadersStalled

  /**
   * The header loop, from `pos` with the map built so far.  At the end of a
   * cleanly closed stream `read_line` keeps yielding the empty line, which is
   * neither a terminator nor a field: the loop would spin for ever, and the
   * model reports `HeadersStalled` there.
   */
  function ReadHeaders(input: Input, pos: nat, headers: map<Str, Str>): (r: HeadersRead)
    requires pos <= |input.data|
    ensures r.HeadersDone? ==> pos < r.next <= |input.data|
    decreases |input.data| - pos
  {
    match ReadLine(input, pos)
    case LineFailed => HeadersFailed
    case Line(line, next) =>
      if IsTerminator(line) then HeadersDone(headers, next)
      else if next == pos then HeadersStalled
      else ReadHeaders(input, next, InsertField(headers, FieldOf(line)))
  }

  datatype Request = Request(httpMethod: Str, path: Str, version: Str, headers: map<Str, Str>, body: Option<Str>)

  datatype ParseResult = Parsed(request: Request, next: nat) | ParseFailed | ParseStalled

  /** The `i`-th token, or the empty string when there are fewer tokens. */
  function TokenOr(tokens: seq<Str>, i: nat): Str
  {
    if i < |tokens| then tokens[i] else []
  }

  /** The body length announced by the headers: `Content-Length`, when it parses as a `usize`. */
  function BodyLength(headers: map<Str, Str>): Option<nat>
  {
    if CONTENT_LENGTH in headers then ParseUsize(headers[CONTENT_LENGTH]) else None
  }

  /** The body step: read `Content-Length` bytes when the length parses, else no body and nothing read. */
  function WithBody(input: Input, head: Request, bodyStart: nat, lossy: Str -> Str): (r: ParseResult)
    requires bodyStart <= |input.data|
    ensures r.Parsed? ==> bodyStart <= r.next <= |input.data|
  {
    match BodyLength(head.headers)
    case None => Parsed(head, bodyStart)
    case Some(n) =>
      match ReadExact(input, bodyStart, n)
      case None => ParseFailed
      case Some(bytes) => Parsed(head.(body := Some(lossy(bytes))), bodyStart + n)
  }

  /**
   * `from_stream` as a function of the input and the cursor.  `lossy` stands
   * for `String::from_utf8_lossy` applied to the body bytes.
   */
  function Parse(input: Input, pos: nat, lossy: Str -> Str): (r: ParseResult)
    requires pos <= |input.data|
    ensures r.Parsed? ==> pos < r.next <= |input.data|
  {
    match ReadLine(input, pos)
    case LineFailed => ParseFailed
    case Line(requestLine, afterLine) =>
      var tokens := Tokens(requestLine);
      match ReadHeaders(input, afterLine, map[])
      case HeadersFailed => ParseFailed
      case HeadersStalled => ParseStalled
      case HeadersDone(headers, bodyStart) =>
        WithBody(input, Request(TokenOr(tokens, 0), TokenOr(tokens, 1), TokenOr(tokens, 2), headers, None), bodyStart, lossy)
  }

  /**
   * `HttpRequest::from_stream`: reads the request line, loops over header
   * lines inserting into the map, then reads the body into a buffer.
   */
  method FromStream(input: Input, start: nat, lossy: Str -> Str) returns (r: ParseResult)
    requires start <= |input.data|
    ensures r == Parse(input, start, lossy)
    ensures r.Parsed? ==> start < r.next <= |input.data|
  {
    var first := ReadLine(input, start);
    if first.LineFailed? {
      return ParseFailed;
    }
    var tokens := Tokens(first.line);
    var httpMethod, path, version := TokenOr(tokens, 0), TokenOr(tokens, 1), TokenOr(tokens, 2);

    var headers: map<Str, Str> := map[];
    var pos := first.next;
    while true
      invariant first.next <= pos <= |input.data|
      invariant ReadHeaders(input, pos, headers) == ReadHeaders(input, first.next, map[])
      decreases |input.data| - pos
    {
      var l := ReadLine(input, pos);
      if l.LineFailed? {
        assert ReadHeaders(input, pos, headers) == HeadersFailed;
        return ParseFailed;
      }
      if IsTerminator(l.line) {
        assert ReadHeaders(input, pos, headers) == HeadersDone(headers, l.next);
        pos := l.next;
        break;
      }
      if l.next == pos {
        assert ReadHeaders(input, pos, headers) == HeadersStalled;
        return ParseStalled;
      }
      assert ReadHeaders(input, pos, headers) == ReadHeaders(input, l.next, InsertField(headers, FieldOf(l.line)));
      headers := InsertField(headers, FieldOf(l.line));
      pos := l.next;
    }
    assert ReadHeaders(input, first.next, map[]) == HeadersDone(headers, pos);
    var head := Request(httpMethod, path, version, headers, None);
    assert Parse(input, start, lossy) == WithBody(input, head, pos, lossy);

    var body: Option<Str> := None;
    var length := BodyLength(headers);
    if length.Some? {
      var bytes := ReadExact(input, pos, length.value);
      if bytes.None? {
        return ParseFailed;
      }
      body := Some(lossy(bytes.value));
      pos := pos + length.value;
    }
    r := Parsed(head.(body := body), pos);
  }

  // ------------------------------------------------------------------ lemmas

  /** A complete line: ends with its only LF and is UTF-8. */
  predicate IsLine(line: Str)
  {
    |line| > 0 && line[|line| - 1] == LF && LF !in line[..|line| - 1] && Utf8Valid(line)
  }

  /** `read_line` at the start of a complete line returns exactly that line. */
  lemma ReadLineAt(input: Input, pos: nat, line: Str)
    requires IsLine(line)
    requires pos + |line| <= |input.data| && input.data[pos..pos + |line|] == line
    ensures ReadLine(input, pos) == Line(line, pos + |line|)
  {
    var e := pos + |line| - 1;
    assert input.data[e] == LF;
    forall j | pos <= j < e ensures input.data[j] != LF {
      assert input.data[j] == line[..|line| - 1][j - pos];
    }
    NextLfFirst(input.data, pos, e);
    Utf8RangeSlice(input.data, pos, pos + |line|, pos);
  }

  /** At the end of the data `read_line` yields the empty line on a clean end, and fails on a broken one. */
  lemma ReadLineAtEnd(data: Str)
    ensures ReadLine(Input(data, Eof), |data|) == Line([], |data|)
    ensures ReadLine(Input(data, Broken), |data|) == LineFailed
  {
  }

  /** Without an LF from `pos` on, the search runs to the end of the data. */
  lemma {:induction false} NextLfNone(data: Str, pos: nat)
    requires pos <= |data| && forall j :: pos <= j < |data| ==> data[j] != LF
    ensures NextLf(data, pos) == |data|
    decreases |data| - pos
  {
    if pos < |data| {
      NextLfNone(data, pos + 1);
    }
  }

  /**
   * The two ways `read_line` fails: the transport breaks before an LF arrives,
   * and a line that is not UTF-8 is never returned.
   */
  lemma ReadLineFails(input: Input, pos: nat)
    requires pos <= |input.data|
    ensures input.end == Broken && LF !in input.data[pos..] ==> ReadLine(input, pos) == LineFailed
    ensures ReadLine(input, pos).Line? ==> Utf8Valid(ReadLine(input, pos).line)
  {
    if LF !in input.data[pos..] {
      forall j | pos <= j < |input.data| ensures input.data[j] != LF {
        assert input.data[j] == input.data[pos..][j - pos];
      }
      NextLfNone(input.data, pos);
    }
    var r := ReadLine(input, pos);
    if r.Line? {
      Utf8RangeSlice(input.data, pos, r.next, pos);
    }
  }

  /** A byte 0xFF before the LF makes `read_line` fail even on a cleanly closed stream. */
  lemma ReadLineRejectsInvalidUtf8()
    ensures ReadLine(Input([0xFF, LF], Eof), 0) == LineFailed
  {
    assert Input([0xFF, LF], Eof).data[1] == LF;
    NextLfFirst([0xFF, LF], 0, 1);
  }

  /** A complete line of ASCII bytes. */
  predicate IsAsciiLine(line: Str)
  {
    |line| > 0 && line[|line| - 1] == LF && LF !in line[..|line| - 1] && IsAscii(line)
  }

  lemma AsciiLineIsLine(line: Str)
    requires IsAsciiLine(line)
    ensures IsLine(line)
  {
    AsciiIsUtf8(line);
  }

  lemma TerminatorIsLine(term: Str)
    requires IsTerminator(term)
    ensures IsLine(term)
  {
    assert IsAscii(term);
    AsciiIsUtf8(term);
  }

  /** Over complete UTF-8 header lines, ASCII or not, the loop inserts each line's field in order and carries on after them. */
  lemma {:induction false} ReadHeadersOverConcat(input: Input, pos: nat, h: map<Str, Str>, lines: seq<Str>, c: Str, end: nat,
                                                 folded: map<Str, Str>)
    requires forall i :: 0 <= i < |lines| ==> IsLine(lines[i]) && !IsTerminator(lines[i])
    requires c == Concat(lines) && end == pos + |c| && BytesAt(input.data, pos, c)
    requires folded == FoldFields(h, FieldsOf(lines))
    ensures ReadHeaders(input, pos, h) == ReadHeaders(input, end, folded)
    decreases |lines|
  {
    if lines == [] {
      assert FieldsOf(lines) == [];
    } else {
      var rest, rc := lines[1..], Concat(lines[1..]);
      var next, h' := pos + |lines[0]|, InsertField(h, FieldOf(lines[0]));
      OverConcatRest(input.data, pos, h, lines, c, end, folded, rest, rc, next, h');
      ReadHeadersOverConcat(input, next, h', rest, rc, end, folded);
      OverConcatFirst(input, pos, h, lines, c, next, h');
    }
  }

  /** After the first of the lines, the rest lie at the next position and fold to the same map. */
  lemma OverConcatRest(data: Str, pos: nat, h: map<Str, Str>, lines: seq<Str>, c: Str, end: nat, folded: map<Str, Str>,
                       rest: seq<Str>, rc: Str, next: nat, h': map<Str, Str>)
    requires forall i :: 0 <= i < |lines| ==> IsLine(lines[i]) && !IsTerminator(lines[i])
    requires c == Concat(lines) && end == pos + |c| && BytesAt(data, pos, c)
    requires folded == FoldFields(h, FieldsOf(lines))
    requires lines != [] && rest == lines[1..] && rc == Concat(rest)
    requires next == pos + |lines[0]| && h' == InsertField(h, FieldOf(lines[0]))
    ensures forall i :: 0 <= i < |rest| ==> IsLine(rest[i]) && !IsTerminator(rest[i])
    ensures end == next + |rc| && BytesAt(data, next, rc)
    ensures folded == FoldFields(h', FieldsOf(rest))
  {
    assert c == lines[0] + rc;
    BytesAtSplit(data, pos, lines[0], rc, c);
    FoldFieldsCons(h, lines, lines[0], rest, h', folded);
  }

  /** The first of the lines is read and its field inserted. */
  lemma OverConcatFirst(input: Input, pos: nat, h: map<Str, Str>, lines: seq<Str>, c: Str, next: nat, h': map<Str, Str>)
    requires lines != [] && IsLine(lines[0]) && !IsTerminator(lines[0])
    requires c == Concat(lines) && BytesAt(input.data, pos, c)
    requires next == pos + |lines[0]| && h' == InsertField(h, FieldOf(lines[0]))
    ensures ReadHeaders(input, pos, h) == ReadHeaders(input, next, h')
  {
    var l := lines[0];
    assert c == l + Concat(lines[1..]);
    BytesAtSplit(input.data, pos, l, Concat(lines[1..]), c);
    BytesAtSlice(input.data, pos, l);
    ReadHeadersStep(input, pos, h, l, next);
  }

  /**
   * Header lines up to a terminator: the loop inserts each line's field in
   * order and stops just after the terminator.
   */
  lemma ReadHeadersOfLines(input: Input, pos: nat, h: map<Str, Str>, lines: seq<Str>, term: Str,
                           block: Str, stop: nat, folded: map<Str, Str>)
    requires forall i :: 0 <= i < |lines| ==> IsLine(lines[i]) && !IsTerminator(lines[i])
    requires IsTerminator(term) && block == Concat(lines) + term && folded == FoldFields(h, FieldsOf(lines))
    requires stop == pos + |block| <= |input.data| && input.data[pos..stop] == block
    ensures ReadHeaders(input, pos, h) == HeadersDone(folded, stop)
  {
    var c := Concat(lines);
    var end := pos + |c|;
    BlockParts(input.data, pos, c, term, block, end, stop);
    ReadHeadersOverConcat(input, pos, h, lines, c, end, folded);
    ReadHeadersEnd(input, end, folded, term, stop);
  }

  /** Where the header lines and the terminator of a block lie. */
  lemma BlockParts(data: Str, pos: nat, c: Str, term: Str, block: Str, end: nat, stop: nat)
    requires block == c + term && end == pos + |c| && stop == end + |term| <= |data| && data[pos..stop] == block
    ensures BytesAt(data, pos, c) && data[end..stop] == term
  {
    SliceOfConcat(data, pos, c, term);
    BytesAtSlice(data, pos, c);
  }

  lemma ReadHeadersEnd(input: Input, pos: nat, h: map<Str, Str>, term: Str, next: nat)
    requires IsTerminator(term) && next == pos + |term|
    requires next <= |input.data| && input.data[pos..next] == term
    ensures ReadHeaders(input, pos, h) == HeadersDone(h, next)
  {
    TerminatorIsLine(term);
    ReadLineAt(input, pos, term);
  }

  /** One header line that is not a terminator: its field is inserted and the loop goes on after it. */
  lemma ReadHeadersStep(input: Input, pos: nat, h: map<Str, Str>, l: Str, next: nat)
    requires IsLine(l) && !IsTerminator(l) && next == pos + |l|
    requires next <= |input.data| && input.data[pos..next] == l
    ensures ReadHeaders(input, pos, h) == ReadHeaders(input, next, InsertField(h, FieldOf(l)))
  {
    ReadLineAt(input, pos, l);
    ReadHeadersGoesOn(input, pos, h, l, next);
  }

  /** One turn of the header loop for any line `read_line` returns that is not a terminator. */
  lemma ReadHeadersGoesOn(input: Input, pos: nat, h: map<Str, Str>, l: Str, next: nat)
    requires pos <= |input.data|
    requires ReadLine(input, pos) == Line(l, next) && !IsTerminator(l) && next > pos
    ensures ReadHeaders(input, pos, h) == ReadHeaders(input, next, InsertField(h, FieldOf(l)))
  {
  }

  lemma FoldFieldsCons(h: map<Str, Str>, lines: seq<Str>, l: Str, rest: seq<Str>, h': map<Str, Str>, folded: map<Str, Str>)
    requires lines != [] && l == lines[0] && rest == lines[1..] && h' == InsertField(h, FieldOf(l))
    requires folded == FoldFields(h, FieldsOf(lines))
    ensures folded == FoldFields(h', FieldsOf(rest))
  {
    assert FieldsOf(lines)[1..] == FieldsOf(rest);
  }

  /** What the header loop comes to when the stream ends before a terminator. */
  function Unterminated(end: End): HeadersRead
  {
    if end == Eof then HeadersStalled else HeadersFailed
  }

  /**
   * A header section that the stream ends in the middle of: complete header
   * lines, then possibly a UTF-8 part of a line with no LF.  On a clean end of stream
   * the source's loop never returns, on a broken stream the read fails.
   */
  lemma ReadHeadersUnterminated(input: Input, pos: nat, h: map<Str, Str>, lines: seq<Str>, tail: Str)
    requires forall i :: 0 <= i < |lines| ==> IsLine(lines[i]) && !IsTerminator(lines[i])
    requires LF !in tail && Utf8Valid(tail)
    requires pos <= |input.data| && input.data[pos..] == Concat(lines) + tail
    ensures ReadHeaders(input, pos, h) == Unterminated(input.end)
  {
    var c := Concat(lines);
    var end := pos + |c|;
    assert input.data[pos..end] == c by {
      assert input.data[pos..end] == input.data[pos..][..|c|];
    }
    assert input.data[end..] == tail by {
      assert input.data[end..] == input.data[pos..][|c|..];
    }
    BytesAtSlice(input.data, pos, c);
    var folded := FoldFields(h, FieldsOf(lines));
    ReadHeadersOverConcat(input, pos, h, lines, c, end, folded);
    if tail == [] {
      ReadHeadersAtEnd(input, end, folded);
    } else {
      ReadHeadersPartialLine(input, end, folded);
    }
  }

  /** The last part of a line, cut off by the end of the stream, is read and then the loop reaches the end. */
  lemma ReadHeadersPartialLine(input: Input, pos: nat, h: map<Str, Str>)
    requires pos < |input.data| && LF !in input.data[pos..] && Utf8Valid(input.data[pos..])
    ensures ReadHeaders(input, pos, h) == Unterminated(input.end)
  {
    var t := input.data[pos..];
    ReadLineFails(input, pos);
    forall j | pos <= j < |input.data| ensures input.data[j] != LF {
      assert input.data[j] == t[j - pos];
    }
    NextLfNone(input.data, pos);
    if input.end == Eof {
      assert input.data[pos..|input.data|] == t;
      Utf8RangeSlice(input.data, pos, |input.data|, pos);
      assert ReadLine(input, pos) == Line(t, |input.data|);
      assert LF in CRLF && LF in [LF];
      assert !IsTerminator(t);
      ReadHeadersAtEnd(input, |input.data|, InsertField(h, FieldOf(t)));
    }
  }

  lemma ReadHeadersAtEnd(input: Input, pos: nat, h: map<Str, Str>)
    requires pos == |input.data|
    ensures ReadHeaders(input, pos, h) == Unterminated(input.end)
  {
    ReadLineAtEnd(input.data);
    assert input == Input(input.data, input.end);
  }

  /** A header line is split at its first colon, so the value keeps any later colons; both sides are trimmed. */
  lemma FieldOfSplit(key: Str, value: Str)
    requires COLON !in key
    ensures FieldOf(key + [COLON] + value) == Some((Trim(key), Trim(value)))
  {
    SplitOnceFirst(key, COLON, value);
  }

  /** A line without a colon carries no field and leaves the map as it was. */
  lemma NoColonNoField(h: map<Str, Str>, line: Str)
    requires COLON !in line
    ensures FieldOf(line) == None && InsertField(h, FieldOf(line)) == h
  {
    SplitOnceNone(line, COLON);
  }

  /** Such a line is skipped by the header loop: no error, no change to the map. */
  lemma ReadHeadersSkipsNoColon(input: Input, pos: nat, h: map<Str, Str>)
    requires pos <= |input.data|
    requires ReadLine(input, pos).Line?
    requires COLON !in ReadLine(input, pos).line
    requires !IsTerminator(ReadLine(input, pos).line) && ReadLine(input, pos).next > pos
    ensures ReadHeaders(input, pos, h) == ReadHeaders(input, ReadLine(input, pos).next, h)
  {
    NoColonNoField(h, ReadLine(input, pos).line);
  }

  /** Only CRLF or LF ends the header section; a line of whitespace such as " \r\n" is a colon-less line and is skipped. */
  lemma WhitespaceLineIsSkipped(input: Input, pos: nat, h: map<Str, Str>)
    requires pos <= |input.data|
    requires ReadLine(input, pos) == Line([SP, CR, LF], pos + 3)
    ensures !IsTerminator([SP, CR, LF])
    ensures ReadHeaders(input, pos, h) == ReadHeaders(input, pos + 3, h)
  {
    NoColonNoField(h, [SP, CR, LF]);
  }

  /** The loop ends at the first terminator line and reads nothing more. */
  lemma ReadHeadersStops(input: Input, pos: nat, h: map<Str, Str>)
    requires pos <= |input.data|
    requires ReadLine(input, pos).Line? && IsTerminator(ReadLine(input, pos).line)
    ensures ReadHeaders(input, pos, h) == HeadersDone(h, ReadLine(input, pos).next)
  {
  }

  predicate HasKey(field: Option<(Str, Str)>, key: Str)
  {
    field.Some? && field.value.0 == key
  }

  /** Last write wins: the value of a key is that of the last field that names it. */
  lemma {:induction false} FoldFieldsLast(h: map<Str, Str>, fields: seq<Option<(Str, Str)>>, i: nat, key: Str, value: Str)
    requires i < |fields| && fields[i] == Some((key, value))
    requires forall j :: i < j < |fields| ==> !HasKey(fields[j], key)
    ensures key in FoldFields(h, fields) && FoldFields(h, fields)[key] == value
    decreases |fields|
  {
    if i == 0 {
      FoldFieldsUntouched(InsertField(h, fields[0]), fields[1..], key);
    } else {
      FoldFieldsLast(InsertField(h, fields[0]), fields[1..], i - 1, key, value);
    }
  }

  /** A key that no field names keeps whatever the map held before. */
  lemma {:induction false} FoldFieldsUntouched(h: map<Str, Str>, fields: seq<Option<(Str, Str)>>, key: Str)
    requires forall j :: 0 <= j < |fields| ==> !HasKey(fields[j], key)
    ensures key in FoldFields(h, fields) <==> key in h
    ensures key in h ==> FoldFields(h, fields)[key] == h[key]
    decreases |fields|
  {
    if fields != [] {
      assert !HasKey(fields[0], key);
      FoldFieldsUntouched(InsertField(h, fields[0]), fields[1..], key);
    }
  }

  /** A well-formed field written as a field line is a complete line and reads back as itself. */
  lemma FieldLineReadsBack(f: Field)
    requires WellFormedField(f)
    ensures IsAsciiLine(FieldLine(f)) && !IsTerminator(FieldLine(f))
    ensures FieldOf(FieldLine(f)) == Some((f.name, f.value))
  {
    FieldLineIsLine(f);
    FieldLineField(f);
  }

  lemma FieldLineIsLine(f: Field)
    requires WellFormedField(f)
    ensures IsAsciiLine(FieldLine(f)) && !IsTerminator(FieldLine(f))
  {
    FieldLineShape(f);
    TextIsAscii(f.name);
    TextIsAscii(f.value);
    var line := FieldLine(f);
    assert IsAscii(line);
  }

  lemma FieldLineField(f: Field)
    requires WellFormedField(f)
    ensures FieldOf(FieldLine(f)) == Some((f.name, f.value))
  {
    FieldLineShape(f);
    FieldLineColon(f);
    FieldLineValueTrim(f);
    TrimNoEdge(f.name);
  }

  lemma FieldLineColon(f: Field)
    requires WellFormedField(f)
    ensures FieldOf(f.name + [COLON] + ([SP] + (f.value + CRLF))) == Some((Trim(f.name), Trim([SP] + (f.value + CRLF))))
  {
    FieldOfSplit(f.name, [SP] + (f.value + CRLF));
  }

  lemma FieldLineValueTrim(f: Field)
    requires WellFormedField(f)
    ensures Trim([SP] + (f.value + CRLF)) == f.value
  {
    TrimSurrounded([SP], f.value, CRLF);
  }

  /** Parsing the field lines of well-formed fields builds the map those fields denote. */
  lemma FoldFieldLines(h: map<Str, Str>, fields: seq<Field>)
    requires forall i :: 0 <= i < |fields| ==> WellFormedField(fields[i])
    ensures FoldFields(h, FieldsOf(FieldLines(fields))) == RecordFields(h, fields)
  {
    var opts := FieldsOf(FieldLines(fields));
    forall i | 0 <= i < |fields| ensures opts[i] == Some((fields[i].name, fields[i].value)) {
      FieldLineReadsBack(fields[i]);
    }
    FoldPresentFields(h, fields, opts);
  }

  /** Folding entries that are all present inserts exactly the given fields in order. */
  lemma {:induction false} FoldPresentFields(h: map<Str, Str>, fields: seq<Field>, opts: seq<Option<(Str, Str)>>)
    requires |opts| == |fields|
    requires forall i :: 0 <= i < |fields| ==> opts[i] == Some((fields[i].name, fields[i].value))
    ensures FoldFields(h, opts) == RecordFields(h, fields)
    decreases |fields|
  {
    if fields != [] {
      FoldPresentFields(h[fields[0].name := fields[0].value], fields[1..], opts[1..]);
    }
  }

  // --------------------------------------------------------- request line

  /** Method, path and version are the first three tokens of the request line; later tokens are ignored. */
  lemma RequestLineTokens(m: Str, p: Str, v: Str, rest: Str)
    requires IsWord(m) && IsWord(p) && IsWord(v)
    requires rest == [] || IsSpace(rest[0])
    ensures var ts := Tokens(m + [SP] + p + [SP] + v + rest);
      TokenOr(ts, 0) == m && TokenOr(ts, 1) == p && TokenOr(ts, 2) == v
  {
    RequestLineAssoc(m, p, v, rest);
    RequestLineSplit(m, p, v, rest);
    FirstThree(Tokens(m + [SP] + p + [SP] + v + rest), m, p, v, Tokens(rest));
  }

  lemma RequestLineSplit(m: Str, p: Str, v: Str, rest: Str)
    requires IsWord(m) && IsWord(p) && IsWord(v)
    requires rest == [] || IsSpace(rest[0])
    ensures Tokens(m + ([SP] + (p + ([SP] + (v + rest))))) == [m] + ([p] + ([v] + Tokens(rest)))
  {
    var s3 := [SP] + (v + rest);
    var s2 := [SP] + (p + s3);
    TokensCons([SP], v, rest);
    TokensCons([SP], p, s3);
    TokensWord(m, s2);
  }

  // The next two steps are kept apart from `RequestLineTokens`: stated inline, the
  // regrouping and the token lookups together exceed the solver's budget.

  lemma FirstThree(ts: seq<Str>, m: Str, p: Str, v: Str, more: seq<Str>)
    requires ts == [m] + ([p] + ([v] + more))
    ensures TokenOr(ts, 0) == m && TokenOr(ts, 1) == p && TokenOr(ts, 2) == v
  {
  }

  lemma RequestLineAssoc(m: Str, p: Str, v: Str, rest: Str)
    ensures m + [SP] + p + [SP] + v + rest == m + ([SP] + (p + ([SP] + (v + rest))))
  {
  }

  /** Missing tokens are empty strings, not an error: a blank line, a one-word line. */
  lemma RequestLineMissing(m: Str, w: Str)
    requires IsWord(m) && AllSpace(w)
    ensures TokenOr(Tokens(w), 0) == [] && TokenOr(Tokens(w), 1) == [] && TokenOr(Tokens(w), 2) == []
    ensures var ts := Tokens(m + w); TokenOr(ts, 0) == m && TokenOr(ts, 1) == [] && TokenOr(ts, 2) == []
  {
    TokensOfSpace(w, []);
    assert w + [] == w;
    TokensWord(m, w);
  }

  /** A request line of two words, such as `GET /\r\n`, has an empty version. */
  lemma RequestLineTwoWords(m: Str, p: Str, w: Str)
    requires IsWord(m) && IsWord(p) && AllSpace(w)
    ensures var ts := Tokens(m + [SP] + p + w); TokenOr(ts, 0) == m && TokenOr(ts, 1) == p && TokenOr(ts, 2) == []
  {
    TwoWordTokens(m, p, w);
  }

  lemma TwoWordTokens(m: Str, p: Str, w: Str)
    requires IsWord(m) && IsWord(p) && AllSpace(w)
    ensures Tokens(m + [SP] + p + w) == [m, p]
  {
    TokensOfSpace(w, []);
    assert w + [] == w;
    var s2 := [SP] + (p + w);
    assert m + [SP] + p + w == m + s2;
    TokensCons([SP], p, w);
    TokensWord(m, s2);
  }

  // ------------------------------------------------------------------ body

  /** A successful parse takes its fields from the request line and the header loop, then applies the body step. */
  lemma ParseHead(input: Input, pos: nat, lossy: Str -> Str)
    requires pos <= |input.data| && Parse(input, pos, lossy).Parsed?
    ensures ReadLine(input, pos).Line?
    ensures ReadHeaders(input, ReadLine(input, pos).next, map[]).HeadersDone?
    ensures var ts := Tokens(ReadLine(input, pos).line);
      var hd := ReadHeaders(input, ReadLine(input, pos).next, map[]);
      Parse(input, pos, lossy) == WithBody(input, Request(TokenOr(ts, 0), TokenOr(ts, 1), TokenOr(ts, 2), hd.headers, None), hd.next, lossy)
  {
  }

  /**
   * The body step.  The body is present iff `Content-Length` is present and
   * parses as a `usize`, and then it is exactly that many bytes after the blank
   * line; an absent or unparsable length (negative, not a number) gives no
   * body and consumes nothing; a stream too short for the length fails.
   */
  lemma BodyRule(input: Input, head: Request, bodyStart: nat, lossy: Str -> Str)
    requires bodyStart <= |input.data|
    ensures BodyLength(head.headers).Some? <==> CONTENT_LENGTH in head.headers && ParseUsize(head.headers[CONTENT_LENGTH]).Some?
    ensures BodyLength(head.headers).None? ==> WithBody(input, head, bodyStart, lossy) == Parsed(head, bodyStart)
    ensures BodyLength(head.headers).Some? ==>
      var n := BodyLength(head.headers).value;
      WithBody(input, head, bodyStart, lossy) ==
        if bodyStart + n <= |input.data|
        then Parsed(head.(body := Some(lossy(input.data[bodyStart..bodyStart + n]))), bodyStart + n)
        else ParseFailed
  {
  }

  /** `Content-Length: 0` gives an empty body that is present, not an absent one. */
  lemma ZeroLengthBody(input: Input, head: Request, bodyStart: nat, lossy: Str -> Str)
    requires bodyStart <= |input.data|
    requires CONTENT_LENGTH in head.headers && head.headers[CONTENT_LENGTH] == [ZERO]
    ensures WithBody(input, head, bodyStart, lossy) == Parsed(head.(body := Some(lossy([]))), bodyStart)
  {
    assert DigitsValue([ZERO]) == 0 by {
      assert [ZERO][..0] == [];
    }
  }

  /** At the end of a cleanly closed stream the source never returns; on a broken one the parse fails. */
  lemma ParseAtEnd(data: Str, lossy: Str -> Str)
    ensures Parse(Input(data, Eof), |data|, lossy) == ParseStalled
    ensures Parse(Input(data, Broken), |data|, lossy) == ParseFailed
  {
    ReadLineAtEnd(data);
  }

  // ------------------------------------------------------------ round trip

  /** A request as a client writes it: request line, field lines, blank line, body. */
  datatype Message = Message(httpMethod: Str, path: Str, version: Str, fields: seq<Field>, body: Str)

  function RequestLineOf(m: Message): Str
  {
    m.httpMethod + [SP] + m.path + [SP] + m.version + CRLF
  }

  function Serialize(m: Message): Str
  {
    RequestLineOf(m) + (Concat(FieldLines(m.fields)) + CRLF) + m.body
  }

  /** Printable tokens, well-formed fields, and a body exactly as long as the header announces (none without one). */
  predicate WellFormedMessage(m: Message)
  {
    && IsWord(m.httpMethod) && IsText(m.httpMethod)
    && IsWord(m.path) && IsText(m.path)
    && IsWord(m.version) && IsText(m.version)
    && (forall i :: 0 <= i < |m.fields| ==> WellFormedField(m.fields[i]))
    && |m.body| == (var n := BodyLength(RecordFields(map[], m.fields)); if n.Some? then n.value else 0)
  }

  /** The request a well-formed message denotes. */
  function Denoted(m: Message, lossy: Str -> Str): Request
  {
    var headers := RecordFields(map[], m.fields);
    Request(m.httpMethod, m.path, m.version, headers,
            if BodyLength(headers).Some? then Some(lossy(m.body)) else None)
  }

  lemma RequestLineIsLine(m: Message)
    requires IsText(m.httpMethod) && IsText(m.path) && IsText(m.version)
    ensures IsLine(RequestLineOf(m))
  {
    var line := RequestLineOf(m);
    TextIsAscii(m.httpMethod);
    TextIsAscii(m.path);
    TextIsAscii(m.version);
    assert IsAscii(line);
    AsciiIsUtf8(line);
    assert line[..|line| - 1] == m.httpMethod + [SP] + m.path + [SP] + m.version + [CR];
  }

  /**
   * Round trip: the parser reads a serialized well-formed message back as the
   * request it denotes and stops exactly at its end, whatever follows it.
   */
  lemma ParseSerialize(m: Message, input: Input, pos: nat, lossy: Str -> Str)
    requires WellFormedMessage(m)
    requires pos + |Serialize(m)| <= |input.data|
    requires input.data[pos..pos + |Serialize(m)|] == Serialize(m)
    ensures Parse(input, pos, lossy) == Parsed(Denoted(m, lossy), pos + |Serialize(m)|)
  {
    var rl, block := RequestLineOf(m), Concat(FieldLines(m.fields)) + CRLF;
    var hStart := pos + |rl|;
    var bodyStart := hStart + |block|;
    SerializedLayout(m, input.data, pos, rl, block, hStart, bodyStart);
    ParseLaidOut(m, input, pos, rl, hStart, block, bodyStart, RecordFields(map[], m.fields), lossy);
  }

  /** The round trip over the three parts of a serialized message, each at its place. */
  lemma ParseLaidOut(m: Message, input: Input, pos: nat, rl: Str, hStart: nat, block: Str, bodyStart: nat,
                     headers: map<Str, Str>, lossy: Str -> Str)
    requires WellFormedMessage(m)
    requires rl == RequestLineOf(m) && block == Concat(FieldLines(m.fields)) + CRLF && headers == RecordFields(map[], m.fields)
    requires hStart == pos + |rl| && bodyStart == hStart + |block| && bodyStart + |m.body| <= |input.data|
    requires input.data[pos..hStart] == rl && input.data[hStart..bodyStart] == block
    requires input.data[bodyStart..bodyStart + |m.body|] == m.body
    ensures Parse(input, pos, lossy) == Parsed(Denoted(m, lossy), bodyStart + |m.body|)
  {
    var head := Request(m.httpMethod, m.path, m.version, headers, None);
    HeadLaidOut(m, input, pos, rl, hStart, block, bodyStart, headers, head, lossy);
    BodyOfParts(input, head, bodyStart, m.body, lossy);
  }

  /** The request line and the field block of a serialized message read back; the body is read after them. */
  lemma HeadLaidOut(m: Message, input: Input, pos: nat, rl: Str, hStart: nat, block: Str, bodyStart: nat,
                    headers: map<Str, Str>, head: Request, lossy: Str -> Str)
    requires WellFormedMessage(m)
    requires rl == RequestLineOf(m) && block == Concat(FieldLines(m.fields)) + CRLF && headers == RecordFields(map[], m.fields)
    requires head == Request(m.httpMethod, m.path, m.version, headers, None)
    requires hStart == pos + |rl| && bodyStart == hStart + |block| && bodyStart <= |input.data|
    requires input.data[pos..hStart] == rl && input.data[hStart..bodyStart] == block
    ensures Parse(input, pos, lossy) == WithBody(input, head, bodyStart, lossy)
  {
    RequestLineIsLine(m);
    ReadLineAt(input, pos, rl);
    HeaderBlockReads(input, hStart, m.fields, block, bodyStart, headers);
    ParseOfHead(m, input, pos, hStart, headers, bodyStart, lossy);
  }

  /** A parse whose request line is that of `m` and whose header loop is known. */
  lemma ParseOfHead(m: Message, input: Input, pos: nat, afterLine: nat, headers: map<Str, Str>, bodyStart: nat, lossy: Str -> Str)
    requires pos <= |input.data| && IsWord(m.httpMethod) && IsWord(m.path) && IsWord(m.version)
    requires ReadLine(input, pos) == Line(RequestLineOf(m), afterLine)
    requires ReadHeaders(input, afterLine, map[]) == HeadersDone(headers, bodyStart)
    ensures Parse(input, pos, lossy) == WithBody(input, Request(m.httpMethod, m.path, m.version, headers, None), bodyStart, lossy)
  {
    RequestLineTokens(m.httpMethod, m.path, m.version, CRLF);
    ParseOfParts(input, pos, lossy, RequestLineOf(m), afterLine, headers, bodyStart);
  }

  /** Where the request line, the field block and the body of a serialized message lie. */
  lemma SerializedLayout(m: Message, data: Str, pos: nat, rl: Str, block: Str, hStart: nat, bodyStart: nat)
    requires rl == RequestLineOf(m) && block == Concat(FieldLines(m.fields)) + CRLF
    requires hStart == pos + |rl| && bodyStart == hStart + |block|
    requires pos + |Serialize(m)| <= |data| && data[pos..pos + |Serialize(m)|] == Serialize(m)
    ensures pos + |Serialize(m)| == bodyStart + |m.body|
    ensures data[pos..hStart] == rl && data[hStart..bodyStart] == block
    ensures data[bodyStart..bodyStart + |m.body|] == m.body
  {
    assert Serialize(m) == (rl + block) + m.body;
    SliceOfConcat(data, pos, rl + block, m.body);
    SliceOfConcat(data, pos, rl, block);
  }

  /** A serialized field block followed by the blank line reads back as the fields recorded in order. */
  lemma HeaderBlockReads(input: Input, hStart: nat, fields: seq<Field>, block: Str, stop: nat, headers: map<Str, Str>)
    requires forall i :: 0 <= i < |fields| ==> WellFormedField(fields[i])
    requires block == Concat(FieldLines(fields)) + CRLF && headers == RecordFields(map[], fields)
    requires stop == hStart + |block| <= |input.data| && input.data[hStart..stop] == block
    ensures ReadHeaders(input, hStart, map[]) == HeadersDone(headers, stop)
  {
    var lines := FieldLines(fields);
    forall i | 0 <= i < |lines| ensures IsLine(lines[i]) && !IsTerminator(lines[i]) {
      FieldLineReadsBack(fields[i]);
      AsciiLineIsLine(lines[i]);
    }
    FoldFieldLines(map[], fields);
    ReadHeadersOfLines(input, hStart, map[], lines, CRLF, block, stop, headers);
  }

  /** A parse whose request line and header loop are known. */
  lemma ParseOfParts(input: Input, pos: nat, lossy: Str -> Str, line: Str, afterLine: nat, headers: map<Str, Str>, bodyStart: nat)
    requires pos <= |input.data|
    requires ReadLine(input, pos) == Line(line, afterLine)
    requires ReadHeaders(input, afterLine, map[]) == HeadersDone(headers, bodyStart)
    ensures var ts := Tokens(line);
      Parse(input, pos, lossy) == WithBody(input, Request(TokenOr(ts, 0), TokenOr(ts, 1), TokenOr(ts, 2), headers, None), bodyStart, lossy)
  {
  }

  /** A body of exactly the announced length (empty when none is announced) is read whole. */
  lemma BodyOfParts(input: Input, head: Request, bodyStart: nat, body: Str, lossy: Str -> Str)
    requires head.body == None
    requires bodyStart + |body| <= |input.data| && input.data[bodyStart..bodyStart + |body|] == body
    requires |body| == (var n := BodyLength(head.headers); if n.Some? then n.value else 0)
    ensures WithBody(input, head, bodyStart, lossy) ==
      Parsed(head.(body := if BodyLength(head.headers).Some? then Some(lossy(body)) else None), bodyStart + |body|)
  {
  }
}
