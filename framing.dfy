/**
 * Responses read back with the request parser's own framing rules: a reader
 * that takes the first line, the header lines up to the blank line, and then
 * as many bytes as `Content-Length` announces, finds the header map the
 * builder wrote and exactly the transmitted body, and stops at the end of
 * the response.
 */
module Framing {

  import opened Wrappers
  import opened Text
  import opened Numeric
  import opened Wire
  import opened HttpRequest
  import opened Response

  lemma StatusLineIsLine(status: Str)
    requires IsText(status)
    ensures IsLine(StatusLine(status))
  {
    var line := StatusLine(status);
    assert IsText(STATUS_PREFIX);
    TextIsAscii(STATUS_PREFIX);
    TextIsAscii(status);
    assert IsAscii(line);
    AsciiIsUtf8(line);
    assert line[..|line| - 1] == STATUS_PREFIX + status + [CR];
  }

  lemma DecimalHasNoEdgeSpace(n: nat)
    ensures NoEdgeSpace(Decimal(n))
  {
    var d := Decimal(n);
    assert IsDigit(d[0]) && IsDigit(d[|d| - 1]);
  }

  predicate AllWellFormed(fs: seq<Field>)
  {
    forall i :: 0 <= i < |fs| ==> WellFormedField(fs[i])
  }

  lemma AllWellFormedJoin(a: seq<Field>, b: seq<Field>)
    requires AllWellFormed(a) && AllWellFormed(b)
    ensures AllWellFormed(a + b)
  {
    forall i | 0 <= i < |a + b| ensures WellFormedField((a + b)[i]) {
      if i < |a| { assert (a + b)[i] == a[i]; } else { assert (a + b)[i] == b[i - |a|]; }
    }
  }

  lemma ConstantFieldsWellFormed()
    ensures WellFormedField(Field(CONNECTION, CLOSE))
    ensures WellFormedField(Field(CONTENT_ENCODING, GZIP))
  {
  }

  lemma LengthFieldWellFormed(n: nat)
    ensures WellFormedField(Field(CONTENT_LENGTH, Decimal(n)))
  {
    DecimalHasNoEdgeSpace(n);
  }

  /** Every field the builder writes survives the parser's split and trim, given a printable content type. */
  lemma ResponseFieldsWellFormed(shouldClose: bool, encoded: bool, contentType: Option<Str>, sent: Str)
    requires contentType.Some? ==> IsText(contentType.value) && NoEdgeSpace(contentType.value)
    ensures AllWellFormed(ResponseFields(shouldClose, encoded, contentType, sent))
  {
    ConstantFieldsWellFormed();
    LengthFieldWellFormed(|sent|);
    var c, e, t, l := ConnectionPart(shouldClose), EncodingPart(encoded), TypePart(contentType), LengthPart(sent);
    assert AllWellFormed(c) && AllWellFormed(e) && AllWellFormed(t) && AllWellFormed(l);
    AllWellFormedJoin(c, e);
    AllWellFormedJoin(c + e, t);
    AllWellFormedJoin(c + e + t, l);
  }

  /** A reader that frames the body by `Content-Length` takes exactly the transmitted bytes. */
  lemma ResponseBodyLength(shouldClose: bool, encoded: bool, contentType: Option<Str>, sent: Str)
    requires |sent| <= USIZE_MAX
    ensures BodyLength(RecordFields(map[], ResponseFields(shouldClose, encoded, contentType, sent)))
      == if |sent| > 0 then Some(|sent|) else None
  {
    ResponseHeaderMap(shouldClose, encoded, contentType, sent);
    ParseDecimal(|sent|);
  }

  /** Where the status line, the header block and the body of a response lie. */
  lemma ResponseSlices(r: Str, sl: Str, hp: Str, sent: Str)
    requires r == sl + hp + sent
    ensures r[0..|sl|] == sl && r[|sl|..|sl| + |hp|] == hp && r[|sl| + |hp|..|sl| + |hp| + |sent|] == sent
  {
    SliceOfConcat(r, 0, sl + hp, sent);
    SliceOfConcat(r, 0, sl, hp);
  }

  /**
   * Round trip through the parser: the first line is the status line, the
   * headers are the fields the builder wrote, the body is present iff bytes
   * were transmitted and is then exactly those bytes, and the reader stops at
   * the end of the response.
   */
  lemma ResponseReadsBack(headers: map<Str, Str>, status: Str, body: Option<Str>, contentType: Option<Str>,
                          shouldClose: bool, gzip: Str -> Str, end: End, lossy: Str -> Str)
    requires IsText(status)
    requires contentType.Some? ==> IsText(contentType.value) && NoEdgeSpace(contentType.value)
    requires |Transmitted(body, SupportsGzip(headers), gzip)| <= USIZE_MAX
    ensures var r := ResponseBytes(headers, status, body, contentType, shouldClose, gzip);
      var sent := Transmitted(body, SupportsGzip(headers), gzip);
      var ts := Tokens(StatusLine(status));
      Parse(Input(r, end), 0, lossy)
        == Parsed(Request(TokenOr(ts, 0), TokenOr(ts, 1), TokenOr(ts, 2),
                          RecordFields(map[], FieldsFor(headers, body, contentType, shouldClose, gzip)),
                          if |sent| > 0 then Some(lossy(sent)) else None),
                  |r|)
  {
    var r := ResponseBytes(headers, status, body, contentType, shouldClose, gzip);
    var sent := Transmitted(body, SupportsGzip(headers), gzip);
    var fs := FieldsFor(headers, body, contentType, shouldClose, gzip);
    var sl := StatusLine(status);
    ResponseLayout(headers, status, body, contentType, shouldClose, gzip);
    AppendAssoc(sl, FieldBlock(fs), CRLF);
    StatusLineIsLine(status);
    ResponseFieldsWellFormed(shouldClose, Encoded(headers, body), contentType, sent);
    ResponseBodyLength(shouldClose, Encoded(headers, body), contentType, sent);
    var hp := FieldBlock(fs) + CRLF;
    ResponseSlices(r, sl, hp, sent);
    ResponseFramed(Input(r, end), sl, hp, fs, sent, lossy);
  }

  /** The same over a response given by its three parts. */
  lemma ResponseFramed(input: Input, sl: Str, hp: Str, fs: seq<Field>, sent: Str, lossy: Str -> Str)
    requires IsLine(sl)
    requires AllWellFormed(fs)
    requires BodyLength(RecordFields(map[], fs)) == if |sent| > 0 then Some(|sent|) else None
    requires hp == FieldBlock(fs) + CRLF
    requires |input.data| == |sl| + |hp| + |sent|
    requires input.data[0..|sl|] == sl
    requires input.data[|sl|..|sl| + |hp|] == hp
    requires input.data[|sl| + |hp|..|sl| + |hp| + |sent|] == sent
    ensures var ts := Tokens(sl);
      Parse(input, 0, lossy)
        == Parsed(Request(TokenOr(ts, 0), TokenOr(ts, 1), TokenOr(ts, 2), RecordFields(map[], fs),
                          if |sent| > 0 then Some(lossy(sent)) else None),
                  |input.data|)
  {
    var hStart := |sl|;
    var bodyStart := hStart + |hp|;
    var ts := Tokens(sl);
    var headers := RecordFields(map[], fs);
    var head := Request(TokenOr(ts, 0), TokenOr(ts, 1), TokenOr(ts, 2), headers, None);
    ReadLineAt(input, 0, sl);
    HeaderBlockReads(input, hStart, fs, hp, bodyStart, headers);
    ParseOfParts(input, 0, lossy, sl, hStart, headers, bodyStart);
    BodyOfParts(input, head, bodyStart, sent, lossy);
  }
}
