/**
 * The response builder: `supports_gzip` decides whether the client accepts a
 * gzip body, and `build_response` appends the status line, the optional
 * header lines in a fixed order, a blank line and the body to a byte vector.
 * The gzip encoder is a parameter: nothing is assumed about its output.
 */
module Response {

  import opened Wrappers
  import opened Text
  import opened Numeric
  import opened Wire

  const GZIP: Str := Ascii("gzip")
  const CLOSE: Str := Ascii("close")
  const STATUS_PREFIX: Str := Ascii("HTTP/1.1 ")

  /** `supports_gzip`: `Accept-Encoding` is present and its value contains `gzip`. */
  predicate SupportsGzip(headers: map<Str, Str>)
  {
    ACCEPT_ENCODING in headers && Contains(headers[ACCEPT_ENCODING], GZIP)
  }

  /** The body bytes sent: the given body, compressed when `useGzip`; nothing without a body. */
  function Transmitted(body: Option<Str>, useGzip: bool, gzip: Str -> Str): Str
  {
    match body
    case None => []
    case Some(b) => if useGzip then gzip(b) else b
  }

  function StatusLine(status: Str): Str
  {
    STATUS_PREFIX + status + CRLF
  }

  // The four optional header fields, each present or absent.

  function ConnectionPart(shouldClose: bool): seq<Field>
  {
    if shouldClose then [Field(CONNECTION, CLOSE)] else []
  }

  function EncodingPart(encoded: bool): seq<Field>
  {
    if encoded then [Field(CONTENT_ENCODING, GZIP)] else []
  }

  function TypePart(contentType: Option<Str>): seq<Field>
  {
    if contentType.Some? then [Field(CONTENT_TYPE, contentType.value)] else []
  }

  function LengthPart(sent: Str): seq<Field>
  {
    if |sent| > 0 then [Field(CONTENT_LENGTH, Decimal(|sent|))] else []
  }

  /** The header fields after the status line, in the order the builder appends them. */
  function ResponseFields(shouldClose: bool, encoded: bool, contentType: Option<Str>, sent: Str): seq<Field>
  {
    ConnectionPart(shouldClose) + EncodingPart(encoded) + TypePart(contentType) + LengthPart(sent)
  }

  /** Whether `build_response` marks the body as gzip-encoded. */
  predicate Encoded(headers: map<Str, Str>, body: Option<Str>)
  {
    body.Some? && SupportsGzip(headers)
  }

  /** The header fields of the response `build_response` writes for these arguments. */
  function FieldsFor(headers: map<Str, Str>, body: Option<Str>, contentType: Option<Str>, shouldClose: bool, gzip: Str -> Str): seq<Field>
  {
    ResponseFields(shouldClose, Encoded(headers, body), contentType, Transmitted(body, SupportsGzip(headers), gzip))
  }

  /** The bytes `build_response` returns, in the order it appends them. */
  function ResponseBytes(headers: map<Str, Str>, status: Str, body: Option<Str>, contentType: Option<Str>,
                         shouldClose: bool, gzip: Str -> Str): Str
  {
    var sent := Transmitted(body, SupportsGzip(headers), gzip);
    StatusLine(status)
    + FieldBlock(ConnectionPart(shouldClose))
    + FieldBlock(EncodingPart(Encoded(headers, body)))
    + FieldBlock(TypePart(contentType))
    + FieldBlock(LengthPart(sent))
    + CRLF
    + sent
  }

  /** `build_response`: extends an empty vector piece by piece. */
  method BuildResponse(headers: map<Str, Str>, status: Str, body: Option<Str>, contentType: Option<Str>,
                       shouldClose: bool, gzip: Str -> Str) returns (response: Str)
    ensures response == ResponseBytes(headers, status, body, contentType, shouldClose, gzip)
  {
    response := [];
    var useGzip := SupportsGzip(headers);
    response := response + StatusLine(status);

    if shouldClose {
      FieldBlockOne(Field(CONNECTION, CLOSE));
      response := response + FieldLine(Field(CONNECTION, CLOSE));
    }
    ghost var sofar := StatusLine(status) + FieldBlock(ConnectionPart(shouldClose));
    assert response == sofar;

    var compressed: Str;
    var contentEncoding: Option<Str>;
    if body.Some? {
      if useGzip {
        compressed, contentEncoding := gzip(body.value), Some(GZIP);
      } else {
        compressed, contentEncoding := body.value, None;
      }
    } else {
      compressed, contentEncoding := [], None;
    }
    assert compressed == Transmitted(body, useGzip, gzip);
    assert contentEncoding.Some? == Encoded(headers, body);

    if contentEncoding.Some? {
      FieldBlockOne(Field(CONTENT_ENCODING, GZIP));
      response := response + FieldLine(Field(CONTENT_ENCODING, GZIP));
    }
    sofar := sofar + FieldBlock(EncodingPart(Encoded(headers, body)));
    assert response == sofar;

    if contentType.Some? {
      FieldBlockOne(Field(CONTENT_TYPE, contentType.value));
      response := response + FieldLine(Field(CONTENT_TYPE, contentType.value));
    }
    sofar := sofar + FieldBlock(TypePart(contentType));
    assert response == sofar;

    if |compressed| > 0 {
      FieldBlockOne(Field(CONTENT_LENGTH, Decimal(|compressed|)));
      response := response + FieldLine(Field(CONTENT_LENGTH, Decimal(|compressed|)));
    }
    sofar := sofar + FieldBlock(LengthPart(compressed));
    assert response == sofar;

    response := response + CRLF;
    if |compressed| > 0 {
      response := response + compressed;
    }
  }

  // ------------------------------------------------------------------ lemmas

  /** `supports_gzip` holds iff `Accept-Encoding` is present and `gzip` occurs somewhere in its value. */
  lemma SupportsGzipIff(headers: map<Str, Str>)
    ensures SupportsGzip(headers) <==>
      ACCEPT_ENCODING in headers && exists i :: OccursAt(headers[ACCEPT_ENCODING], GZIP, i)
  {
    if ACCEPT_ENCODING in headers {
      ContainsAt(headers[ACCEPT_ENCODING], GZIP);
    }
  }

  /** The match is case-sensitive: `Accept-Encoding: GZIP` does not enable compression. */
  lemma GzipIsCaseSensitive(headers: map<Str, Str>)
    requires ACCEPT_ENCODING in headers && headers[ACCEPT_ENCODING] == Ascii("GZIP")
    ensures !SupportsGzip(headers)
  {
    var v := headers[ACCEPT_ENCODING];
    ContainsAt(v, GZIP);
    forall i ensures !OccursAt(v, GZIP, i) {
      if 0 <= i && i + |GZIP| <= |v| {
        assert i == 0 && v[i..i + |GZIP|][0] != GZIP[0];
      }
    }
  }

  /**
   * The bytes sent after the blank line: without a body nothing; with a body
   * and without gzip support the body byte for byte; otherwise its compression.
   */
  lemma TransmittedBody(headers: map<Str, Str>, body: Option<Str>, gzip: Str -> Str)
    ensures body.None? ==> Transmitted(body, SupportsGzip(headers), gzip) == []
    ensures body.Some? && !SupportsGzip(headers) ==> Transmitted(body, SupportsGzip(headers), gzip) == body.value
    ensures Encoded(headers, body) ==> Transmitted(body, SupportsGzip(headers), gzip) == gzip(body.value)
  {
  }

  /**
   * The response is the status line, the header fields as one block, a blank
   * line, and then exactly the transmitted bytes.
   */
  lemma ResponseLayout(headers: map<Str, Str>, status: Str, body: Option<Str>, contentType: Option<Str>,
                       shouldClose: bool, gzip: Str -> Str)
    ensures ResponseBytes(headers, status, body, contentType, shouldClose, gzip)
      == StatusLine(status)
         + FieldBlock(FieldsFor(headers, body, contentType, shouldClose, gzip))
         + CRLF + Transmitted(body, SupportsGzip(headers), gzip)
  {
    var sent := Transmitted(body, SupportsGzip(headers), gzip);
    var a, b, c, d := ConnectionPart(shouldClose), EncodingPart(Encoded(headers, body)), TypePart(contentType), LengthPart(sent);
    FieldBlockJoin(a, b);
    FieldBlockJoin(a + b, c);
    FieldBlockJoin(a + b + c, d);
    var sl := StatusLine(status);
    AppendAssoc(sl, FieldBlock(a), FieldBlock(b));
    AppendAssoc(sl, FieldBlock(a) + FieldBlock(b), FieldBlock(c));
    AppendAssoc(sl, FieldBlock(a) + FieldBlock(b) + FieldBlock(c), FieldBlock(d));
  }

  /** Position of a header name in the order the builder writes headers; 4 for any other name. */
  function Rank(name: Str): nat
  {
    if name == CONNECTION then 0
    else if name == CONTENT_ENCODING then 1
    else if name == CONTENT_TYPE then 2
    else if name == CONTENT_LENGTH then 3
    else 4
  }

  /** Each header name appears after every header the builder writes before it. */
  predicate InOrder(fields: seq<Field>)
  {
    forall i, j :: 0 <= i < j < |fields| ==> Rank(fields[i].name) < Rank(fields[j].name)
  }

  predicate RanksBelow(fields: seq<Field>, r: nat)
  {
    forall i :: 0 <= i < |fields| ==> Rank(fields[i].name) < r
  }

  lemma NamesDiffer()
    ensures CONNECTION != CONTENT_ENCODING && CONNECTION != CONTENT_TYPE && CONNECTION != CONTENT_LENGTH
    ensures CONTENT_ENCODING != CONTENT_TYPE && CONTENT_ENCODING != CONTENT_LENGTH
    ensures CONTENT_TYPE != CONTENT_LENGTH
  {
    assert |CONNECTION| == 10 && |CONTENT_ENCODING| == 16 && |CONTENT_TYPE| == 12 && |CONTENT_LENGTH| == 14;
  }

  lemma Ranks()
    ensures Rank(CONNECTION) == 0 && Rank(CONTENT_ENCODING) == 1 && Rank(CONTENT_TYPE) == 2 && Rank(CONTENT_LENGTH) == 3
  {
    NamesDiffer();
  }

  lemma AppendInOrder(fields: seq<Field>, part: seq<Field>, r: nat)
    requires InOrder(fields) && RanksBelow(fields, r)
    requires part == [] || (|part| == 1 && Rank(part[0].name) == r)
    ensures InOrder(fields + part) && RanksBelow(fields + part, r + 1)
  {
  }

  /** The headers always follow the order Connection, Content-Encoding, Content-Type, Content-Length. */
  lemma ResponseFieldsInOrder(shouldClose: bool, encoded: bool, contentType: Option<Str>, sent: Str)
    ensures InOrder(ResponseFields(shouldClose, encoded, contentType, sent))
  {
    Ranks();
    var a, b, c, d := ConnectionPart(shouldClose), EncodingPart(encoded), TypePart(contentType), LengthPart(sent);
    assert [] + a == a;
    AppendInOrder([], a, 0);
    AppendInOrder(a, b, 1);
    AppendInOrder(a + b, c, 2);
    AppendInOrder(a + b + c, d, 3);
  }

  /** Recording a part of at most one field either adds that field or leaves the map as it is. */
  lemma {:induction false} RecordAppend(h: map<Str, Str>, fields: seq<Field>, f: Field)
    ensures RecordFields(h, fields + [f]) == RecordFields(h, fields)[f.name := f.value]
    decreases |fields|
  {
    if fields != [] {
      assert (fields + [f])[1..] == fields[1..] + [f];
      RecordAppend(h[fields[0].name := fields[0].value], fields[1..], f);
    }
  }

  /** A part of at most one field added to a header map. */
  function Put(m: map<Str, Str>, part: seq<Field>): map<Str, Str>
  {
    if part == [] then m else m[part[0].name := part[0].value]
  }

  lemma RecordPart(h: map<Str, Str>, fields: seq<Field>, part: seq<Field>)
    requires |part| <= 1
    ensures RecordFields(h, fields + part) == Put(RecordFields(h, fields), part)
  {
    if part == [] {
      assert fields + part == fields;
    } else {
      assert part == [part[0]];
      RecordAppend(h, fields, part[0]);
    }
  }

  lemma RecordResponseFields(shouldClose: bool, encoded: bool, contentType: Option<Str>, sent: Str)
    ensures RecordFields(map[], ResponseFields(shouldClose, encoded, contentType, sent)) ==
      Put(Put(Put(Put(map[], ConnectionPart(shouldClose)), EncodingPart(encoded)), TypePart(contentType)), LengthPart(sent))
  {
    var a, b, c, d := ConnectionPart(shouldClose), EncodingPart(encoded), TypePart(contentType), LengthPart(sent);
    RecordPart(map[], [], a);
    assert [] + a == a;
    RecordPart(map[], a, b);
    RecordPart(map[], a + b, c);
    RecordPart(map[], a + b + c, d);
  }

  /**
   * The header map a client reads from the response: `Connection: close` iff
   * `shouldClose`, `Content-Encoding: gzip` iff the body is encoded,
   * `Content-Type` iff one is given, `Content-Length` iff bytes are sent and
   * then equal to their number, and no other header.
   */
  lemma ResponseHeaderMap(shouldClose: bool, encoded: bool, contentType: Option<Str>, sent: Str)
    ensures var m := RecordFields(map[], ResponseFields(shouldClose, encoded, contentType, sent));
      && (CONNECTION in m <==> shouldClose) && (shouldClose ==> m[CONNECTION] == CLOSE)
      && (CONTENT_ENCODING in m <==> encoded) && (encoded ==> m[CONTENT_ENCODING] == GZIP)
      && (CONTENT_TYPE in m <==> contentType.Some?) && (contentType.Some? ==> m[CONTENT_TYPE] == contentType.value)
      && (CONTENT_LENGTH in m <==> |sent| > 0) && (|sent| > 0 ==> m[CONTENT_LENGTH] == Decimal(|sent|))
      && m.Keys <= {CONNECTION, CONTENT_ENCODING, CONTENT_TYPE, CONTENT_LENGTH}
  {
    RecordResponseFields(shouldClose, encoded, contentType, sent);
    PutChain(ConnectionPart(shouldClose), EncodingPart(encoded), TypePart(contentType), LengthPart(sent),
             CLOSE, GZIP, contentType, Decimal(|sent|));
  }

  /** Four optional header fields put into an empty map, one after the other. */
  lemma PutChain(a: seq<Field>, b: seq<Field>, c: seq<Field>, d: seq<Field>, va: Str, vb: Str, ct: Option<Str>, vd: Str)
    requires a == [] || a == [Field(CONNECTION, va)]
    requires b == [] || b == [Field(CONTENT_ENCODING, vb)]
    requires c == (if ct.Some? then [Field(CONTENT_TYPE, ct.value)] else [])
    requires d == [] || d == [Field(CONTENT_LENGTH, vd)]
    ensures var m := Put(Put(Put(Put(map[], a), b), c), d);
      && (CONNECTION in m <==> a != []) && (a != [] ==> m[CONNECTION] == va)
      && (CONTENT_ENCODING in m <==> b != []) && (b != [] ==> m[CONTENT_ENCODING] == vb)
      && (CONTENT_TYPE in m <==> ct.Some?) && (ct.Some? ==> m[CONTENT_TYPE] == ct.value)
      && (CONTENT_LENGTH in m <==> d != []) && (d != [] ==> m[CONTENT_LENGTH] == vd)
      && m.Keys <= {CONNECTION, CONTENT_ENCODING, CONTENT_TYPE, CONTENT_LENGTH}
  {
    NamesDiffer();
  }
}
