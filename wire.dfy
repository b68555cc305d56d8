/**
 * The vocabulary shared by requests and responses on the wire: header fields,
 * the field line `name: value\r\n`, and the header names the server looks up.
 * Lookups are case-sensitive, so each name is the exact spelling the server uses.
 */
module Wire {

  import opened Text

  const CONTENT_LENGTH: Str := Ascii("Content-Length")
  const CONTENT_TYPE: Str := Ascii("Content-Type")
  const CONTENT_ENCODING: Str := Ascii("Content-Encoding")
  const CONNECTION: Str := Ascii("Connection")
  const ACCEPT_ENCODING: Str := Ascii("Accept-Encoding")
  const USER_AGENT: Str := Ascii("User-Agent")

  datatype Field = Field(name: Str, value: Str)

  /** `name: value\r\n`, the form in which the response builder writes every header. */
  function FieldLine(f: Field): Str
  {
    f.name + [COLON, SP] + f.value + CRLF
  }

  /** The field line of each field, in order. */
  function FieldLines(fields: seq<Field>): (lines: seq<Str>)
    ensures |lines| == |fields|
    ensures forall i :: 0 <= i < |fields| ==> lines[i] == FieldLine(fields[i])
  {
    seq(|fields|, i requires 0 <= i < |fields| => FieldLine(fields[i]))
  }

  /** The field block: every field line, in order. */
  function FieldBlock(fields: seq<Field>): Str
  {
    Concat(FieldLines(fields))
  }

  /** The block of two field sequences is the two blocks one after the other. */
  lemma FieldBlockJoin(a: seq<Field>, b: seq<Field>)
    ensures FieldBlock(a + b) == FieldBlock(a) + FieldBlock(b)
  {
    assert FieldLines(a + b) == FieldLines(a) + FieldLines(b);
    ConcatJoin(FieldLines(a), FieldLines(b));
  }

  lemma FieldBlockOne(f: Field)
    ensures FieldBlock([f]) == FieldLine(f)
  {
    assert FieldLines([f]) == [FieldLine(f)];
    assert [FieldLine(f)][1..] == [];
    assert Concat([FieldLine(f)]) == FieldLine(f) + Concat([]);
  }

  /** The parts of a field line: everything before the colon, and everything before the final LF. */
  lemma FieldLineShape(f: Field)
    ensures FieldLine(f) == f.name + [COLON] + ([SP] + (f.value + CRLF))
    ensures |FieldLine(f)| > 0 && FieldLine(f)[|FieldLine(f)| - 1] == LF
    ensures FieldLine(f)[..|FieldLine(f)| - 1] == f.name + [COLON, SP] + f.value + [CR]
  {
  }

  /** A field that survives the trip through a field line unchanged. */
  predicate WellFormedField(f: Field)
  {
    IsText(f.name) && IsText(f.value) && COLON !in f.name
    && NoEdgeSpace(f.name) && NoEdgeSpace(f.value)
  }

  /** The name-to-value map a sequence of fields denotes: a later field replaces an earlier one of the same name. */
  function RecordFields(headers: map<Str, Str>, fields: seq<Field>): map<Str, Str>
    decreases |fields|
  {
    if fields == [] then headers
    else RecordFields(headers[fields[0].name := fields[0].value], fields[1..])
  }

  function Names(fields: seq<Field>): set<Str>
  {
    set i | 0 <= i < |fields| :: fields[i].name
  }

  predicate DistinctNames(fields: seq<Field>)
  {
    forall i, j :: 0 <= i < j < |fields| ==> fields[i].name != fields[j].name
  }

  /** With distinct names, the map holds exactly the fields given, on top of what it held. */
  lemma {:induction false} RecordDistinct(headers: map<Str, Str>, fields: seq<Field>)
    requires DistinctNames(fields)
    ensures RecordFields(headers, fields).Keys == headers.Keys + Names(fields)
    ensures forall i :: 0 <= i < |fields| ==> RecordFields(headers, fields)[fields[i].name] == fields[i].value
    ensures forall k :: k in headers && k !in Names(fields) ==> RecordFields(headers, fields)[k] == headers[k]
    decreases |fields|
  {
    if fields != [] {
      var rest := fields[1..];
      var h := headers[fields[0].name := fields[0].value];
      RecordDistinct(h, rest);
      assert Names(fields) == {fields[0].name} + Names(rest) by {
        forall k | k in Names(fields) ensures k in {fields[0].name} + Names(rest) {
          var i :| 0 <= i < |fields| && fields[i].name == k;
          if i > 0 { assert rest[i - 1].name == k; }
        }
        forall k | k in Names(rest) ensures k in Names(fields) {
          var i :| 0 <= i < |rest| && rest[i].name == k;
          assert fields[i + 1].name == k;
        }
      }
      forall i | 0 <= i < |fields|
        ensures RecordFields(headers, fields)[fields[i].name] == fields[i].value
      {
        if i > 0 {
          assert rest[i - 1] == fields[i];
        }
      }
    }
  }
}
