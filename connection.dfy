/**
 * `handle_connection`: read a request, decide `should_close`, answer through
 * the route table, write the response, and go on until a request asks to
 * close, a request cannot be parsed, or a write fails.
 *
 * The loop is stated once over a `Machine` — what `from_stream` returns at
 * each position, how one request is answered, and whether the write of the
 * `k`-th response succeeds — and `Serve` instantiates it with the request
 * parser and the route table of this server.
 */
module Connection {

  import opened Wrappers
  import opened Text
  import opened Wire
  import opened HttpRequest
  import opened Response
  import opened Router

  /** What the loop cannot see: compression, lossy decoding, path joining and the stream's write results. */
  datatype Host = Host(gzip: Str -> Str, lossy: Str -> Str, join: Str -> Str, writeOk: nat -> bool)

  /** How a connection ends.  `Stalled` stands for the source's endless loop on a header block cut off by end of stream. */
  datatype Ending = ParseError | Stalled | WriteError | Closed

  /** The responses written in full, in order, the file system afterwards, and why the loop stopped. */
  datatype Session = Session(written: seq<Str>, fs: FileSystem, ending: Ending)

  /** `Connection` is `close`, ignoring ASCII case. */
  predicate ShouldClose(headers: map<Str, Str>)
  {
    CONNECTION in headers && EqIgnoreAsciiCase(headers[CONNECTION], CLOSE)
  }

  /** The response to one request, and the file system after it. */
  function Answer(req: Request, fs: FileSystem, host: Host): (Str, FileSystem)
  {
    var (reply, fs') := Dispatch(req, fs, host.join);
    (ResponseBytes(req.headers, reply.status, reply.body, reply.contentType, ShouldClose(req.headers), host.gzip), fs')
  }

  /** `written` followed by the rest of a session. */
  function Then(written: seq<Str>, rest: Session): Session
  {
    rest.(written := written + rest.written)
  }

  lemma ThenThen(a: seq<Str>, b: seq<Str>, s: Session)
    ensures Then(a, Then(b, s)) == Then(a + b, s)
  {
    assert a + (b + s.written) == (a + b) + s.written;
  }

  type Reader = nat -> ParseResult
  type Responder = (Request, FileSystem) -> (Str, FileSystem)

  /** A connection of `size` bytes as the loop sees it. */
  datatype Machine = Machine(read: Reader, respond: Responder, writeOk: nat -> bool, size: nat)

  /** Each request read at or before `size` ends after where it started and no later than `size`. */
  ghost predicate Advances(read: Reader, size: nat)
  {
    forall p: nat :: p <= size && read(p).Parsed? ==> p < read(p).next <= size
  }

  /** The session from byte `pos` on, `k` responses having been written before. */
  function Run(m: Machine, pos: nat, fs: FileSystem, k: nat): Session
    requires pos <= m.size && Advances(m.read, m.size)
    decreases m.size - pos
  {
    match m.read(pos)
    case ParseFailed => Session([], fs, ParseError)
    case ParseStalled => Session([], fs, Stalled)
    case Parsed(req, next) =>
      var (response, fs') := m.respond(req, fs);
      if !m.writeOk(k) then Session([], fs', WriteError)
      else if ShouldClose(req.headers) then Session([response], fs', Closed)
      else Then([response], Run(m, next, fs', k + 1))
  }

  /** `from_stream` at each position of the bytes `input` delivers. */
  function ReaderOf(input: Input, lossy: Str -> Str): (read: Reader)
    ensures Advances(read, |input.data|)
  {
    (p: nat) => if p <= |input.data| then Parse(input, p, lossy) else ParseFailed
  }

  function Respond(host: Host): Responder
  {
    (req: Request, fs: FileSystem) => Answer(req, fs, host)
  }

  /** This server on the bytes `input` delivers. */
  function MachineOf(input: Input, host: Host): (m: Machine)
    ensures Advances(m.read, m.size) && m.size == |input.data|
  {
    Machine(ReaderOf(input, host.lossy), Respond(host), host.writeOk, |input.data|)
  }

  /** The whole session on a connection. */
  function Serve(input: Input, fs: FileSystem, host: Host): Session
  {
    Run(MachineOf(input, host), 0, fs, 0)
  }

  /** The connection loop. */
  method HandleConnection(input: Input, fs0: FileSystem, host: Host)
    returns (written: seq<Str>, fs: FileSystem, ending: Ending)
    ensures Session(written, fs, ending) == Serve(input, fs0, host)
  {
    ghost var m := MachineOf(input, host);
    var pos := 0;
    fs := fs0;
    written := [];
    ending := Closed;
    var shouldClose := false;
    while !shouldClose
      invariant pos <= |input.data|
      invariant !shouldClose ==> Then(written, Run(m, pos, fs, |written|)) == Serve(input, fs0, host)
      invariant shouldClose ==> Session(written, fs, Closed) == Serve(input, fs0, host)
      decreases |input.data| - pos
    {
      ghost var before := Run(m, pos, fs, |written|);
      var request := FromStream(input, pos, host.lossy);
      assert m.read(pos) == request;
      if request.ParseFailed? {
        ending := ParseError;
        return;
      } else if request.ParseStalled? {
        ending := Stalled;
        return;
      }
      var req := request.request;
      shouldClose := ShouldClose(req.headers);
      var (reply, fs') := Dispatch(req, fs, host.join);
      var response := BuildResponse(req.headers, reply.status, reply.body, reply.contentType, shouldClose, host.gzip);
      assert m.respond(req, fs) == (response, fs');
      fs := fs';
      if !host.writeOk(|written|) {
        ending := WriteError;
        return;
      }
      if !shouldClose {
        assert before == Then([response], Run(m, request.next, fs, |written| + 1));
        ThenThen(written, [response], Run(m, request.next, fs, |written| + 1));
      }
      written := written + [response];
      pos := request.next;
    }
  }

  // ------------------------------------------------------------- should_close

  /** Only the value's ASCII-lowercase form matters. */
  lemma ShouldCloseIgnoresCase(h1: map<Str, Str>, h2: map<Str, Str>)
    requires CONNECTION in h1 && CONNECTION in h2 && EqIgnoreAsciiCase(h1[CONNECTION], h2[CONNECTION])
    ensures ShouldClose(h1) == ShouldClose(h2)
  {
    var a, b := h1[CONNECTION], h2[CONNECTION];
    if ShouldClose(h1) {
      assert forall i :: 0 <= i < |b| ==> ToAsciiLower(b[i]) == ToAsciiLower(a[i]) == ToAsciiLower(CLOSE[i]);
    }
    if ShouldClose(h2) {
      assert forall i :: 0 <= i < |a| ==> ToAsciiLower(a[i]) == ToAsciiLower(b[i]) == ToAsciiLower(CLOSE[i]);
    }
  }

  /** `Connection: Close` and `CLOSE` close; `keep-alive` and a missing header do not. */
  lemma ShouldCloseExamples()
    ensures ShouldClose(map[CONNECTION := Ascii("Close")])
    ensures ShouldClose(map[CONNECTION := Ascii("CLOSE")])
    ensures !ShouldClose(map[CONNECTION := Ascii("keep-alive")])
    ensures !ShouldClose(map[])
  {
    var close := Ascii("Close");
    assert forall i :: 0 <= i < 5 ==> ToAsciiLower(close[i]) == ToAsciiLower(CLOSE[i]);
    var upper := Ascii("CLOSE");
    assert forall i :: 0 <= i < 5 ==> ToAsciiLower(upper[i]) == ToAsciiLower(CLOSE[i]);
    assert |Ascii("keep-alive")| != |CLOSE|;
  }

  // ---------------------------------------------------------------- sessions

  lemma AnswerIsResponse(req: Request, fs: FileSystem, host: Host)
    ensures StartsWith(Answer(req, fs, host).0, STATUS_PREFIX)
  {
    var (reply, _) := Dispatch(req, fs, host.join);
    var response := Answer(req, fs, host).0;
    assert response[..|STATUS_PREFIX|] == STATUS_PREFIX;
  }

  /**
   * What any session promises about its responses: each starts with the
   * status line and each of their writes succeeded; a write error is the
   * write right after them; a closed session wrote at least one response.
   */
  predicate Sound(s: Session, k: nat, writeOk: nat -> bool)
  {
    (forall i :: 0 <= i < |s.written| ==> StartsWith(s.written[i], STATUS_PREFIX) && writeOk(k + i))
    && (s.ending == WriteError ==> !writeOk(k + |s.written|))
    && (s.ending == Closed ==> s.written != [])
  }

  lemma ThenSound(response: Str, rest: Session, k: nat, writeOk: nat -> bool)
    requires StartsWith(response, STATUS_PREFIX) && writeOk(k) && Sound(rest, k + 1, writeOk)
    ensures Sound(Then([response], rest), k, writeOk)
  {
    var s := Then([response], rest);
    forall i | 0 <= i < |s.written|
      ensures StartsWith(s.written[i], STATUS_PREFIX) && writeOk(k + i)
    {
      if i > 0 {
        assert s.written[i] == rest.written[i - 1];
        assert k + i == (k + 1) + (i - 1);
      }
    }
  }

  /** Every answer is a response with a status line. */
  ghost predicate RespondsWithStatus(m: Machine)
  {
    forall req, fs :: StartsWith(m.respond(req, fs).0, STATUS_PREFIX)
  }

  lemma {:induction false} RunSound(m: Machine, pos: nat, fs: FileSystem, k: nat)
    requires pos <= m.size && Advances(m.read, m.size) && RespondsWithStatus(m)
    ensures Sound(Run(m, pos, fs, k), k, m.writeOk)
    decreases m.size - pos
  {
    if m.read(pos).Parsed? {
      var req, next := m.read(pos).request, m.read(pos).next;
      var (response, fs') := m.respond(req, fs);
      if m.writeOk(k) && !ShouldClose(req.headers) {
        RunSound(m, next, fs', k + 1);
        ThenSound(response, Run(m, next, fs', k + 1), k, m.writeOk);
      }
    }
  }

  /** Every session on a connection is sound. */
  lemma ServeSound(input: Input, fs: FileSystem, host: Host)
    ensures Sound(Serve(input, fs, host), 0, host.writeOk)
  {
    var m := MachineOf(input, host);
    forall req, fs | true ensures StartsWith(m.respond(req, fs).0, STATUS_PREFIX) {
      AnswerIsResponse(req, fs, host);
    }
    RunSound(m, 0, fs, 0);
  }

  /**
   * Nothing after a request that asks to close is read: two connections
   * whose next request is the same such request end in the same session.
   * That request's answer is the one response written and the connection
   * closes; if its write fails, nothing is written and the loop stops.
   */
  lemma CloseIgnoresRest(m1: Machine, m2: Machine, pos: nat, fs: FileSystem, k: nat)
    requires pos <= m1.size && Advances(m1.read, m1.size) && pos <= m2.size && Advances(m2.read, m2.size)
    requires m1.respond == m2.respond && m1.writeOk == m2.writeOk
    requires m1.read(pos) == m2.read(pos) && m1.read(pos).Parsed? && ShouldClose(m1.read(pos).request.headers)
    ensures Run(m1, pos, fs, k) == Run(m2, pos, fs, k)
    ensures |Run(m1, pos, fs, k).written| <= 1
    ensures Run(m1, pos, fs, k).ending in {Closed, WriteError}
    ensures var answer := m1.respond(m1.read(pos).request, fs);
      m1.writeOk(k) ==> Run(m1, pos, fs, k) == Session([answer.0], answer.1, Closed)
    ensures var answer := m1.respond(m1.read(pos).request, fs);
      !m1.writeOk(k) ==> Run(m1, pos, fs, k) == Session([], answer.1, WriteError)
  {
  }

  /**
   * Once a client closes a keep-alive connection, the next `from_stream` sees a
   * clean end of stream: `read_line` returns an empty line at once, over and
   * over, and the source spins for ever in its header loop (`Stalled`).  On a
   * broken stream it stops with a parse error.
   */
  lemma EndOfInput(data: Str, fs: FileSystem, k: nat, host: Host)
    ensures Run(MachineOf(Input(data, Eof), host), |data|, fs, k) == Session([], fs, Stalled)
    ensures Run(MachineOf(Input(data, Broken), host), |data|, fs, k) == Session([], fs, ParseError)
  {
    ParseAtEnd(data, host.lossy);
    assert ReaderOf(Input(data, Eof), host.lossy)(|data|) == ParseStalled;
    assert ReaderOf(Input(data, Broken), host.lossy)(|data|) == ParseFailed;
  }

  // ------------------------------------------------- end of stream, corrected

  /**
   * `from_stream` as evidently intended: a read of zero bytes at a clean end
   * of stream is an error, as it already is on a broken stream.  It agrees
   * with `Parse` wherever `Parse` does not stall.
   */
  function FixedReaderOf(input: Input, lossy: Str -> Str): (read: Reader)
    ensures Advances(read, |input.data|)
    ensures forall p: nat :: read(p) != ParseStalled
    ensures forall p: nat :: ReaderOf(input, lossy)(p) != ParseStalled ==> read(p) == ReaderOf(input, lossy)(p)
  {
    var asWritten := ReaderOf(input, lossy);
    assert Advances(asWritten, |input.data|);
    (p: nat) => if asWritten(p).ParseStalled? then ParseFailed else asWritten(p)
  }

  /** This server with the corrected parser. */
  function FixedMachineOf(input: Input, host: Host): (m: Machine)
    ensures Advances(m.read, m.size) && m.size == |input.data|
    ensures forall p: nat :: m.read(p) != ParseStalled
  {
    Machine(FixedReaderOf(input, host.lossy), Respond(host), host.writeOk, |input.data|)
  }

  function ServeFixed(input: Input, fs: FileSystem, host: Host): Session
  {
    Run(FixedMachineOf(input, host), 0, fs, 0)
  }

  /** A reader that never stalls gives a session that never stalls. */
  lemma {:induction false} RunNeverStalls(m: Machine, pos: nat, fs: FileSystem, k: nat)
    requires pos <= m.size && Advances(m.read, m.size)
    requires forall p: nat :: m.read(p) != ParseStalled
    ensures Run(m, pos, fs, k).ending != Stalled
    decreases m.size - pos
  {
    match m.read(pos)
    case ParseFailed =>
    case ParseStalled =>
    case Parsed(req, next) =>
      var (response, fs') := m.respond(req, fs);
      if m.writeOk(k) && !ShouldClose(req.headers) {
        RunNeverStalls(m, next, fs', k + 1);
      }
  }

  /**
   * Two machines whose readers differ only where the first stalls give the same
   * session, as long as the first one's session does not stall.
   */
  lemma {:induction false} RunAgreesUnlessStalled(m1: Machine, m2: Machine, pos: nat, fs: FileSystem, k: nat)
    requires pos <= m1.size && Advances(m1.read, m1.size) && Advances(m2.read, m2.size)
    requires m1.respond == m2.respond && m1.writeOk == m2.writeOk && m1.size == m2.size
    requires forall p: nat :: m1.read(p) != ParseStalled ==> m2.read(p) == m1.read(p)
    requires Run(m1, pos, fs, k).ending != Stalled
    ensures Run(m2, pos, fs, k) == Run(m1, pos, fs, k)
    decreases m1.size - pos
  {
    match m1.read(pos)
    case ParseFailed =>
    case ParseStalled =>
    case Parsed(req, next) =>
      var (response, fs') := m1.respond(req, fs);
      if m1.writeOk(k) && !ShouldClose(req.headers) {
        RunAgreesUnlessStalled(m1, m2, next, fs', k + 1);
      }
  }

  /**
   * With the correction every connection ends: a client that closes its end
   * ends the loop with a parse error, nothing written, and every session of
   * the source that does end is unchanged.
   */
  lemma ServeFixedEnds(input: Input, fs: FileSystem, host: Host)
    ensures ServeFixed(input, fs, host).ending != Stalled
    ensures Serve(input, fs, host).ending != Stalled ==> ServeFixed(input, fs, host) == Serve(input, fs, host)
    ensures Run(FixedMachineOf(Input(input.data, Eof), host), |input.data|, fs, 0) == Session([], fs, ParseError)
  {
    var m := FixedMachineOf(input, host);
    RunNeverStalls(m, 0, fs, 0);
    if Serve(input, fs, host).ending != Stalled {
      RunAgreesUnlessStalled(MachineOf(input, host), m, 0, fs, 0);
    }
    EndOfInput(input.data, fs, 0, host);
    assert ReaderOf(Input(input.data, Eof), host.lossy)(|input.data|) == ParseStalled;
  }

  // --------------------------------------------------------------- pipelining

  /** The responses to a sequence of requests answered in order, with the file system threaded through. */
  function Exchange(respond: Responder, reqs: seq<Request>, fs: FileSystem): (seq<Str>, FileSystem)
  {
    if reqs == [] then ([], fs)
    else
      var (response, fs') := respond(reqs[0], fs);
      var (rest, fs'') := Exchange(respond, reqs[1..], fs');
      ([response] + rest, fs'')
  }

  /** `read` yields `reqs[i]` at `ps[i]` and resumes at `ps[i + 1]`. */
  predicate Chain(read: Reader, reqs: seq<Request>, ps: seq<nat>)
  {
    |ps| == |reqs| + 1 && forall i :: 0 <= i < |reqs| ==> read(ps[i]) == Parsed(reqs[i], ps[i + 1])
  }

  /**
   * From `pos` on, `m` answers `reqs` one by one, in order, each on the file
   * system the previous ones left, and the session then goes on at `next`
   * with the next response number.
   */
  ghost predicate AnswersInOrder(m: Machine, pos: nat, fs: FileSystem, k: nat, reqs: seq<Request>, next: nat)
  {
    Advances(m.read, m.size) && pos <= next <= m.size &&
    var e := Exchange(m.respond, reqs, fs);
    Run(m, pos, fs, k) == Then(e.0, Run(m, next, e.1, k + |reqs|))
  }

  /** Keep-alive requests read one after another are answered in order, as `AnswersInOrder` says. */
  lemma {:induction false} RunChain(m: Machine, reqs: seq<Request>, ps: seq<nat>, fs: FileSystem, k: nat)
    requires Advances(m.read, m.size) && Chain(m.read, reqs, ps) && ps[0] <= m.size
    requires forall i :: 0 <= i < |reqs| ==> !ShouldClose(reqs[i].headers)
    requires forall i :: k <= i < k + |reqs| ==> m.writeOk(i)
    ensures AnswersInOrder(m, ps[0], fs, k, reqs, ps[|reqs|])
    decreases |reqs|
  {
    if reqs == [] {
      assert Exchange(m.respond, reqs, fs) == ([], fs);
      assert Then([], Run(m, ps[0], fs, k)) == Run(m, ps[0], fs, k);
    } else {
      var (response, fs') := m.respond(reqs[0], fs);
      assert m.read(ps[0]) == Parsed(reqs[0], ps[1]);
      assert m.writeOk(k) && !ShouldClose(reqs[0].headers);
      assert Run(m, ps[0], fs, k) == Then([response], Run(m, ps[1], fs', k + 1));
      assert Chain(m.read, reqs[1..], ps[1..]) by {
        forall i | 0 <= i < |reqs[1..]| ensures m.read(ps[1..][i]) == Parsed(reqs[1..][i], ps[1..][i + 1]) {
          assert m.read(ps[i + 1]) == Parsed(reqs[i + 1], ps[i + 2]);
        }
      }
      assert forall i :: 0 <= i < |reqs[1..]| ==> !ShouldClose(reqs[1..][i].headers) by {
        forall i | 0 <= i < |reqs[1..]| ensures !ShouldClose(reqs[1..][i].headers) { assert reqs[1..][i] == reqs[i + 1]; }
      }
      RunChain(m, reqs[1..], ps[1..], fs', k + 1);
      var rest := Exchange(m.respond, reqs[1..], fs');
      assert ps[1..][|reqs[1..]|] == ps[|reqs|] && k + 1 + |reqs[1..]| == k + |reqs|;
      var last := Run(m, ps[|reqs|], rest.1, k + |reqs|);
      assert Run(m, ps[1], fs', k + 1) == Then(rest.0, last);
      assert Exchange(m.respond, reqs, fs) == ([response] + rest.0, rest.1);
      ThenThen([response], rest.0, last);
    }
  }

  lemma ChainCons(read: Reader, req: Request, p: nat, reqs: seq<Request>, ps: seq<nat>)
    requires Chain(read, reqs, ps) && read(p) == Parsed(req, ps[0])
    ensures Chain(read, [req] + reqs, [p] + ps)
  {
    var reqs', ps' := [req] + reqs, [p] + ps;
    forall i | 0 <= i < |reqs'| ensures read(ps'[i]) == Parsed(reqs'[i], ps'[i + 1]) {
      if i > 0 {
        assert ps'[i] == ps[i - 1] && ps'[i + 1] == ps[i] && reqs'[i] == reqs[i - 1];
      }
    }
  }
}
