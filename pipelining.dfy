/**
 * Pipelining: well-formed requests sent back to back on one connection are
 * read back one after another and answered in order.
 */
module Pipelining {

  import opened Wrappers
  import opened Text
  import opened Wire
  import opened HttpRequest
  import opened Response
  import opened Router
  import opened Connection

  ghost predicate AnswersThrough(m: Machine, pos: nat, fs: FileSystem, k: nat, reqs: seq<Request>, wire: Str)
  {
    AnswersInOrder(m, pos, fs, k, reqs, pos + |wire|)
  }

  /**
   * `RunChain` for a reader over the bytes `data`, the chain starting at
   * `first` and spanning the bytes of `wire`.
   */
  lemma RunChainOver(read: Reader, respond: Responder, writeOk: nat -> bool, data: Str,
                     reqs: seq<Request>, ps: seq<nat>, fs: FileSystem, k: nat, first: nat, wire: Str)
    requires Advances(read, |data|) && Chain(read, reqs, ps) && ps[0] == first && ps[|reqs|] == first + |wire| && first <= |data|
    requires forall i :: 0 <= i < |reqs| ==> !ShouldClose(reqs[i].headers)
    requires forall i :: k <= i < k + |reqs| ==> writeOk(i)
    ensures AnswersThrough(Machine(read, respond, writeOk, |data|), first, fs, k, reqs, wire)
  {
    RunChain(Machine(read, respond, writeOk, |data|), reqs, ps, fs, k);
  }

  /** Messages sent back to back on one connection. */
  function SerializeAll(ms: seq<Message>): Str
  {
    if ms == [] then [] else Serialize(ms[0]) + SerializeAll(ms[1..])
  }

  function DenotedAll(ms: seq<Message>, lossy: Str -> Str): (reqs: seq<Request>)
    ensures |reqs| == |ms|
  {
    seq(|ms|, i requires 0 <= i < |ms| => Denoted(ms[i], lossy))
  }

  /** Where each of the messages sent back to back from `pos` on starts, and where the last one ends. */
  function Offsets(ms: seq<Message>, pos: nat): (ps: seq<nat>)
    ensures |ps| == |ms| + 1 && ps[0] == pos && ps[|ms|] == pos + |SerializeAll(ms)|
  {
    if ms == [] then [pos] else [pos] + Offsets(ms[1..], pos + |Serialize(ms[0])|)
  }

  /** Where the first message and the rest lie. */
  lemma FirstAndRest(m: Message, tail: Str, data: Str, pos: nat)
    requires pos + |Serialize(m) + tail| <= |data|
    requires data[pos..pos + |Serialize(m) + tail|] == Serialize(m) + tail
    ensures pos + |Serialize(m)| + |tail| <= |data|
    ensures data[pos..pos + |Serialize(m)|] == Serialize(m)
    ensures data[pos + |Serialize(m)|..pos + |Serialize(m)| + |tail|] == tail
  {
    SliceOfConcat(data, pos, Serialize(m), tail);
  }

  lemma ReadsFirst(m: Message, input: Input, pos: nat, next: nat, lossy: Str -> Str)
    requires WellFormedMessage(m)
    requires next == pos + |Serialize(m)| <= |input.data|
    requires input.data[pos..next] == Serialize(m)
    ensures ReaderOf(input, lossy)(pos) == Parsed(Denoted(m, lossy), next)
  {
    ParseSerialize(m, input, pos, lossy);
  }

  lemma OffsetsCons(ms: seq<Message>, pos: nat, next: nat, tailPs: seq<nat>, ps: seq<nat>)
    requires ms != [] && next == pos + |Serialize(ms[0])|
    requires tailPs == Offsets(ms[1..], next) && ps == Offsets(ms, pos)
    ensures ps == [pos] + tailPs
  {
    assert Offsets(ms, pos) == [pos] + Offsets(ms[1..], pos + |Serialize(ms[0])|);
  }

  lemma DenotedAllCons(ms: seq<Message>, lossy: Str -> Str, tailReqs: seq<Request>, reqs: seq<Request>)
    requires ms != []
    requires tailReqs == DenotedAll(ms[1..], lossy) && reqs == DenotedAll(ms, lossy)
    ensures reqs == [Denoted(ms[0], lossy)] + tailReqs
  {
    assert forall i :: 0 <= i < |ms| - 1 ==> reqs[i + 1] == tailReqs[i];
  }

  /** One more message in front of a chain. */
  lemma ChainStep(read: Reader, ms: seq<Message>, pos: nat, next: nat, lossy: Str -> Str,
                  tailReqs: seq<Request>, tailPs: seq<nat>, reqs: seq<Request>, ps: seq<nat>)
    requires ms != [] && next == pos + |Serialize(ms[0])|
    requires tailReqs == DenotedAll(ms[1..], lossy) && tailPs == Offsets(ms[1..], next)
    requires reqs == DenotedAll(ms, lossy) && ps == Offsets(ms, pos)
    requires Chain(read, tailReqs, tailPs)
    requires read(pos) == Parsed(Denoted(ms[0], lossy), next)
    ensures Chain(read, reqs, ps)
  {
    ChainCons(read, Denoted(ms[0], lossy), pos, tailReqs, tailPs);
    OffsetsCons(ms, pos, next, tailPs, ps);
    DenotedAllCons(ms, lossy, tailReqs, reqs);
  }

  /** Where the first of the messages sent from `pos` on lies, and where the others do. */
  lemma SplitFirst(ms: seq<Message>, data: Str, pos: nat, next: nat, wire: Str, tail: Str)
    requires ms != [] && forall i :: 0 <= i < |ms| ==> WellFormedMessage(ms[i])
    requires wire == SerializeAll(ms) && tail == SerializeAll(ms[1..]) && next == pos + |Serialize(ms[0])|
    requires pos + |wire| <= |data| && data[pos..pos + |wire|] == wire
    ensures WellFormedMessage(ms[0]) && next <= |data| && data[pos..next] == Serialize(ms[0])
    ensures forall i :: 0 <= i < |ms[1..]| ==> WellFormedMessage(ms[1..][i])
    ensures next + |tail| <= |data| && data[next..next + |tail|] == tail
  {
    assert wire == Serialize(ms[0]) + tail;
    FirstAndRest(ms[0], tail, data, pos);
    forall i | 0 <= i < |ms[1..]| ensures WellFormedMessage(ms[1..][i]) { assert ms[1..][i] == ms[i + 1]; }
  }

  /**
   * The parser reads well-formed messages sent back to back, `wire`, as the
   * requests they denote, one at each offset.
   */
  lemma {:induction false} SerializedChain(ms: seq<Message>, input: Input, pos: nat, lossy: Str -> Str,
                                           wire: Str, reqs: seq<Request>, ps: seq<nat>)
    requires forall i :: 0 <= i < |ms| ==> WellFormedMessage(ms[i])
    requires wire == SerializeAll(ms) && pos + |wire| <= |input.data| && input.data[pos..pos + |wire|] == wire
    requires reqs == DenotedAll(ms, lossy) && ps == Offsets(ms, pos)
    ensures Chain(ReaderOf(input, lossy), reqs, ps)
    decreases |ms|
  {
    if ms != [] {
      var next, tail := pos + |Serialize(ms[0])|, SerializeAll(ms[1..]);
      SplitFirst(ms, input.data, pos, next, wire, tail);
      var tailReqs, tailPs := DenotedAll(ms[1..], lossy), Offsets(ms[1..], next);
      SerializedChain(ms[1..], input, next, lossy, tail, tailReqs, tailPs);
      ReadsFirst(ms[0], input, pos, next, lossy);
      ChainStep(ReaderOf(input, lossy), ms, pos, next, lossy, tailReqs, tailPs, reqs, ps);
    }
  }

  /** A well-formed message without `Connection: close`. */
  predicate KeepsAlive(m: Message)
  {
    WellFormedMessage(m) && !ShouldClose(RecordFields(map[], m.fields))
  }

  /**
   * Well-formed keep-alive requests sent back to back are answered one by
   * one, in order, each on the file system the previous ones left, and the
   * session then goes on right after the last of them.  This holds for any
   * responder; `Serve` is the case `respond == Respond(host)`.
   */
  lemma Pipelined(ms: seq<Message>, reqs: seq<Request>, input: Input, pos: nat, fs: FileSystem, k: nat,
                  lossy: Str -> Str, respond: Responder, writeOk: nat -> bool)
    requires forall i :: 0 <= i < |ms| ==> KeepsAlive(ms[i])
    requires reqs == DenotedAll(ms, lossy)
    requires forall i :: k <= i < k + |reqs| ==> writeOk(i)
    requires pos + |SerializeAll(ms)| <= |input.data|
    requires input.data[pos..pos + |SerializeAll(ms)|] == SerializeAll(ms)
    ensures AnswersThrough(Machine(ReaderOf(input, lossy), respond, writeOk, |input.data|), pos, fs, k, reqs,
                           SerializeAll(ms))
  {
    SerializedChain(ms, input, pos, lossy, SerializeAll(ms), reqs, Offsets(ms, pos));
    forall i | 0 <= i < |reqs| ensures !ShouldClose(reqs[i].headers) {
      assert KeepsAlive(ms[i]);
    }
    RunChainOver(ReaderOf(input, lossy), respond, writeOk, input.data, reqs, Offsets(ms, pos), fs, k, pos, SerializeAll(ms));
  }
}
