/** The server automaton of example/zundoko/server.cc. */
module Zundoko {
  import opened Bytes

  const ZUN: uint16 := 0
  const DOKO: uint16 := 1
  const KIYOSHI: uint16 := 2

  const BUFFER_LENGTH := 10000

  datatype State = NoZun | Z | ZZ | ZZZ | ZZZZ

  function Next(s: State, t: uint16): State {
    match s
    case NoZun => if t == ZUN then Z else NoZun
    case Z => if t == ZUN then ZZ else NoZun
    case ZZ => if t == ZUN then ZZZ else NoZun
    case ZZZ => if t == ZUN then ZZZZ else NoZun
    case ZZZZ => NoZun
  }

  /** The server overwrites the message type with KIYOSHI. */
  predicate Answers(s: State, t: uint16) {
    s == ZZZZ && t == DOKO
  }

  /** The type of a datagram in a zeroed buffer: a missing byte counts as zero. */
  function MessageType(d: seq<byte>): uint16 {
    Be16At(d + [0, 0], 0)
  }

  /** The datagram sent back: only its type can differ from what came in. */
  function Reply(s: State, d: seq<byte>): (reply: seq<byte>)
    ensures |reply| == if |d| <= 10000 then |d| else 10000
    ensures forall i :: 2 <= i < |reply| ==> reply[i] == d[i]
    ensures !Answers(s, MessageType(d)) ==> reply == d[..|reply|]
  {
    var r := if |d| <= BUFFER_LENGTH then d else d[..BUFFER_LENGTH];
    if Answers(s, MessageType(d)) then Splice(r, 0, Be16(KIYOSHI)[..(if |r| < 2 then |r| else 2)]) else r
  }

  class Server {
    var state: State

    constructor ()
      ensures state == NoZun
    {
      state := NoZun;
    }

    /** `client_hanle` on one datagram. */
    method Handle(d: seq<byte>) returns (reply: seq<byte>)
      modifies this
      ensures state == Next(old(state), MessageType(d))
      ensures reply == Reply(old(state), d)
    {
      hide Splice, Be16At;
      var buffer := new byte[BUFFER_LENGTH](_ => 0);
      var received := if |d| <= BUFFER_LENGTH then |d| else BUFFER_LENGTH;
      MemCopy(buffer, 0, d[..received]);
      assert buffer[..received] == if |d| <= BUFFER_LENGTH then d else d[..BUFFER_LENGTH];
      TypeInBuffer(d, buffer[..]);
      var t := Ntoh16(buffer[..], 0);
      match state {
        case NoZun => state := if t == ZUN then Z else NoZun;
        case Z => state := if t == ZUN then ZZ else NoZun;
        case ZZ => state := if t == ZUN then ZZZ else NoZun;
        case ZZZ => state := if t == ZUN then ZZZZ else NoZun;
        case ZZZZ =>
          if t == DOKO {
            ghost var before := buffer[..];
            MemCopy(buffer, 0, Hton16(KIYOSHI));
            Overwritten(before, buffer[..], received);
          }
          state := NoZun;
      }
      reply := buffer[..received];
    }
  }

  /** What the store of the new type does to the bytes that are sent back. */
  lemma Overwritten(before: seq<byte>, after: seq<byte>, n: nat)
    requires n <= |before| == |after| && |before| >= 2
    requires forall i :: 0 <= i < |after| ==> after[i] == if i < 2 then Be16(KIYOSHI)[i] else before[i]
    ensures after[..n] == Splice(before[..n], 0, Be16(KIYOSHI)[..(if n < 2 then n else 2)])
  {
  }

  lemma TypeInBuffer(d: seq<byte>, b: seq<byte>)
    requires |b| == BUFFER_LENGTH
    requires forall i :: 0 <= i < |b| ==> b[i] == if i < |d| then d[i] else 0
    ensures Be16At(b, 0) == MessageType(d)
  {
  }

  // ----- runs

  /** The state after a sequence of message types, from the start. */
  function Run(ts: seq<uint16>): State {
    if |ts| == 0 then NoZun else Next(Run(ts[..|ts| - 1]), ts[|ts| - 1])
  }

  function Index(s: State): nat {
    match s
    case NoZun => 0
    case Z => 1
    case ZZ => 2
    case ZZZ => 3
    case ZZZZ => 4
  }

  /** The length of the run of ZUN that ends the sequence. */
  function TrailingZuns(ts: seq<uint16>): nat {
    if |ts| == 0 || ts[|ts| - 1] != ZUN then 0 else 1 + TrailingZuns(ts[..|ts| - 1])
  }

  lemma OneMoreCounted(s: State, t: uint16, n: nat)
    requires Index(s) == n % 5
    ensures Index(Next(s, t)) == if t == ZUN then (1 + n) % 5 else 0
  {
    assert (1 + n) % 5 == if n % 5 == 4 then 0 else n % 5 + 1;
  }

  /** The automaton counts the trailing run of ZUN modulo five. */
  lemma {:induction false} StateCountsZuns(ts: seq<uint16>)
    ensures Index(Run(ts)) == TrailingZuns(ts) % 5
  {
    if |ts| > 0 {
      var init, t := ts[..|ts| - 1], ts[|ts| - 1];
      StateCountsZuns(init);
      hide Next;
      OneMoreCounted(Run(init), t, TrailingZuns(init));
    }
  }

  /**
   * When a reply carries KIYOSHI: the message is DOKO after a run of ZUN of length 4
   * modulo 5, or the message was KIYOSHI already and is echoed.
   */
  lemma KiyoshiIff(ts: seq<uint16>, d: seq<byte>)
    ensures MessageType(Reply(Run(ts), d)) == 2
            <==> MessageType(d) == 2 || (MessageType(d) == 1 && TrailingZuns(ts) % 5 == 4)
  {
    StateCountsZuns(ts);
    var s, r := Run(ts), Reply(Run(ts), d);
    assert s == ZZZZ <==> TrailingZuns(ts) % 5 == 4;
    if Answers(s, MessageType(d)) {
      assert |d| >= 2;
      assert r[0] == 0 && r[1] == 2;
    } else {
      assert MessageType(r) == MessageType(d);
    }
  }

  /** A KIYOSHI reply need not answer a DOKO: the first message of a run can be echoed as one. */
  lemma EchoedKiyoshi()
    ensures MessageType(Reply(Run([]), [0, 2])) == KIYOSHI && TrailingZuns([]) % 5 != 4
  {
  }

  /** How many messages the server answered, over a run. */
  function Answered(ts: seq<uint16>): nat {
    if |ts| == 0 then 0
    else Answered(ts[..|ts| - 1]) + if Answers(Run(ts[..|ts| - 1]), ts[|ts| - 1]) then 1 else 0
  }

  /** An answer costs four ZUNs and a DOKO: at most a fifth of the messages are answered. */
  lemma {:induction false} AnsweredAtMostAFifth(ts: seq<uint16>)
    ensures 5 * Answered(ts) + Index(Run(ts)) <= |ts|
  {
    if |ts| > 0 {
      AnsweredAtMostAFifth(ts[..|ts| - 1]);
    }
  }

  function Types(ds: seq<seq<byte>>): (ts: seq<uint16>)
    ensures |ts| == |ds|
  {
    seq(|ds|, k requires 0 <= k < |ds| => MessageType(ds[k]))
  }

  /** What is sent back over a run. */
  function Replies(ds: seq<seq<byte>>): (rs: seq<seq<byte>>)
    ensures |rs| == |ds|
  {
    seq(|ds|, k requires 0 <= k < |ds| => Reply(Run(Types(ds)[..k]), ds[k]))
  }

  /** `main`'s loop over the datagrams that arrive. */
  method Serve(ds: seq<seq<byte>>) returns (replies: seq<seq<byte>>)
    ensures replies == Replies(ds)
  {
    hide Reply, Run, Next, MessageType;
    StartsWithNone();
    var server := new Server();
    replies := [];
    for k := 0 to |ds|
      invariant |replies| == k && server.state == Run(Types(ds)[..k])
      invariant forall j :: 0 <= j < k ==> replies[j] == Reply(Run(Types(ds)[..j]), ds[j])
    {
      OneMoreMessage(Types(ds), k);
      var reply := server.Handle(ds[k]);
      replies := replies + [reply];
    }
  }

  lemma StartsWithNone()
    ensures Run([]) == NoZun
  {
  }

  lemma OneMoreMessage(ts: seq<uint16>, k: nat)
    requires k < |ts|
    ensures Run(ts[..k + 1]) == Next(Run(ts[..k]), ts[k])
  {
    assert ts[..k + 1][..k] == ts[..k];
  }

  /** How many datagrams carry KIYOSHI. */
  function Kiyoshis(ds: seq<seq<byte>>): nat {
    if |ds| == 0 then 0
    else Kiyoshis(ds[..|ds| - 1]) + if MessageType(ds[|ds| - 1]) == KIYOSHI then 1 else 0
  }

  /** Over any run, the replies that carry KIYOSHI are those that echo one and those that answer a DOKO. */
  lemma {:induction false} KiyoshisSent(ds: seq<seq<byte>>)
    ensures Kiyoshis(Replies(ds)) == Kiyoshis(ds) + Answered(Types(ds))
  {
    hide Reply, MessageType, Run, Replies;
    if |ds| > 0 {
      var init, d := ds[..|ds| - 1], ds[|ds| - 1];
      assert init + [d] == ds;
      OneMoreReply(init, d);
      KiyoshisSent(init);
      var t := Types(init);
      KiyoshiIff(t, d);
      StateCountsZuns(t);
      assert Types(ds) == t + [MessageType(d)];
    }
  }

  lemma OneMoreReply(ds: seq<seq<byte>>, d: seq<byte>)
    ensures Replies(ds + [d]) == Replies(ds) + [Reply(Run(Types(ds)), d)]
  {
    hide Reply, MessageType, Run;
    assert Types(ds + [d]) == Types(ds) + [MessageType(d)];
    assert forall k :: 0 <= k < |ds| ==> Types(ds + [d])[..k] == Types(ds)[..k];
    assert (Types(ds) + [MessageType(d)])[..|ds|] == Types(ds);
  }

  /**
   * What a client sees: not counting the KIYOSHI messages that are echoed, at most a fifth of
   * the datagrams are replied to with KIYOSHI; if none arrives, at most a fifth of all replies.
   */
  lemma KiyoshiAtMostAFifth(ds: seq<seq<byte>>)
    ensures 5 * (Kiyoshis(Replies(ds)) - Kiyoshis(ds)) <= |ds|
    ensures (forall k :: 0 <= k < |ds| ==> MessageType(ds[k]) != KIYOSHI) ==> 5 * Kiyoshis(Replies(ds)) <= |ds|
  {
    hide MessageType, Replies;
    KiyoshisSent(ds);
    AnsweredAtMostAFifth(Types(ds));
    if forall k :: 0 <= k < |ds| ==> MessageType(ds[k]) != KIYOSHI {
      NoKiyoshi(ds);
    }
  }

  lemma {:induction false} NoKiyoshi(ds: seq<seq<byte>>)
    requires forall k :: 0 <= k < |ds| ==> MessageType(ds[k]) != KIYOSHI
    ensures Kiyoshis(ds) == 0
  {
    if |ds| > 0 {
      NoKiyoshi(ds[..|ds| - 1]);
    }
  }

  /** One run on the wire: four ZUN and a DOKO are answered KIYOSHI, and the text behind the type comes back. */
  lemma ZunDoko()
    ensures var zun, doko := [0, 0, 0, 0], [0, 1, 0, 1, 33];
            Replies([zun, zun, zun, zun, doko, doko]) == [zun, zun, zun, zun, [0, 2, 0, 1, 33], doko]
  {
    var zun: seq<byte>, doko: seq<byte> := [0, 0, 0, 0], [0, 1, 0, 1, 33];
    var ds := [zun, zun, zun, zun, doko, doko];
    assert MessageType(zun) == 0 && MessageType(doko) == 1;
    var ts := Types(ds);
    assert ts == [0, 0, 0, 0, 1, 1];
    hide MessageType, Reply;
    StartsWithNone();
    assert ts[..0] == [];
    OneMoreMessage(ts, 0);
    OneMoreMessage(ts, 1);
    OneMoreMessage(ts, 2);
    OneMoreMessage(ts, 3);
    OneMoreMessage(ts, 4);
    hide Run;
    ZunAndDoko(zun, doko);
  }

  lemma ZunAndDoko(zun: seq<byte>, doko: seq<byte>)
    requires zun == [0, 0, 0, 0] && doko == [0, 1, 0, 1, 33]
    ensures forall s :: Reply(s, zun) == zun
    ensures forall s :: Reply(s, doko) == if s == ZZZZ then [0, 2, 0, 1, 33] else doko
  {
    assert MessageType(zun) == 0 && MessageType(doko) == 1;
  }
}
