/**
 Packets over a byte stream, as in webrtc/base/asynctcpsocket.cc.  A packet
 travels as a 16-bit big-endian length followed by its bytes (the framing of
 section 2 of RFC 4571).  The sender drops packets while earlier bytes are still
 waiting, the socket takes any number of the bytes it is offered, and the
 receiver is handed the stream in arbitrary pieces.
 */
module Framing {
  import opened Arith
  import opened Bytes

  const MAX_PACKET_SIZE := 64 * 1024
  const PACKET_LEN_SIZE := 2
  const BUF_SIZE := MAX_PACKET_SIZE + PACKET_LEN_SIZE

  type Packet = seq<byte>

  // ------------------------------------------------------------------
  // Frames
  // ------------------------------------------------------------------

  /** The length field: `n` truncated to 16 bits, high byte first. */
  function Header(n: nat): seq<byte> {
    [n / 256 % 256, n % 256]
  }

  function Frame(p: Packet): seq<byte> {
    Header(|p|) + p
  }

  /** The stream that carries `ps`. */
  function Frames(ps: seq<Packet>): seq<byte> {
    if ps == [] then [] else Frame(ps[0]) + Frames(ps[1..])
  }

  function FieldValue(s: seq<byte>): nat
    requires |s| >= PACKET_LEN_SIZE
  {
    s[0] as int * 256 + s[1]
  }

  /** Does `s` begin with a complete frame? */
  predicate HasFrame(s: seq<byte>) {
    |s| >= PACKET_LEN_SIZE && |s| >= PACKET_LEN_SIZE + FieldValue(s)
  }

  function FrontPacket(s: seq<byte>): Packet
    requires HasFrame(s)
  {
    s[PACKET_LEN_SIZE..PACKET_LEN_SIZE + FieldValue(s)]
  }

  function AfterFront(s: seq<byte>): (rest: seq<byte>)
    requires HasFrame(s)
    ensures |rest| < |s|
  {
    s[PACKET_LEN_SIZE + FieldValue(s)..]
  }

  /** The packets whose frames are complete in `s`. */
  function Parsed(s: seq<byte>): seq<Packet>
    decreases |s|
  {
    if HasFrame(s) then [FrontPacket(s)] + Parsed(AfterFront(s)) else []
  }

  /** What remains of `s` after its complete frames. */
  function Unparsed(s: seq<byte>): seq<byte>
    decreases |s|
  {
    if HasFrame(s) then Unparsed(AfterFront(s)) else s
  }

  /** Every packet is short enough for its length to fit the length field. */
  predicate Representable(ps: seq<Packet>) {
    forall i :: 0 <= i < |ps| ==> |ps[i]| < MAX_PACKET_SIZE
  }

  lemma FrameParts(p: Packet)
    ensures |Header(|p|)| == PACKET_LEN_SIZE && |Frame(p)| == PACKET_LEN_SIZE + |p|
    ensures [] + Header(|p|) + p == Frame(p)
  {
    assert [] + Header(|p|) == Header(|p|);
  }

  lemma FieldOfFrame(p: Packet, rest: seq<byte>)
    ensures |Frame(p) + rest| == PACKET_LEN_SIZE + |p| + |rest|
    ensures FieldValue(Frame(p) + rest) == |p| % MAX_PACKET_SIZE <= |p|
  {
    hide HasFrame;
    LowDigits(|p|);
    var f := Frame(p) + rest;
    assert f[0] == |p| / 256 % 256 && f[1] == |p| % 256;
  }

  /** The first packet of a stream that begins with the frame of `p`. */
  lemma FrontOfFrame(p: Packet, rest: seq<byte>)
    ensures HasFrame(Frame(p) + rest)
    ensures |FrontPacket(Frame(p) + rest)| == |p| % MAX_PACKET_SIZE
    ensures |p| < MAX_PACKET_SIZE ==> FrontPacket(Frame(p) + rest) == p && AfterFront(Frame(p) + rest) == rest
  {
    FieldOfFrame(p, rest);
    var f := Frame(p) + rest;
    assert f[PACKET_LEN_SIZE..PACKET_LEN_SIZE + |p|] == p && f[PACKET_LEN_SIZE + |p|..] == rest by {
      hide HasFrame, FieldValue;
      hide Header;
    }
  }

  lemma ParseFront(s: seq<byte>)
    requires HasFrame(s)
    ensures Parsed(s) == [FrontPacket(s)] + Parsed(AfterFront(s))
    ensures Unparsed(s) == Unparsed(AfterFront(s))
  {
    hide HasFrame, FrontPacket, AfterFront;
  }

  lemma NothingInNothing()
    ensures !HasFrame([]) && Parsed([]) == [] && Unparsed([]) == []
  {
  }

  /** The frame of `p` reads back as `p` exactly when the length fits 16 bits. */
  lemma FrameReadsBack(p: Packet)
    ensures Parsed(Frame(p)) == [p] <==> |p| < MAX_PACKET_SIZE
  {
    hide HasFrame, FrontPacket, AfterFront, Frame, Parsed;
    assert Frame(p) + [] == Frame(p);
    FrontOfFrame(p, []);
    ParseFront(Frame(p));
    NothingInNothing();
    if |p| >= MAX_PACKET_SIZE {
      assert |p| % MAX_PACKET_SIZE < |p|;
      assert Parsed(Frame(p))[0] == FrontPacket(Frame(p));
    }
  }

  /** Parsing undoes framing, whatever follows the frames. */
  lemma {:induction false} ParseFrames(ps: seq<Packet>, rest: seq<byte>)
    requires Representable(ps)
    ensures Parsed(Frames(ps) + rest) == ps + Parsed(rest)
    ensures Unparsed(Frames(ps) + rest) == Unparsed(rest)
  {
    hide Frame, HasFrame, FrontPacket, AfterFront, Parsed, Unparsed;
    if ps == [] {
      assert Frames(ps) + rest == rest;
    } else {
      var later := Frames(ps[1..]) + rest;
      assert Frames(ps) + rest == Frame(ps[0]) + later;
      FrontOfFrame(ps[0], later);
      ParseFront(Frame(ps[0]) + later);
      ParseFrames(ps[1..], rest);
      assert ps == [ps[0]] + ps[1..];
    }
  }

  /** Parsing loses nothing: the packets' frames and the tail are the stream, and the tail has no frame. */
  lemma {:induction false} FramesOfParsed(s: seq<byte>)
    ensures s == Frames(Parsed(s)) + Unparsed(s)
    ensures !HasFrame(Unparsed(s))
    ensures Representable(Parsed(s))
    decreases |s|
  {
    hide HasFrame, FrontPacket, AfterFront, Frame, Frames;
    if HasFrame(s) {
      hide Parsed, Unparsed;
      var p, t := FrontPacket(s), AfterFront(s);
      FrameAtFront(s);
      ParseFront(s);
      FramesOfParsed(t);
      FramesPrepend(p, Parsed(t));
      assert Frame(p) + (Frames(Parsed(t)) + Unparsed(t)) == (Frame(p) + Frames(Parsed(t))) + Unparsed(t);
    } else {
      NoFrames();
    }
  }

  lemma TooShort(s: seq<byte>)
    requires |s| < PACKET_LEN_SIZE
    ensures !HasFrame(s)
  {
  }

  lemma NothingParsed(s: seq<byte>)
    requires !HasFrame(s)
    ensures Parsed(s) == [] && Unparsed(s) == s
  {
    hide HasFrame;
  }

  lemma FramesPrepend(p: Packet, ps: seq<Packet>)
    ensures Frames([p] + ps) == Frame(p) + Frames(ps)
  {
    hide Frame;
    assert ([p] + ps)[1..] == ps;
  }

  lemma NoFrames()
    ensures Frames([]) == []
  {
  }

  lemma FrameAtFront(s: seq<byte>)
    requires HasFrame(s)
    ensures s == Frame(FrontPacket(s)) + AfterFront(s)
    ensures |FrontPacket(s)| < MAX_PACKET_SIZE
  {
    hide Header;
    HeaderOf(s[0], s[1]);
    var n := FieldValue(s);
    assert s[..2] == [s[0], s[1]];
    assert s == s[..2] + s[2..2 + n] + s[2 + n..];
  }

  lemma HeaderOf(hi: byte, lo: byte)
    ensures Header(hi as int * 256 + lo) == [hi, lo]
  {
  }

  /** Recognising a frame by its length field. */
  lemma FrontAt(s: seq<byte>, n: nat)
    requires |s| >= PACKET_LEN_SIZE && n == s[0] as int * 256 + s[1]
    ensures HasFrame(s) <==> |s| >= PACKET_LEN_SIZE + n
    ensures HasFrame(s) ==> FrontPacket(s) == s[PACKET_LEN_SIZE..PACKET_LEN_SIZE + n]
    ensures HasFrame(s) ==> AfterFront(s) == s[PACKET_LEN_SIZE + n..]
  {
  }

  lemma SignalFront(log: seq<Packet>, s: seq<byte>)
    requires HasFrame(s)
    ensures log + Parsed(s) == (log + [FrontPacket(s)]) + Parsed(AfterFront(s))
    ensures Unparsed(s) == Unparsed(AfterFront(s))
  {
    hide HasFrame, FrontPacket, AfterFront, Parsed, Unparsed;
    ParseFront(s);
  }

  /** A stream handed over in two pieces parses as the whole does. */
  lemma ParseInPieces(a: seq<byte>, b: seq<byte>)
    ensures Parsed(a + b) == Parsed(a) + Parsed(Unparsed(a) + b)
    ensures Unparsed(a + b) == Unparsed(Unparsed(a) + b)
  {
    FramesOfParsed(a);
    hide HasFrame, Frames, Parsed, Unparsed;
    assert a + b == Frames(Parsed(a)) + (Unparsed(a) + b);
    ParseFrames(Parsed(a), Unparsed(a) + b);
  }

  /** An incomplete frame always leaves at least two bytes of room in the input buffer. */
  lemma RoomAfterParsing(s: seq<byte>)
    ensures |Unparsed(s)| + 2 <= BUF_SIZE
  {
    FramesOfParsed(s);
  }

  lemma {:induction false} FramesAppend(ps: seq<Packet>, qs: seq<Packet>)
    ensures Frames(ps + qs) == Frames(ps) + Frames(qs)
  {
    if ps == [] {
      assert ps + qs == qs;
    } else {
      assert (ps + qs)[1..] == ps[1..] + qs;
      FramesAppend(ps[1..], qs);
    }
  }

  lemma FramesOne(p: Packet)
    ensures Frames([p]) == Frame(p)
  {
    assert Frames([p][1..]) == [];
  }

  // ------------------------------------------------------------------
  // What one call does to the out buffer
  // ------------------------------------------------------------------

  /** The number of bytes the socket takes when it answers `res` to an offer of `n` bytes. */
  function Taken(n: nat, res: int): nat {
    if 0 < res <= n then res else 0
  }

  /** Does this call of Send put `p` on the stream?  Not when bytes still wait, nor when the socket takes none. */
  predicate Accepts(out: seq<byte>, p: Packet, res: int) {
    |p| <= BUF_SIZE && out == [] && Taken(|Frame(p)|, res) > 0
  }

  function OutAfterSend(out: seq<byte>, p: Packet, res: int): seq<byte> {
    if Accepts(out, p, res) then Frame(p)[Taken(|Frame(p)|, res)..] else out
  }

  function SentBySend(out: seq<byte>, p: Packet, res: int): seq<byte> {
    if Accepts(out, p, res) then Frame(p)[..Taken(|Frame(p)|, res)] else []
  }

  /** The assertion in AppendToOutBuffer: a packet that reaches the buffer fits it with room to spare. */
  predicate FitsOutBuffer(out: seq<byte>, p: Packet) {
    |p| > BUF_SIZE || out != [] || PACKET_LEN_SIZE + |p| < BUF_SIZE
  }

  // ------------------------------------------------------------------
  // Runs of a sender, a byte channel and a receiver
  // ------------------------------------------------------------------

  datatype Event =
    | SendPacket(packet: Packet, res: int)
    | WriteReady(res: int)
    | ReadReady(len: int)

  datatype Link = Link(out: seq<byte>, channel: seq<byte>, inbuf: seq<byte>,
                       accepted: seq<Packet>, signalled: seq<Packet>)

  /** What the code demands of the caller of Send, and what a socket may answer to Recv. */
  predicate Enabled(l: Link, e: Event) {
    match e
    case SendPacket(p, _) => FitsOutBuffer(l.out, p)
    case WriteReady(_) => true
    case ReadReady(len) => len <= |l.channel| && len <= BUF_SIZE - |l.inbuf|
  }

  function Step(l: Link, e: Event): Link
    requires Enabled(l, e)
  {
    match e
    case SendPacket(p, res) =>
      l.(out := OutAfterSend(l.out, p, res),
         channel := l.channel + SentBySend(l.out, p, res),
         accepted := l.accepted + if Accepts(l.out, p, res) then [p] else [])
    case WriteReady(res) =>
      var t := Taken(|l.out|, res);
      l.(out := l.out[t..], channel := l.channel + l.out[..t])
    case ReadReady(len) =>
      if len < 0 then l
      else
        var data := l.inbuf + l.channel[..len];
        l.(channel := l.channel[len..], inbuf := Unparsed(data), signalled := l.signalled + Parsed(data))
  }

  // When each event can happen and what it does, without the functions above.

  lemma WhenEnabled(l: Link, p: Packet, n: int)
    ensures Enabled(l, SendPacket(p, n)) <==> l.out != [] || |p| < 65536 || |p| > 65538
    ensures Enabled(l, WriteReady(n))
    ensures Enabled(l, ReadReady(n)) <==> n <= |l.channel| && |l.inbuf| + n <= 65538
  {
  }

  lemma SendStep(l: Link, p: Packet, res: int)
    requires Enabled(l, SendPacket(p, res))
    ensures var t := Step(l, SendPacket(p, res));
            if l.out == [] && |p| < 65536 && 0 < res <= 2 + |p| then
              && t.channel == l.channel + Frame(p)[..res] && t.out == Frame(p)[res..]
              && t.accepted == l.accepted + [p] && t.inbuf == l.inbuf && t.signalled == l.signalled
            else t == l
  {
    assert l.channel + [] == l.channel && l.accepted + [] == l.accepted;
  }

  lemma WriteStep(l: Link, res: int)
    ensures var t := Step(l, WriteReady(res));
            if 0 < res <= |l.out| then
              && t.channel == l.channel + l.out[..res] && t.out == l.out[res..]
              && t.accepted == l.accepted && t.inbuf == l.inbuf && t.signalled == l.signalled
            else t == l
  {
    assert l.channel + [] == l.channel;
  }

  lemma ReadStep(l: Link, len: int)
    requires Enabled(l, ReadReady(len))
    ensures var t := Step(l, ReadReady(len));
            if len >= 0 then
              && t.channel == l.channel[len..] && t.out == l.out && t.accepted == l.accepted
              && l.signalled <= t.signalled && !HasFrame(t.inbuf)
              && Frames(t.signalled[|l.signalled|..]) + t.inbuf == l.inbuf + l.channel[..len]
            else t == l
  {
    hide HasFrame, Frames, Parsed, Unparsed;
    if len >= 0 {
      var data := l.inbuf + l.channel[..len];
      FramesOfParsed(data);
      assert (l.signalled + Parsed(data))[|l.signalled|..] == Parsed(data);
    }
  }

  /** `trace` is a run of the link, one state more than it has events. */
  ghost predicate IsRun(trace: seq<Link>, events: seq<Event>) {
    && |trace| == |events| + 1
    && trace[0] == Link([], [], [], [], [])
    && forall i :: 0 <= i < |events| ==> Enabled(trace[i], events[i]) && trace[i + 1] == Step(trace[i], events[i])
  }

  /** Nothing is lost, duplicated, reordered or corrupted anywhere between sender and receiver. */
  ghost predicate Conserved(l: Link) {
    && Frames(l.accepted) == Frames(l.signalled) + l.inbuf + l.channel + l.out
    && !HasFrame(l.inbuf)
    && Representable(l.accepted)
    && Representable(l.signalled)
  }

  lemma SendConserves(l: Link, p: Packet, res: int)
    requires FitsOutBuffer(l.out, p) && Conserved(l)
    ensures Conserved(Step(l, SendPacket(p, res)))
  {
    hide HasFrame, Frames;
    if Accepts(l.out, p, res) {
      FramesAppend(l.accepted, [p]);
      FramesOne(p);
      var sent, out := SentBySend(l.out, p, res), OutAfterSend(l.out, p, res);
      assert Frame(p) == sent + out;
      var x := Frames(l.signalled) + l.inbuf + l.channel;
      assert x + l.out + (sent + out) == x + sent + out;
      assert Frames(l.signalled) + l.inbuf + (l.channel + sent) + out == x + sent + out;
    } else {
      assert l.channel + [] == l.channel && l.accepted + [] == l.accepted;
    }
  }

  lemma WriteConserves(l: Link, res: int)
    requires Conserved(l)
    ensures Conserved(Step(l, WriteReady(res)))
  {
    hide HasFrame, Frames;
    var t := Taken(|l.out|, res);
    var x := Frames(l.signalled) + l.inbuf;
    assert x + l.channel + (l.out[..t] + l.out[t..]) == x + (l.channel + l.out[..t]) + l.out[t..];
    assert l.out == l.out[..t] + l.out[t..];
  }

  lemma ReadConserves(l: Link, len: nat)
    requires Enabled(l, ReadReady(len)) && Conserved(l)
    ensures Conserved(Step(l, ReadReady(len)))
  {
    hide HasFrame, Frames, Parsed, Unparsed;
    var chunk, later := l.channel[..len], l.channel[len..];
    var data := l.inbuf + chunk;
    FramesOfParsed(data);
    FramesAppend(l.signalled, Parsed(data));
    assert l.channel == chunk + later;
    Regroup(Frames(l.signalled), l.inbuf, chunk, later, l.out);
    RegroupAgain(Frames(l.signalled), Frames(Parsed(data)), Unparsed(data), later, l.out);
  }

  lemma Regroup(a: seq<byte>, b: seq<byte>, c: seq<byte>, d: seq<byte>, e: seq<byte>)
    ensures a + b + (c + d) + e == a + (b + c) + d + e
  {
  }

  lemma RegroupAgain(a: seq<byte>, b: seq<byte>, c: seq<byte>, d: seq<byte>, e: seq<byte>)
    ensures a + (b + c) + d + e == (a + b) + c + d + e
  {
  }

  /** Every step keeps the accounting: accepted is signalled, buffered, in flight or waiting, in this order. */
  lemma StepConserves(l: Link, e: Event)
    requires Enabled(l, e) && Conserved(l)
    ensures Conserved(Step(l, e))
  {
    hide Conserved;
    match e
    case SendPacket(p, res) => SendConserves(l, p, res);
    case WriteReady(res) => WriteConserves(l, res);
    case ReadReady(len) =>
      if len >= 0 {
        ReadConserves(l, len);
      }
  }

  lemma {:induction false} RunConserves(trace: seq<Link>, events: seq<Event>, i: nat)
    requires IsRun(trace, events) && i < |trace|
    ensures Conserved(trace[i])
  {
    hide Conserved, Enabled, Step;
    if i == 0 {
      StartConserved();
    } else {
      RunConserves(trace, events, i - 1);
      StepConserves(trace[i - 1], events[i - 1]);
    }
  }

  lemma StartConserved()
    ensures Conserved(Link([], [], [], [], []))
  {
    hide HasFrame, Frames;
    NoFrames();
    NothingInNothing();
  }

  lemma ConservedInOrder(l: Link)
    requires Conserved(l)
    ensures l.signalled <= l.accepted
    ensures l.channel == [] && l.out == [] ==> l.signalled == l.accepted && l.inbuf == []
  {
    hide HasFrame, Frames, Parsed, Unparsed;
    var rest := l.inbuf + l.channel + l.out;
    assert Frames(l.accepted) + [] == Frames(l.signalled) + rest;
    ParseFrames(l.accepted, []);
    ParseFrames(l.signalled, rest);
    NothingInNothing();
    assert l.accepted == l.signalled + Parsed(rest);
    if l.channel == [] && l.out == [] {
      assert rest == l.inbuf;
      NothingParsed(rest);
    }
  }

  /**
   In every run, at every moment, the packets handed to the receiver are a
   prefix of the accepted ones, with the same bytes and boundaries; once no
   byte is waiting or in flight they are all of them and the receiver holds
   no stray byte.
   */
  lemma DeliveredInOrder(trace: seq<Link>, events: seq<Event>, i: nat)
    requires IsRun(trace, events) && i < |trace|
    ensures trace[i].signalled <= trace[i].accepted
    ensures trace[i].channel == [] && trace[i].out == [] ==>
              trace[i].signalled == trace[i].accepted && trace[i].inbuf == []
  {
    RunConserves(trace, events, i);
    ConservedInOrder(trace[i]);
  }

  /** At every moment of every run the receiver can offer the socket at least two bytes of room. */
  lemma AlwaysRoomToRead(trace: seq<Link>, events: seq<Event>, i: nat)
    requires IsRun(trace, events) && i < |trace|
    ensures |trace[i].inbuf| + 2 <= BUF_SIZE
  {
    RunConserves(trace, events, i);
    RoomAfterParsing(trace[i].inbuf);
  }

  /** The events lead from one state to the other. */
  ghost predicate Leads(l: Link, events: seq<Event>, t: Link)
    decreases |events|
  {
    if events == [] then l == t else Enabled(l, events[0]) && Leads(Step(l, events[0]), events[1..], t)
  }

  lemma {:induction false} ReadsDeliver(l: Link) returns (events: seq<Event>, t: Link)
    requires Conserved(l) && l.out == []
    ensures Leads(l, events, t) && forall i :: 0 <= i < |events| ==> events[i].ReadReady?
    ensures t.accepted == l.accepted == t.signalled
    decreases |l.channel|
  {
    hide HasFrame, Frames, Parsed, Unparsed;
    if l.channel == [] {
      ConservedInOrder(l);
      return [], l;
    }
    RoomAfterParsing(l.inbuf);
    NothingParsed(l.inbuf);
    var e := ReadReady(Min(2, |l.channel|));
    ReadStep(l, e.len);
    StepConserves(l, e);
    var later;
    later, t := ReadsDeliver(Step(l, e));
    events := [e] + later;
    assert events[1..] == later;
  }

  lemma WriteThenReads(l: Link) returns (more: seq<Event>, t: Link)
    requires Conserved(l)
    ensures Leads(l, more, t) && more != [] && more[0] == WriteReady(|l.out|)
    ensures forall k :: 1 <= k < |more| ==> more[k].ReadReady?
    ensures t.accepted == l.accepted == t.signalled
  {
    hide Conserved, Step;
    var e := WriteReady(|l.out|);
    StepConserves(l, e);
    WriteStep(l, e.res);
    var later;
    later, t := ReadsDeliver(Step(l, e));
    more := [e] + later;
    assert more[1..] == later;
  }

  /** From every state of every run, once the socket takes what it is offered, reads alone bring all accepted packets. */
  lemma EverythingArrives(trace: seq<Link>, events: seq<Event>, i: nat) returns (more: seq<Event>, t: Link)
    requires IsRun(trace, events) && i < |trace|
    ensures Leads(trace[i], more, t) && more != [] && more[0] == WriteReady(|trace[i].out|)
    ensures forall k :: 1 <= k < |more| ==> more[k].ReadReady?
    ensures t.accepted == trace[i].accepted == t.signalled
  {
    hide Conserved, Step, IsRun;
    RunConserves(trace, events, i);
    more, t := WriteThenReads(trace[i]);
  }

  // ------------------------------------------------------------------
  // The socket object
  // ------------------------------------------------------------------

  /** One end of the link.  Socket answers are parameters; signals and the wire are ghost logs. */
  class AsyncTcpSocket {
    const inbuf: array<byte>
    const outbuf: array<byte>
    var inpos: nat
    var outpos: nat
    ghost var wire: seq<byte>
    ghost var signalled: seq<Packet>

    ghost predicate Valid()
      reads this
    {
      && inbuf.Length == BUF_SIZE && outbuf.Length == BUF_SIZE && inbuf != outbuf
      && inpos <= BUF_SIZE && outpos <= BUF_SIZE
    }

    /** The bytes waiting to be sent. */
    ghost function Out(): seq<byte>
      reads this, outbuf
      requires Valid()
    {
      outbuf[..outpos]
    }

    /** The bytes received and not yet parsed. */
    ghost function In(): seq<byte>
      reads this, inbuf
      requires Valid()
    {
      inbuf[..inpos]
    }

    constructor ()
      ensures Valid() && fresh(inbuf) && fresh(outbuf)
      ensures Out() == [] && In() == [] && wire == [] && signalled == []
    {
      inbuf := new byte[BUF_SIZE](_ => 0);
      outbuf := new byte[BUF_SIZE](_ => 0);
      inpos, outpos := 0, 0;
      wire, signalled := [], [];
    }

    method FlushOutBuffer(res: int) returns (r: int)
      requires Valid()
      modifies this`outpos, this`wire, outbuf
      ensures Valid()
      ensures if 0 < res <= |old(Out())| then Out() == old(Out())[res..] && wire == old(wire) + old(Out())[..res]
              else Out() == old(Out()) && wire == old(wire)
      ensures r == if res <= old(outpos) then res else -1
    {
      if res <= 0 {
        return res;
      }
      if res <= outpos {
        outpos := outpos - res;
      } else {
        return -1;
      }
      wire := wire + outbuf[..res];
      if outpos > 0 {
        forall i | 0 <= i < outpos {
          outbuf[i] := outbuf[i + res];
        }
      }
      return res;
    }

    /** The code asserts that there is room to spare; without it nothing is copied and `fits` is false. */
    method AppendToOutBuffer(data: seq<byte>) returns (fits: bool)
      requires Valid()
      modifies this`outpos, outbuf
      ensures Valid()
      ensures fits <==> old(outpos) + |data| < BUF_SIZE
      ensures Out() == if fits then old(Out()) + data else old(Out())
    {
      if outpos + |data| >= BUF_SIZE {
        return false;
      }
      forall i | 0 <= i < |data| {
        outbuf[outpos + i] := data[i];
      }
      outpos := outpos + |data|;
      return true;
    }

    /**
     `res` is the socket's answer to the flush; the result claims success for
     dropped packets too.  There is no result when the assertion in
     AppendToOutBuffer stops the program.
     */
    method Send(payload: Packet, res: int) returns (r: Option<int>)
      requires Valid()
      modifies this`outpos, this`wire, outbuf
      ensures Valid()
      ensures r.None? <==> old(Out()) == [] && BUF_SIZE - PACKET_LEN_SIZE <= |payload| <= BUF_SIZE
      ensures |payload| > BUF_SIZE ==> r == Some(-1)
      ensures old(Out()) != [] && |payload| <= BUF_SIZE ==> r == Some(|payload|)
      ensures |payload| > BUF_SIZE || old(Out()) != [] ==> Out() == old(Out()) && wire == old(wire)
      ensures old(Out()) == [] && PACKET_LEN_SIZE + |payload| < BUF_SIZE ==>
                if 0 < res <= PACKET_LEN_SIZE + |payload| then
                  r == Some(|payload|) && wire == old(wire) + Frame(payload)[..res] && Out() == Frame(payload)[res..]
                else r == Some(if res <= 0 then res else -1) && wire == old(wire) && Out() == []
      ensures r.None? ==> wire == old(wire)
    {
      hide Header, Frame;
      FrameParts(payload);
      if |payload| > BUF_SIZE {
        return Some(-1);
      }
      if outpos != 0 {
        return Some(|payload|);
      }
      var fits := AppendToOutBuffer(Header(|payload|));
      fits := AppendToOutBuffer(payload);
      if !fits {
        return None;
      }
      assert Out() == Frame(payload);
      assert outpos == PACKET_LEN_SIZE + |payload|;
      var flushed := FlushOutBuffer(res);
      if flushed <= 0 {
        outpos := 0;
        return Some(flushed);
      }
      return Some(|payload|);
    }

    method OnWriteEvent(res: int) returns (readyToSend: bool)
      requires Valid()
      modifies this`outpos, this`wire, outbuf
      ensures Valid()
      ensures if 0 < res <= |old(Out())| then Out() == old(Out())[res..] && wire == old(wire) + old(Out())[..res]
              else Out() == old(Out()) && wire == old(wire)
      ensures readyToSend <==> Out() == []
    {
      if outpos > 0 {
        var r := FlushOutBuffer(res);
      }
      return outpos == 0;
    }

    /** Signals every complete packet and moves what is left to the front of the buffer. */
    method ProcessInput()
      requires Valid()
      modifies this`inpos, this`signalled, inbuf
      ensures Valid()
      ensures In() == Unparsed(old(In()))
      ensures signalled == old(signalled) + Parsed(old(In()))
    {
      hide HasFrame, FrontPacket, AfterFront, Parsed, Unparsed;
      while true
        invariant Valid()
        invariant Unparsed(In()) == Unparsed(old(In()))
        invariant signalled + Parsed(In()) == old(signalled) + Parsed(old(In()))
        decreases inpos
      {
        ghost var before, log := In(), signalled;
        if inpos < PACKET_LEN_SIZE {
          TooShort(before);
          NothingParsed(before);
          return;
        }
        var pktLen := inbuf[0] as int * 256 + inbuf[1];
        FrontAt(before, pktLen);
        if inpos < PACKET_LEN_SIZE + pktLen {
          NothingParsed(before);
          return;
        }
        SignalFront(log, before);
        signalled := signalled + [inbuf[PACKET_LEN_SIZE..PACKET_LEN_SIZE + pktLen]];
        assert signalled == log + [FrontPacket(before)] by {
          assert inbuf[PACKET_LEN_SIZE..PACKET_LEN_SIZE + pktLen] == before[PACKET_LEN_SIZE..PACKET_LEN_SIZE + pktLen];
        }
        inpos := inpos - (PACKET_LEN_SIZE + pktLen);
        if inpos > 0 {
          forall i | 0 <= i < inpos {
            inbuf[i] := inbuf[i + PACKET_LEN_SIZE + pktLen];
          }
        }
        assert In() == before[PACKET_LEN_SIZE + pktLen..];
      }
    }

    /** `len` and `data` are the socket's answer to Recv; a negative `len` is an error. */
    method OnReadEvent(len: int, data: seq<byte>)
      requires Valid() && !HasFrame(In())
      requires len >= 0 ==> |data| == len <= BUF_SIZE - |In()|
      modifies this`inpos, this`signalled, inbuf
      ensures Valid() && !HasFrame(In())
      ensures len < 0 ==> In() == old(In()) && signalled == old(signalled)
      ensures len >= 0 ==> In() == Unparsed(old(In()) + data)
      ensures len >= 0 ==> signalled == old(signalled) + Parsed(old(In()) + data)
    {
      if len < 0 {
        return;
      }
      forall i | 0 <= i < len {
        inbuf[inpos + i] := data[i];
      }
      inpos := inpos + len;
      assert In() == old(In()) + data;
      ProcessInput();
      FramesOfParsed(old(In()) + data);
      RoomAfterParsing(old(In()) + data);
      if inpos >= BUF_SIZE {
        // "input buffer overflow": never reached
        assert false;
      }
    }
  }
}
