/** Packets over a byte stream: frames with a 16-bit length (section 2 of RFC 4571), the sender and
    the receiver as one transition system, and what the receiver delivers of what the sender took. */
module Framing {
  import opened ByteOrder
  import opened Sequences

  type Packet = seq<byte>

  const MAX_LENGTH: nat := 0xFFFF
  const HEADER: nat := 2
  const MAX_PACKET: nat := 64 * 1024
  const BUF_SIZE: nat := MAX_PACKET + HEADER

  // ---------------------------------------------------------------- frames

  /** The 16-bit length, truncated if it does not fit, then the packet. */
  function Frame(p: Packet): (f: seq<byte>)
    ensures |f| == HEADER + |p|
  {
    BigEndian(|p|, HEADER) + p
  }

  /** The length comes first, most significant byte first, and the packet follows unchanged. */
  lemma FrameBytes(p: Packet)
    ensures Frame(p)[0] == |p| / 256 % 256 && Frame(p)[1] == |p| % 256 && Frame(p)[2..] == p
  {
    assert BigEndian(|p| / 256, 1) == BigEndian(|p| / 256 / 256, 0) + [|p| / 256 % 256];
    assert BigEndian(|p|, 2) == BigEndian(|p| / 256, 1) + [|p| % 256];
  }

  function Frames(ps: seq<Packet>): seq<byte> {
    if ps == [] then [] else Frame(ps[0]) + Frames(ps[1..])
  }

  /** The length that the first two bytes announce. */
  function Announced(data: seq<byte>): nat
    requires |data| >= HEADER
  {
    FromBigEndian(data[..HEADER])
  }

  predicate HasFrame(data: seq<byte>) {
    |data| >= HEADER && |data| >= HEADER + Announced(data)
  }

  /** The packets of the complete frames at the start of the data, and the bytes left over. */
  function Parse(data: seq<byte>): (r: (seq<Packet>, seq<byte>)) {
    if !HasFrame(data) then ([], data)
    else
      var end := HEADER + Announced(data);
      var rest := Parse(data[end..]);
      ([data[HEADER..end]] + rest.0, rest.1)
  }

  lemma AnnouncedBound(data: seq<byte>)
    requires |data| >= HEADER
    ensures Announced(data) <= MAX_LENGTH
  {
    FromBigEndianBound(data[..HEADER]);
    assert Bound(2) == 0x1_0000;
  }

  /** What is left over holds no complete frame, so that it leaves room in a full-sized buffer. */
  lemma {:induction false} LeftOver(data: seq<byte>)
    ensures !HasFrame(Parse(data).1) && |Parse(data).1| <= |data|
    ensures |Parse(data).1| <= MAX_PACKET
  {
    if HasFrame(data) {
      LeftOver(data[HEADER + Announced(data)..]);
    } else if |data| >= HEADER {
      AnnouncedBound(data);
    }
  }

  /** Nothing is lost or invented: the frames of the packets and the rest are the data. */
  lemma {:induction false} Conservation(data: seq<byte>)
    ensures Frames(Parse(data).0) + Parse(data).1 == data
    ensures forall p | p in Parse(data).0 :: |p| <= MAX_LENGTH
  {
    hide Frame, Announced;
    if HasFrame(data) {
      var end := HEADER + Announced(data);
      var p, rest := data[HEADER..end], Parse(data[end..]);
      Conservation(data[end..]);
      FirstFrame(data);
      FramesCons(p, rest.0);
      Assoc(Frame(p), Frames(rest.0), rest.1);
    }
  }

  lemma FirstFrame(data: seq<byte>)
    requires HasFrame(data)
    ensures var end := HEADER + Announced(data);
            Frame(data[HEADER..end]) + data[end..] == data && Announced(data) <= MAX_LENGTH
  {
    var end := HEADER + Announced(data);
    AnnouncedBound(data);
    BigEndianUnique(data[..HEADER]);
    assert data[..HEADER] + data[HEADER..end] + data[end..] == data;
  }

  lemma FramesCons(p: Packet, ps: seq<Packet>)
    ensures Frames([p] + ps) == Frame(p) + Frames(ps)
  {
    assert ([p] + ps)[1..] == ps;
  }

  /** Parsing may be interrupted anywhere: chunks give what the whole gives. */
  lemma {:induction false} ParseInChunks(a: seq<byte>, b: seq<byte>)
    ensures Parse(a + b) == (Parse(a).0 + Parse(Parse(a).1 + b).0, Parse(Parse(a).1 + b).1)
    decreases |a|
  {
    if HasFrame(a) {
      var end := HEADER + Announced(a);
      assert (a + b)[..HEADER] == a[..HEADER];
      assert (a + b)[end..] == a[end..] + b;
      assert (a + b)[HEADER..end] == a[HEADER..end];
      ParseInChunks(a[end..], b);
      var p := [a[HEADER..end]];
      var first, more := Parse(a[end..]), Parse(Parse(a[end..]).1 + b);
      assert p + (first.0 + more.0) == (p + first.0) + more.0;
    } else {
      assert [] + Parse(a + b).0 == Parse(a + b).0;
    }
  }

  /** The 16-bit length is right exactly for packets of at most 65535 bytes. */
  lemma AnnouncedIs(p: Packet, rest: seq<byte>)
    ensures Announced(Frame(p) + rest) == |p| <==> |p| <= MAX_LENGTH
  {
    BigEndianRoundTrip(|p|, HEADER);
    assert (Frame(p) + rest)[..HEADER] == BigEndian(|p|, HEADER);
    assert Bound(2) == 0x1_0000;
  }

  lemma ParseFirst(p: Packet, rest: seq<byte>)
    requires |p| <= MAX_LENGTH
    ensures Parse(Frame(p) + rest) == ([p] + Parse(rest).0, Parse(rest).1)
  {
    AnnouncedIs(p, rest);
    assert (Frame(p) + rest)[HEADER..HEADER + |p|] == p;
    assert (Frame(p) + rest)[HEADER + |p|..] == rest;
  }

  /** Round trip, and exactly when it holds: a longer packet, which the sender also accepts, is
      never delivered as it was sent. */
  lemma {:induction false} FramesRoundTrip(ps: seq<Packet>)
    ensures Parse(Frames(ps)) == (ps, []) <==> forall p | p in ps :: |p| <= 65535
  {
    if forall p | p in ps :: |p| <= MAX_LENGTH {
      if ps != [] {
        assert ps == [ps[0]] + ps[1..];
        FramesRoundTrip(ps[1..]);
        ParseFirst(ps[0], Frames(ps[1..]));
      }
    } else {
      Conservation(Frames(ps));
    }
  }

  /** A packet of 65536 bytes arrives with an empty packet in front. */
  lemma OversizedPacket(p: Packet)
    requires |p| == MAX_PACKET
    ensures Parse(Frame(p)).0 != [] && Parse(Frame(p)).0[0] == []
  {
    assert BigEndian(0x1_0000, 2) == [0, 0];
    assert Frame(p)[..HEADER] == [0, 0];
    assert FromBigEndian([0]) == 0 by { assert [0][..0] == []; }
    assert [0, 0][..1] == [0];
  }

  lemma {:induction false} FramesAppend(ps: seq<Packet>, p: Packet)
    ensures Frames(ps + [p]) == Frames(ps) + Frame(p)
  {
    if ps == [] {
      assert [p][1..] == [];
      assert Frames([p]) == Frame(p);
    } else {
      FramesAppend(ps[1..], p);
      assert (ps + [p])[1..] == ps[1..] + [p];
      assert Frame(ps[0]) + (Frames(ps[1..]) + Frame(p)) == Frame(ps[0]) + Frames(ps[1..]) + Frame(p);
    }
  }

  // ---------------------------------------------------------------- the two ends

  /** The bytes that the socket has taken, those it has not taken yet, and the packets announced
      as sent. */
  datatype Sender = Sender(wire: seq<byte>, outbuf: seq<byte>, sent: seq<Packet>) {

    ghost predicate Sound() { wire + outbuf == Frames(sent) }

    /** The socket takes the first n bytes of the output buffer. */
    function Flushed(n: nat): Sender
      requires n <= |outbuf|
    {
      this.(wire := wire + outbuf[..n], outbuf := outbuf[n..])
    }

    /** A call of Send and its result, given how many bytes the socket takes when it is asked.  The
        packet is refused when it is too long, silently dropped when bytes are waiting, and dropped
        when the socket takes nothing of it. */
    function Sends(p: Packet, taken: int): (Sender, int)
      requires taken <= HEADER + |p|
    {
      if |p| > BUF_SIZE then (this, -1)
      else if outbuf != [] then (this, |p|)
      else if taken <= 0 then (this, taken)
      else (this.(outbuf := Frame(p), sent := sent + [p]).Flushed(taken), |p|)
    }

    /** What the caller is told, and what is taken as sent. */
    lemma SendsResult(p: Packet, taken: int)
      requires taken <= HEADER + |p|
      ensures var (next, result) := Sends(p, taken); Told(this, p, taken, next, result)
    {
    }

    lemma SendsSound(p: Packet, taken: int)
      requires Sound() && taken <= HEADER + |p|
      ensures var next := Sends(p, taken).0;
              next.Sound() && wire <= next.wire && (next.sent == sent || next.sent == sent + [p])
    {
      hide Frame;
      if Sends(p, taken).0 != this {
        FramesAppend(sent, p);
        Rejoin(wire, Frame(p), taken);
        assert wire + [] == wire;
      }
    }

    lemma NothingFlushed()
      ensures wire + [] == wire && Flushed(0) == this
    {
    }

    lemma FlushedSound(n: nat)
      requires Sound() && n <= |outbuf|
      ensures Flushed(n).Sound() && wire <= Flushed(n).wire && |Flushed(n).wire| == |wire| + n
    {
      Rejoin(wire, outbuf, n);
    }
  }

  /** The packet is too long and refused, or dropped silently because bytes are waiting, or taken as a
      whole as soon as the socket takes some of its frame, or dropped because the socket takes nothing,
      and the caller is told so. */
  ghost predicate Told(before: Sender, p: Packet, taken: int, after: Sender, result: int) {
    if |p| > 65538 then result == -1 && after == before
    else if before.outbuf != [] then result == |p| && after == before
    else if taken > 0 then
      && result == |p| && after.sent == before.sent + [p]
      && |after.wire| == |before.wire| + taken && after.wire + after.outbuf == before.wire + Frame(p)
    else result == taken && after == before
  }

  /** The bytes received, those still waiting for the end of their frame, and the packets handed
      to the application. */
  datatype Receiver = Receiver(arrived: seq<byte>, inbuf: seq<byte>, delivered: seq<Packet>) {

    /** Exactly the complete frames received have been delivered. */
    ghost predicate Sound() { Parse(arrived) == (delivered, inbuf) }

    /** A call of OnReadEvent in which the socket yields a chunk. */
    function Received(chunk: seq<byte>): Receiver {
      var r := Parse(inbuf + chunk);
      Receiver(arrived + chunk, r.1, delivered + r.0)
    }

    lemma NothingReceived()
      requires Sound()
      ensures Received([]) == this
    {
      LeftOver(arrived);
      assert inbuf + [] == inbuf && arrived + [] == arrived && delivered + [] == delivered;
    }

    lemma ReceivedSound(chunk: seq<byte>)
      requires Sound()
      ensures Received(chunk).Sound() && Received(chunk).arrived == arrived + chunk
    {
      ParseInChunks(arrived, chunk);
    }
  }

  // ---------------------------------------------------------------- the connection

  datatype Link = Link(sender: Sender, receiver: Receiver)

  ghost predicate Initial(l: Link) {
    l == Link(Sender([], [], []), Receiver([], [], []))
  }

  /** One step of either end: Send, OnWriteEvent, OnReadEvent.  How much the socket takes and
      which part of the bytes under way a chunk holds is up to the network. */
  datatype Action = Send(packet: Packet, taken: int) | Drain(count: nat) | Receive(chunk: seq<byte>)

  ghost predicate Step(l: Link, a: Action, next: Link) {
    match a
    case Send(p, taken) => taken <= HEADER + |p| && next == l.(sender := l.sender.Sends(p, taken).0)
    case Drain(count) => count <= |l.sender.outbuf| && next == l.(sender := l.sender.Flushed(count))
    case Receive(chunk) =>
      && l.receiver.arrived + chunk <= l.sender.wire
      && next == l.(receiver := l.receiver.Received(chunk))
  }

  ghost predicate Run(run: seq<Link>, actions: seq<Action>) {
    && |run| == |actions| + 1 && Initial(run[0])
    && forall i | 0 <= i < |actions| :: Step(run[i], actions[i], run[i + 1])
  }

  ghost predicate Sound(l: Link) {
    l.sender.Sound() && l.receiver.Sound() && l.receiver.arrived <= l.sender.wire
  }

  lemma StepSound(l: Link, a: Action, next: Link)
    requires Sound(l) && Step(l, a, next)
    ensures Sound(next)
  {
    match a
    case Send(p, taken) => l.sender.SendsSound(p, taken);
    case Drain(count) => l.sender.FlushedSound(count);
    case Receive(chunk) => l.receiver.ReceivedSound(chunk);
  }

  lemma {:induction false} RunSound(run: seq<Link>, actions: seq<Action>, i: nat)
    requires Run(run, actions) && i < |run|
    ensures Sound(run[i])
  {
    if i > 0 {
      RunSound(run, actions, i - 1);
      StepSound(run[i - 1], actions[i - 1], run[i]);
    }
  }

  /** The state alone decides: two ends with their invariants, one of which has received part of what
      the other one's socket took. */
  lemma Delivered(s: Sender, r: Receiver)
    requires Sound(Link(s, r)) && forall p | p in s.sent :: |p| <= MAX_LENGTH
    ensures r.delivered <= s.sent
    ensures s.outbuf == [] && r.arrived == s.wire ==> r.delivered == s.sent && r.inbuf == []
  {
    hide Frames, Parse;
    FramesRoundTrip(s.sent);
    var rest := s.wire[|r.arrived|..] + s.outbuf;
    assert r.arrived + rest == s.wire + s.outbuf;
    ParseInChunks(r.arrived, rest);
    assert s.wire + [] == s.wire;
  }

  /** At every moment of every run the packets delivered are a prefix of the packets sent, and all
      of them once no byte is waiting or under way. */
  lemma DeliveredIsPrefix(run: seq<Link>, actions: seq<Action>, i: nat)
    requires Run(run, actions) && i < |run|
    requires forall p | p in run[i].sender.sent :: |p| <= MAX_LENGTH
    ensures run[i].receiver.delivered <= run[i].sender.sent
    ensures run[i].sender.outbuf == [] && run[i].receiver.arrived == run[i].sender.wire ==>
              run[i].receiver.delivered == run[i].sender.sent && run[i].receiver.inbuf == []
  {
    RunSound(run, actions, i);
    Delivered(run[i].sender, run[i].receiver);
  }
}
