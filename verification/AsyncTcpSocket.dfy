/** The packet socket itself: its two buffers, its event handlers and the stream socket below. */
module AsyncTcpSocket {
  import opened ByteOrder
  import opened Buffers
  import opened Framing
  import opened Sequences

  const MINIMUM_RECV_SIZE: nat := 128

  /** One call of the stream socket's Send, and of its Recv. */
  datatype Offer = Offer(data: seq<byte>, taken: int)
  datatype Reception = Reception(window: nat, len: int)

  /** The stream socket: it takes any part of what it is offered, or fails, and it fills any part
      of the window it is given, or fails.  All that it did is recorded. */
  class StreamSocket {
    var wire: seq<byte>
    var arrived: seq<byte>
    var offers: seq<Offer>
    var recvs: seq<Reception>

    constructor ()
      ensures wire == arrived == [] && offers == [] && recvs == []
    {
      wire, arrived, offers, recvs := [], [], [], [];
    }

    method Send(data: seq<byte>) returns (taken: int)
      modifies `wire, `offers
      ensures taken <= |data|
      ensures offers == old(offers) + [Offer(data, taken)]
      ensures wire == old(wire) + if taken > 0 then data[..taken] else []
    {
      taken := *;
      if taken > |data| {
        taken := |data|;
      }
      offers := offers + [Offer(data, taken)];
      wire := wire + if taken > 0 then data[..taken] else [];
    }

    method Recv(buf: array<byte>, at: nat, window: nat) returns (len: int)
      requires at + window <= buf.Length
      modifies `arrived, `recvs, buf
      ensures len <= window
      ensures recvs == old(recvs) + [Reception(window, len)]
      ensures buf[..at] == old(buf[..at])
      ensures arrived == old(arrived) + if len > 0 then buf[at..at + len] else []
    {
      len := *;
      if len > window {
        len := window;
      }
      var chunk: seq<byte> := *;
      if len > 0 {
        forall i | 0 <= i < len {
          buf[at + i] := if i < |chunk| then chunk[i] else 0;
        }
        arrived := arrived + buf[at..at + len];
      }
      recvs := recvs + [Reception(window, len)];
    }
  }

  /** The calls made so far left no part of a window unused, and the first window was not empty. */
  ghost predicate Draining(now: seq<Reception>, before: seq<Reception>) {
    && before <= now
    && (before < now ==> now[|before|].window > 0)
    && forall i | |before| <= i < |now| :: 0 < now[i].len == now[i].window
  }

  /** The last call failed or left part of its window unused, and no other one did. */
  ghost predicate DrainedSince(now: seq<Reception>, before: seq<Reception>) {
    && before < now && now[|before|].window > 0
    && Draining(now[..|now| - 1], before)
    && (now[|now| - 1].len <= 0 || now[|now| - 1].len < now[|now| - 1].window)
  }

  lemma DrainOne(now: seq<Reception>, before: seq<Reception>, r: Reception)
    requires Draining(now, before) && r.len <= r.window && (now == before ==> r.window > 0)
    ensures before < now + [r]
    ensures 0 < r.len == r.window ==> Draining(now + [r], before)
    ensures !(0 < r.len == r.window) ==> DrainedSince(now + [r], before)
  {
    var next := now + [r];
    assert next[..|next| - 1] == now && next[|next| - 1] == r;
    assert forall i | 0 <= i < |now| :: next[i] == now[i];
  }

  lemma NothingReceivedYet(before: seq<Reception>)
    ensures Draining(before, before)
  {
  }

  /** The capacity after making room: twice as much, up to 65538 bytes, when there are fewer than 128
      bytes free. */
  predicate Grown(before: nat, size: nat, after: nat) {
    && (before - size >= 128 ==> after == before)
    && (before - size < 128 && 2 * before < 65538 ==> after == 2 * before)
    && (before - size < 128 && 2 * before >= 65538 ==> after == 65538)
  }

  class AsyncTcpSocket {
    const socket: StreamSocket
    const inbuf: Buffer<byte>
    const outbuf: Buffer<byte>
    // The packets given to SignalSentPacket and to SignalReadPacket.
    ghost var sent: seq<Packet>
    ghost var delivered: seq<Packet>

    ghost predicate Valid()
      reads this, inbuf, outbuf
    {
      && inbuf != outbuf && inbuf.data != outbuf.data
      && inbuf.Valid() && outbuf.Valid()
      && MINIMUM_RECV_SIZE <= inbuf.Capacity() <= BUF_SIZE
    }

    ghost function SenderView(): Sender
      requires Valid()
      reads this, socket, inbuf, outbuf, outbuf.data
    {
      Sender(socket.wire, outbuf.Contents(), sent)
    }

    ghost function ReceiverView(): Receiver
      requires Valid()
      reads this, socket, inbuf, outbuf, inbuf.data
    {
      Receiver(socket.arrived, inbuf.Contents(), delivered)
    }

    /** A connected, non-listening socket. */
    constructor (socket: StreamSocket)
      requires socket.wire == socket.arrived == []
      ensures Valid() && fresh(inbuf) && fresh(outbuf) && fresh(inbuf.data) && fresh(outbuf.data)
      ensures this.socket == socket
      ensures Initial(Link(SenderView(), ReceiverView()))
    {
      this.socket := socket;
      inbuf := new Buffer();
      outbuf := new Buffer();
      sent, delivered := [], [];
      new;
      inbuf.EnsureCapacity(MINIMUM_RECV_SIZE);
    }

    // ------------------------------------------------------------ sending

    /** Offers the whole output buffer to the socket and drops from it what was taken. */
    method FlushOutBuffer() returns (res: int)
      requires Valid()
      modifies socket`wire, socket`offers, outbuf, outbuf.data
      ensures Valid() && outbuf.data == old(outbuf.data)
      ensures res <= old(outbuf.size)
      ensures socket.offers == old(socket.offers) + [Offer(old(outbuf.Contents()), res)]
      ensures SenderView() == old(SenderView()).Flushed(if res > 0 then res else 0)
      ensures ReceiverView() == old(ReceiverView())
    {
      res := socket.Send(outbuf.data[..outbuf.size]);
      if res <= 0 {
        return;
      }
      assert res <= outbuf.size;
      var newSize := outbuf.size - res;
      if newSize > 0 {
        MoveDown(outbuf.data, res, newSize);
      }
      outbuf.SetSize(newSize);
    }

    /** Appends to the output buffer, and tells whether the debug check on its size holds. */
    method AppendToOutBuffer(data: seq<byte>) returns (checked: bool)
      requires Valid()
      modifies outbuf, outbuf.data
      ensures Valid() && (outbuf.data == old(outbuf.data) || fresh(outbuf.data))
      ensures outbuf.Contents() == old(outbuf.Contents()) + data
      ensures checked <==> old(outbuf.size) + |data| <= BUF_SIZE
    {
      checked := outbuf.size + |data| <= BUF_SIZE;
      outbuf.AppendData(data);
    }

    method AppendFrame(p: Packet) returns (checked: bool)
      requires Valid() && outbuf.size == 0
      modifies outbuf, outbuf.data
      ensures Valid() && (outbuf.data == old(outbuf.data) || fresh(outbuf.data))
      ensures outbuf.Contents() == Frame(p)
      ensures checked <==> HEADER + |p| <= BUF_SIZE
    {
      var lengthChecked := AppendToOutBuffer(BigEndian(|p|, HEADER));
      var packetChecked := AppendToOutBuffer(p);
      checked := lengthChecked && packetChecked;
    }

    /** Framing and flushing a packet; a packet the socket takes nothing of is dropped.  The debug
        checks fail exactly for the packets of two lengths that are not refused. */
    method Send(p: Packet) returns (result: int, checked: bool)
      requires Valid()
      modifies this`sent, socket`wire, socket`offers, outbuf, outbuf.data
      ensures Valid() && (outbuf.data == old(outbuf.data) || fresh(outbuf.data))
      ensures |p| <= BUF_SIZE && old(outbuf.size) == 0 ==>
                && |socket.offers| == |old(socket.offers)| + 1
                && var offer := socket.offers[|old(socket.offers)|];
                && offer.data == Frame(p) && offer.taken <= HEADER + |p|
                && (SenderView(), result) == old(SenderView()).Sends(p, offer.taken)
      ensures |p| > BUF_SIZE || old(outbuf.size) != 0 ==>
                && socket.offers == old(socket.offers)
                && (SenderView(), result) == old(SenderView()).Sends(p, 0)
      ensures old(SenderView()).Sound() ==> SenderView().Sound()
      ensures old(socket.wire) <= socket.wire && ReceiverView() == old(ReceiverView())
      ensures checked <==> (|p| <= 65538 && old(outbuf.size) == 0 ==> |p| <= 65536)
      ensures var asked := |p| <= 65538 && old(outbuf.size) == 0;
              var taken := if asked then socket.offers[|old(socket.offers)|].taken else 0;
              Told(old(SenderView()), p, taken, SenderView(), result)
    {
      hide Told;
      if |p| > BUF_SIZE || outbuf.size != 0 {
        SenderView().SendsResult(p, 0);
      }
      if |p| > BUF_SIZE {
        return -1, true;
      }
      if outbuf.size != 0 {
        return |p|, true;
      }
      checked := AppendFrame(p);
      var res := FlushOutBuffer();
      old(SenderView()).SendsResult(p, res);
      if old(SenderView()).Sound() {
        old(SenderView()).SendsSound(p, res);
      }
      if res <= 0 {
        outbuf.Clear();
        old(SenderView()).NothingFlushed();
        return res, checked;
      }
      sent := sent + [p];
      result := |p|;
    }

    /** Sends what is waiting; tells whether the sender was called back for more. */
    method OnWriteEvent() returns (ready: bool)
      requires Valid()
      modifies socket`wire, socket`offers, outbuf, outbuf.data
      ensures Valid()
      ensures ready <==> outbuf.size == 0
      ensures old(outbuf.size) == 0 ==> SenderView() == old(SenderView()) && socket.offers == old(socket.offers)
      ensures old(outbuf.size) > 0 ==>
                && |socket.offers| == |old(socket.offers)| + 1
                && var offer := socket.offers[|old(socket.offers)|];
                && offer.data == old(outbuf.Contents()) && offer.taken <= old(outbuf.size)
                && SenderView() == old(SenderView()).Flushed(if offer.taken > 0 then offer.taken else 0)
      ensures old(SenderView()).Sound() ==> SenderView().Sound()
      ensures old(socket.wire) <= socket.wire && ReceiverView() == old(ReceiverView())
    {
      if outbuf.size > 0 {
        var res := FlushOutBuffer();
        if old(SenderView()).Sound() {
          old(SenderView()).FlushedSound(if res > 0 then res else 0);
        }
      }
      ready := outbuf.size == 0;
    }

    // ------------------------------------------------------------ receiving

    /** Delivers the complete frames at the start of the data and moves the rest to the front. */
    method ProcessInput(data: array<byte>, size: nat) returns (len: nat)
      requires size <= data.Length
      modifies data, this`delivered
      ensures len <= size
      ensures data[..len] == Parse(old(data[..size])).1
      ensures delivered == old(delivered) + Parse(old(data[..size])).0
    {
      len := size;
      while len >= HEADER && len >= HEADER + Announced(data[..len])
        invariant len <= size
        invariant delivered + Parse(data[..len]).0 == old(delivered) + Parse(old(data[..size])).0
        invariant Parse(data[..len]).1 == Parse(old(data[..size])).1
        decreases len
      {
        ghost var before, given := data[..len], delivered;
        var end := HEADER + Announced(data[..len]);
        delivered := delivered + [before[HEADER..end]];
        len := len - end;
        if len > 0 {
          MoveDown(data, end, len);
        }
        assert data[..len] == before[end..];
        Assoc(given, [before[HEADER..end]], Parse(before[end..]).0);
      }
      assert delivered + [] == delivered;
    }

    /** Makes the input buffer grow when there is little room in it. */
    method MakeRoom() returns (freeSize: nat)
      requires Valid()
      modifies inbuf`data
      ensures Valid() && (inbuf.data == old(inbuf.data) || fresh(inbuf.data))
      ensures inbuf.size == old(inbuf.size) && inbuf.Contents() == old(inbuf.Contents())
      ensures freeSize == inbuf.Capacity() - inbuf.size
      ensures freeSize == 0 <==> inbuf.size == BUF_SIZE
      ensures Grown(old(inbuf.Capacity()), inbuf.size, inbuf.Capacity())
    {
      freeSize := inbuf.data.Length - inbuf.size;
      if freeSize < MINIMUM_RECV_SIZE && inbuf.data.Length < BUF_SIZE {
        inbuf.EnsureCapacity(if BUF_SIZE < inbuf.data.Length * 2 then BUF_SIZE else inbuf.data.Length * 2);
        freeSize := inbuf.data.Length - inbuf.size;
      }
    }

    /** One round: makes room, and takes what the socket puts into the free part of the buffer. */
    method ReceiveOnce() returns (freeSize: nat, len: int, ghost piece: seq<byte>)
      requires Valid()
      modifies socket`arrived, socket`recvs, inbuf, inbuf.data
      ensures Valid() && (inbuf.data == old(inbuf.data) || fresh(inbuf.data))
      ensures len <= freeSize && (freeSize == 0 <==> old(inbuf.size) == BUF_SIZE)
      ensures socket.recvs == old(socket.recvs) + [Reception(freeSize, len)]
      ensures |piece| == if len > 0 then len else 0
      ensures socket.arrived == old(socket.arrived) + piece
      ensures inbuf.Contents() == old(inbuf.Contents()) + piece
    {
      hide Grown;
      freeSize := MakeRoom();
      len := socket.Recv(inbuf.data, inbuf.size, freeSize);
      piece := if len > 0 then inbuf.data[inbuf.size..inbuf.size + len] else [];
      if len >= 0 {
        inbuf.SetSize(inbuf.size + len);
      }
    }

    /** Receives until the socket fails or leaves part of a window unused. */
    method ReceiveAll() returns (totalRecv: nat, ghost chunk: seq<byte>)
      requires Valid() && inbuf.size <= MAX_PACKET
      modifies socket`arrived, socket`recvs, inbuf, inbuf.data
      ensures Valid() && (inbuf.data == old(inbuf.data) || fresh(inbuf.data))
      ensures totalRecv == |chunk|
      ensures socket.arrived == old(socket.arrived) + chunk
      ensures inbuf.Contents() == old(inbuf.Contents()) + chunk
      ensures DrainedSince(socket.recvs, old(socket.recvs))
    {
      hide Draining, DrainedSince;
      NothingReceivedYet(socket.recvs);
      totalRecv, chunk := 0, [];
      var more := true;
      while more
        invariant Valid() && (inbuf.data == old(inbuf.data) || fresh(inbuf.data))
        invariant totalRecv == |chunk|
        invariant socket.arrived == old(socket.arrived) + chunk
        invariant inbuf.Contents() == old(inbuf.Contents()) + chunk
        invariant more ==> Draining(socket.recvs, old(socket.recvs))
        invariant more ==> inbuf.size <= MAX_PACKET || socket.recvs != old(socket.recvs)
        invariant !more ==> DrainedSince(socket.recvs, old(socket.recvs))
        decreases more, BUF_SIZE - inbuf.size
      {
        ghost var recvs := socket.recvs;
        var freeSize, len;
        ghost var piece;
        freeSize, len, piece := ReceiveOnce();
        DrainOne(recvs, old(socket.recvs), Reception(freeSize, len));
        totalRecv := totalRecv + if len > 0 then len else 0;
        if len <= 0 || len < freeSize {
          more := false;
        }
        Assoc(old(socket.arrived), chunk, piece);
        Assoc(old(inbuf.Contents()), chunk, piece);
        chunk := chunk + piece;
      }
    }

    /** Receives until the socket has no more for now, then delivers all complete frames.  The first
        window offered to the socket is never empty. */
    method OnReadEvent() returns (ghost chunk: seq<byte>)
      requires Valid() && ReceiverView().Sound()
      modifies this`delivered, socket`arrived, socket`recvs, inbuf, inbuf.data
      ensures Valid() && (inbuf.data == old(inbuf.data) || fresh(inbuf.data))
      ensures socket.arrived == old(socket.arrived) + chunk
      ensures ReceiverView() == old(ReceiverView()).Received(chunk)
      ensures ReceiverView().Sound() && inbuf.size <= MAX_PACKET
      ensures SenderView() == old(SenderView())
      ensures DrainedSince(socket.recvs, old(socket.recvs))
    {
      ghost var before := ReceiverView();
      LeftOver(before.arrived);
      var totalRecv;
      totalRecv, chunk := ReceiveAll();
      if totalRecv > 0 {
        var size := ProcessInput(inbuf.data, inbuf.size);
        inbuf.SetSize(size);
      } else {
        before.NothingReceived();
      }
      before.ReceivedSound(chunk);
      LeftOver(socket.arrived);
    }
  }

  /** Two sockets: what the one delivers is a prefix of what the other one has sent, as long as the
      network brings nothing but bytes that were taken from it, in their order; and all of it when
      nothing is waiting or under way.  Every method above keeps these conditions on its own end. */
  lemma DeliversWhatWasSent(a: AsyncTcpSocket, b: AsyncTcpSocket)
    requires a.Valid() && a.SenderView().Sound() && b.Valid() && b.ReceiverView().Sound()
    requires b.socket.arrived <= a.socket.wire
    requires forall p | p in a.sent :: |p| <= MAX_LENGTH
    ensures b.delivered <= a.sent
    ensures a.outbuf.size == 0 && b.socket.arrived == a.socket.wire ==> b.delivered == a.sent && b.inbuf.size == 0
  {
    Delivered(a.SenderView(), b.ReceiverView());
  }
}
