/** One client connection of kernel/tcp.c, from tcp_open to the end of tcp_close: tcp_connect, tcp_incoming_event,
    tcp_send, tcp_read and tcp_close, for segments with a 20-byte header. Sequence numbers are 32-bit. */
module Tcp {
  import opened Blocks

  const BUFSIZE := 8192

  /** A number as 32 bits hold it. */
  function Word(n: nat): (w: nat)
    ensures w < TWO32
    decreases n
  {
    if n < TWO32 then n else Word(n - TWO32)
  }

  datatype State = Closed | SynSent | Established | FinWait1 | FinWait2 | Closing | TimeWait | CloseWait | LastAck

  datatype Seg = Seg(seqno: nat, ack: nat, hasAck: bool, syn: bool, rst: bool, fin: bool, data: seq<Byte>)

  /** A segment sent: sequence and acknowledgement numbers, flags, window, and data length. */
  datatype Out = Out(seqno: nat, ack: nat, hasAck: bool, syn: bool, rst: bool, fin: bool, wnd: nat, len: nat)

  /** What tcp_read does: sleep, return 0, return -1 for a failed copy or a closed socket, or return bytes. */
  datatype Outcome = Blocks | Eof | Fault | Invalid | Bytes(data: seq<Byte>)

  // The window as the peer reads it off a segment.

  /** How far into a stream with initial number `isn` an acknowledgement number points. */
  function Offset(isn: nat, ack: nat): nat
    requires isn < TWO32
  {
    Word(ack + 2 * TWO32 - isn - 1)
  }

  predicate Advertises(o: Out) { o.hasAck || o.syn }

  /** The right edge of the window that segment `o` advertises, in bytes of the stream. */
  function RightEdge(isn: nat, o: Out): nat
    requires isn < TWO32
  {
    (if o.hasAck then Offset(isn, o.ack) else 0) + o.wnd
  }

  /** No right edge is left of an earlier one. */
  ghost predicate Rising(isn: nat, out: seq<Out>)
    requires isn < TWO32
  {
    forall i, j :: 0 <= i < j < |out| && Advertises(out[i]) && Advertises(out[j]) ==> RightEdge(isn, out[i]) <= RightEdge(isn, out[j])
  }

  ghost predicate Bounded(isn: nat, out: seq<Out>, edge: nat)
    requires isn < TWO32
  {
    forall i :: 0 <= i < |out| && Advertises(out[i]) ==> RightEdge(isn, out[i]) <= edge
  }

  lemma OffsetIs(isn: nat, a: nat)
    requires isn < TWO32 && a < TWO32
    ensures Offset(isn, Word(isn + 1 + a)) == a
  {
    Words(isn + 1 + a);
    Words(Word(isn + 1 + a) + 2 * TWO32 - isn - 1);
  }

  /** One more segment, whose right edge is the edge so far reached, keeps the edges rising. */
  lemma OneMore(isn: nat, out: seq<Out>, o: Out, edge: nat)
    requires isn < TWO32 && Rising(isn, out) && Bounded(isn, out, edge) && (Advertises(o) ==> RightEdge(isn, o) == edge)
    ensures Rising(isn, out + [o]) && Bounded(isn, out + [o], edge)
  {
    var more := out + [o];
    forall i, j | 0 <= i < j < |more| && Advertises(more[i]) && Advertises(more[j]) ensures RightEdge(isn, more[i]) <= RightEdge(isn, more[j]) {
      assert more[i] == out[i];
      if j < |out| { assert more[j] == out[j]; }
    }
    forall i | 0 <= i < |more| && Advertises(more[i]) ensures RightEdge(isn, more[i]) <= edge {
      if i < |out| { assert more[i] == out[i]; }
    }
  }

  /** The control block of a connection, and beside it what the peer has to send (`stream`, with its initial sequence
      number), how much of it was accepted (`got`, and `fin` for the FIN after it) and returned by tcp_read (`read`),
      how much we sent, and how often wakeup was called for the processes that sleep on the control block. */
  datatype View = View(
    used: bool, state: State, iss: nat, una: nat, nxt: nat, irs: nat, rnxt: nat, wnd: nat, buf: seq<Byte>, out: seq<Out>,
    stream: seq<Byte>, isn: nat, got: nat, fin: bool, read: nat, sent: nat, finSent: bool, wakes: nat) {

    ghost predicate Synced() { !state.Closed? && !state.SynSent? }

    /** The sequence numbers taken: bytes accepted, and the FIN. */
    ghost function Taken(): nat { got + if fin then 1 else 0 }

    /** The right edge of the receive buffer, one further once the FIN is in. */
    ghost function Edge(): nat { read + BUFSIZE + if fin then 1 else 0 }

    /** The buffer holds exactly the bytes accepted and not yet read. */
    ghost predicate Buffered()
    {
      && |buf| == BUFSIZE && read <= got <= |stream| && (fin ==> got == |stream|)
      && (!state.Closed? ==> got - read <= BUFSIZE && wnd == BUFSIZE - (got - read) && buf[..got - read] == stream[read..got])
      && (state.Closed? ==> wnd <= BUFSIZE && buf == Blank())
    }

    /** rcv.nxt counts the bytes accepted plus the FIN. */
    ghost predicate Received()
    {
      && (Synced() ==> irs == isn && rnxt == Word(isn + 1 + Taken()))
      && (!Synced() && used ==> got == 0 && !fin)
      && (!used ==> state.Closed?)
    }

    /** The segments sent: their right edges never move left, and none is beyond the buffer. */
    ghost predicate Advertised()
      requires isn < TWO32
    {
      Rising(isn, out) && Bounded(isn, out, Edge())
    }

    /** The states that take no data come after the peer's FIN. (FIN_WAIT1 goes to FIN_WAIT2 on FIN, so
        CLOSING is never entered.) */
    ghost predicate Phases()
    {
      (state.CloseWait? || state.LastAck? || state.TimeWait? || state.Closing? ==> fin) && (state.Established? || state.FinWait1? ==> !fin)
    }

    /** What was sent does not wrap around the 32-bit sequence numbers. */
    ghost predicate NoWrap() { iss + 1 + sent + (if finSent then 1 else 0) < TWO32 }

    ghost predicate Sending()
    {
      && iss <= 0x7ffffffd && una < TWO32 && nxt < TWO32
      && (state.SynSent? ==> nxt == iss + 1 && sent == 0 && !finSent)
      && (Synced() ==> nxt == Word(iss + 1 + sent + if finSent then 1 else 0))
      && (Synced() && NoWrap() ==> iss < una <= nxt)
      && (state.Established? || state.CloseWait? ==> !finSent)
    }

    ghost predicate Ok()
    {
      |stream| + 2 <= TWO32 && isn < TWO32 && Buffered() && Received() && Advertised() && Phases() && Sending()
    }

    /** Once established, iss < snd.una <= snd.nxt for under 2^31 bytes sent, whatever number rand gave. */
    lemma Unwrapped()
      requires Ok() && Synced() && sent < TWO32 / 2
      ensures NoWrap() && iss < una <= nxt == iss + 1 + sent + if finSent then 1 else 0
    {
    }

    /** In a synchronised state the numbers on the wire give the edge of the buffer. */
    lemma EdgeOnWire()
      requires Ok() && Synced()
      ensures Offset(isn, rnxt) + wnd == Edge() && Word(rnxt + wnd) == Word(isn + 1 + Edge())
    {
      OffsetIs(isn, Taken());
      AddWord(isn + 1 + Taken(), wnd);
    }

    /** Some segment sent advertised a window up to `end`. */
    ghost predicate InWindow(end: nat)
      requires isn < TWO32
    {
      exists i :: 0 <= i < |out| && Advertises(out[i]) && end <= RightEdge(isn, out[i])
    }

    lemma WithinEdge(end: nat)
      requires Ok() && InWindow(end)
      ensures end <= Edge()
    {
    }

    /** What a peer sends that has this stream and this initial sequence number, and whose data stay left of the
        right edge of some segment it may have got from us: `off` is the position of the segment in the stream.
        The acknowledgement number, and anything with RST, may be arbitrary; segments may be lost, repeated and
        reordered. */
    ghost predicate FromPeer(s: Seg, off: nat)
      requires isn < TWO32
    {
      && s.seqno < TWO32 && s.ack < TWO32
      && (s.rst
          || (s.syn && s.seqno == isn && s.data == [] && !s.fin)
          || (!s.syn && off <= |stream| + 1 && s.seqno == Word(isn + 1 + off)
              && if off == |stream| + 1 then s.data == [] && !s.fin
                 else off + |s.data| <= |stream| && s.data == stream[off..off + |s.data|] && InWindow(off + |s.data|)
                      && (s.fin ==> off + |s.data| == |stream|)))
    }

    /** What the peer may send it may still send later. */
    lemma StillFromPeer(w: View, s: Seg, off: nat)
      requires isn < TWO32 && FromPeer(s, off) && w.isn == isn && w.stream == stream && out <= w.out
      ensures w.FromPeer(s, off)
    {
      if InWindow(off + |s.data|) {
        var i :| 0 <= i < |out| && Advertises(out[i]) && off + |s.data| <= RightEdge(isn, out[i]);
        assert w.out[i] == out[i];
      }
    }

    // What each part of the code makes of the control block.

    ghost function Emit(o: Out): View { this.(out := out + [o]) }

    /** tcp_tx acknowledging rcv.nxt. */
    ghost function Ack(seqno: nat, f: bool, len: nat): View { Emit(Out(seqno, rnxt, true, false, false, f, wnd, len)) }

    ghost function Reset(seqno: nat, ack: nat): View { Emit(Out(seqno, ack, false, false, true, false, wnd, 0)) }

    ghost function Wake(): View { this.(wakes := wakes + 1) }

    /** tcp_cb_clear: the end of a connection, and of a tcp_close that slept. */
    ghost function Cleared(): View
    {
      this.(used := false, state := Closed, iss := 0, una := 0, nxt := 0, irs := 0, rnxt := 0, wnd := 0, buf := Blank())
    }

    /** tcp_connect up to its sleep, with the number that rand gave. */
    ghost function Connect(random: nat): View
    {
      if !used || state != Closed then this
      else this.(wnd := BUFSIZE, iss := random, nxt := random + 1, state := SynSent, sent := 0, finSent := false,
                 out := out + [Out(random, 0, false, true, false, false, BUFSIZE, 0)])
    }

    /** The CLOSED case: anything but RST is answered with RST. */
    ghost function Refuse(s: Seg): View
    {
      if s.rst then this
      else if s.hasAck then Reset(s.ack, 0)
      else Reset(0, Word(s.seqno + (if s.syn then 1 else 0) + |s.data| + (if s.fin then 1 else 0)))
    }

    /** The SYN_SENT case. */
    ghost function Shake(s: Seg): View
    {
      if s.hasAck && (s.ack <= iss || s.ack > nxt) then (if s.rst then this else Reset(s.ack, 0))
      else if s.rst || !s.syn then this
      else
        var v := this.(rnxt := Word(s.seqno + 1), irs := s.seqno);
        if s.hasAck then v.(una := s.ack, state := Established).Ack(nxt, false, 0).Wake()
        else v.Emit(Out(iss, Word(s.seqno + 1), true, false, false, false, wnd, 0))
    }

    /** A segment that the synchronised states look at. */
    ghost predicate Expected(s: Seg) { s.seqno == rnxt && !s.rst && !s.syn && s.hasAck }

    /** The acknowledgement goes on to the data and the FIN. */
    ghost predicate Passes(ack: nat) { state.TimeWait? || (!state.LastAck? && !state.Closing? && ack <= nxt) }

    /** The acknowledgement, in the synchronised states. In LAST_ACK the connection is over. */
    ghost function Acked(ack: nat): View
    {
      if state.LastAck? then Wake().Cleared()
      else if state.TimeWait? then this
      else if ack > nxt then Ack(nxt, false, 0)
      else
        var v := if una < ack then this.(una := ack) else this;
        if state.FinWait1? && ack == nxt then v.(state := FinWait2)
        else if state.Closing? && ack == nxt then v.(state := TimeWait).Wake()
        else v
    }

    /** The data at the end of the buffer. */
    ghost function Appended(data: seq<Byte>): View
      requires |buf| == BUFSIZE && |data| <= wnd <= BUFSIZE
    {
      this.(buf := Overlaid(buf, BUFSIZE - wnd, data), rnxt := Word(rnxt + |data|), wnd := wnd - |data|, got := got + |data|)
    }

    /** In the states that take data, these go to the end of the buffer and are acknowledged. */
    ghost function Fed(data: seq<Byte>): View
      requires |buf| == BUFSIZE && |data| <= wnd <= BUFSIZE
    {
      if data == [] || !Receives(state) then this
      else Appended(data).Ack(nxt, false, 0).Wake()
    }

    ghost function Ended(): View
    {
      var v := this.(rnxt := Word(rnxt + 1), fin := true).Ack(nxt, false, 0).(state := AfterFin(state));
      if AfterFin(state) == state || AfterFin(state).FinWait2? then v else v.Wake()
    }

    /** The segment's data fit the buffer, if they are to go there. */
    ghost predicate Roomy(s: Seg) { |buf| == BUFSIZE && (Synced() && Expected(s) && Passes(s.ack) ==> |s.data| <= wnd <= BUFSIZE) }

    /** A segment with the expected number, in the synchronised states. */
    ghost function Arrive(s: Seg): View
      requires Roomy(s) && Synced() && Expected(s)
    {
      if !Passes(s.ack) then Acked(s.ack)
      else var v := Acked(s.ack).Fed(s.data); if s.fin then v.Ended() else v
    }

    /** tcp_incoming_event. */
    ghost function Incoming(s: Seg): View
      requires Roomy(s)
    {
      if !used then this
      else if state.Closed? then Refuse(s)
      else if state.SynSent? then Shake(s)
      else if !Expected(s) then this
      else Arrive(s)
    }

    /** tcp_send of `len` bytes. */
    ghost function Sends(len: nat): View { Ack(nxt, false, len).(nxt := Word(nxt + len), sent := sent + len) }

    /** tcp_close up to its sleep. */
    ghost function Shuts(): View
    {
      if state.Established? || state.CloseWait?
      then Ack(nxt, true, 0).(state := if state.Established? then FinWait1 else LastAck, nxt := Word(nxt + 1), finSent := true)
      else Cleared()
    }

    /** tcp_read's memmove. */
    ghost function Took(len: nat): View
      requires wnd <= BUFSIZE == |buf| && len <= BUFSIZE - wnd
    {
      this.(buf := Shifted(buf, len, BUFSIZE - wnd), wnd := wnd + len, read := if state.Closed? then read else read + len)
    }

    // They keep the invariant.

    /** The window that such a segment advertises ends exactly where the buffer does, and no earlier one advertised
        more. */
    lemma AckOk(seqno: nat, f: bool, len: nat)
      requires Ok() && Synced()
      ensures var v := Ack(seqno, f, len); v.Ok() && RightEdge(isn, v.out[|out|]) == Edge() && Bounded(isn, v.out, RightEdge(isn, v.out[|out|]))
    {
      EdgeOnWire();
      OneMore(isn, out, Out(seqno, rnxt, true, false, false, f, wnd, len), Edge());
    }

    lemma ResetOk(seqno: nat, ack: nat)
      requires Ok()
      ensures Reset(seqno, ack).Ok()
    {
      OneMore(isn, out, Out(seqno, ack, false, false, true, false, wnd, 0), Edge());
    }

    lemma ClearedOk()
      requires Ok()
      ensures Cleared().Ok()
    {
    }

    lemma ConnectOk(random: nat)
      requires Ok() && random <= 0x7ffffffd
      ensures Connect(random).Ok()
    {
      if used && state.Closed? { OneMore(isn, out, Out(random, 0, false, true, false, false, BUFSIZE, 0), Edge()); }
    }

    lemma ShakeOk(s: Seg, off: nat)
      requires Ok() && used && state.SynSent? && FromPeer(s, off)
      ensures Shake(s).Ok()
      ensures Shake(s).state == if s.syn && !s.rst && s.hasAck && s.ack == iss + 1 then Established else SynSent
    {
      ResetOk(s.ack, 0);
      if s.hasAck {
        if iss < s.ack <= nxt { this.(rnxt := Word(isn + 1), irs := isn, una := s.ack, state := Established).AckOk(nxt, false, 0); }
      } else {
        OffsetIs(isn, 0);
        OneMore(isn, out, Out(iss, Word(isn + 1), true, false, false, false, wnd, 0), Edge());
      }
    }

    lemma AckedOk(ack: nat)
      requires Ok() && Synced() && ack < TWO32
      ensures Acked(ack).Ok() && (Passes(ack) ==> Acked(ack).Synced())
    {
      if state.LastAck? {
        Wake().ClearedOk();
      } else if !state.TimeWait? {
        if ack > nxt { AckOk(nxt, false, 0); } else { FinAckedOk(ack); }
      }
    }

    lemma FinAckedOk(ack: nat)
      requires Ok() && Synced() && !state.LastAck? && !state.TimeWait? && ack <= nxt
      ensures Acked(ack).Ok() && Acked(ack).Synced()
    {
      if una < ack { UnaOk(ack); }
      var v := if una < ack then this.(una := ack) else this;
      if state.FinWait1? && ack == nxt {
        v.MovedOk(FinWait2);
      } else if state.Closing? && ack == nxt {
        v.MovedOk(TimeWait);
      }
    }

    lemma UnaOk(ack: nat)
      requires Ok() && Synced() && una < ack <= nxt
      ensures this.(una := ack).Ok()
    {
    }

    lemma MovedOk(to: State)
      requires Ok() && ((state.FinWait1? && to.FinWait2?) || (state.Closing? && to.TimeWait?))
      ensures this.(state := to).Ok() && this.(state := to).Wake().Ok()
    {
    }

    lemma FedOk(data: seq<Byte>)
      requires Ok() && Synced() && (data != [] ==> !fin) && got + |data| <= |stream| && data == stream[got..got + |data|] && got + |data| <= read + BUFSIZE
      ensures |data| <= wnd <= BUFSIZE == |buf| && Fed(data).Ok() && Fed(data).Synced()
    {
      if data != [] && Receives(state) {
        AppendOk(data);
        Appended(data).AckOk(nxt, false, 0);
      }
    }

    lemma AppendBuffer(data: seq<Byte>)
      requires Buffered() && Synced() && !fin && got + |data| <= |stream| && data == stream[got..got + |data|] && got + |data| <= read + BUFSIZE
      ensures |data| <= wnd <= BUFSIZE == |buf| && Appended(data).Buffered()
    {
      OverlaidIs(buf, BUFSIZE - wnd, data, stream, read, got);
    }

    lemma AppendOk(data: seq<Byte>)
      requires Ok() && Synced() && !fin && got + |data| <= |stream| && data == stream[got..got + |data|] && got + |data| <= read + BUFSIZE
      ensures |data| <= wnd <= BUFSIZE == |buf| && Appended(data).Ok()
    {
      AppendBuffer(data);
      AddWord(isn + 1 + got, |data|);
    }

    ghost function Finished(): View { this.(rnxt := Word(rnxt + 1), fin := true, state := AfterFin(state)) }

    lemma FinishedOk()
      requires Ok() && Synced() && !fin && got == |stream|
      ensures Finished().Ok() && Finished().Synced()
    {
      AddWord(isn + 1 + got, 1);
      FurtherEdge(Edge(), Finished().Edge());
    }

    lemma EndedOk()
      requires Ok() && Synced() && !fin && got == |stream|
      ensures Ended().Ok()
    {
      FinishedOk();
      Finished().AckOk(nxt, false, 0);
      Finished().Ack(nxt, false, 0).WakeOk();
      var v := Finished().Ack(nxt, false, 0);
      assert Ended() == v || Ended() == v.Wake();
    }

    lemma WakeOk()
      requires Ok()
      ensures Wake().Ok()
    {
    }

    lemma FurtherEdge(e: nat, f: nat)
      requires isn < TWO32 && Bounded(isn, out, e) && e <= f
      ensures Bounded(isn, out, f)
    {
    }

    /** Where a segment with the expected number belongs in the stream: right after what was accepted. */
    lemma PlaceOf(s: Seg, off: nat)
      requires Ok() && Synced() && FromPeer(s, off) && Expected(s)
      ensures fin ==> s.data == [] && !s.fin
      ensures got + |s.data| <= |stream| && s.data == stream[got..got + |s.data|] && (s.data == [] || got + |s.data| <= read + BUFSIZE)
      ensures s.fin ==> got + |s.data| == |stream|
    {
      Place(stream, isn, got, fin, off);
    }

    /** Whatever the network does with what such a peer sent, the bytes accepted stay a prefix of its stream, in order
        and complete, and fit the buffer. */
    lemma IncomingOk(s: Seg, off: nat)
      requires Ok() && FromPeer(s, off)
      ensures Roomy(s) && Incoming(s).Ok()
    {
      if !used {
      } else if state.Closed? {
        RefuseOk(s);
      } else if state.SynSent? {
        ShakeOk(s, off);
      } else if Expected(s) {
        ArriveOk(s, off);
      }
    }

    lemma RefuseOk(s: Seg)
      requires Ok()
      ensures Refuse(s).Ok()
    {
      ResetOk(s.ack, 0);
      ResetOk(0, Word(s.seqno + (if s.syn then 1 else 0) + |s.data| + (if s.fin then 1 else 0)));
    }

    lemma ArriveOk(s: Seg, off: nat)
      requires Ok() && Synced() && FromPeer(s, off) && Expected(s)
      ensures Roomy(s) && Arrive(s).Ok()
    {
      PlaceOf(s, off);
      AckedOk(s.ack);
      AckedDoes(s.ack);
      if Passes(s.ack) {
        var v := Acked(s.ack);
        v.FedOk(s.data);
        v.FedDoes(s.data);
        if s.fin { v.Fed(s.data).EndedOk(); }
      }
    }

    /** The next segment of the stream, in a state that receives, with a possible acknowledgement. */
    ghost predicate InOrder(s: Seg) { Receives(state) && Expected(s) && s.ack <= nxt }

    lemma AckedDoes(ack: nat)
      requires Synced()
      ensures var v := Acked(ack);
        && v.stream == stream && v.isn == isn && v.read == read && v.got == got && v.fin == fin && out <= v.out && (v.used <==> used && !state.LastAck?)
        && (!state.LastAck? ==> v.iss == iss && v.nxt == nxt && v.rnxt == rnxt && v.wnd == wnd && v.buf == buf && v.sent == sent && v.finSent == finSent)
        && v.una == (if state.LastAck? then 0 else if !state.TimeWait? && una < ack <= nxt then ack else una)
        && (Passes(ack) ==> v.out == out && v.wakes == wakes && v.state == if state.FinWait1? && ack == nxt then FinWait2 else state)
        && (!Passes(ack) ==> v.state == if state.LastAck? then Closed else if state.Closing? && ack == nxt then TimeWait else state)
        && (v.wakes > wakes <==> v.state != state && !v.state.FinWait2?) && v.wakes >= wakes
    {
    }

    lemma FedDoes(data: seq<Byte>)
      requires |buf| == BUFSIZE && |data| <= wnd <= BUFSIZE && (data == [] || Receives(state))
      ensures var v := Fed(data);
        && v == this.(out := v.out, wakes := v.wakes, got := v.got, rnxt := v.rnxt, wnd := v.wnd, buf := v.buf)
        && out <= v.out && v.got == got + |data| && (v.wakes > wakes <==> data != [])
        && (if data != [] then |v.out| > |out| && v.out[|v.out| - 1].ack == v.rnxt && v.out[|v.out| - 1].wnd == v.wnd else v == this)
    {
    }

    lemma EndedDoes()
      ensures var v := Ended();
        && v == this.(out := v.out, wakes := v.wakes, rnxt := v.rnxt, fin := true, state := AfterFin(state))
        && out <= v.out && |v.out| > |out| && v.out[|v.out| - 1].ack == v.rnxt && v.out[|v.out| - 1].wnd == v.wnd
        && (v.wakes > wakes <==> v.state != state && !v.state.FinWait2?) && v.wakes >= wakes
    {
    }

    /** What the segment with the expected number does. */
    lemma ArriveDoes(s: Seg)
      requires used && Synced() && Expected(s) && Roomy(s) && (fin ==> s.data == [] && !s.fin) && (!Receives(state) ==> fin)
      ensures var v := Arrive(s);
        && v.stream == stream && v.isn == isn && v.read == read && out <= v.out && (v.used <==> !state.LastAck?)
        && (v.used ==> v.iss == iss && v.nxt == nxt && v.sent == sent && v.finSent == finSent) && v.state == Next(state, s, rnxt, nxt)
        && (v.wakes > wakes <==> v.got > got || (v.state != state && !v.state.FinWait2?)) && v.wakes >= wakes
      ensures Accepts(s, Arrive(s))
    {
      AckedDoes(s.ack);
      if Passes(s.ack) {
        var v := Acked(s.ack);
        v.FedDoes(s.data);
        if s.fin { v.Fed(s.data).EndedDoes(); }
      }
    }

    /** From here to `v` the segment was accepted and acknowledged if it was in order, and otherwise not. */
    ghost predicate Accepts(s: Seg, v: View)
    {
      if InOrder(s) then
        && v.got == got + |s.data| && (v.fin <==> fin || s.fin) && v.una == (if s.ack > una then s.ack else una)
        && (s.data != [] || s.fin ==> |v.out| > |out| && v.out[|v.out| - 1].ack == v.rnxt && v.out[|v.out| - 1].wnd == v.wnd)
      else
        v.got == got && v.fin == fin && (Receives(state) ==> v.una == una && v.rnxt == rnxt && v.wnd == wnd && v.buf == buf)
    }

    lemma ShakeDoes(s: Seg)
      requires state.SynSent? && nxt == iss + 1
      ensures var v := Shake(s);
        && v == this.(out := v.out, wakes := v.wakes, rnxt := v.rnxt, irs := v.irs, una := v.una, state := v.state) && out <= v.out
        && v.state == (if s.syn && !s.rst && s.hasAck && s.ack == iss + 1 then Established else SynSent)
        && (v.wakes > wakes <==> v.state.Established?) && v.wakes >= wakes
    {
    }

    /** What a segment does: the next one in order is accepted and acknowledged, and no other is; the state moves as
        Next says; snd.nxt and iss stay; and sleepers are woken exactly when data came or the state changed, other
        than to FIN_WAIT2. */
    lemma IncomingDoes(s: Seg, off: nat)
      requires Ok() && FromPeer(s, off) && Roomy(s)
      ensures var v := Incoming(s);
        && v.stream == stream && v.isn == isn && v.read == read && out <= v.out && (v.used <==> used && !(state.LastAck? && Expected(s)))
        && (v.used ==> v.iss == iss && v.nxt == nxt && v.sent == sent && v.finSent == finSent)
        && (used && state.SynSent? ==> v.state == if s.syn && !s.rst && s.hasAck && s.ack == iss + 1 then Established else SynSent)
        && (used && Synced() ==> v.state == Next(state, s, rnxt, nxt))
        && (v.wakes > wakes <==> v.got > got || (v.state != state && !v.state.FinWait2?)) && v.wakes >= wakes
      ensures Accepts(s, Incoming(s))
    {
      if used && state.SynSent? {
        ShakeDoes(s);
      } else if used && Synced() && Expected(s) {
        PlaceOf(s, off);
        ArriveDoes(s);
      }
    }

    /** tcp_send: starting from iss < snd.una <= snd.nxt, and with fewer than 2^32 bytes unacknowledged, that order is
        kept exactly if snd.nxt does not wrap. */
    lemma SendsOk(len: nat)
      requires Ok() && (state.Established? || state.CloseWait?)
      ensures Sends(len).Ok()
      ensures NoWrap() ==> (Sends(len).NoWrap() <==> nxt + len < TWO32)
      ensures NoWrap() && nxt - una + len < TWO32 ==> (una <= Sends(len).nxt <==> Sends(len).NoWrap())
    {
      AckOk(nxt, false, len);
      Counting(iss + 1 + sent, len, una);
    }

    lemma ShutsOk()
      requires Ok()
      ensures Shuts().Ok()
    {
      ClearedOk();
      if state.Established? || state.CloseWait? {
        AckOk(nxt, true, 0);
        Counting(iss + 1 + sent, 1, una);
      }
    }

    /** The bytes that leave the buffer are the next ones of the stream, none skipped and none twice; a socket that was
        never connected yields zeros. */
    lemma TookOk(len: nat)
      requires Ok() && wnd <= BUFSIZE && len <= BUFSIZE - wnd
      ensures Took(len).Ok()
      ensures if state.Closed? then buf[..len] == Blank()[..len] else read + len <= got && buf[..len] == stream[read..read + len]
    {
      TookBuffer(len);
      TookRest(len);
    }

    lemma TookRest(len: nat)
      requires Received() && Phases() && Sending() && isn < TWO32 && Advertised() && wnd <= BUFSIZE == |buf| && len <= BUFSIZE - wnd
      ensures var v := Took(len); v.Received() && v.Phases() && v.Sending() && v.Advertised()
    {
      FurtherEdge(Edge(), Took(len).Edge());
    }

    lemma TookBuffer(len: nat)
      requires Buffered() && wnd <= BUFSIZE && len <= BUFSIZE - wnd
      ensures Took(len).Buffered()
      ensures if state.Closed? then buf[..len] == Blank()[..len] else read + len <= got && buf[..len] == stream[read..read + len]
    {
      if state.Closed? { ShiftBlank(len, BUFSIZE - wnd); } else { Shift(buf, len, BUFSIZE - wnd, stream, read, got); }
    }

    /** Both ends have closed, the peer's FIN came before the acknowledgement of ours, and everything was read. */
    ghost predicate Stuck() { Ok() && used && state.FinWait2? && fin && read == |stream| }
  }

  /** The control block after these segments. */
  ghost function After(v: View, segs: seq<Seg>): View
    decreases |segs|
  {
    if segs == [] then v else if !v.Roomy(segs[0]) then v else After(v.Incoming(segs[0]), segs[1..])
  }

  /** Once stuck, whatever the peer sends, it stays stuck, and nobody who sleeps on the control block is woken: not
      tcp_close, and not tcp_read, which would only sleep again. */
  lemma {:induction false} StuckForEver(v: View, segs: seq<Seg>, offs: seq<nat>)
    requires v.Stuck() && |offs| == |segs| && forall i :: 0 <= i < |segs| ==> v.FromPeer(segs[i], offs[i])
    ensures After(v, segs).Stuck() && After(v, segs).wakes == v.wakes
    decreases |segs|
  {
    if segs != [] {
      var w := StuckOn(v, segs[0], offs[0]);
      forall i | 0 <= i < |segs[1..]| ensures w.FromPeer(segs[1..][i], offs[1..][i]) { v.StillFromPeer(w, segs[i + 1], offs[i + 1]); }
      StuckForEver(w, segs[1..], offs[1..]);
    }
  }

  lemma StuckOn(v: View, s: Seg, off: nat) returns (w: View)
    requires v.Stuck() && v.FromPeer(s, off)
    ensures v.Roomy(s) && w == v.Incoming(s) && w.Stuck() && w.wakes == v.wakes && w.isn == v.isn && w.stream == v.stream && v.out <= w.out
  {
    v.IncomingOk(s, off);
    v.IncomingDoes(s, off);
    w := v.Incoming(s);
    if v.Expected(s) { v.PlaceOf(s, off); }
  }

  /** The part of a view that is not in the control block. */
  datatype History = History(stream: seq<Byte>, isn: nat, got: nat, fin: bool, read: nat, sent: nat, finSent: bool, wakes: nat)

  class Conn {
    var used: bool
    var state: State
    var iss: nat
    var una: nat
    var nxt: nat
    var irs: nat
    var rnxt: nat
    var wnd: nat
    var buf: seq<Byte>
    var out: seq<Out>

    ghost var h: History

    ghost function V(): View
      reads this
    {
      View(used, state, iss, una, nxt, irs, rnxt, wnd, buf, out, h.stream, h.isn, h.got, h.fin, h.read, h.sent, h.finSent, h.wakes)
    }

    ghost predicate Valid() reads this { V().Ok() }

    /** A control block that tcp_open has just given out. */
    constructor (ghost s: seq<Byte>, ghost n: nat)
      requires |s| + 2 <= TWO32 && n < TWO32
      ensures Valid() && V() == View(true, Closed, 0, 0, 0, 0, 0, 0, Blank(), [], s, n, 0, false, 0, 0, false, 0)
    {
      used, state, iss, una, nxt, irs, rnxt, wnd, buf, out := true, Closed, 0, 0, 0, 0, 0, 0, Blank(), [];
      h := History(s, n, 0, false, 0, 0, false, 0);
    }

    /** tcp_tx. */
    method Tx(o: Out)
      modifies this`out
      ensures V() == old(V()).Emit(o)
    {
      out := out + [o];
    }

    method TxAck(seqno: nat, f: bool, len: nat)
      modifies this`out
      ensures V() == old(V()).Ack(seqno, f, len)
    {
      Tx(Out(seqno, rnxt, true, false, false, f, wnd, len));
    }

    method TxReset(seqno: nat, ack: nat)
      modifies this`out
      ensures V() == old(V()).Reset(seqno, ack)
    {
      Tx(Out(seqno, ack, false, false, true, false, wnd, 0));
    }

    ghost method Wake()
      modifies this`h
      ensures V() == old(V()).Wake()
    {
      h := h.(wakes := h.wakes + 1);
    }

    method Clear()
      modifies this
      ensures V() == old(V()).Cleared()
    {
      used, state, iss, una, nxt, irs, rnxt, wnd, buf := false, Closed, 0, 0, 0, 0, 0, 0, Blank();
    }

    method Connect(random: nat) returns (ok: bool)
      requires Valid() && random <= 0x7ffffffd
      modifies this
      ensures Valid() && (ok <==> old(used) && old(state) == Closed) && V() == old(V()).Connect(random)
    {
      V().ConnectOk(random);
      ok := used && state.Closed?;
      if ok { Open(random); }
    }

    method Open(random: nat)
      requires used && state.Closed?
      modifies this
      ensures V() == old(V()).Connect(random)
    {
      wnd, iss := BUFSIZE, random;
      h := h.(sent := 0, finSent := false);
      out := out + [Out(iss, 0, false, true, false, false, wnd, 0)];
      nxt, state := iss + 1, SynSent;
    }

    /** tcp_rx and tcp_incoming_event, for any segment of such a peer. */
    method Incoming(s: Seg, ghost off: nat)
      requires Valid() && V().FromPeer(s, off)
      modifies this
      ensures old(V()).Roomy(s) && V() == old(V()).Incoming(s) && Valid()
    {
      V().IncomingOk(s, off);
      if !used {
        return;
      } else if state.Closed? {
        ResetSender(s);
      } else if state.SynSent? {
        Handshake(s);
      } else if s.seqno == rnxt && !s.rst && !s.syn && s.hasAck {
        Arrives(s);
      }
    }

    /** A segment with the expected number, in the synchronised states. */
    method Arrives(s: Seg)
      requires V().Synced() && V().Expected(s) && V().Roomy(s)
      modifies this
      ensures V() == old(V()).Arrive(s)
    {
      var more := AckArrives(s.ack);
      if more {
        DataArrives(s.data);
        if s.fin { FinArrives(); }
      }
    }

    method ResetSender(s: Seg)
      modifies this`out
      ensures V() == old(V()).Refuse(s)
    {
      if !s.rst {
        if s.hasAck {
          TxReset(s.ack, 0);
        } else {
          var a := s.seqno + (if s.syn then 1 else 0) + |s.data| + (if s.fin then 1 else 0);
          TxReset(0, Word(a));
        }
      }
    }

    method Handshake(s: Seg)
      modifies this
      ensures V() == old(V()).Shake(s)
    {
      if s.hasAck && (s.ack <= iss || s.ack > nxt) {
        if !s.rst { TxReset(s.ack, 0); }
      } else if !s.rst && s.syn {
        rnxt, irs := Word(s.seqno + 1), s.seqno;
        if s.hasAck {
          una := s.ack;
          if una > iss {
            state := Established;
            TxAck(nxt, false, 0);
            Wake();
          }
        } else {
          Tx(Out(iss, rnxt, true, false, false, false, wnd, 0));
        }
      }
    }

    method AckArrives(ack: nat) returns (more: bool)
      modifies this
      ensures V() == old(V()).Acked(ack) && more == old(V()).Passes(ack)
    {
      more := true;
      if state.LastAck? {
        Wake();
        Clear();
        more := false;
      } else if !state.TimeWait? {
        if una < ack <= nxt { una := ack; }
        if ack > nxt {
          TxAck(nxt, false, 0);
          more := false;
        } else if state.FinWait1? {
          if ack == nxt { state := FinWait2; }
        } else if state.Closing? {
          if ack == nxt {
            state := TimeWait;
            Wake();
          }
          more := false;
        }
      }
    }

    method DataArrives(data: seq<Byte>)
      requires |buf| == BUFSIZE && |data| <= wnd <= BUFSIZE
      modifies this
      ensures V() == old(V()).Fed(data)
    {
      if |data| > 0 && Receives(state) {
        buf := Overlaid(buf, BUFSIZE - wnd, data);
        rnxt := Word(rnxt + |data|);
        wnd := wnd - |data|;
        h := h.(got := h.got + |data|);
        TxAck(nxt, false, 0);
        Wake();
      }
    }

    method FinArrives()
      modifies this
      ensures V() == old(V()).Ended()
    {
      rnxt := Word(rnxt + 1);
      h := h.(fin := true);
      TxAck(nxt, false, 0);
      if state.Established? {
        state := CloseWait;
        Wake();
      } else if state.FinWait1? {
        state := FinWait2;
      } else if state.FinWait2? {
        state := TimeWait;
        Wake();
      }
    }

    method Send(len: nat) returns (ok: bool)
      requires Valid()
      modifies this`out, this`nxt, this`h
      ensures Valid() && (ok <==> state.Established? || state.CloseWait?) && V() == if ok then old(V()).Sends(len) else old(V())
    {
      ok := state.Established? || state.CloseWait?;
      if ok {
        V().SendsOk(len);
        TxAck(nxt, false, len);
        nxt := Word(nxt + len);
        h := h.(sent := h.sent + len);
      }
    }

    /** tcp_read of at most `size` bytes. The end of the stream is reported only when everything was read; when
        everything was read, it is reported exactly unless the state is FIN_WAIT2, where the reader sleeps. */
    method Read(size: nat, writable: bool) returns (r: Outcome)
      requires Valid()
      modifies this`buf, this`wnd, this`h
      ensures Valid() && (r.Invalid? <==> !used) && old(wnd) <= BUFSIZE == old(|buf|)
      ensures if r.Bytes? then |r.data| <= BUFSIZE - old(wnd) && V() == old(V()).Took(|r.data|) else V() == old(V())
      ensures !state.Closed? ==> (r.Bytes? <==> h.got > old(h.read) && writable)
      ensures !state.Closed? && r.Bytes? ==>
        h.read == old(h.read) + |r.data| <= h.got && r.data == h.stream[old(h.read)..h.read] && |r.data| == Least(size, h.got - old(h.read))
      ensures !state.Closed? ==> (r.Blocks? <==> old(h.read) == h.got && Receives(state)) && (r.Eof? <==> old(h.read) == h.got && !Receives(state))
      ensures V().Synced() && r.Eof? ==> h.fin && h.read == |h.stream|
      ensures V().Synced() && h.fin && old(h.read) == |h.stream| ==> (r.Eof? <==> state != FinWait2)
      ensures state.Closed? ==> h.read == old(h.read) && (r.Bytes? ==> |r.data| <= BUFSIZE && r.data == Blank()[..|r.data|])
      ensures state.Closed? && used && old(wnd) == 0 && writable ==> r.Bytes? && |r.data| == Least(size, BUFSIZE)
    {
      var total := BUFSIZE - wnd;
      if !used {
        r := Invalid;
      } else if total == 0 {
        if Receives(state) { r := Blocks; } else { r := Eof; }
      } else if !writable {
        r := Fault;
      } else {
        V().TookOk(Least(size, total));
        var data := Take(Least(size, total));
        r := Bytes(data);
      }
    }

    /** The first `len` bytes leave the buffer. */
    method Take(len: nat) returns (data: seq<Byte>)
      requires wnd <= BUFSIZE == |buf| && len <= BUFSIZE - wnd
      modifies this`buf, this`wnd, this`h
      ensures V() == old(V()).Took(len) && data == old(buf)[..len]
    {
      data := buf[..len];
      buf := Shifted(buf, len, BUFSIZE - wnd);
      wnd := wnd + len;
      if !state.Closed? { h := h.(read := h.read + len); }
    }

    /** tcp_close up to its sleep: FIN is sent once, from the states that may still send; in the others the control
        block is cleared at once. */
    method Close() returns (sleeps: bool)
      requires Valid()
      modifies this
      ensures Valid() && (sleeps <==> old(state) == Established || old(state) == CloseWait) && V() == old(V()).Shuts()
    {
      V().ShutsOk();
      sleeps := state.Established? || state.CloseWait?;
      if sleeps { SendFin(); } else { Clear(); }
    }

    method SendFin()
      requires state.Established? || state.CloseWait?
      modifies this
      ensures V() == old(V()).Shuts()
    {
      TxAck(nxt, true, 0);
      state := if state.Established? then FinWait1 else LastAck;
      nxt := Word(nxt + 1);
      h := h.(finSent := true);
    }
  }

  /** The segments of a peer that closes without having seen our FIN: its SYN with the acknowledgement of ours, and
      its data with its FIN. */
  function SynAck(n: nat, random: nat): Seg { Seg(n, random + 1, true, true, false, false, []) }

  function DataFin(s: seq<Byte>, n: nat, random: nat): Seg { Seg(Word(n + 1), random + 1, true, false, false, true, s) }

  lemma Together(v: View, random: nat)
    requires v.Ok() && v.used && v.state.Closed? && v.out == [] && v.read == 0 && random <= 0x7ffffffd && |v.stream| <= BUFSIZE
    ensures v.Connect(random).Ok() && v.Connect(random).FromPeer(SynAck(v.isn, random), 0) && v.Connect(random).Roomy(SynAck(v.isn, random))
    ensures var b := v.Connect(random).Incoming(SynAck(v.isn, random)).Shuts();
      && b.Ok() && b.used && b.state.FinWait1? && b.nxt == random + 2 && b.read == 0 && b.got == 0 && b.stream == v.stream && b.isn == v.isn
      && b.FromPeer(DataFin(v.stream, v.isn, random), 0) && b.InOrder(DataFin(v.stream, v.isn, random))
  {
    var a, syn := v.Connect(random), SynAck(v.isn, random);
    v.ConnectOk(random);
    a.IncomingOk(syn, 0);
    a.IncomingDoes(syn, 0);
    var e := a.Incoming(syn);
    e.ShutsOk();
    assert e.out[0] == a.out[0] == Out(random, 0, false, true, false, false, BUFSIZE, 0);
    assert e.Shuts().out[0] == e.out[0];
    assert e.Shuts().InWindow(|v.stream|);
  }

  /** A run to a stuck connection, for every peer with a stream that fits the buffer and every number that rand may
      give: handshake, tcp_close, the data and the FIN of a peer that has not seen ours, tcp_read. If the peer sent no
      data, nobody has woken tcp_close, which went to sleep when the count of wakeups was `w`. */
  method ClosedTogether(s: seq<Byte>, n: nat, random: nat) returns (c: Conn, ghost w: nat)
    requires |s| <= BUFSIZE && n < TWO32 && random <= 0x7ffffffd
    ensures fresh(c) && c.V().stream == s && c.V().Stuck() && (s == [] ==> c.V().wakes == w)
  {
    c := new Conn(s, n);
    Together(c.V(), random);
    var _ := c.Connect(random);
    c.Incoming(SynAck(n, random), 0);
    var _ := c.Close();
    ghost var b := c.V();
    w := b.wakes;
    c.Incoming(DataFin(s, n, random), 0);
    b.IncomingDoes(DataFin(s, n, random), 0);
    var _ := c.Read(BUFSIZE, true);
  }

  function Blank(): (b: seq<Byte>)
    ensures |b| == BUFSIZE
  {
    seq(BUFSIZE, _ => 0)
  }

  function Least(a: nat, b: nat): nat { if a < b then a else b }

  /** The connection's state once the peer's FIN is in. */
  function AfterFin(s: State): State
  {
    if s.Established? then CloseWait else if s.FinWait1? then FinWait2 else if s.FinWait2? then TimeWait else s
  }

  /** The connection's state after segment `s`, given snd.nxt. */
  function Moved(state: State, s: Seg, nxt: nat): State
  {
    var acked := if state.FinWait1? && s.ack == nxt then FinWait2 else state;
    if s.fin then AfterFin(acked) else acked
  }

  /** The connection's state after any segment, in the synchronised states. */
  function Next(state: State, s: Seg, rnxt: nat, nxt: nat): State
  {
    if s.seqno != rnxt || s.rst || s.syn || !s.hasAck then state
    else if state.LastAck? then Closed
    else if state.TimeWait? || s.ack > nxt then state
    else if state.Closing? then (if s.ack == nxt then TimeWait else state)
    else Moved(state, s, nxt)
  }

  /** TCP_CB_STATE_RX_ISREADY. */
  predicate Receives(s: State) { s.Established? || s.FinWait1? || s.FinWait2? }

  /** A segment whose sequence number is rcv.nxt is the next one: 32-bit numbers of a stream shorter than
      2^32 - 1 do not repeat. */
  lemma Place(stream: seq<Byte>, isn: nat, got: nat, fin: bool, off: nat)
    requires |stream| + 2 <= TWO32 && got <= |stream| && (fin ==> got == |stream|)
    ensures off <= |stream| + 1 && Word(isn + 1 + off) == Word(isn + 1 + got + if fin then 1 else 0) ==>
      off == got + if fin then 1 else 0
  {
    var next := got + if fin then 1 else 0;
    if off <= |stream| + 1 && Word(isn + 1 + off) == Word(isn + 1 + next) { SameWord(isn + 1 + off, isn + 1 + next); }
  }

  lemma SameWord(a: nat, b: nat)
    requires Word(a) == Word(b) && -TWO32 < a - b < TWO32
    ensures a == b
  {
    Words(a);
    Words(b);
  }

  lemma AddWord(a: nat, k: nat)
    ensures Word(Word(a) + k) == Word(a + k)
  {
    Words(a);
    Multiple(a / TWO32, Word(a) + k);
  }

  lemma {:induction false} Multiple(q: nat, r: nat)
    ensures Word(TWO32 * q + r) == Word(r)
  {
    if q > 0 { Multiple(q - 1, r); }
  }

  /** Word is the remainder modulo 2^32. */
  lemma {:induction false} Words(n: nat)
    ensures Word(n) == n % TWO32 && n == TWO32 * (n / TWO32) + Word(n)
  {
    if n >= TWO32 { Words(n - TWO32); }
  }

  /** snd.nxt, 32 bits of the `total` so far, after `len` more. */
  lemma Counting(total: nat, len: nat, una: nat)
    ensures Word(Word(total) + len) == Word(total + len)
    ensures una <= total < TWO32 <= total + len && total - una + len < TWO32 ==> Word(total + len) < una
  {
    AddWord(total, len);
  }

  /** memcpy of `data` to offset `o`. */
  function Overlaid(buf: seq<Byte>, o: nat, data: seq<Byte>): seq<Byte>
    requires o + |data| <= |buf|
  {
    buf[..o] + data + buf[o + |data|..]
  }

  lemma OverlaidIs(buf: seq<Byte>, o: nat, data: seq<Byte>, stream: seq<Byte>, read: nat, got: nat)
    requires o + |data| <= |buf| && o == got - read && read <= got && got + |data| <= |stream|
    requires buf[..o] == stream[read..got] && data == stream[got..got + |data|]
    ensures |Overlaid(buf, o, data)| == |buf| && Overlaid(buf, o, data)[..o + |data|] == stream[read..got + |data|]
  {
    assert Overlaid(buf, o, data)[..o + |data|] == buf[..o] + data;
  }

  /** memmove of the first `total` bytes down by `len`. */
  function Shifted(buf: seq<Byte>, len: nat, total: nat): (r: seq<Byte>)
    requires len <= total <= |buf|
    ensures |r| == |buf|
  {
    buf[len..total] + buf[total - len..]
  }

  lemma ShiftBlank(len: nat, total: nat)
    requires len <= total <= BUFSIZE
    ensures Shifted(Blank(), len, total) == Blank()
  {
  }

  lemma Shift(buf: seq<Byte>, len: nat, total: nat, stream: seq<Byte>, read: nat, got: nat)
    requires len <= total == got - read && total <= |buf| && read <= got <= |stream| && buf[..total] == stream[read..got]
    ensures buf[..len] == stream[read..read + len]
    ensures Shifted(buf, len, total)[..total - len] == stream[read + len..got]
  {
    assert buf[..len] == buf[..total][..len] && stream[read..got][..len] == stream[read..read + len];
    assert buf[len..total] == buf[..total][len..] && stream[read..got][len..] == stream[read + len..got];
    assert Shifted(buf, len, total)[..total - len] == buf[len..total];
  }
}
