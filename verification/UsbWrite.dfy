/** ffs_transport_thread_usb_write of mtp-responder/mtp_usb_driver_nuttx.c: the
    thread that takes packets off a message queue and writes them to the USB
    endpoints, doing what UsbRun says. */
module UsbWrite {
  import opened UsbPackets
  import opened UsbRun
  import opened Options
  import opened Words

  lemma ReceivedToSend(r: Run)
    requires r.queue != [] && FateOf(r.queue[0].kind) == InHand && r.written == 0
    ensures var q := Received(r);
      && Sending(q) && Current(q) == r.queue[0] && q.queue == r.queue[1..] && q.mtpBuf == r.queue[0].buffer
      && q.written == 0 && q.accepted == r.accepted && q.freed == r.freed
  {
  }

  lemma OneAttempt(m: Machine, ts: seq<Turn>)
    requires Sending(m.run) && m.run.written < |Current(m.run).bytes| && ts != []
    ensures var a := Attempted(Arrived(m.run, ts[0].arrivals), ts[0]);
      Steps(Machine(Settled(m.run), m.status), ts) == Steps(Machine(Settled(a.run), a.status), ts[1..])
  {
  }

  lemma OneReceive(m: Machine, ts: seq<Turn>)
    requires Sane(m.run) && m.run.inHand.None? && m.status >= 0 && ts != []
    ensures var r, t := Arrived(m.run, ts[0].arrivals), ts[0];
      Steps(m, ts) == Steps(
        if r.queue == [] then Machine(r, m.status)
        else if FateOf(r.queue[0].kind) == InHand then Machine(Settled(Received(r)), m.status)
        else Machine(Received(r), if t.write.Fails? || r.queue[0].kind == Invalid then -1 else 0), ts[1..])
  {
  }

  lemma {:induction false} OverStays(m: Machine, ts: seq<Turn>)
    requires Sane(m.run) && (ts == [] || Over(m))
    ensures Steps(m, ts) == m
    decreases ts
  {
    if ts != [] {
      OverStays(m, ts[1..]);
    }
  }

  class Transmitter {
    var queue: seq<Packet>
    var status: int
    var written: nat
    var mtpBuf: Option<nat>
    // the outside world: what the bulk-in endpoint has taken, and the calls of g_free
    var accepted: seq<Byte>
    var freed: multiset<nat>
    // the history, for the specification
    ghost var run: Run

    /** The fields are those of the run. */
    ghost predicate Valid()
      reads this
    {
      && Consistent(run)
      && run.queue == queue && run.written == written && run.mtpBuf == mtpBuf
      && run.accepted == accepted && run.freed == freed
    }

    ghost function State(): Machine
      reads this
    {
      Machine(run, status)
    }

    constructor ()
      ensures Valid() && State() == Machine(START, 0)
    {
      queue, status, written, mtpBuf := [], 0, 0, None;
      accepted, freed, run := [], multiset{}, START;
    }

    /** Other threads queue packets. */
    method Arrive(ps: seq<Packet>)
      requires Valid()
      modifies this`queue, this`run
      ensures Valid() && run == Arrived(old(run), ps) && run.inHand == old(run.inHand)
    {
      hide Consistent;
      ArrivedKeeps(run, ps);
      queue := queue + ps;
      run := Arrived(run, ps);
    }

    /** g_free, which ignores NULL. */
    method Free(b: Option<nat>)
      modifies this`freed
      ensures freed == old(freed) + Held(b)
    {
      if b.Some? {
        freed := freed + multiset{b.value};
      }
    }

    /** __clean_up_msg_queue (lines 311-324). */
    method CleanUpMsgQueue()
      requires Valid()
      modifies this`queue, this`freed, this`run
      ensures Valid() && queue == [] && run == PurgedAll(old(run))
    {
      hide Consistent;
      while queue != []
        invariant Valid() && PurgedAll(run) == PurgedAll(old(run))
        decreases |queue|
      {
        var pkt := queue[0];
        PurgedKeeps(run);
        run := PurgedOne(run);
        queue := queue[1..];
        Free(pkt.buffer);
      }
    }

    /** write (g_usb_ep_in, mtp_buf + written, len - written), when it accepts at most n bytes (lines 199, 207). */
    method WriteBulkIn(p: Packet, n: nat) returns (count: nat)
      requires Valid() && Sending(run) && Current(run) == p
      modifies this`accepted, this`written, this`run
      ensures Valid() && count == Portion(old(run), n) && run == Wrote(old(run), count)
    {
      hide Consistent;
      count := if n < |p.bytes| - written then n else |p.bytes| - written;
      WroteKeeps(run, count);
      run := Wrote(run, count);
      accepted := accepted + p.bytes[written..written + count];
      written := written + count;
    }

    /** One turn of the inner loop (lines 187-208). */
    method Attempt(p: Packet, turn: Turn)
      requires Valid() && Sending(run) && Current(run) == p
      modifies this
      ensures Valid() && State() == Attempted(Arrived(old(run), turn.arrivals), turn)
    {
      hide Consistent, Held;
      Arrive(turn.arrivals);
      if turn.pollFails {
        status := -1;
        return;
      }
      status := 1;
      if !turn.writable {
        return;
      }
      match turn.write {
        case Fails(cancelled) =>
          status := -1;
          if cancelled {
            status := 0;
            CleanUpMsgQueue();
          }
        case Accepts(n) =>
          status := WriteBulkIn(p, n);
      }
    }

    /** After the inner loop (lines 210-212): the packet is done with. */
    method Complete(p: Packet)
      requires Valid() && Sending(run) && Current(run) == p && written == |p.bytes|
      modifies this`run, this`written, this`freed, this`mtpBuf
      ensures Valid() && run == Completed(old(run))
    {
      hide Consistent, Held;
      CompletedKeeps(run);
      run := Completed(run);
      written := 0;
      Free(mtpBuf);
      mtpBuf := None;
    }

    /** The loop over one packet (lines 186-212). It takes the moves it needs,
        and leaves the packet in hand only when there are no more. */
    method SendBulk(p: Packet, turns: seq<Turn>) returns (sent: bool, rest: seq<Turn>)
      requires Valid() && Sending(run) && Current(run) == p
      modifies this
      ensures Valid() && |rest| <= |turns| && (sent <==> run.inHand.None?) && (!sent ==> rest == [])
      ensures Steps(Machine(Settled(old(run)), old(status)), turns) == Steps(State(), rest)
    {
      ghost var end := Steps(Machine(Settled(run), status), turns);
      hide Consistent, Held, Steps, Attempted, Arrived;
      rest := turns;
      while written != |p.bytes| && rest != []
        invariant Valid() && |rest| <= |turns| && Sending(run) && Current(run) == p
        invariant end == Steps(Machine(Settled(run), status), rest)
        decreases |rest|
      {
        OneAttempt(State(), rest);
        Attempt(p, rest[0]);
        rest := rest[1..];
      }
      sent := written == |p.bytes|;
      if sent {
        Complete(p);
      }
    }

    /** _util_rcv_msg_from_mq into mtp_buf, of a packet to be sent (line 184). */
    method Receive()
      requires Valid() && queue != [] && FateOf(queue[0].kind) == InHand && run.inHand.None?
      modifies this`queue, this`mtpBuf, this`run
      ensures Valid() && run == Received(old(run)) && Sending(run) && Current(run) == old(queue[0])
    {
      hide Payload, Freed, Unfreed, Packets, Overwritten, Hanging, NoneInHand, Treated;
      ConsistentIsSane(run);
      ReceivedToSend(run);
      ReceivedKeeps(run);
      hide Consistent, Received, Sending, Current, FateOf, Held, Sane;
      run := Received(run);
      mtpBuf := queue[0].buffer;
      queue := queue[1..];
    }

    /** The other kinds of packet (lines 184, 213-225). */
    method SendOther(writeFails: bool)
      requires Valid() && queue != [] && FateOf(queue[0].kind) != InHand && run.inHand.None?
      modifies this`queue, this`mtpBuf, this`run, this`status, this`freed
      ensures Valid() && run == Received(old(run)) && run.inHand.None?
      ensures status == if writeFails || old(queue[0].kind) == Invalid then -1 else 0
    {
      hide Consistent, Held;
      var kind := queue[0].kind;
      ReceivedKeeps(run);
      run := Received(run);
      mtpBuf := queue[0].buffer;
      queue := queue[1..];
      if kind == Event {
        status := if writeFails then -1 else 0;
        Free(mtpBuf);
        mtpBuf := None;
      } else if kind == Zlp {
        status := if writeFails then -1 else 0;
      } else {
        status := -1;
      }
    }

    /** The whole thread: for every sequence of moves of the environment it comes
        to what Steps says. It may still be running when they end; when it has
        exited it has purged its queue and freed mtp_buf besides. */
    method UsbWriteThread(turns: seq<Turn>) returns (exited: bool)
      requires Valid() && State() == Machine(START, 0)
      modifies this
      ensures var end := Steps(Machine(START, 0), turns);
        && exited == Over(end)
        && (!exited ==> Valid() && State() == end)
        && (exited ==>
              && Consistent(run) && run == PurgedAll(end.run) && run.queue == queue == []
              && accepted == run.accepted && freed == run.freed + Held(run.mtpBuf)
              && (freed == Buffers(run.arrived) <==> !ZeroLengthOverwritten(run.taken)))
    {
      hide Consistent, Held, Steps, Received, Settled, Arrived;
      ghost var end := Steps(Machine(START, 0), turns);
      var rest := turns;
      var sent := true;
      while status >= 0 && rest != []
        invariant Valid() && Sane(run) && end == Steps(State(), rest)
        invariant (sent <==> run.inHand.None?) && (!sent ==> rest == [])
        decreases |rest|
      {
        OneReceive(State(), rest);
        var turn := rest[0];
        rest := rest[1..];
        Arrive(turn.arrivals);
        if queue == [] {
          continue;
        }
        var p := queue[0];
        if p.kind == Bulk || p.kind == Data {
          Receive();
          sent, rest := SendBulk(p, rest);
        } else {
          SendOther(turn.write.Fails?);
        }
        ConsistentIsSane(run);
      }
      OverStays(State(), rest);
      exited := status < 0 && sent;
      if exited {
        CleanUpMsgQueue();
        Free(mtpBuf);
        EverythingFreedIff(turns, freed);
      }
    }
  }
}
