/** What single moves of the environment come to in the USB transmit thread of
    mtp-responder/mtp_usb_driver_nuttx.c (lines 179-232), and whole runs with them:
    cancelled and failed writes, the end of the thread, and delivery of the queue. */
module UsbOutcome {
  import opened UsbPackets
  import opened UsbRun
  import opened Options

  /** The thread is busy with a packet not yet wholly written. */
  predicate Busy(r: Run) {
    Sending(r) && r.written < |Current(r).bytes|
  }

  // ----- a cancelled write -----

  /** Purging takes the whole queue, drops it, frees its buffers and touches nothing else. */
  predicate Purges(r: Run, q: Run) {
    && q == r.(queue := [], taken := q.taken, freed := r.freed + Buffers(r.queue))
    && Packets(q.taken) == Packets(r.taken) + r.queue
  }

  lemma PurgesNothing(r: Run)
    requires r.queue == []
    ensures Purges(r, r)
  {
    assert Packets(r.taken) + [] == Packets(r.taken);
    assert r.freed + Buffers([]) == r.freed;
  }

  lemma PurgesOneMore(r: Run, q: Run)
    requires r.queue != [] && Purges(PurgedOne(r), q)
    ensures Purges(r, q)
  {
    hide Packets, Buffers, Held;
    Append(r.taken, Entry(r.queue[0], Purged));
    FirstBuffer(r.queue);
    assert r.queue == [r.queue[0]] + r.queue[1..];
    Regroup(Packets(r.taken), [r.queue[0]], r.queue[1..]);
    RegroupBags(r.freed, Held(r.queue[0].buffer), Buffers(r.queue[1..]));
  }

  lemma Regroup<T>(x: seq<T>, y: seq<T>, z: seq<T>)
    ensures (x + y) + z == x + (y + z)
  {
  }

  lemma RegroupBags(x: multiset<nat>, y: multiset<nat>, z: multiset<nat>)
    ensures (x + y) + z == x + (y + z)
  {
  }

  lemma {:induction false} PurgedAllPurges(r: Run)
    ensures Purges(r, PurgedAll(r))
    decreases |r.queue|
  {
    hide Purges;
    if r.queue == [] {
      PurgesNothing(r);
    } else {
      PurgedAllPurges(PurgedOne(r));
      PurgesOneMore(r, PurgedAll(r));
    }
  }

  lemma {:induction false} FirstBuffer(ps: seq<Packet>)
    requires ps != []
    ensures Buffers(ps) == Held(ps[0].buffer) + Buffers(ps[1..])
  {
    hide Held;
    var n := |ps| - 1;
    if n > 0 {
      FirstBuffer(ps[..n]);
      assert ps[..n][1..] == ps[1..][..n - 1];
    }
  }

  lemma BusyStep(m: Machine, t: Turn)
    requires Busy(m.run)
    ensures var r := Arrived(m.run, t.arrivals);
      Busy(r) && !Over(m) && Step(m, t) == Machine(Settled(Attempted(r, t).run), Attempted(r, t).status)
  {
    hide Attempted, Settled;
  }

  /** A write that fails with ENOMEM or ECANCELED drops everything that had arrived and
      frees its buffers, and the packet in hand is kept as far as it was written. */
  lemma CancellationPurges(m: Machine, t: Turn)
    requires Consistent(m.run) && Busy(m.run) && !t.pollFails && t.writable && Cancels(t)
    ensures Sane(m.run)
    ensures var r, q := m.run, Step(m, t).run;
      && q == r.(arrived := r.arrived + t.arrivals, queue := [], taken := q.taken,
                 freed := r.freed + Buffers(r.queue + t.arrivals))
      && r.taken <= q.taken && Packets(q.taken) == q.arrived
      && forall i :: |r.taken| <= i < |q.taken| ==> q.taken[i].fate == Purged
  {
    BusyStep(m, t);
    var r := Arrived(m.run, t.arrivals);
    PurgedAllPurges(r);
    ArrivedKeeps(m.run, t.arrivals);
    ConsistentMeans(r);
    hide Consistent, Packets, Buffers, PurgedAll;
    assert Attempted(r, t).run == PurgedAll(r);
    assert Settled(PurgedAll(r)) == PurgedAll(r);
  }

  /** So nothing queued before a cancellation is ever sent, but for the packet in hand. */
  lemma NothingSentAfterCancellation(m: Machine, t: Turn, ts: seq<Turn>, i: nat)
    requires Consistent(m.run) && Busy(m.run) && !t.pollFails && t.writable && Cancels(t)
    requires |m.run.taken| <= i < |m.run.arrived + t.arrivals|
    ensures Sane(m.run) && i < |Steps(Step(m, t), ts).run.taken|
    ensures Steps(Step(m, t), ts).run.taken[i] == Entry((m.run.arrived + t.arrivals)[i], Purged)
  {
    CancellationPurges(m, t);
    StepKeeps(m, t);
    FatesAreFinal(Step(m, t), ts);
    var q := Step(m, t).run;
    hide Step, Steps, Consistent;
    assert q.taken[i].fate == Purged && q.taken[i].packet == Packets(q.taken)[i];
  }

  // ----- other failures -----

  /** A failed poll, one that finds the endpoint busy, and a write that fails for another
      reason change nothing but what arrives meanwhile. */
  lemma FailureChangesNothing(m: Machine, t: Turn)
    requires Busy(m.run) && (t.pollFails || !t.writable || t.write == Fails(false))
    ensures Step(m, t).run == m.run.(arrived := m.run.arrived + t.arrivals, queue := m.run.queue + t.arrivals)
  {
    BusyStep(m, t);
  }

  /** A write that succeeds gives the endpoint the next bytes, as many as it takes. */
  lemma WriteTakesTheNextBytes(m: Machine, t: Turn)
    requires Busy(m.run) && !t.pollFails && t.writable && t.write.Accepts?
    ensures var r, q := m.run, Step(m, t).run;
      var n := if t.write.n < |Current(r).bytes| - r.written then t.write.n else |Current(r).bytes| - r.written;
      && q.accepted == r.accepted + Current(r).bytes[r.written..r.written + n]
      && q.queue == r.queue + t.arrivals
      && if r.written + n < |Current(r).bytes| then q.inHand == r.inHand && q.written == r.written + n
         else q.inHand == None && q.mtpBuf == None
  {
    BusyStep(m, t);
  }

  // ----- between packets -----

  /** The thread takes the next packet as soon as there is one. */
  lemma NextIsTaken(m: Machine, t: Turn)
    requires Sane(m.run) && !Over(m) && m.run.inHand.None?
    ensures var r, q := m.run, Step(m, t).run;
      var queue := r.queue + t.arrivals;
      if queue == [] then q == r
      else
        && q.queue == queue[1..] && q.arrived == r.arrived + t.arrivals && q.accepted == r.accepted
        && |q.taken| == |r.taken| + 1 && q.taken[..|r.taken|] == r.taken && q.taken[|r.taken|].packet == queue[0]
        && (queue[0].kind == Event ==> q.taken[|r.taken|].fate == Signalled)
        && (queue[0].kind == Zlp ==> q.taken[|r.taken|].fate == ZeroLength)
        && (queue[0].kind == Invalid ==> q.taken[|r.taken|].fate == Rejected)
        && (queue[0].kind == Bulk || queue[0].kind == Data ==>
              if queue[0].bytes == [] then q.taken[|r.taken|].fate == Sent && q.inHand == None
              else q.inHand == Some(|r.taken|) && Busy(q) && q.written == 0)
  {
    hide Held;
    assert m.run.arrived + [] == m.run.arrived;
  }

  /** The thread ends exactly by taking an event or a zero-length packet whose write
      fails, or a packet of no known type. */
  lemma EndsIff(m: Machine, t: Turn)
    requires Sane(m.run) && !Over(m) && (m.run.inHand.Some? ==> Busy(m.run))
    ensures var queue := m.run.queue + t.arrivals;
      Over(Step(m, t)) <==>
        && m.run.inHand.None? && queue != []
        && (queue[0].kind == Invalid || ((queue[0].kind == Event || queue[0].kind == Zlp) && t.write.Fails?))
  {
    hide Held;
    if m.run.inHand.Some? {
      BusyStep(m, t);
    }
  }

  // ----- delivery -----

  /** The good moves a queue of bulk and data packets needs. */
  function Size(ps: seq<Packet>): nat {
    if ps == [] then 0 else |ps[0].bytes| + 1 + Size(ps[1..])
  }

  /** Between two moves of a thread that has bulk and data packets to send and no others. */
  predicate Delivering(m: Machine) {
    && Consistent(m.run) && !Over(m) && (m.run.inHand.Some? ==> Busy(m.run))
    && forall i :: 0 <= i < |m.run.queue| ==> m.run.queue[i].kind == Bulk || m.run.queue[i].kind == Data
  }

  function Left(r: Run): nat
    requires r.inHand.Some? ==> Busy(r)
  {
    Size(r.queue) + if r.inHand.Some? then |Current(r).bytes| - r.written else 0
  }

  /** The packets taken since were sent, or one of them is in hand. */
  predicate SentSince(r: Run, q: Run) {
    && |r.taken| <= |q.taken|
    && (q.inHand.Some? ==> q.inHand == r.inHand || |r.taken| <= q.inHand.value < |q.taken|)
    && forall i :: 0 <= i < |q.taken| ==>
         if i < |r.taken| && r.inHand != Some(i) then q.taken[i] == r.taken[i]
         else q.taken[i].fate == Sent || q.inHand == Some(i)
  }

  lemma DeliveringBusyStep(m: Machine, t: Turn)
    requires Delivering(m) && m.run.inHand.Some? && t.arrivals == [] && !Cancels(t)
    ensures var r, q := m.run, Step(m, t);
      && q.run.queue == r.queue && q.run.arrived == r.arrived && (q.run.inHand.Some? ==> Busy(q.run))
      && !Over(q) && Left(q.run) <= Left(r) - (if Good(t) then 1 else 0) && SentSince(r, q.run)
  {
    hide Consistent, Held, Size;
    ConsistentIsSane(m.run);
    BusyStep(m, t);
    assert m.run.arrived + [] == m.run.arrived && m.run.queue + [] == m.run.queue;
  }

  lemma DeliveringNextStep(m: Machine, t: Turn)
    requires Delivering(m) && m.run.inHand.None? && t.arrivals == []
    ensures var r, q := m.run, Step(m, t);
      && q.run.arrived == r.arrived && (q.run.inHand.Some? ==> Busy(q.run))
      && (r.queue == [] ==> q.run == r) && (r.queue != [] ==> q.run.queue == r.queue[1..])
      && !Over(q) && Left(q.run) <= (if Left(r) == 0 then 0 else Left(r) - 1) && SentSince(r, q.run)
  {
    hide Consistent, Held;
    ConsistentIsSane(m.run);
    EndsIff(m, t);
    NextIsTaken(m, t);
    hide Step, Over;
    assert m.run.queue + [] == m.run.queue && m.run.arrived + [] == m.run.arrived;
    var r, q := m.run, Step(m, t).run;
    forall i | 0 <= i < |r.taken| ensures r.queue != [] ==> q.taken[i] == r.taken[i] {
      if r.queue != [] { assert q.taken[i] == q.taken[..|r.taken|][i]; }
    }
  }

  lemma DeliveringStep(m: Machine, t: Turn)
    requires Delivering(m) && t.arrivals == [] && !Cancels(t)
    ensures var r, q := m.run, Step(m, t);
      && Delivering(q) && q.run.arrived == r.arrived && SentSince(r, q.run)
      && Left(q.run) <= (if Good(t) && Left(r) > 0 then Left(r) - 1 else Left(r))
  {
    StepKeeps(m, t);
    if m.run.inHand.Some? { DeliveringBusyStep(m, t); } else { DeliveringNextStep(m, t); }
    hide Consistent, Over, Step, Busy, Left, SentSince;
  }

  lemma SentSinceTransitive(p: Run, q: Run, r: Run)
    requires SentSince(p, q) && SentSince(q, r)
    ensures SentSince(p, r)
  {
  }

  /** When no more arrives and no write is cancelled, every bulk and data packet in the queue
      or in hand has been sent, and the endpoint has all their bytes in order, once there have
      been as many good moves as bytes and packets were left; however many others come between. */
  lemma EverythingIsDelivered(m: Machine, ts: seq<Turn>)
    requires Delivering(m) && Goods(ts) >= Left(m.run)
    requires forall i :: 0 <= i < |ts| ==> ts[i].arrivals == [] && !Cancels(ts[i])
    ensures var r, q := m.run, Steps(m, ts).run;
      && q.queue == [] && q.inHand == None && q.accepted == Payload(q.taken)
      && q.arrived == r.arrived == Packets(q.taken) && |r.taken| <= |q.taken|
      && forall i :: 0 <= i < |q.taken| ==>
           if i < |r.taken| && r.inHand != Some(i) then q.taken[i] == r.taken[i] else q.taken[i].fate == Sent
  {
    DeliveredSince(m, ts);
    var q := Steps(m, ts);
    hide Steps, Payload, Packets, Accounted, LostWithReason, AllTreated;
    assert q.run.inHand.None?;
    assert Packets(q.run.taken) + [] == Packets(q.run.taken);
  }

  lemma {:induction false} DeliveredSince(m: Machine, ts: seq<Turn>)
    requires Delivering(m) && Goods(ts) >= Left(m.run)
    requires forall i :: 0 <= i < |ts| ==> ts[i].arrivals == [] && !Cancels(ts[i])
    ensures Sane(m.run)
    ensures var q := Steps(m, ts);
      Delivering(q) && q.run.arrived == m.run.arrived && Left(q.run) == 0 && SentSince(m.run, q.run)
    decreases ts
  {
    ConsistentIsSane(m.run);
    hide Consistent, Step, Left, SentSince, Good;
    if ts == [] {
      SentSinceItself(m.run);
    } else {
      var q := Step(m, ts[0]);
      DeliveringStep(m, ts[0]);
      DeliveredSince(q, ts[1..]);
      SentSinceTransitive(m.run, q.run, Steps(m, ts).run);
    }
  }

  lemma SentSinceItself(r: Run)
    ensures SentSince(r, r)
  {
  }
}
