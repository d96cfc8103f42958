/** The USB transmit thread of mtp-responder/mtp_usb_driver_nuttx.c (lines 167-237) as
    a state machine that answers the environment's moves, through short writes,
    interrupted polls and failed writes, and what it comes to over whole runs. */
module UsbRun {
  import opened Multisets
  import opened UsbPackets
  import opened Options
  import opened Words

  // ----- the state of a run -----

  /** The queue, the thread's own variables, and what has happened so far. */
  datatype Run = Run(
    arrived: seq<Packet>,      // every packet ever queued
    queue: seq<Packet>,        // those still queued
    taken: seq<Entry>,         // those taken off the queue, and their fates
    inHand: Option<nat>,       // the index in taken of the packet being sent
    written: nat,              // how much of it has been written
    mtpBuf: Option<nat>,       // the pointer mtp_buf
    accepted: seq<Byte>,       // what the bulk-in endpoint has accepted
    freed: multiset<nat>,      // the buffers freed
    lost: multiset<nat>)       // the buffers mtp_buf pointed to when it was overwritten

  const START := Run([], [], [], None, 0, None, [], multiset{}, multiset{})

  /** There is a packet in hand, with so much of it written. */
  predicate Sending(r: Run) {
    r.inHand.Some? && r.inHand.value < |r.taken| && r.written <= |r.taken[r.inHand.value].packet.bytes|
  }

  predicate Sane(r: Run) {
    if r.inHand.Some? then Sending(r) else r.written == 0
  }

  /** The packet in hand has no fate yet. */
  predicate Live(r: Run) {
    Sane(r) && (r.inHand.Some? ==> r.taken[r.inHand.value].fate == InHand)
  }

  function Current(r: Run): Packet
    requires Sending(r)
  {
    r.taken[r.inHand.value].packet
  }

  // ----- the invariant -----

  predicate NoneInHand(es: seq<Entry>, hi: nat)
    requires hi <= |es|
  {
    forall j :: 0 <= j < hi ==> es[j].fate != InHand
  }

  /** Packets leave the queue in order, and the endpoint has the completed
      packets and the written part of the one in hand. */
  predicate InOrder(r: Run) {
    && r.arrived == Packets(r.taken) + r.queue
    && (r.inHand.None? ==> r.accepted == Payload(r.taken) && NoneInHand(r.taken, |r.taken|) && r.written == 0)
    && (r.inHand.Some? ==>
          && Sending(r) && r.taken[r.inHand.value].fate == InHand
          && NoneInHand(r.taken, r.inHand.value)
          && (forall j :: r.inHand.value < j < |r.taken| ==> r.taken[j].fate == Purged)
          && r.accepted == Payload(r.taken) + Current(r).bytes[..r.written])
  }

  /** Exactly the buffers of the packets done with have been freed, and mtp_buf
      still leads to the latest of the others. */
  predicate Accounted(r: Run) {
    && r.freed == Freed(r.taken)
    && Unfreed(r.taken) == r.lost + Held(r.mtpBuf)
    && (r.inHand.Some? ==> Sending(r) && r.mtpBuf == Current(r).buffer)
  }

  /** A packet that leaves its buffer in mtp_buf: a zero-length one, or one of no known type. */
  predicate Loose(e: Entry) {
    (e.fate == ZeroLength || e.fate == Rejected) && e.packet.buffer.Some?
  }

  /** Packets have been received since. */
  predicate Followed(es: seq<Entry>, i: nat) {
    exists j :: i < j < |es| && es[j].fate != Purged
  }

  /** Some loose buffer's address was overwritten by a later packet. */
  predicate Overwritten(es: seq<Entry>) {
    exists i :: 0 <= i < |es| && Loose(es[i]) && Followed(es, i)
  }

  /** The last packet received left its buffer in mtp_buf. */
  predicate Hanging(es: seq<Entry>) {
    exists i :: 0 <= i < |es| && Loose(es[i]) && !Followed(es, i)
  }

  /** Exactly then buffers are lost, or mtp_buf points anywhere between packets. */
  predicate LostWithReason(r: Run) {
    && (r.lost != multiset{} <==> Overwritten(r.taken))
    && (r.inHand.None? ==> (r.mtpBuf.Some? <==> Hanging(r.taken)))
  }

  /** What receiving a packet means for it; a bulk or data packet is then to be sent. */
  function FateOf(k: Kind): Fate {
    match k
    case Bulk => InHand
    case Data => InHand
    case Event => Signalled
    case Zlp => ZeroLength
    case Invalid => Rejected
  }

  /** A packet not purged had the treatment of its kind. */
  predicate Treated(e: Entry) {
    e.fate == Purged || e.fate == FateOf(e.packet.kind) || (e.fate == Sent && FateOf(e.packet.kind) == InHand)
  }

  predicate AllTreated(es: seq<Entry>) {
    forall i :: 0 <= i < |es| ==> Treated(es[i])
  }

  predicate Consistent(r: Run) {
    InOrder(r) && Accounted(r) && LostWithReason(r) && AllTreated(r.taken)
  }

  // ----- what the thread does to it -----

  function Arrived(r: Run, ps: seq<Packet>): Run {
    r.(arrived := r.arrived + ps, queue := r.queue + ps)
  }

  /** __clean_up_msg_queue takes one packet and frees its buffer. */
  function PurgedOne(r: Run): Run
    requires r.queue != []
  {
    r.(queue := r.queue[1..], taken := r.taken + [Entry(r.queue[0], Purged)],
       freed := r.freed + Held(r.queue[0].buffer))
  }

  function PurgedAll(r: Run): (q: Run)
    ensures q.queue == [] && r.taken <= q.taken && q.inHand == r.inHand && q.written == r.written
    ensures forall i :: |r.taken| <= i < |q.taken| ==> q.taken[i].fate == Purged
    decreases |r.queue|
  {
    if r.queue == [] then r else PurgedAll(PurgedOne(r))
  }

  /** The next packet received into mtp_buf, as the packet in hand or with its final fate. */
  function Received(r: Run): Run
    requires r.queue != []
  {
    var p, f := r.queue[0], FateOf(r.queue[0].kind);
    r.(queue := r.queue[1..], taken := r.taken + [Entry(p, f)], lost := r.lost + Held(r.mtpBuf),
       inHand := if f == InHand then Some(|r.taken|) else None,
       mtpBuf := if f == Signalled then None else p.buffer,
       freed := if f == Signalled then r.freed + Held(p.buffer) else r.freed)
  }

  /** n more bytes of the packet in hand accepted by the endpoint. */
  function Wrote(r: Run, n: nat): Run
    requires Sending(r) && r.written + n <= |Current(r).bytes|
  {
    r.(written := r.written + n, accepted := r.accepted + Current(r).bytes[r.written..r.written + n])
  }

  /** The packet in hand completed and its buffer freed. */
  function Completed(r: Run): Run
    requires Sending(r)
  {
    r.(taken := r.taken[r.inHand.value := Entry(Current(r), Sent)], freed := r.freed + Held(r.mtpBuf),
       inHand := None, written := 0, mtpBuf := None)
  }

  /** Completed as soon as all of it is written. */
  function Settled(r: Run): (q: Run)
    requires Sane(r)
    ensures Sane(q)
  {
    if r.inHand.Some? && r.written == |Current(r).bytes| then Completed(r) else r
  }

  /** How many of at most n bytes are left to accept. */
  function Portion(r: Run, n: nat): nat
    requires Sending(r)
  {
    if n < |Current(r).bytes| - r.written then n else |Current(r).bytes| - r.written
  }

  /** The thread between two of the environment's moves. */
  datatype Machine = Machine(run: Run, status: int)

  /** Between packets a negative status ends the thread. */
  predicate Over(m: Machine) {
    m.status < 0 && m.run.inHand.None?
  }

  /** One turn of the inner loop, up to its test. */
  function Attempted(r: Run, t: Turn): (m: Machine)
    requires Sending(r)
    ensures Sending(m.run) && m.run.inHand == r.inHand && Current(m.run) == Current(r) && r.taken <= m.run.taken
  {
    if t.pollFails then Machine(r, -1)
    else if !t.writable then Machine(r, 1)
    else
      match t.write
      case Fails(cancelled) => if cancelled then Machine(PurgedAll(r), 0) else Machine(r, -1)
      case Accepts(n) => Machine(Wrote(r, Portion(r, n)), Portion(r, n))
  }

  /** What the thread does when the environment makes one move. */
  function Step(m: Machine, t: Turn): (q: Machine)
    requires Sane(m.run)
    ensures Sane(q.run)
  {
    var r := Arrived(m.run, t.arrivals);
    if Over(m) then m
    else if r.inHand.Some? then
      var a := Attempted(r, t);
      Machine(Settled(a.run), a.status)
    else if r.queue == [] then Machine(r, m.status)
    else
      match r.queue[0].kind
      case Bulk => Machine(Settled(Received(r)), m.status)
      case Data => Machine(Settled(Received(r)), m.status)
      case Event => Machine(Received(r), if t.write.Fails? then -1 else 0)
      case Zlp => Machine(Received(r), if t.write.Fails? then -1 else 0)
      case Invalid => Machine(Received(r), -1)
  }

  function Steps(m: Machine, ts: seq<Turn>): (q: Machine)
    requires Sane(m.run)
    ensures Sane(q.run)
    decreases ts
  {
    if ts == [] then m else Steps(Step(m, ts[0]), ts[1..])
  }

  // ----- the invariant is kept -----

  lemma ArrivedKeeps(r: Run, ps: seq<Packet>)
    requires Consistent(r)
    ensures Consistent(Arrived(r, ps))
  {
    hide Payload, Freed, Unfreed, Packets, Held, Treated, Overwritten, Hanging, NoneInHand;
    assert Packets(r.taken) + r.queue + ps == Packets(r.taken) + (r.queue + ps);
  }

  lemma PurgedInOrder(r: Run)
    requires InOrder(r) && r.queue != []
    ensures InOrder(PurgedOne(r))
  {
    hide Payload, Packets, Held, Freed;
    Append(r.taken, Entry(r.queue[0], Purged));
    assert Packets(r.taken) + r.queue == (Packets(r.taken) + [r.queue[0]]) + r.queue[1..];
  }

  lemma PurgedAccounted(r: Run)
    requires Accounted(r) && r.queue != []
    ensures Accounted(PurgedOne(r))
  {
    hide Payload, Freed, Unfreed, Packets, Held;
    Append(r.taken, Entry(r.queue[0], Purged));
    UnfreedAppend(r.taken, Entry(r.queue[0], Purged));
  }

  lemma PurgedKeeps(r: Run)
    requires Consistent(r) && r.queue != []
    ensures Consistent(PurgedOne(r))
  {
    PurgedInOrder(r);
    PurgedAccounted(r);
    PurgedLoses(r.taken, Entry(r.queue[0], Purged));
    hide InOrder, Accounted, Overwritten, Hanging, Held;
  }

  lemma {:induction false} PurgedAllKeeps(r: Run)
    requires Consistent(r)
    ensures Consistent(PurgedAll(r)) && PurgedAll(r).arrived == r.arrived
    decreases |r.queue|
  {
    hide Consistent;
    if r.queue != [] {
      PurgedKeeps(r);
      PurgedAllKeeps(PurgedOne(r));
    }
  }

  lemma ReceivedInOrder(r: Run)
    requires InOrder(r) && r.queue != [] && r.inHand.None?
    ensures InOrder(Received(r))
  {
    hide Payload, Packets, Held, Freed;
    Append(r.taken, Entry(r.queue[0], FateOf(r.queue[0].kind)));
    assert Packets(r.taken) + r.queue == (Packets(r.taken) + [r.queue[0]]) + r.queue[1..];
    assert r.accepted + [] == r.accepted;
  }

  lemma SumEmpty(x: multiset<nat>, y: multiset<nat>)
    ensures x + y == multiset{} <==> x == multiset{} && y == multiset{}
  {
    assert |x + y| == |x| + |y|;
  }

  lemma HeldNone()
    ensures Held(None) == multiset{}
  {
  }

  lemma ReceivedAccounted(r: Run)
    requires Accounted(r) && r.queue != [] && r.inHand.None? && r.written == 0
    ensures Accounted(Received(r))
  {
    hide Payload, Freed, Unfreed, Packets, Held;
    HeldNone();
    Append(r.taken, Entry(r.queue[0], FateOf(r.queue[0].kind)));
    UnfreedAppend(r.taken, Entry(r.queue[0], FateOf(r.queue[0].kind)));
  }

  lemma PurgedLoses(es: seq<Entry>, e: Entry)
    requires e.fate == Purged
    ensures Overwritten(es + [e]) <==> Overwritten(es)
    ensures Hanging(es + [e]) <==> Hanging(es)
  {
    var fs := es + [e];
    forall i | 0 <= i < |es| ensures fs[i] == es[i] && (Followed(fs, i) <==> Followed(es, i)) {
      if Followed(es, i) {
        var j :| i < j < |es| && es[j].fate != Purged;
        assert fs[j] == es[j];
      }
    }
    hide Followed;
    assert !Loose(fs[|es|]);
  }

  /** Receiving a packet overwrites mtp_buf, and leaves it hanging only if the packet is loose. */
  lemma ReceivedLoses(es: seq<Entry>, e: Entry)
    requires e.fate != Purged
    ensures Overwritten(es + [e]) <==> Overwritten(es) || Hanging(es)
    ensures Hanging(es + [e]) <==> Loose(e)
  {
    var fs := es + [e];
    forall i | 0 <= i < |es| ensures fs[i] == es[i] && Followed(fs, i) {
      assert fs[|es|].fate != Purged;
    }
    assert !Followed(fs, |es|) && fs[|es|] == e;
    hide Followed;
  }

  lemma CompletedLoses(es: seq<Entry>, k: nat, e: Entry)
    requires k < |es| && es[k].fate == InHand && e.fate == Sent
    requires forall j :: k < j < |es| ==> es[j].fate == Purged
    ensures Overwritten(es[k := e]) <==> Overwritten(es)
    ensures !Hanging(es[k := e])
  {
    var fs := es[k := e];
    forall i | 0 <= i < |es| ensures Loose(fs[i]) <==> Loose(es[i]) {
    }
    forall i | 0 <= i < |es| ensures Followed(fs, i) <==> Followed(es, i) {
      if Followed(es, i) {
        var j :| i < j < |es| && es[j].fate != Purged;
        assert fs[j].fate != Purged;
      }
    }
    forall i | 0 <= i < |es| && Loose(fs[i]) ensures Followed(fs, i) {
      assert i < k && fs[k].fate != Purged;
    }
    hide Followed, Loose;
  }

  lemma ReceivedLost(r: Run)
    requires LostWithReason(r) && r.queue != [] && r.inHand.None?
    ensures LostWithReason(Received(r))
  {
    var e := Entry(r.queue[0], FateOf(r.queue[0].kind));
    ReceivedLoses(r.taken, e);
    assert Loose(e) ==> r.queue[0].buffer.Some?;
    SumEmpty(r.lost, Held(r.mtpBuf));
    hide Overwritten, Hanging;
  }

  lemma ReceivedKeeps(r: Run)
    requires Consistent(r) && r.queue != [] && r.inHand.None?
    ensures Consistent(Received(r))
  {
    hide Payload, Freed, Unfreed, Packets, Held;
    ReceivedInOrder(r);
    ReceivedAccounted(r);
    ReceivedLost(r);
    hide InOrder, Accounted, LostWithReason;
  }

  lemma WroteKeeps(r: Run, n: nat)
    requires Consistent(r) && Sending(r) && r.written + n <= |Current(r).bytes|
    ensures Consistent(Wrote(r, n))
  {
    hide Payload, Freed, Unfreed, Packets, Overwritten, Hanging;
    var b := Current(r).bytes;
    assert Payload(r.taken) + b[..r.written] + b[r.written..r.written + n] == Payload(r.taken) + b[..r.written + n];
  }

  lemma CompletedInOrder(r: Run)
    requires InOrder(r) && Sending(r) && r.written == |Current(r).bytes|
    ensures InOrder(Completed(r))
  {
    hide Payload, Freed, Packets;
    Conclude(r.taken, r.inHand.value, Sent);
    assert Current(r).bytes[..r.written] == Current(r).bytes;
  }

  lemma CompletedAccounted(r: Run)
    requires InOrder(r) && Accounted(r) && Sending(r)
    ensures Accounted(Completed(r))
  {
    hide Payload, Freed, Unfreed, Packets, Held;
    var k, e := r.inHand.value, Entry(Current(r), Sent);
    HeldNone();
    Conclude(r.taken, k, Sent);
    UnfreedUpdate(r.taken, k, e);
    assert Unfreed(r.taken[k := e]) + Held(r.mtpBuf) == r.lost + (Held(r.mtpBuf) + multiset{});
    Cancel(Unfreed(r.taken[k := e]), r.lost, Held(r.mtpBuf), multiset{});
  }

  lemma CompletedKeeps(r: Run)
    requires Consistent(r) && Sending(r) && r.written == |Current(r).bytes|
    ensures Consistent(Completed(r))
  {
    hide Payload, Freed, Unfreed, Packets, Held;
    CompletedInOrder(r);
    CompletedAccounted(r);
    CompletedLoses(r.taken, r.inHand.value, Entry(Current(r), Sent));
    hide InOrder, Accounted, Overwritten, Hanging;
  }

  lemma SettledKeeps(r: Run)
    requires Consistent(r)
    ensures Sane(r) && Consistent(Settled(r))
  {
    if r.inHand.Some? && r.written == |Current(r).bytes| {
      CompletedKeeps(r);
    }
  }

  lemma AttemptedKeeps(r: Run, t: Turn)
    requires Consistent(r) && Sending(r)
    ensures Consistent(Attempted(r, t).run)
  {
    hide Consistent;
    PurgedAllKeeps(r);
    if t.write.Accepts? {
      WroteKeeps(r, Portion(r, t.write.n));
    }
  }

  lemma ConsistentIsSane(r: Run)
    requires Consistent(r)
    ensures Sane(r) && Live(r) && (r.inHand.Some? ==> Sending(r))
  {
  }

  /** The run after one move, in one of four ways. */
  lemma StepRun(m: Machine, t: Turn)
    requires Sane(m.run)
    ensures var r, q := Arrived(m.run, t.arrivals), Step(m, t).run;
      if Over(m) then q == m.run
      else if r.inHand.Some? then q == Settled(Attempted(r, t).run)
      else if r.queue == [] then q == r
      else q == Settled(Received(r))
  {
    hide Attempted;
  }

  lemma AttemptedStepKeeps(r: Run, t: Turn)
    requires Consistent(r) && Sending(r)
    ensures Consistent(Settled(Attempted(r, t).run))
  {
    AttemptedKeeps(r, t);
    hide *;
    SettledKeeps(Attempted(r, t).run);
  }

  lemma ReceivedStepKeeps(r: Run)
    requires Consistent(r) && r.queue != [] && r.inHand.None? && Sane(r)
    ensures Sane(Received(r)) && Consistent(Settled(Received(r)))
  {
    ReceivedKeeps(r);
    hide *;
    SettledKeeps(Received(r));
  }

  lemma StepKeeps(m: Machine, t: Turn)
    requires Consistent(m.run)
    ensures Sane(m.run) && Consistent(Step(m, t).run)
  {
    ConsistentIsSane(m.run);
    StepRun(m, t);
    var r := Arrived(m.run, t.arrivals);
    ArrivedKeeps(m.run, t.arrivals);
    hide *;
    if !Over(m) {
      if r.inHand.Some? {
        ConsistentIsSane(r);
        AttemptedStepKeeps(r, t);
      } else if r.queue != [] {
        ConsistentIsSane(r);
        ReceivedStepKeeps(r);
      }
    }
  }

  /** Whatever the environment does, in any number of moves. */
  lemma {:induction false} StepsKeep(m: Machine, ts: seq<Turn>)
    requires Consistent(m.run)
    ensures Sane(m.run) && Consistent(Steps(m, ts).run)
    decreases ts
  {
    ConsistentIsSane(m.run);
    hide Consistent, Step;
    if ts != [] {
      StepKeeps(m, ts[0]);
      StepsKeep(Step(m, ts[0]), ts[1..]);
    }
  }

  lemma StartIsConsistent()
    ensures Consistent(START)
  {
  }

  /** For every pattern of short writes, failed polls and failed writes: packets are
      taken in the order they arrived; the endpoint has accepted the bytes of the bulk
      and data packets sent so far, in order, and then the first `written` bytes of the
      one in hand; and the buffers freed are those of the packets done with, each once. */
  lemma EndpointSeesPacketsInOrder(ts: seq<Turn>)
    ensures var r := Steps(Machine(START, 0), ts).run;
      && r.arrived == Packets(r.taken) + r.queue
      && r.accepted == Payload(r.taken) + (if r.inHand.Some? then Current(r).bytes[..r.written] else [])
      && (forall e :: e in r.taken && e.fate == Sent ==> e.packet.kind == Bulk || e.packet.kind == Data)
      && r.freed == Freed(r.taken)
  {
    StartIsConsistent();
    hide Steps, Consistent;
    StepsKeep(Machine(START, 0), ts);
    ConsistentMeans(Steps(Machine(START, 0), ts).run);
  }

  /** What the invariant says, put plainly. */
  lemma ConsistentMeans(r: Run)
    requires Consistent(r)
    ensures Sane(r) && r.arrived == Packets(r.taken) + r.queue && r.freed == Freed(r.taken)
    ensures r.accepted == Payload(r.taken) + (if r.inHand.Some? then Current(r).bytes[..r.written] else [])
    ensures forall e :: e in r.taken && e.fate == Sent ==> e.packet.kind == Bulk || e.packet.kind == Data
  {
    hide Payload, Freed, Unfreed, Packets, Held, Overwritten, Hanging;
    assert Payload(r.taken) + [] == Payload(r.taken);
    forall e | e in r.taken ensures Treated(e) {
      var i :| 0 <= i < |r.taken| && r.taken[i] == e;
    }
  }

  // ----- what a run comes to -----

  /** The packets of es are still there, and their fates are final once given. */
  predicate Continues(es: seq<Entry>, fs: seq<Entry>) {
    && |es| <= |fs|
    && forall i :: 0 <= i < |es| ==> fs[i].packet == es[i].packet && (es[i].fate != InHand ==> fs[i].fate == es[i].fate)
  }

  /** From es to fs only the packet in hand gets its fate; it is sent. Packets
      are purged only if told so. */
  predicate Moves(es: seq<Entry>, fs: seq<Entry>, purging: bool) {
    && |es| <= |fs|
    && (forall i :: 0 <= i < |es| ==> fs[i] == es[i] || (es[i].fate == InHand && fs[i] == Entry(es[i].packet, Sent)))
    && (!purging ==> forall i :: |es| <= i < |fs| ==> fs[i].fate != Purged)
  }

  predicate Cancels(t: Turn) {
    t.write == Fails(true)
  }

  lemma SettledMoves(r: Run)
    requires Live(r)
    ensures Moves(r.taken, Settled(r).taken, false)
  {
  }

  lemma AttemptedMoves(r: Run, t: Turn)
    requires Live(r) && Sending(r)
    ensures Moves(r.taken, Settled(Attempted(r, t).run).taken, Cancels(t))
  {
    var q := Attempted(r, t).run;
    assert !Cancels(t) ==> q.taken == r.taken;
    hide Attempted, Settled;
    SettledMoves(q);
  }

  lemma ReceivedMoves(r: Run, purging: bool)
    requires r.queue != [] && r.inHand.None? && r.written == 0
    ensures Moves(r.taken, Received(r).taken, purging) && Moves(r.taken, Settled(Received(r)).taken, purging)
  {
    var q := Received(r);
    assert q.taken[..|r.taken|] == r.taken;
  }

  lemma StillMoves(es: seq<Entry>, purging: bool)
    ensures Moves(es, es, purging)
  {
  }

  lemma StepMoves(m: Machine, t: Turn)
    requires Live(m.run)
    ensures Moves(m.run.taken, Step(m, t).run.taken, Cancels(t))
  {
    hide Attempted, Settled, Received, Moves;
    var r := Arrived(m.run, t.arrivals);
    StillMoves(r.taken, Cancels(t));
    if r.inHand.Some? {
      AttemptedMoves(r, t);
    } else if r.queue != [] {
      ReceivedMoves(r, Cancels(t));
    }
  }

  lemma StillContinues(es: seq<Entry>)
    ensures Continues(es, es)
  {
  }

  lemma MovesThenContinues(es: seq<Entry>, fs: seq<Entry>, gs: seq<Entry>, purging: bool)
    requires Moves(es, fs, purging) && Continues(fs, gs)
    ensures Continues(es, gs)
  {
  }

  lemma MovesPurgeNone(es: seq<Entry>, fs: seq<Entry>)
    requires Moves(es, fs, false) && NonePurged(es)
    ensures NonePurged(fs)
  {
  }

  /** Packets stay in the order taken, and no packet's fate is ever changed. */
  lemma {:induction false} FatesAreFinal(m: Machine, ts: seq<Turn>)
    requires Consistent(m.run)
    ensures Sane(m.run) && Continues(m.run.taken, Steps(m, ts).run.taken)
    decreases ts
  {
    ConsistentIsSane(m.run);
    hide Consistent, Step, Moves, Continues;
    StillContinues(m.run.taken);
    if ts != [] {
      StepMoves(m, ts[0]);
      StepKeeps(m, ts[0]);
      FatesAreFinal(Step(m, ts[0]), ts[1..]);
      MovesThenContinues(m.run.taken, Step(m, ts[0]).run.taken, Steps(m, ts).run.taken, Cancels(ts[0]));
    }
  }

  /** A move in which the endpoint is ready and takes at least a byte. */
  predicate Good(t: Turn) {
    !t.pollFails && t.writable && t.write.Accepts? && t.write.n > 0
  }

  function Goods(ts: seq<Turn>): nat {
    if ts == [] then 0 else (if Good(ts[0]) then 1 else 0) + Goods(ts[1..])
  }

  /** What becomes of the packet in hand at k, in one move. */
  lemma StepAdvances(m: Machine, t: Turn, k: nat)
    requires Consistent(m.run) && m.run.inHand == Some(k) && m.run.written < |Current(m.run).bytes|
    ensures var q := Step(m, t);
      if q.run.inHand == Some(k) then
        && k < |q.run.taken| && Current(q.run) == Current(m.run) && q.run.written < |Current(q.run).bytes|
        && q.run.written >= m.run.written + if Good(t) then 1 else 0
      else k < |q.run.taken| && q.run.taken[k] == Entry(Current(m.run), Sent)
  {
    hide Accounted, LostWithReason, AllTreated, Payload, Packets;
  }

  /** No retry is wasted: however many polls and writes fail in between, and
      however little each write takes, the packet in hand has been sent once
      there have been as many good moves as it had bytes left. */
  lemma {:induction false} RetriesSucceed(m: Machine, ts: seq<Turn>, k: nat)
    requires Consistent(m.run) && m.run.inHand == Some(k) && m.run.written < |Current(m.run).bytes|
    requires m.run.written + Goods(ts) >= |Current(m.run).bytes|
    ensures k < |Steps(m, ts).run.taken| && Steps(m, ts).run.taken[k] == Entry(Current(m.run), Sent)
    decreases ts
  {
    ConsistentIsSane(m.run);
    hide Consistent, Step;
    var q := Step(m, ts[0]);
    StepAdvances(m, ts[0], k);
    StepKeeps(m, ts[0]);
    if q.run.inHand == Some(k) {
      RetriesSucceed(q, ts[1..], k);
    } else {
      FatesAreFinal(q, ts[1..]);
    }
  }

  predicate NonePurged(es: seq<Entry>) {
    forall i :: 0 <= i < |es| ==> es[i].fate != Purged
  }

  /** While the thread runs, it drops packets only when a write was cancelled. */
  lemma {:induction false} OnlyCancellationPurges(m: Machine, ts: seq<Turn>)
    requires Consistent(m.run) && NonePurged(m.run.taken) && forall i :: 0 <= i < |ts| ==> !Cancels(ts[i])
    ensures Sane(m.run) && NonePurged(Steps(m, ts).run.taken)
    decreases ts
  {
    ConsistentIsSane(m.run);
    hide Consistent, Step, Moves, NonePurged;
    if ts != [] {
      StepMoves(m, ts[0]);
      MovesPurgeNone(m.run.taken, Step(m, ts[0]).run.taken);
      StepKeeps(m, ts[0]);
      OnlyCancellationPurges(Step(m, ts[0]), ts[1..]);
    }
  }

  /** Some packet other than a bulk or data packet has been received. */
  predicate Unusual(taken: seq<Entry>) {
    exists i :: 0 <= i < |taken| &&
      (taken[i].fate == Signalled || taken[i].fate == ZeroLength || taken[i].fate == Rejected)
  }

  lemma StepOver(m: Machine, t: Turn)
    requires Live(m.run) && (Over(m) ==> Unusual(m.run.taken))
    requires m.run.inHand.Some? ==> m.run.written < |Current(m.run).bytes|
    ensures var q := Step(m, t);
      && (Over(q) ==> Unusual(q.run.taken))
      && (q.run.inHand.Some? ==> Sending(q.run) && q.run.written < |Current(q.run).bytes|)
  {
    var q := Step(m, t);
    if !Over(m) && Over(q) && m.run.inHand.None? {
      assert q.run.taken[|q.run.taken| - 1].fate != InHand;
    }
  }

  /** Only an event, a zero-length packet or one of no known type can end the
      thread: bulk and data packets are retried for ever. */
  lemma {:induction false} OnlyOtherPacketsEnd(m: Machine, ts: seq<Turn>)
    requires Consistent(m.run) && (Over(m) ==> Unusual(m.run.taken))
    requires m.run.inHand.Some? ==> m.run.written < |Current(m.run).bytes|
    ensures Over(Steps(m, ts)) ==> Unusual(Steps(m, ts).run.taken)
    decreases ts
  {
    ConsistentIsSane(m.run);
    hide Consistent, Step, Unusual;
    if ts != [] {
      StepOver(m, ts[0]);
      StepKeeps(m, ts[0]);
      OnlyOtherPacketsEnd(Step(m, ts[0]), ts[1..]);
    }
  }

  // ----- all buffers at the end -----

  /** When the thread ends, with the queue purged and mtp_buf freed, every
      buffer ever queued has been freed once, except those mtp_buf lost. */
  lemma ExitConserves(r: Run)
    requires Consistent(r) && r.queue == []
    ensures r.freed + Held(r.mtpBuf) + r.lost == Buffers(r.arrived)
  {
    BuffersSplit(r.taken);
    assert r.arrived == Packets(r.taken);
    assert Freed(r.taken) + (r.lost + Held(r.mtpBuf)) == r.freed + Held(r.mtpBuf) + r.lost;
  }

  /** In any consistent run nothing is lost but what was overwritten. */
  lemma FreedUnlessOverwritten(r: Run, freed: multiset<nat>)
    requires Consistent(r) && r.queue == [] && freed == r.freed + Held(r.mtpBuf)
    ensures freed + r.lost == Buffers(r.arrived)
    ensures freed == Buffers(r.arrived) <==> !Overwritten(r.taken)
  {
    ExitConserves(r);
    if freed == Buffers(r.arrived) {
      Cancel(freed, freed, multiset{}, r.lost);
    }
  }

  /** Nothing follows a packet of no known type: it ends the thread. */
  predicate RejectedEnds(m: Machine) {
    forall i :: 0 <= i < |m.run.taken| && m.run.taken[i].fate == Rejected ==> Over(m) && i == |m.run.taken| - 1
  }

  predicate NoneRejected(es: seq<Entry>) {
    forall i :: 0 <= i < |es| ==> es[i].fate != Rejected
  }

  lemma StepRejects(m: Machine, t: Turn)
    requires Live(m.run) && RejectedEnds(m)
    ensures RejectedEnds(Step(m, t))
  {
    hide Attempted, Settled, Received;
    if !Over(m) {
      var r := Arrived(m.run, t.arrivals);
      assert NoneRejected(r.taken);
      if r.inHand.Some? {
        AttemptRejects(r, t);
      } else if r.queue != [] {
        ReceivedRejects(r);
      }
    }
  }

  lemma AttemptRejects(r: Run, t: Turn)
    requires Live(r) && Sending(r) && NoneRejected(r.taken)
    ensures NoneRejected(Settled(Attempted(r, t).run).taken)
  {
  }

  lemma ReceivedRejects(r: Run)
    requires r.queue != [] && r.inHand.None? && r.written == 0 && NoneRejected(r.taken)
    ensures r.queue[0].kind != Invalid ==> NoneRejected(Received(r).taken) && NoneRejected(Settled(Received(r)).taken)
    ensures r.queue[0].kind == Invalid ==>
      Received(r).inHand.None? && NoneRejected(Received(r).taken[..|Received(r).taken| - 1])
  {
  }

  lemma {:induction false} StepsReject(m: Machine, ts: seq<Turn>)
    requires Consistent(m.run) && RejectedEnds(m)
    ensures Sane(m.run) && RejectedEnds(Steps(m, ts))
    decreases ts
  {
    ConsistentIsSane(m.run);
    hide Consistent, Step, RejectedEnds;
    if ts != [] {
      StepRejects(m, ts[0]);
      StepKeeps(m, ts[0]);
      StepsReject(Step(m, ts[0]), ts[1..]);
    }
  }

  /** A zero-length packet left its buffer in mtp_buf, and another packet was received over it. */
  predicate ZeroLengthOverwritten(es: seq<Entry>) {
    exists i :: 0 <= i < |es| && es[i].fate == ZeroLength && es[i].packet.buffer.Some? && Followed(es, i)
  }

  /** Only zero-length packets can lose their buffers. */
  lemma OnlyZeroLengthLost(m: Machine)
    requires RejectedEnds(m)
    ensures var es := PurgedAll(m.run).taken; Overwritten(es) <==> ZeroLengthOverwritten(es)
  {
    var es := PurgedAll(m.run).taken;
    forall i | 0 <= i < |es| && es[i].fate == Rejected ensures !Followed(es, i) {
      assert i < |m.run.taken| && m.run.taken[i] == es[i];
    }
    hide Followed, RejectedEnds;
  }

  /** However the thread came to its end, with its queue purged and mtp_buf freed:
      every buffer ever queued has been freed, if and only if no zero-length packet
      with a buffer was followed by another packet received. */
  lemma EverythingFreedIff(ts: seq<Turn>, freed: multiset<nat>)
    requires Over(Steps(Machine(START, 0), ts))
    requires var r := PurgedAll(Steps(Machine(START, 0), ts).run); freed == r.freed + Held(r.mtpBuf)
    ensures var r := PurgedAll(Steps(Machine(START, 0), ts).run);
      && freed + r.lost == Buffers(r.arrived)
      && (freed == Buffers(r.arrived) <==> !ZeroLengthOverwritten(r.taken))
  {
    StartIsConsistent();
    var m := Machine(START, 0);
    StepsKeep(m, ts);
    StepsReject(m, ts);
    hide Steps;
    var end := Steps(m, ts);
    PurgedAllKeeps(end.run);
    OnlyZeroLengthLost(end);
    FreedUnlessOverwritten(PurgedAll(end.run), freed);
  }

  /** One move in which a loose packet arrives at an empty queue. */
  lemma LooseStep(m: Machine, p: Packet, t: Turn)
    requires Sane(m.run) && !Over(m) && m.run.inHand.None? && m.run.queue == [] && t.arrivals == [p]
    requires p.kind == Zlp || p.kind == Invalid
    ensures Step(m, t) == Machine(
      m.run.(arrived := m.run.arrived + [p], taken := m.run.taken + [Entry(p, FateOf(p.kind))],
             lost := m.run.lost + Held(m.run.mtpBuf), mtpBuf := p.buffer),
      if t.write.Fails? || p.kind == Invalid then -1 else 0)
  {
    hide Held, Settled, Attempted;
    assert [] + [p] == [p] && [p][1..] == [];
  }

  /** Buffers do get lost: a zero-length packet with buffer 1 and then another packet
      end the thread with buffer 1 queued but never freed. */
  lemma ZeroLengthPacketCanLeak() returns (ts: seq<Turn>)
    ensures var end := Steps(Machine(START, 0), ts);
      && Over(end) && end.run.queue == [] && end.run.lost == multiset{1}
      && end.run.arrived == [Packet(Zlp, Some(1), []), Packet(Invalid, None, [])]
      && end.run.freed + Held(end.run.mtpBuf) == multiset{}
  {
    var p, q := Packet(Zlp, Some(1), []), Packet(Invalid, None, []);
    var t, u := Turn([p], false, true, Accepts(0)), Turn([q], false, true, Accepts(0));
    ts := [t, u];
    var m := Step(Machine(START, 0), t);
    LooseStep(Machine(START, 0), p, t);
    LooseStep(m, q, u);
    assert [] + [p] == [p] && [p] + [q] == [p, q];
    hide Step;
    assert ts[1..] == [u] && [u][1..] == [];
    assert Steps(m, [u]) == Steps(Step(m, u), []);
  }

  /** Buffers with distinct addresses are never freed twice. */
  lemma NoDoubleFree(r: Run, freed: multiset<nat>, b: nat)
    requires Consistent(r) && r.queue == [] && freed == r.freed + Held(r.mtpBuf)
    requires Buffers(r.arrived)[b] <= 1
    ensures freed[b] <= 1
  {
    ExitConserves(r);
    assert (freed + r.lost)[b] == Buffers(r.arrived)[b];
  }
}
