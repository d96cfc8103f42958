/** The packets of the USB transmit thread of mtp-responder/mtp_usb_driver_nuttx.c:
    what became of those taken off its queue, the bytes sent and the buffers freed. */
module UsbPackets {
  import opened Multisets
  import opened Options
  import opened Words

  datatype Kind = Bulk | Data | Event | Zlp | Invalid

  /** A queued message: its type, the heap buffer it carries, and the bytes in it. */
  datatype Packet = Packet(kind: Kind, buffer: Option<nat>, bytes: seq<Byte>)

  /** What write() does: accept at most n bytes, or fail; cancelled stands for ENOMEM and ECANCELED. */
  datatype WriteResult = Accepts(n: nat) | Fails(cancelled: bool)

  /** The environment's moves up to and including the thread's next call: what
      other threads queue, and what poll and write would answer. */
  datatype Turn = Turn(arrivals: seq<Packet>, pollFails: bool, writable: bool, write: WriteResult)

  // ----- what has become of the packets taken off the queue -----

  datatype Fate = InHand | Sent | Signalled | ZeroLength | Rejected | Purged

  datatype Entry = Entry(packet: Packet, fate: Fate)

  function Packets(es: seq<Entry>): (ps: seq<Packet>)
    ensures |ps| == |es|
  {
    seq(|es|, i requires 0 <= i < |es| => es[i].packet)
  }

  /** The bytes of the bulk and data packets sent, in the order they were taken. */
  function Payload(es: seq<Entry>): seq<Byte> {
    if es == [] then []
    else Payload(es[..|es| - 1]) + if es[|es| - 1].fate == Sent then es[|es| - 1].packet.bytes else []
  }

  /** The buffer behind a pointer, if it is not NULL. */
  function Held(b: Option<nat>): multiset<nat> {
    if b.Some? then multiset{b.value} else multiset{}
  }

  predicate Released(f: Fate) {
    f == Sent || f == Signalled || f == Purged
  }

  /** What has been freed on account of e: the buffer of a packet done with. */
  function Due(e: Entry): multiset<nat> {
    if Released(e.fate) then Held(e.packet.buffer) else multiset{}
  }

  function Freed(es: seq<Entry>): multiset<nat> {
    if es == [] then multiset{} else Freed(es[..|es| - 1]) + Due(es[|es| - 1])
  }

  lemma Append(es: seq<Entry>, e: Entry)
    ensures Packets(es + [e]) == Packets(es) + [e.packet]
    ensures Payload(es + [e]) == Payload(es) + if e.fate == Sent then e.packet.bytes else []
    ensures Freed(es + [e]) == Freed(es) + Due(e)
  {
    assert (es + [e])[..|es|] == es;
  }

  /** Giving the entry at k its final fate, when everything after it was purged. */
  lemma Conclude(es: seq<Entry>, k: nat, f: Fate)
    requires k < |es| && es[k].fate == InHand
    requires forall j :: k < j < |es| ==> es[j].fate == Purged
    ensures var q := es[k := Entry(es[k].packet, f)];
      && Packets(q) == Packets(es)
      && Payload(q) == Payload(es) + (if f == Sent then es[k].packet.bytes else [])
      && Freed(q) == Freed(es) + Due(q[k])
  {
    ConcludePayload(es, k, f);
    ConcludeFreed(es, k, f);
    hide Payload, Freed, Due;
  }

  lemma ConcludeFreed(es: seq<Entry>, k: nat, f: Fate)
    requires k < |es| && es[k].fate == InHand
    ensures var e := Entry(es[k].packet, f); Freed(es[k := e]) == Freed(es) + Due(e)
  {
    FreedUpdate(es, k, Entry(es[k].packet, f));
    assert Due(es[k]) == multiset{};
    hide Freed, Due;
  }

  lemma {:induction false} ConcludePayload(es: seq<Entry>, k: nat, f: Fate)
    requires k < |es| && es[k].fate == InHand
    requires forall j :: k < j < |es| ==> es[j].fate == Purged
    ensures Payload(es[k := Entry(es[k].packet, f)]) == Payload(es) + (if f == Sent then es[k].packet.bytes else [])
  {
    var n := |es| - 1;
    var q := es[k := Entry(es[k].packet, f)];
    if k == n {
      assert q[..n] == es[..n];
    } else {
      ConcludePayload(es[..n], k, f);
      assert q[..n] == es[..n][k := Entry(es[k].packet, f)];
      assert q[n] == es[n];
    }
  }

  lemma {:induction false} FreedUpdate(es: seq<Entry>, k: nat, e: Entry)
    requires k < |es|
    ensures Freed(es[k := e]) + Due(es[k]) == Freed(es) + Due(e)
  {
    var n := |es| - 1;
    hide Due;
    if k == n {
      assert es[k := e][..n] == es[..n];
    } else {
      FreedUpdate(es[..n], k, e);
      assert es[k := e][..n] == es[..n][k := e] && es[k := e][n] == es[n] && es[..n][k] == es[k];
      SwapLast(Freed(es[..n][k := e]), Due(es[n]), Due(es[k]), Freed(es[..n]), Due(e));
    }
  }

  /** The buffer of a packet not done with. */
  function Pending(e: Entry): multiset<nat> {
    if Released(e.fate) then multiset{} else Held(e.packet.buffer)
  }

  function Unfreed(es: seq<Entry>): multiset<nat> {
    if es == [] then multiset{} else Unfreed(es[..|es| - 1]) + Pending(es[|es| - 1])
  }

  function Buffers(ps: seq<Packet>): multiset<nat> {
    if ps == [] then multiset{} else Buffers(ps[..|ps| - 1]) + Held(ps[|ps| - 1].buffer)
  }

  lemma UnfreedAppend(es: seq<Entry>, e: Entry)
    ensures Unfreed(es + [e]) == Unfreed(es) + Pending(e)
  {
    assert (es + [e])[..|es|] == es;
  }

  lemma {:induction false} UnfreedUpdate(es: seq<Entry>, k: nat, e: Entry)
    requires k < |es|
    ensures Unfreed(es[k := e]) + Pending(es[k]) == Unfreed(es) + Pending(e)
  {
    var n := |es| - 1;
    hide Pending;
    if k == n {
      assert es[k := e][..n] == es[..n];
    } else {
      UnfreedUpdate(es[..n], k, e);
      assert es[k := e][..n] == es[..n][k := e] && es[k := e][n] == es[n] && es[..n][k] == es[k];
      SwapLast(Unfreed(es[..n][k := e]), Pending(es[n]), Pending(es[k]), Unfreed(es[..n]), Pending(e));
    }
  }

  /** Every buffer taken is either freed or not. */
  lemma {:induction false} BuffersSplit(es: seq<Entry>)
    ensures Freed(es) + Unfreed(es) == Buffers(Packets(es))
  {
    if es != [] {
      var n := |es| - 1;
      LastEntry(es);
      hide *;
      BuffersSplit(es[..n]);
      FreedOrNot(Freed(es[..n]), Unfreed(es[..n]), es[n]);
    }
  }

  lemma LastEntry(es: seq<Entry>)
    requires es != []
    ensures var n := |es| - 1;
      && Freed(es) == Freed(es[..n]) + Due(es[n]) && Unfreed(es) == Unfreed(es[..n]) + Pending(es[n])
      && Buffers(Packets(es)) == Buffers(Packets(es[..n])) + Held(es[n].packet.buffer)
  {
    hide Due, Pending, Held;
    assert Packets(es)[..|es| - 1] == Packets(es[..|es| - 1]);
  }

  lemma FreedOrNot(f: multiset<nat>, u: multiset<nat>, e: Entry)
    ensures (f + Due(e)) + (u + Pending(e)) == f + u + Held(e.packet.buffer)
  {
  }
}
