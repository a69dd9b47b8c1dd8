// The receive reassembly of aicwf_usb.c (rx_complete and msg_rx_complete with
// CONFIG_USB_RX_REASSEMBLE, 2048-byte transfers): a packet longer than one
// transfer arrives in pieces of the maximum size and is put together again.

module UsbReassembly {
  import opened Common

  const MAX_PKT_SIZE := 2048
  const RX_HWHRD_LEN := 60
  const TYPE_CFG_CMD_RSP := 0x11
  const TYPE_CFG_DATA_CFM := 0x12

  /** The data endpoint takes every type of packet, the message endpoint only CMD_RSP and DATA_CFM. */
  datatype Endpoint = DataIn | MsgIn

  /** (type & USB_TYPE_CFG) == USB_TYPE_CFG, a single bit */
  predicate IsCfg(t: byte) { (t / 16) % 2 == 1 }

  /** The length that the first three bytes of a packet imply, if they are those of a packet. */
  function Implied(ep: Endpoint, data: seq<byte>): Option<nat>
    requires |data| >= 3
  {
    var pktLen := data[0] as nat + 256 * (data[1] as nat);
    var t := data[2];
    if !IsCfg(t) then if ep.DataIn? then Some(pktLen + RX_HWHRD_LEN) else None
    else if t == TYPE_CFG_CMD_RSP then Some(Align4(pktLen + 4))
    else if t == TYPE_CFG_DATA_CFM && pktLen == 8 then Some(12)
    else None
  }

  predicate WellFormed(ep: Endpoint, p: seq<byte>) { |p| >= 3 && Implied(ep, p) == Some(|p|) }

  /**
   * What that says of the bytes. With n the little-endian length in front, a
   * command response is n + 4 bytes rounded up to a multiple of 4, a confirmation
   * 12 bytes with n = 8, and a packet whose type has bit 4 clear n + 60 bytes on
   * the data endpoint; nothing else is a packet.
   */
  lemma WellFormedMeans(ep: Endpoint, p: seq<byte>)
    requires |p| >= 3
    ensures var n, t := p[0] as nat + 256 * (p[1] as nat), p[2];
            WellFormed(ep, p) <==>
              || (t == 0x11 && |p| % 4 == 0 && n + 4 <= |p| < n + 8)
              || (t == 0x12 && n == 8 && |p| == 12)
              || (t % 32 < 16 && ep == DataIn && |p| == n + 60)
  {
  }

  /**
   * A finished transfer: the buffer, of which the first len bytes arrived now
   * and the others are stale, and whether the allocation of a reassembly buffer
   * and the queueing of a packet would succeed.
   */
  datatype Urb = Urb(buffer: seq<byte>, len: nat, alloc: bool, room: bool) {
    predicate Fits() { |buffer| == MAX_PKT_SIZE && 1 <= len <= MAX_PKT_SIZE }
    function Data(): seq<byte>
      requires Fits()
    {
      buffer[..len]
    }
  }

  // ----- Specification -----------------------------------------------------------------

  /** A packet of which some bytes are still to come. */
  datatype Pending = Pending(total: nat, got: seq<byte>)

  datatype Rx = Rx(pending: Option<Pending>, out: seq<seq<byte>>)

  function Enqueued(out: seq<seq<byte>>, p: seq<byte>, room: bool): seq<seq<byte>> {
    if room then out + [p] else out
  }

  /** A transfer that does not continue a packet starts one, is one, or is dropped. */
  function Fresh(ep: Endpoint, out: seq<seq<byte>>, u: Urb): Rx
    requires u.Fits()
  {
    match Implied(ep, u.buffer)
    case None => Rx(None, out)
    case Some(total) =>
      if total > MAX_PKT_SIZE && u.len == MAX_PKT_SIZE then
        Rx(if u.alloc then Some(Pending(total, u.Data())) else None, out)
      else if total == u.len then Rx(None, Enqueued(out, u.Data(), u.room))
      else Rx(None, out)
  }

  /** A pending packet takes the next transfer if it is as long as what is left, up to the maximum. */
  function Step(ep: Endpoint, rx: Rx, u: Urb): Rx
    requires u.Fits()
  {
    match rx.pending
    case None => Fresh(ep, rx.out, u)
    case Some(p) =>
      if u.len == p.total - |p.got| <= MAX_PKT_SIZE then Rx(None, Enqueued(rx.out, p.got + u.Data(), u.room))
      else if p.total - |p.got| > MAX_PKT_SIZE && u.len == MAX_PKT_SIZE then
        Rx(Some(Pending(p.total, p.got + u.Data())), rx.out)
      else Fresh(ep, rx.out, u)
  }

  predicate AllFit(urbs: seq<Urb>) { forall k :: 0 <= k < |urbs| ==> urbs[k].Fits() }

  function Run(ep: Endpoint, rx: Rx, urbs: seq<Urb>): Rx
    requires AllFit(urbs)
    decreases |urbs|
  {
    if urbs == [] then rx else Run(ep, Step(ep, rx, urbs[0]), urbs[1..])
  }

  lemma {:induction false} RunAppend(ep: Endpoint, rx: Rx, a: seq<Urb>, b: seq<Urb>)
    requires AllFit(a) && AllFit(b)
    ensures Run(ep, rx, a + b) == Run(ep, Run(ep, rx, a), b)
    decreases |a|
  {
    if a == [] {
      assert a + b == b;
    } else {
      assert (a + b)[1..] == a[1..] + b;
      RunAppend(ep, Step(ep, rx, a[0]), a[1..], b);
    }
    hide Step;
  }

  // ----- Any stream: what is delivered has the length its header implies ----------------

  /** Between transfers, whole transfers have been collected and at least one byte is missing. */
  predicate Sound(ep: Endpoint, rx: Rx) {
    && (forall k :: 0 <= k < |rx.out| ==> WellFormed(ep, rx.out[k]))
    && match rx.pending
       case None => true
       case Some(p) => |p.got| >= MAX_PKT_SIZE && |p.got| % MAX_PKT_SIZE == 0 && |p.got| < p.total && Implied(ep, p.got) == Some(p.total)
  }

  lemma StepSound(ep: Endpoint, rx: Rx, u: Urb)
    requires Sound(ep, rx) && u.Fits()
    ensures Sound(ep, Step(ep, rx, u))
  {
    if rx.pending.Some? {
      SameHeader(ep, rx.pending.value.got, rx.pending.value.got + u.Data());
    }
    if u.len >= 3 {
      SameHeader(ep, u.Data(), u.buffer);
    }
    ImpliedLong(ep, u.buffer);
    hide Implied;
  }

  lemma SameHeader(ep: Endpoint, a: seq<byte>, b: seq<byte>)
    requires 3 <= |a| <= |b| && a == b[..|a|]
    ensures Implied(ep, a) == Implied(ep, b)
  {
    assert a[0] == b[0] && a[1] == b[1] && a[2] == b[2];
  }

  /** No packet is as short as its type byte, so the stale bytes of a short transfer never matter. */
  lemma ImpliedLong(ep: Endpoint, data: seq<byte>)
    requires |data| >= 3
    ensures Implied(ep, data).Some? ==> Implied(ep, data).value >= 4
  {
  }

  /** For every stream of transfers, every packet delivered has the length its header implies. */
  lemma {:induction false} DeliveredWellFormed(ep: Endpoint, rx: Rx, urbs: seq<Urb>)
    requires Sound(ep, rx) && AllFit(urbs)
    ensures Sound(ep, Run(ep, rx, urbs))
    decreases |urbs|
  {
    if urbs != [] {
      StepSound(ep, rx, urbs[0]);
      DeliveredWellFormed(ep, Step(ep, rx, urbs[0]), urbs[1..]);
    }
    hide Step, Sound;
  }

  /** With nothing pending, a transfer is delivered at once exactly if it is a whole packet and there is room. */
  lemma OneTransfer(ep: Endpoint, out: seq<seq<byte>>, u: Urb)
    requires u.Fits()
    ensures Step(ep, Rx(None, out), u).out == if u.room && WellFormed(ep, u.Data()) then out + [u.Data()] else out
  {
    if u.len >= 3 {
      SameHeader(ep, u.Data(), u.buffer);
    }
    ImpliedLong(ep, u.buffer);
    hide Implied;
  }

  // ----- Reassembly inverts cutting -----------------------------------------------------

  /** The transfers carry the packet in pieces of the maximum size; its queueing has room or not. */
  ghost predicate Cut(urbs: seq<Urb>, p: seq<byte>, room: bool)
    decreases |p|
  {
    && urbs != [] && urbs[0].Fits()
    && if |p| <= MAX_PKT_SIZE then |urbs| == 1 && urbs[0].Data() == p && urbs[0].room == room
       else urbs[0].Data() == p[..MAX_PKT_SIZE] && Cut(urbs[1..], p[MAX_PKT_SIZE..], room)
  }

  /** Only the first piece of a packet longer than one transfer needs memory. */
  predicate AllocOk(urbs: seq<Urb>, p: seq<byte>) {
    |p| > MAX_PKT_SIZE && urbs != [] ==> urbs[0].alloc
  }

  lemma {:induction false} CutFits(urbs: seq<Urb>, p: seq<byte>, room: bool)
    requires Cut(urbs, p, room)
    ensures AllFit(urbs)
    decreases |p|
  {
    if |p| > MAX_PKT_SIZE {
      CutFits(urbs[1..], p[MAX_PKT_SIZE..], room);
      assert forall k :: 1 <= k < |urbs| ==> urbs[k] == urbs[1..][k - 1];
    }
  }

  lemma {:induction false} RestArrives(ep: Endpoint, out: seq<seq<byte>>, got: seq<byte>, rest: seq<byte>, urbs: seq<Urb>, room: bool)
    requires rest != [] && Cut(urbs, rest, room) && AllFit(urbs)
    ensures Run(ep, Rx(Some(Pending(|got| + |rest|, got)), out), urbs) == Rx(None, Enqueued(out, got + rest, room))
    decreases |rest|
  {
    var rx := Rx(Some(Pending(|got| + |rest|, got)), out);
    hide Implied, Fresh;
    if |rest| <= MAX_PKT_SIZE {
      assert urbs[1..] == [];
      assert Run(ep, Step(ep, rx, urbs[0]), urbs[1..]) == Step(ep, rx, urbs[0]);
    } else {
      var got', rest' := got + rest[..MAX_PKT_SIZE], rest[MAX_PKT_SIZE..];
      assert got' + rest' == got + rest;
      RestArrives(ep, out, got', rest', urbs[1..], room);
      assert Step(ep, rx, urbs[0]) == Rx(Some(Pending(|got'| + |rest'|, got')), out);
    }
  }

  lemma PacketArrives(ep: Endpoint, out: seq<seq<byte>>, p: seq<byte>, urbs: seq<Urb>, room: bool)
    requires WellFormed(ep, p) && Cut(urbs, p, room) && AllFit(urbs) && AllocOk(urbs, p)
    ensures Run(ep, Rx(None, out), urbs) == Rx(None, Enqueued(out, p, room))
  {
    var u := urbs[0];
    SameHeader(ep, u.Data(), u.buffer);
    SameHeader(ep, u.Data(), p);
    var rx := Step(ep, Rx(None, out), u);
    hide Implied;
    if |p| <= MAX_PKT_SIZE {
      assert urbs[1..] == [];
      assert Run(ep, rx, urbs[1..]) == rx;
    } else {
      assert rx == Rx(Some(Pending(|p|, p[..MAX_PKT_SIZE])), out);
      RestArrives(ep, out, p[..MAX_PKT_SIZE], p[MAX_PKT_SIZE..], urbs[1..], room);
      assert p[..MAX_PKT_SIZE] + p[MAX_PKT_SIZE..] == p;
    }
  }

  /** The transfers of several packets, one after the other. */
  ghost predicate CutAll(transfers: seq<seq<Urb>>, packets: seq<seq<byte>>, rooms: seq<bool>) {
    && |transfers| == |packets| == |rooms|
    && forall k :: 0 <= k < |packets| ==> Cut(transfers[k], packets[k], rooms[k])
  }

  ghost predicate AllAllocOk(transfers: seq<seq<Urb>>, packets: seq<seq<byte>>)
    requires |transfers| == |packets|
  {
    forall k :: 0 <= k < |packets| ==> AllocOk(transfers[k], packets[k])
  }

  ghost predicate AllWellFormed(ep: Endpoint, packets: seq<seq<byte>>) {
    forall k :: 0 <= k < |packets| ==> WellFormed(ep, packets[k])
  }

  function Flatten(transfers: seq<seq<Urb>>): seq<Urb> {
    if transfers == [] then [] else transfers[0] + Flatten(transfers[1..])
  }

  lemma {:induction false} CutAllFits(transfers: seq<seq<Urb>>, packets: seq<seq<byte>>, rooms: seq<bool>)
    requires CutAll(transfers, packets, rooms)
    ensures AllFit(Flatten(transfers))
  {
    if transfers != [] {
      CutFits(transfers[0], packets[0], rooms[0]);
      CutAllFits(transfers[1..], packets[1..], rooms[1..]);
    }
    hide Cut;
  }

  /** The packets for which the queue had room. */
  function Kept(packets: seq<seq<byte>>, rooms: seq<bool>): seq<seq<byte>>
    requires |packets| == |rooms|
  {
    if packets == [] then [] else Enqueued([], packets[0], rooms[0]) + Kept(packets[1..], rooms[1..])
  }

  lemma KeptOne(out: seq<seq<byte>>, packets: seq<seq<byte>>, rooms: seq<bool>)
    requires |packets| == |rooms| > 0
    ensures Enqueued(out, packets[0], rooms[0]) + Kept(packets[1..], rooms[1..]) == out + Kept(packets, rooms)
  {
  }

  /**
   * Any sequence of well-formed packets, cut into pieces of the maximum size, is
   * queued byte for byte and in order, but for those the queue had no room for.
   */
  lemma {:induction false} PacketsArrive(ep: Endpoint, out: seq<seq<byte>>, packets: seq<seq<byte>>, transfers: seq<seq<Urb>>, rooms: seq<bool>)
    requires CutAll(transfers, packets, rooms) && AllAllocOk(transfers, packets) && AllWellFormed(ep, packets)
    ensures AllFit(Flatten(transfers))
    ensures Run(ep, Rx(None, out), Flatten(transfers)) == Rx(None, out + Kept(packets, rooms))
    decreases |packets|
  {
    CutAllFits(transfers, packets, rooms);
    if packets == [] {
      assert out + Kept(packets, rooms) == out;
    } else {
      CutFits(transfers[0], packets[0], rooms[0]);
      PacketArrives(ep, out, packets[0], transfers[0], rooms[0]);
      var next := Enqueued(out, packets[0], rooms[0]);
      PacketsArrive(ep, next, packets[1..], transfers[1..], rooms[1..]);
      RunAppend(ep, Rx(None, out), transfers[0], Flatten(transfers[1..]));
      KeptOne(out, packets, rooms);
    }
    hide Cut, Implied, Step, Enqueued, Kept, AllocOk;
  }

  // ----- A failed allocation -------------------------------------------------------------

  function Size(out: seq<seq<byte>>): nat {
    if out == [] then 0 else Size(out[..|out| - 1]) + |out[|out| - 1]|
  }

  function Bytes(urbs: seq<Urb>): nat { if urbs == [] then 0 else urbs[0].len + Bytes(urbs[1..]) }

  /** The bytes queued and those of the packet that is pending. */
  function Weight(rx: Rx): nat { Size(rx.out) + if rx.pending.Some? then |rx.pending.value.got| else 0 }

  lemma SizeMore(out: seq<seq<byte>>, p: seq<byte>)
    ensures Size(out + [p]) == Size(out) + |p|
  {
    assert (out + [p])[..|out|] == out;
  }

  lemma {:induction false} SizeConcat(a: seq<seq<byte>>, b: seq<seq<byte>>)
    ensures Size(a + b) == Size(a) + Size(b)
  {
    if b == [] {
      assert a + b == a;
    } else {
      var n := |b| - 1;
      SizeConcat(a, b[..n]);
      assert (a + b)[..|a| + n] == a + b[..n];
    }
  }

  /** No more is ever delivered or kept than was received. */
  lemma {:induction false} RunBytes(ep: Endpoint, rx: Rx, urbs: seq<Urb>)
    requires AllFit(urbs)
    ensures Weight(Run(ep, rx, urbs)) <= Weight(rx) + Bytes(urbs)
    decreases |urbs|
  {
    if urbs != [] {
      StepBytes(ep, rx, urbs[0]);
      RunBytes(ep, Step(ep, rx, urbs[0]), urbs[1..]);
    }
    hide Step, Weight;
  }

  lemma FreshBytes(ep: Endpoint, out: seq<seq<byte>>, u: Urb)
    requires u.Fits()
    ensures Weight(Fresh(ep, out, u)) <= Size(out) + u.len
  {
    EnqueuedBytes(out, u.Data(), u.room);
    hide Implied, Size, Enqueued;
  }

  lemma EnqueuedBytes(out: seq<seq<byte>>, p: seq<byte>, room: bool)
    ensures Size(Enqueued(out, p, room)) <= Size(out) + |p|
  {
    SizeMore(out, p);
  }

  lemma StepBytes(ep: Endpoint, rx: Rx, u: Urb)
    requires u.Fits()
    ensures Weight(Step(ep, rx, u)) <= Weight(rx) + u.len
  {
    FreshBytes(ep, rx.out, u);
    if rx.pending.Some? {
      EnqueuedBytes(rx.out, rx.pending.value.got + u.Data(), u.room);
    }
    hide Fresh, Size, Enqueued;
  }

  lemma {:induction false} CutBytes(urbs: seq<Urb>, p: seq<byte>, room: bool)
    requires Cut(urbs, p, room)
    ensures Bytes(urbs) == |p|
    decreases |p|
  {
    if |p| > MAX_PKT_SIZE {
      CutBytes(urbs[1..], p[MAX_PKT_SIZE..], room);
    } else {
      assert urbs[1..] == [];
    }
  }

  lemma {:induction false} BytesConcat(a: seq<Urb>, b: seq<Urb>)
    ensures Bytes(a + b) == Bytes(a) + Bytes(b)
  {
    if a == [] {
      assert a + b == b;
    } else {
      assert (a + b)[1..] == a[1..] + b;
      BytesConcat(a[1..], b);
    }
  }

  lemma {:induction false} FlattenBytes(transfers: seq<seq<Urb>>, packets: seq<seq<byte>>, rooms: seq<bool>)
    requires CutAll(transfers, packets, rooms)
    ensures Bytes(Flatten(transfers)) == Size(packets)
    decreases |packets|
  {
    if packets != [] {
      CutBytes(transfers[0], packets[0], rooms[0]);
      FlattenBytes(transfers[1..], packets[1..], rooms[1..]);
      BytesConcat(transfers[0], Flatten(transfers[1..]));
      SizeHead(packets);
    }
    hide Cut, Size;
  }

  lemma SizeHead(packets: seq<seq<byte>>)
    requires packets != []
    ensures Size(packets) == |packets[0]| + Size(packets[1..])
  {
    assert packets == [packets[0]] + packets[1..];
    SizeConcat([packets[0]], packets[1..]);
    SizeMore([], packets[0]);
    assert [] + [packets[0]] == [packets[0]];
  }

  /** The first piece of a long packet for which there is no memory is gone. */
  lemma FirstLost(ep: Endpoint, out: seq<seq<byte>>, p: seq<byte>, urbs: seq<Urb>, room: bool)
    requires WellFormed(ep, p) && Cut(urbs, p, room) && !AllocOk(urbs, p)
    ensures Step(ep, Rx(None, out), urbs[0]) == Rx(None, out) && urbs[0].len == MAX_PKT_SIZE
  {
    SameHeader(ep, urbs[0].Data(), urbs[0].buffer);
    SameHeader(ep, urbs[0].Data(), p);
    hide Implied;
  }

  /** What is left of the stream then is too short for the packets that were sent. */
  lemma LostIsMissing(ep: Endpoint, out: seq<seq<byte>>, packets: seq<seq<byte>>, transfers: seq<seq<Urb>>, rooms: seq<bool>)
    requires CutAll(transfers, packets, rooms) && AllWellFormed(ep, packets)
    requires packets != [] && !AllocOk(transfers[0], packets[0]) && AllFit(Flatten(transfers))
    ensures Run(ep, Rx(None, out), Flatten(transfers)) != Rx(None, out + packets)
  {
    var urbs := Flatten(transfers);
    assert urbs[0] == transfers[0][0];
    FirstLost(ep, out, packets[0], transfers[0], rooms[0]);
    FlattenBytes(transfers, packets, rooms);
    hide Cut, Step, Flatten, Size;
    RunBytes(ep, Rx(None, out), urbs[1..]);
    SizeConcat(out, packets);
  }

  /**
   * When the queue has room for everything, the packets arrive if and only if
   * every packet longer than one transfer gets its memory.
   */
  lemma {:induction false} PacketsArriveIff(ep: Endpoint, out: seq<seq<byte>>, packets: seq<seq<byte>>, transfers: seq<seq<Urb>>, rooms: seq<bool>)
    requires CutAll(transfers, packets, rooms) && AllWellFormed(ep, packets) && false !in rooms
    ensures AllFit(Flatten(transfers))
    ensures Run(ep, Rx(None, out), Flatten(transfers)) == Rx(None, out + packets) <==> AllAllocOk(transfers, packets)
    decreases |packets|
  {
    CutAllFits(transfers, packets, rooms);
    if packets == [] {
      NoPackets(ep, out, packets, transfers);
    }
    hide Cut, Implied, Step, AllocOk, Run, Flatten;
    if packets == [] {
    } else if AllocOk(transfers[0], packets[0]) {
      HeadArrives(ep, out, packets, transfers, rooms);
      PacketsArriveIff(ep, out + [packets[0]], packets[1..], transfers[1..], rooms[1..]);
      assert out + [packets[0]] + packets[1..] == out + packets;
      AllocTail(transfers, packets);
    } else {
      LostIsMissing(ep, out, packets, transfers, rooms);
    }
  }

  lemma NoPackets(ep: Endpoint, out: seq<seq<byte>>, packets: seq<seq<byte>>, transfers: seq<seq<Urb>>)
    requires |transfers| == |packets| == 0
    ensures AllFit(Flatten(transfers)) && AllAllocOk(transfers, packets)
    ensures Run(ep, Rx(None, out), Flatten(transfers)) == Rx(None, out + packets)
  {
    assert out + packets == out;
  }

  lemma HeadArrives(ep: Endpoint, out: seq<seq<byte>>, packets: seq<seq<byte>>, transfers: seq<seq<Urb>>, rooms: seq<bool>)
    requires CutAll(transfers, packets, rooms) && AllWellFormed(ep, packets) && false !in rooms
    requires packets != [] && AllocOk(transfers[0], packets[0])
    ensures AllFit(Flatten(transfers)) && AllFit(Flatten(transfers[1..]))
    ensures Run(ep, Rx(None, out), Flatten(transfers)) == Run(ep, Rx(None, out + [packets[0]]), Flatten(transfers[1..]))
  {
    CutAllFits(transfers, packets, rooms);
    CutAllFits(transfers[1..], packets[1..], rooms[1..]);
    CutFits(transfers[0], packets[0], rooms[0]);
    assert rooms[0];
    PacketArrives(ep, out, packets[0], transfers[0], rooms[0]);
    RunAppend(ep, Rx(None, out), transfers[0], Flatten(transfers[1..]));
    hide Cut, Implied, Step, AllocOk, Run;
  }

  lemma AllocTail(transfers: seq<seq<Urb>>, packets: seq<seq<byte>>)
    requires |transfers| == |packets| > 0 && AllocOk(transfers[0], packets[0])
    ensures AllAllocOk(transfers, packets) <==> AllAllocOk(transfers[1..], packets[1..])
  {
    assert forall k :: 1 <= k < |packets| ==> transfers[k] == transfers[1..][k - 1] && packets[k] == packets[1..][k - 1];
  }

  /** What is left of a packet is then read as packets: 60 zero bytes of payload are delivered as one. */
  lemma AllocFailureMisreads(out: seq<seq<byte>>, first: Urb, second: Urb)
    requires first.Fits() && second.Fits() && first.len == MAX_PKT_SIZE && !first.alloc && second.room
    requires Implied(DataIn, first.buffer) == Some(MAX_PKT_SIZE + 60)
    requires second.len == 60 && forall k :: 0 <= k < 60 ==> second.buffer[k] == 0
    ensures Run(DataIn, Rx(None, out), [first, second]).out == out + [second.Data()]
  {
    var rx := Step(DataIn, Rx(None, out), first);
    assert rx == Rx(None, out);
    assert Implied(DataIn, second.buffer) == Some(60);
    assert [first, second][1..] == [second];
    assert Run(DataIn, rx, [second]) == Step(DataIn, rx, second) by {
      assert [second][1..] == [];
      assert Run(DataIn, Step(DataIn, rx, second), []) == Step(DataIn, rx, second);
    }
    hide Implied, Step;
  }

  // ----- The receive state ---------------------------------------------------------------

  class RxPriv {
    const ep: Endpoint
    var rxq: seq<seq<byte>>
    var skb: array?<byte>                         // rx_reassemble_skb
    var skbLen: nat                               // and how much of it is filled
    var totalLen: nat
    var curLen: nat
    var totalFrags: nat
    var curFrags: nat

    ghost predicate Valid()
      reads this, skb
    {
      if skb == null then totalLen == curLen == totalFrags == curFrags == 0
      else
        && skb.Length == totalLen
        && curLen == skbLen == curFrags * MAX_PKT_SIZE
        && 1 <= curFrags < totalFrags
        && totalFrags == (totalLen + (MAX_PKT_SIZE - 1)) / MAX_PKT_SIZE
        && curLen < totalLen
    }

    ghost function St(): Rx
      requires Valid()
      reads this, skb
    {
      Rx(if skb == null then None else Some(Pending(totalLen, skb[..skbLen])), rxq)
    }

    constructor (ep: Endpoint)
      ensures Valid() && St() == Rx(None, []) && this.ep == ep
    {
      this.ep, rxq, skb := ep, [], null;
      totalLen, curLen, totalFrags, curFrags := 0, 0, 0, 0;
    }

    method Reset()
      modifies this
      ensures Valid() && skb == null && rxq == old(rxq)
    {
      skb, totalLen, curLen, totalFrags, curFrags := null, 0, 0, 0, 0;
    }

    /** One finished transfer while the bus is up. */
    method RxComplete(u: Urb)
      requires Valid() && u.Fits()
      modifies this, skb
      ensures Valid() && St() == Step(ep, old(St()), u)
    {
      var pktCheck := skb == null;
      if skb != null {
        var done := curFrags + 1 == totalFrags && curLen + u.len == totalLen;
        if done || (curFrags + 1 != totalFrags && u.len == MAX_PKT_SIZE) {
          ghost var before := skb[..skbLen];
          forall k | 0 <= k < u.len {
            skb[skbLen + k] := u.buffer[k];
          }
          assert skb[..skbLen + u.len] == before + u.Data();
          skbLen := skbLen + u.len;
          curLen := curLen + u.len;
          curFrags := curFrags + 1;
          if done {
            var packet := skb[..skbLen];
            Reset();
            Enqueue(packet, u.room);
          }
        } else {
          Reset();
          pktCheck := true;
        }
      }
      if pktCheck {
        Check(u);
      }
    }

    /** aicwf_rxframe_enqueue refuses a packet when the queue is full. */
    method Enqueue(packet: seq<byte>, room: bool)
      modifies `rxq
      ensures rxq == Enqueued(old(rxq), packet, room)
    {
      if room {
        rxq := rxq + [packet];
      }
    }

    method Check(u: Urb)
      requires Valid() && skb == null && u.Fits()
      modifies this
      ensures Valid() && St() == Fresh(ep, old(rxq), u)
      ensures skb != null ==> fresh(skb)
    {
      var pktDrop := false;
      var t := u.buffer[2];
      var pktLen := u.buffer[0] as nat + 256 * (u.buffer[1] as nat);
      if !IsCfg(t) || t == TYPE_CFG_CMD_RSP {
        if !IsCfg(t) && ep.MsgIn? {
          pktDrop := true;
        } else {
          var pktTotalLen := if !IsCfg(t) then pktLen + RX_HWHRD_LEN else Align4(pktLen + 4);
          if pktTotalLen > MAX_PKT_SIZE && u.len == MAX_PKT_SIZE {
            if u.alloc {
              Start(pktTotalLen, u);
            }
            return;
          } else if pktTotalLen != u.len {
            pktDrop := true;
          }
        }
      } else if t == TYPE_CFG_DATA_CFM {
        if !(pktLen == 8 && u.len == 12) {
          pktDrop := true;
        }
      } else {
        pktDrop := true;
      }
      if !pktDrop {
        Enqueue(u.buffer[..u.len], u.room);
      }
    }

    /** The first piece of a long packet. */
    method Start(pktTotalLen: nat, u: Urb)
      requires Valid() && skb == null && u.Fits() && u.len == MAX_PKT_SIZE < pktTotalLen
      modifies this
      ensures Valid() && St() == Rx(Some(Pending(pktTotalLen, u.Data())), old(rxq))
      ensures skb != null && fresh(skb)
    {
      var s := new byte[pktTotalLen](_ => 0);
      forall k | 0 <= k < u.len {
        s[k] := u.buffer[k];
      }
      assert s[..u.len] == u.Data();
      skb, skbLen := s, u.len;
      totalLen, curLen := pktTotalLen, u.len;
      totalFrags := (pktTotalLen + (MAX_PKT_SIZE - 1)) / MAX_PKT_SIZE;
      curFrags := 1;
    }
  }
}
