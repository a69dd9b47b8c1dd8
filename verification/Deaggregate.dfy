// The aggregated receive path of aicwf_txrxif.c (aicwf_usb_rx_aggr, without
// CONFIG_USB_RX_REASSEMBLE): one transfer holds several packets, which a loop
// splits by the length in front of each.

module Deaggregate {
  import opened Common

  const RX_HWHRD_LEN := 60

  /** The length field of a packet; also the head of a buffer on which aicwf_another_ptk looks. */
  function Length(data: seq<byte>): (n: nat)
    requires |data| >= 2
    ensures n < 65536
  {
    data[0] as nat + 256 * (data[1] as nat)
  }

  /** (type & USB_TYPE_CFG) == USB_TYPE_CFG; a type byte past the end of the buffer is `beyond`. */
  predicate IsCfg(data: seq<byte>, beyond: byte) {
    ((if |data| >= 3 then data[2] else beyond) / 16) % 2 == 1
  }

  /** aicwf_another_ptk */
  predicate Another(data: seq<byte>) { |data| >= 2 && Length(data) != 0 }

  /** adjust_len, a u16, and what skb_pull is asked for. */
  function Pull(data: seq<byte>, beyond: byte): nat
    requires |data| >= 2
  {
    if IsCfg(data, beyond) then Align4(Length(data)) % 65536 + 4 else (Length(data) + RX_HWHRD_LEN) % 65536
  }

  /** aggr_len bytes for a data packet, aggr_len + 4 for a message; what lies in the buffer of them. */
  function Packet(data: seq<byte>, beyond: byte): seq<byte>
    requires |data| >= 2
  {
    var n := if IsCfg(data, beyond) then Length(data) + 4 else (Length(data) + RX_HWHRD_LEN) % 65536;
    if n <= |data| then data[..n] else data
  }

  /**
   * Done: the loop ended. Aborted: a message could not be allocated and the rest
   * of the buffer was given up. Stuck: skb_pull did not move, since the buffer is
   * shorter than the packet or nothing was to be pulled, and the loop turns for
   * ever on the same packet.
   */
  datatype Outcome = Done(packets: seq<seq<byte>>) | Aborted(packets: seq<seq<byte>>) | Stuck(packets: seq<seq<byte>>)

  function Before(p: seq<seq<byte>>, o: Outcome): Outcome {
    match o
    case Done(q) => Done(p + q)
    case Aborted(q) => Aborted(p + q)
    case Stuck(q) => Stuck(p + q)
  }

  /** The loop, from its k-th packet on; the allocations for the packets in `fails` fail. */
  function Split(data: seq<byte>, beyond: byte, k: nat, fails: set<nat>): Outcome
    decreases |data|
  {
    if !Another(data) || Length(data) > |data| then Done([])
    else if k in fails && IsCfg(data, beyond) then Aborted([])
    else
      var p := if k in fails then [] else [Packet(data, beyond)];
      if 0 < Pull(data, beyond) <= |data| then Before(p, Split(data[Pull(data, beyond)..], beyond, k + 1, fails))
      else Stuck(p)
  }

  // ----- Splitting inverts concatenation -----------------------------------------------

  /** A packet as the firmware writes it: a length that is not zero, a type, and that many bytes. */
  predicate WellFormed(p: seq<byte>) {
    && |p| >= 4 && Length(p) != 0
    && if IsCfg(p, 0) then Length(p) <= 65532 && |p| == Align4(Length(p)) + 4
       else Length(p) + RX_HWHRD_LEN < 65536 && |p| == Length(p) + RX_HWHRD_LEN
  }

  /** What is delivered of a packet: all of a data packet, and a message without its padding. */
  function Delivered(p: seq<byte>): seq<byte>
    requires WellFormed(p)
  {
    if IsCfg(p, 0) then p[..Length(p) + 4] else p
  }

  /**
   * What that says of the bytes. With n the little-endian length in front, a
   * packet whose type has bit 4 clear is n + 60 bytes and delivered whole; any
   * other is n + 4 bytes and padding to a multiple of 4, and delivered without it.
   */
  lemma WellFormedMeans(p: seq<byte>)
    requires |p| >= 4
    ensures var n := p[0] as nat + 256 * (p[1] as nat);
            WellFormed(p) <==>
              n != 0 && if p[2] % 32 < 16 then |p| == n + 60 < 65536 else n <= 65532 && |p| % 4 == 0 && n + 4 <= |p| < n + 8
    ensures var n := p[0] as nat + 256 * (p[1] as nat);
            WellFormed(p) ==> Delivered(p) == if p[2] % 32 < 16 then p else p[..n + 4]
  {
  }

  function Concat(packets: seq<seq<byte>>): seq<byte> {
    if packets == [] then [] else packets[0] + Concat(packets[1..])
  }

  ghost predicate AllWellFormed(packets: seq<seq<byte>>) {
    forall k :: 0 <= k < |packets| ==> WellFormed(packets[k])
  }

  /** The end of a buffer: too short for a length field, a zero one, or one that exceeds the buffer. */
  predicate Ends(rest: seq<byte>) { !Another(rest) || Length(rest) > |rest| }

  /** The packets whose allocation succeeds; a message that cannot be allocated ends everything. */
  ghost function Expected(packets: seq<seq<byte>>, k: nat, fails: set<nat>): Outcome
    requires AllWellFormed(packets)
    decreases |packets|
  {
    if packets == [] then Done([])
    else if k in fails && IsCfg(packets[0], 0) then Aborted([])
    else
      Before(if k in fails then [] else [Delivered(packets[0])], Expected(packets[1..], k + 1, fails))
  }

  lemma OnePacket(p: seq<byte>, rest: seq<byte>, beyond: byte)
    requires WellFormed(p)
    ensures var data := p + rest;
            && Another(data) && Length(data) <= |data| && Pull(data, beyond) == |p| && data[|p|..] == rest
            && IsCfg(data, beyond) == IsCfg(p, 0) && Packet(data, beyond) == Delivered(p)
  {
    var data := p + rest;
    assert data[0] == p[0] && data[1] == p[1] && data[2] == p[2];
    var n := Length(p);
    assert n <= Align4(n) < n + 4;
    hide Align4;
    if IsCfg(p, 0) {
      assert data[..n + 4] == p[..n + 4];
    } else {
      assert data[..|p|] == p;
    }
  }

  /** Every packet of a concatenation is delivered once and in order, and the loop ends. */
  lemma {:induction false} SplitInverts(packets: seq<seq<byte>>, rest: seq<byte>, beyond: byte, k: nat, fails: set<nat>)
    requires AllWellFormed(packets) && Ends(rest)
    ensures Split(Concat(packets) + rest, beyond, k, fails) == Expected(packets, k, fails)
    decreases |packets|
  {
    if packets == [] {
      assert Concat(packets) + rest == rest;
    } else {
      var more := Concat(packets[1..]) + rest;
      assert Concat(packets) + rest == packets[0] + more;
      OnePacket(packets[0], more, beyond);
      SplitInverts(packets[1..], rest, beyond, k + 1, fails);
      hide Another, Length, Pull, Packet, IsCfg, Delivered, Ends;
    }
  }

  /** The packets themselves, when every allocation succeeds. */
  ghost function AllDelivered(packets: seq<seq<byte>>): (r: seq<seq<byte>>)
    requires AllWellFormed(packets)
    ensures |r| == |packets| && forall k :: 0 <= k < |packets| ==> r[k] == Delivered(packets[k])
  {
    if packets == [] then [] else [Delivered(packets[0])] + AllDelivered(packets[1..])
  }

  lemma {:induction false} ExpectedAll(packets: seq<seq<byte>>, k: nat)
    requires AllWellFormed(packets)
    ensures Expected(packets, k, {}) == Done(AllDelivered(packets))
    decreases |packets|
  {
    if packets != [] {
      ExpectedAll(packets[1..], k + 1);
    }
  }

  // ----- When the loop ends ---------------------------------------------------------------

  /** No length that passes the test overflows the 16 bits of aggr_len. */
  predicate NoWrap(data: seq<byte>) { |data| + RX_HWHRD_LEN < 65536 }

  /** A buffer of whole packets with an end. */
  ghost predicate Whole(data: seq<byte>, packets: seq<seq<byte>>, rest: seq<byte>) {
    AllWellFormed(packets) && Ends(rest) && data == Concat(packets) + rest
  }

  /** Without wrapping, what is pulled is the size of the packet. */
  lemma PullIs(data: seq<byte>, beyond: byte)
    requires NoWrap(data) && |data| >= 2 && Length(data) <= |data|
    ensures Pull(data, beyond) == if IsCfg(data, beyond) then Align4(Length(data)) + 4 else Length(data) + RX_HWHRD_LEN
    ensures Length(data) <= 65532 && Length(data) <= Align4(Length(data))
  {
    assert Length(data) <= Align4(Length(data)) < Length(data) + 4;
    hide Align4;
  }

  lemma FirstPacket(data: seq<byte>, beyond: byte)
    requires |data| >= 3 && NoWrap(data) && Another(data) && Length(data) <= |data| && 0 < Pull(data, beyond) <= |data|
    ensures WellFormed(data[..Pull(data, beyond)])
  {
    PullIs(data, beyond);
    hide Align4, Pull;
    var p := data[..Pull(data, beyond)];
    assert p[0] == data[0] && p[1] == data[1] && p[2] == data[2];
  }

  /** For a two-byte buffer the type is read past its end, and no packet is that short. */
  lemma TwoBytes(data: seq<byte>, beyond: byte)
    requires |data| == 2 && Another(data) && Length(data) <= |data|
    ensures Pull(data, beyond) > |data|
  {
  }

  lemma {:induction false} DoneIsWhole(data: seq<byte>, beyond: byte, k: nat) returns (packets: seq<seq<byte>>, rest: seq<byte>)
    requires NoWrap(data) && Split(data, beyond, k, {}).Done?
    ensures Whole(data, packets, rest)
    decreases |data|
  {
    if Ends(data) {
      packets, rest := [], data;
      assert Concat(packets) + rest == data;
    } else {
      if |data| == 2 {
        TwoBytes(data, beyond);
      }
      FirstPacket(data, beyond);
      var n := Pull(data, beyond);
      var more;
      more, rest := DoneIsWhole(data[n..], beyond, k + 1);
      packets := [data[..n]] + more;
      Prepend(data, n, more, rest);
    }
    hide Another, Length, Pull, Packet, IsCfg, Ends, Concat, WellFormed;
  }

  lemma Prepend(data: seq<byte>, n: nat, more: seq<seq<byte>>, rest: seq<byte>)
    requires n <= |data| && WellFormed(data[..n]) && Whole(data[n..], more, rest)
    ensures Whole(data, [data[..n]] + more, rest)
  {
    var packets := [data[..n]] + more;
    assert packets[1..] == more;
    assert data == data[..n] + data[n..];
    assert data[..n] + (Concat(more) + rest) == Concat(packets) + rest;
    hide WellFormed, Ends, Concat;
  }

  /**
   * On a buffer for which aggr_len does not wrap, the loop ends if and only if the
   * buffer is a concatenation of whole packets with an end; otherwise it is stuck.
   */
  lemma EndsIffWhole(data: seq<byte>, beyond: byte)
    requires NoWrap(data)
    ensures Split(data, beyond, 0, {}).Done? <==> exists packets, rest :: Whole(data, packets, rest)
    ensures Split(data, beyond, 0, {}).Done? || Split(data, beyond, 0, {}).Stuck?
  {
    NotAborted(data, beyond, 0);
    if Split(data, beyond, 0, {}).Done? {
      var packets, rest := DoneIsWhole(data, beyond, 0);
    }
    if packets, rest :| Whole(data, packets, rest) {
      SplitInverts(packets, rest, beyond, 0, {});
      ExpectedAll(packets, 0);
    }
    hide Split;
  }

  lemma {:induction false} NotAborted(data: seq<byte>, beyond: byte, k: nat)
    ensures !Split(data, beyond, k, {}).Aborted?
    decreases |data|
  {
    if !Ends(data) && 0 < Pull(data, beyond) <= |data| {
      NotAborted(data[Pull(data, beyond)..], beyond, k + 1);
    }
  }

  /** A data packet cut short by up to 60 bytes passes the length test and is never pulled. */
  lemma CutShortIsStuck(data: seq<byte>, beyond: byte, k: nat)
    requires |data| >= 3 && NoWrap(data) && Another(data) && !IsCfg(data, beyond)
    ensures Split(data, beyond, k, {}) == Stuck([Packet(data, beyond)]) <==> Length(data) <= |data| < Length(data) + RX_HWHRD_LEN
  {
    if Length(data) + RX_HWHRD_LEN <= |data| {
      var rest := Split(data[Pull(data, beyond)..], beyond, k + 1, {});
      StuckDelivers(data[Pull(data, beyond)..], beyond, k + 1);
      assert Split(data, beyond, k, {}) == Before([Packet(data, beyond)], rest);
    }
  }

  lemma {:induction false} StuckDelivers(data: seq<byte>, beyond: byte, k: nat)
    ensures Split(data, beyond, k, {}).Stuck? ==> Split(data, beyond, k, {}).packets != []
    decreases |data|
  {
    if !Ends(data) && 0 < Pull(data, beyond) <= |data| {
      StuckDelivers(data[Pull(data, beyond)..], beyond, k + 1);
    }
  }

  /** One turn of the loop, after the packets in `out`. */
  lemma Turn(out: seq<seq<byte>>, skb: seq<byte>, beyond: byte, k: nat, fails: set<nat>)
    ensures Before(out, Split(skb, beyond, k, fails)) ==
            if !Another(skb) || Length(skb) > |skb| then Done(out)
            else if k in fails && IsCfg(skb, beyond) then Aborted(out)
            else
              var more := if k in fails then out else out + [Packet(skb, beyond)];
              if 0 < Pull(skb, beyond) <= |skb| then Before(more, Split(skb[Pull(skb, beyond)..], beyond, k + 1, fails)) else Stuck(more)
  {
    hide IsCfg, Pull, Packet;
    assert out + [] == out;
    if Another(skb) && Length(skb) <= |skb| && !(k in fails && IsCfg(skb, beyond)) && 0 < Pull(skb, beyond) <= |skb| {
      var p := if k in fails then [] else [Packet(skb, beyond)];
      BeforeTwice(out, p, Split(skb[Pull(skb, beyond)..], beyond, k + 1, fails));
    }
  }

  lemma BeforeTwice(a: seq<seq<byte>>, b: seq<seq<byte>>, o: Outcome)
    ensures Before(a, Before(b, o)) == Before(a + b, o)
  {
    assert a + (b + o.packets) == (a + b) + o.packets;
  }

  // ----- The loop ------------------------------------------------------------------------------

  /** What one turn delivers and how far it asks skb_pull to go. */
  method TakeOne(skb: seq<byte>, beyond: byte) returns (adjust: nat, packet: seq<byte>)
    requires |skb| >= 2
    ensures adjust == Pull(skb, beyond) && packet == Packet(skb, beyond)
  {
    var pktLen := Length(skb);
    var n;
    if !IsCfg(skb, beyond) {
      n := (pktLen + RX_HWHRD_LEN) % 65536;
      adjust := n;
    } else {
      n := pktLen + 4;
      adjust := if pktLen % 4 != 0 then Align4(pktLen) % 65536 else pktLen;
      adjust := adjust + 4;
    }
    packet := if n <= |skb| then skb[..n] else skb;
  }

  /** The loop over one skb; its data moves on by what is pulled. */
  method RxFrames(data: seq<byte>, beyond: byte, fails: set<nat>) returns (r: Outcome)
    ensures r == Split(data, beyond, 0, fails)
  {
    var skb, k := data, 0;
    var out: seq<seq<byte>> := [];
    assert Split(data, beyond, 0, fails) == Before(out, Split(data, beyond, 0, fails));
    hide Split, Before, IsCfg, Pull, Packet;
    while Another(skb)
      invariant Split(data, beyond, 0, fails) == Before(out, Split(skb, beyond, k, fails))
      decreases |skb|
    {
      Turn(out, skb, beyond, k, fails);
      if Length(skb) > |skb| {
        break;
      }
      if k in fails && IsCfg(skb, beyond) {
        return Aborted(out);
      }
      var adjust, packet := TakeOne(skb, beyond);
      if k !in fails {
        out := out + [packet];
      }
      if adjust == 0 || adjust > |skb| {
        return Stuck(out);
      }
      skb, k := skb[adjust..], k + 1;
    }
    Turn(out, skb, beyond, k, fails);
    r := Done(out);
  }
}
