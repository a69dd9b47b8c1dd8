// Two frame edits of aic_br_ext.c: the VLAN tag that nat25_handle_frame moves
// out of the way of the lookup, and the checksum that dhcp_flag_bcast updates.

module VlanShift {
  import opened Common

  datatype Looked = Looked(ret: int, frame: seq<byte>)

  /** nat25_db_handle in lookup mode; it may rewrite the frame but not its length. */
  type Lookup = seq<byte> -> Looked

  ghost predicate KeepsLength(lookup: Lookup) { forall f :: |lookup(f).frame| == |f| }

  /** The settings that nat25_handle_frame consults, and the one-entry cache in front of the database. */
  datatype Config = Config(nat25Disable: bool, scDisable: bool, scdbIp: seq<byte>, scdbMac: seq<byte>, brIp: seq<byte>) {
    predicate Valid() { |scdbIp| == 4 && |scdbMac| == 6 && |brIp| == 4 }
  }

  predicate IsIp(frame: seq<byte>)
    requires |frame| >= 14
  {
    frame[12] == 0x08 && frame[13] == 0x00
  }

  predicate IsArp(frame: seq<byte>)
    requires |frame| >= 14
  {
    frame[12] == 0x08 && frame[13] == 0x06
  }

  /** An Ethernet frame whose IP or ARP header is all there. */
  predicate Complete(frame: seq<byte>) {
    |frame| >= 14 && (IsIp(frame) ==> |frame| >= 34) && (IsArp(frame) ==> |frame| >= 42)
  }

  predicate IsTagged(frame: seq<byte>) { |frame| >= 18 && frame[12] == 0x81 && frame[13] == 0x00 }

  /** The frame without its tag. */
  function Untagged(frame: seq<byte>): (r: seq<byte>)
    requires IsTagged(frame)
    ensures |r| == |frame| - 4
  {
    frame[..12] + frame[16..]
  }

  /** The frame with a tag of the given two bytes. */
  function Tagged(frame: seq<byte>, t0: byte, t1: byte): (r: seq<byte>)
    requires |frame| >= 14
    ensures |r| == |frame| + 4
  {
    frame[..12] + [0x81, 0x00, t0, t1] + frame[12..]
  }

  /** What happens to an untagged unicast frame. */
  function Looked25(cfg: Config, lookup: Lookup, frame: seq<byte>): Looked
    requires cfg.Valid() && Complete(frame)
  {
    if !cfg.nat25Disable then
      if !cfg.scDisable && IsIp(frame) && frame[30..34] == cfg.scdbIp then Looked(0, cfg.scdbMac + frame[6..])
      else lookup(frame)
    else if (IsIp(frame) && frame[30..34] == cfg.brIp) || (IsArp(frame) && frame[38..42] == cfg.brIp) then lookup(frame)
    else Looked(0, frame)
  }

  predicate Handleable(frame: seq<byte>) {
    |frame| >= 14 && if frame[12] == 0x81 && frame[13] == 0x00 then |frame| >= 18 && Complete(Untagged(frame)) else Complete(frame)
  }

  /** nat25_handle_frame without the shifting: a tag is taken off, and the same tag put back. */
  function Handled(cfg: Config, lookup: Lookup, frame: seq<byte>): Looked
    requires cfg.Valid() && Handleable(frame) && KeepsLength(lookup)
  {
    if frame[0] % 2 == 1 then Looked(0, frame)
    else if IsTagged(frame) then
      var r := Looked25(cfg, lookup, Untagged(frame));
      Looked(if r.ret == -1 then -1 else 0, Tagged(r.frame, frame[14], frame[15]))
    else
      var r := Looked25(cfg, lookup, frame);
      Looked(if r.ret == -1 then -1 else 0, r.frame)
  }

  /** Taking the tag off and putting it back is the identity. */
  lemma TagRestored(frame: seq<byte>)
    requires IsTagged(frame)
    ensures Tagged(Untagged(frame), frame[14], frame[15]) == frame
  {
    var u := Untagged(frame);
    assert u[..12] == frame[..12] && u[12..] == frame[16..];
    assert frame == frame[..12] + frame[12..16] + frame[16..];
  }

  /** The shortcut answers for this frame, without a lookup. */
  predicate ShortCut(cfg: Config, frame: seq<byte>)
    requires cfg.Valid() && Complete(frame)
  {
    !cfg.nat25Disable && !cfg.scDisable && IsIp(frame) && frame[30..34] == cfg.scdbIp
  }

  /**
   * With a lookup that changes nothing, every byte of every frame is restored,
   * tagged or not, unless the shortcut writes a new address over an old one.
   */
  lemma UnchangedByIdentity(cfg: Config, lookup: Lookup, frame: seq<byte>)
    requires cfg.Valid() && Handleable(frame) && KeepsLength(lookup) && forall f :: lookup(f).frame == f
    ensures var inner := if IsTagged(frame) then Untagged(frame) else frame;
            Handled(cfg, lookup, frame).frame == frame
            <==> frame[0] % 2 == 1 || !ShortCut(cfg, inner) || frame[..6] == cfg.scdbMac
  {
    var inner := if IsTagged(frame) then Untagged(frame) else frame;
    assert inner[..6] == frame[..6];
    if frame[0] % 2 == 0 {
      SameAddress(cfg, lookup, inner);
      var r := Looked25(cfg, lookup, inner).frame;
      if IsTagged(frame) {
        TagRestored(frame);
        TaggedInjective(r, inner, frame[14], frame[15]);
      }
    }
  }

  lemma SameAddress(cfg: Config, lookup: Lookup, frame: seq<byte>)
    requires cfg.Valid() && Complete(frame) && forall f :: lookup(f).frame == f
    ensures |Looked25(cfg, lookup, frame).frame| == |frame|
    ensures Looked25(cfg, lookup, frame).frame == frame <==> !ShortCut(cfg, frame) || frame[..6] == cfg.scdbMac
  {
    assert frame == frame[..6] + frame[6..];
    assert (cfg.scdbMac + frame[6..])[..6] == cfg.scdbMac;
  }

  lemma TaggedInjective(a: seq<byte>, b: seq<byte>, t0: byte, t1: byte)
    requires |a| == |b| >= 14
    ensures Tagged(a, t0, t1) == Tagged(b, t0, t1) <==> a == b
  {
    var s, t := Tagged(a, t0, t1), Tagged(b, t0, t1);
    assert a == s[..12] + s[16..] && b == t[..12] + t[16..];
  }

  /**
   * What the caller can rely on for a unicast frame; inner is the frame without
   * its tag, before and after. With NAT2.5 on, the lookup decides the frame and
   * the verdict, unless it is an IPv4 frame to the cached address, of which the
   * first six bytes are replaced. With NAT2.5 off, the lookup decides exactly for
   * IPv4 and ARP frames to the address of the bridge, and others pass.
   */
  lemma LookupDecides(cfg: Config, lookup: Lookup, frame: seq<byte>)
    requires cfg.Valid() && Handleable(frame) && KeepsLength(lookup) && frame[0] % 2 == 0
    ensures var r := Handled(cfg, lookup, frame);
            && |r.frame| == |frame| && (r.ret == 0 || r.ret == -1)
            && (IsTagged(frame) ==> r.frame[12..16] == frame[12..16])
    ensures var r := Handled(cfg, lookup, frame);
            var t := frame[12] == 0x81 && frame[13] == 0x00;
            var inner, after := if t then frame[..12] + frame[16..] else frame, if t then r.frame[..12] + r.frame[16..] else r.frame;
            var ipv4, arp := inner[12] == 8 && inner[13] == 0, inner[12] == 8 && inner[13] == 6;
            var cached := !cfg.nat25Disable && !cfg.scDisable && ipv4 && inner[30..34] == cfg.scdbIp;
            var asked := if cfg.nat25Disable then (ipv4 && inner[30..34] == cfg.brIp) || (arp && inner[38..42] == cfg.brIp)
                         else !cached;
            && (asked ==> after == lookup(inner).frame && (r.ret == -1 <==> lookup(inner).ret == -1))
            && (!asked ==> r.ret == 0 && after[6..] == inner[6..] && after[..6] == if cached then cfg.scdbMac else inner[..6])
  {
    var t := IsTagged(frame);
    assert t <==> frame[12] == 0x81 && frame[13] == 0x00;
    if t {
      var inner := Untagged(frame);
      var f := Looked25(cfg, lookup, inner).frame;
      assert |f| == |inner|;
      var r := Tagged(f, frame[14], frame[15]);
      assert r[12..16] == [0x81, 0x00, frame[14], frame[15]] == frame[12..16];
      assert r[..12] + r[16..] == f by {
        assert r[..12] == f[..12] && r[16..] == f[12..];
      }
    }
  }

  /** What happens to the frame inside a tag, whatever it looks like. */
  function Inside(cfg: Config, lookup: Lookup, frame: seq<byte>): Looked
    requires cfg.Valid() && Complete(frame)
  {
    if frame[0] % 2 == 1 then Looked(0, frame)
    else
      var r := Looked25(cfg, lookup, frame);
      Looked(if r.ret == -1 then -1 else 0, r.frame)
  }

  /**
   * A tagged frame gets the verdict and the changes of the frame inside and
   * keeps its tag. Unless there is a second tag in it, the frame inside would
   * get the same on its own.
   */
  lemma TagIsTransparent(cfg: Config, lookup: Lookup, frame: seq<byte>)
    requires cfg.Valid() && Handleable(frame) && KeepsLength(lookup) && IsTagged(frame)
    ensures var r, u := Handled(cfg, lookup, frame), Inside(cfg, lookup, Untagged(frame));
            r.ret == u.ret && IsTagged(r.frame) && Untagged(r.frame) == u.frame
            && r.frame[14] == frame[14] && r.frame[15] == frame[15]
    ensures !(frame[16] == 0x81 && frame[17] == 0x00) ==>
              Handleable(Untagged(frame)) && Handled(cfg, lookup, Untagged(frame)) == Inside(cfg, lookup, Untagged(frame))
  {
    var u := Untagged(frame);
    assert u[0] == frame[0];
    if frame[0] % 2 == 0 {
      var f := Looked25(cfg, lookup, u).frame;
      assert |f| == |u|;
      var t := Tagged(f, frame[14], frame[15]);
      assert t[..12] == f[..12] && t[16..] == f[12..];
      assert f == f[..12] + f[12..];
    }
  }

  /** A 16-bit store: both bytes of a word are read before either is written. */
  method CopyWord(a: array<byte>, dst: nat, src: nat)
    requires dst + 2 <= a.Length && src + 2 <= a.Length
    modifies a
    ensures a[..] == old(a[..])[dst := old(a[src])][dst + 1 := old(a[src + 1])]
  {
    a[dst], a[dst + 1] := a[src], a[src + 1];
  }

  /** The addresses move four bytes back over the tag, the last word first. */
  method ShiftDown(a: array<byte>)
    requires a.Length >= 18
    modifies a
    ensures a[4..] == old(a[..12]) + old(a[16..])
  {
    for i := 0 to 6
      invariant forall k :: 0 <= k < 16 - 2 * i ==> a[k] == old(a[k])
      invariant forall k :: 16 - 2 * i <= k < 16 ==> a[k] == old(a[k - 4])
      invariant forall k :: 16 <= k < a.Length ==> a[k] == old(a[k])
    {
      CopyWord(a, 14 - 2 * i, 10 - 2 * i);
    }
    assert forall k :: 0 <= k < 12 ==> a[4..][k] == old(a[k]);
  }

  /** And forward again, the first word first, before the tag is written. */
  method ShiftUp(a: array<byte>, t0: byte, t1: byte)
    requires a.Length >= 18
    modifies a
    ensures a[..] == Tagged(old(a[4..]), t0, t1)
  {
    for i := 0 to 6
      invariant forall k :: 0 <= k < 2 * i ==> a[k] == old(a[k + 4])
      invariant forall k :: 2 * i <= k < a.Length ==> a[k] == old(a[k])
    {
      CopyWord(a, 2 * i, 4 + 2 * i);
    }
    a[12], a[13], a[14], a[15] := 0x81, 0x00, t0, t1;
  }

  /** The part between the shifts, on the frame that starts at byte `off` of the buffer. */
  method LookUpAt(cfg: Config, lookup: Lookup, a: array<byte>, off: nat) returns (ret: int)
    requires cfg.Valid() && KeepsLength(lookup) && off <= a.Length && Complete(a[off..])
    modifies a
    ensures a[..off] == old(a[..off])
    ensures Looked(ret, a[off..]) == Looked25(cfg, lookup, old(a[off..]))
  {
    var frame := a[off..];
    ret := 0;
    if !cfg.nat25Disable {
      if !cfg.scDisable && IsIp(frame) && frame[30..34] == cfg.scdbIp {
        Write(a, off, cfg.scdbMac);
        assert a[off..] == cfg.scdbMac + frame[6..];
      } else {
        var r := lookup(frame);
        Write(a, off, r.frame);
        ret := r.ret;
        assert a[off..] == r.frame;
      }
    } else if (IsIp(frame) && frame[30..34] == cfg.brIp) || (IsArp(frame) && frame[38..42] == cfg.brIp) {
      var r := lookup(frame);
      Write(a, off, r.frame);
      ret := r.ret;
      assert a[off..] == r.frame;
    }
  }

  method Write(a: array<byte>, off: nat, bytes: seq<byte>)
    requires off + |bytes| <= a.Length
    modifies a
    ensures a[..] == old(a[..off]) + bytes + old(a[off + |bytes|..])
  {
    forall k | 0 <= k < |bytes| {
      a[off + k] := bytes[k];
    }
  }

  /** nat25_handle_frame; skb_pull and skb_push move the start of the frame by four bytes. */
  method Nat25HandleFrame(cfg: Config, lookup: Lookup, skb: array<byte>) returns (ret: int)
    requires cfg.Valid() && KeepsLength(lookup) && Handleable(skb[..])
    modifies skb
    ensures Looked(ret, skb[..]) == Handled(cfg, lookup, old(skb[..]))
  {
    ghost var frame := skb[..];
    ret := 0;
    if skb[0] % 2 == 0 {
      var isVlanTag := skb[12] == 0x81 && skb[13] == 0x00;
      var off, t0, t1 := 0, 0, 0;
      if isVlanTag {
        t0, t1 := skb[14], skb[15];
        ShiftDown(skb);
        assert skb[4..] == Untagged(frame);
        off := 4;
      } else {
        assert skb[0..] == frame;
      }
      var retval := LookUpAt(cfg, lookup, skb, off);
      if isVlanTag {
        ShiftUp(skb, t0, t1);
      } else {
        assert skb[0..] == skb[..];
      }
      if retval == -1 {
        ret := -1;
      }
    }
  }
}

module DhcpChecksum {
  import opened Common

  const SERVER_PORT := 67
  const CLIENT_PORT := 68
  const BROADCAST_FLAG := 0x8000

  function Word(hi: byte, lo: byte): u16 { 256 * hi as int + lo as int }

  function Swap(w: u16): u16 { w % 256 * 256 + w / 256 }

  // ----- The one's complement sum -------------------------------------------------------

  /** Carries are added back in until the sum fits a word (section 4.1 of RFC 1071). */
  function Fold(n: nat): (r: u16)
  {
    if n < 65536 then n else Fold(n % 65536 + n / 65536)
  }

  /** Folding changes the sum by a multiple of 65535 and never to or from zero. */
  lemma {:induction false} FoldIs(n: nat) returns (q: int)
    ensures n == 0 <==> Fold(n) == 0
    ensures n == Fold(n) + 65535 * q
  {
    q := 0;
    if n >= 65536 {
      q := FoldIs(n % 65536 + n / 65536);
      q := q + n / 65536;
    }
  }

  /** A folded sum is known by its remainder. */
  lemma FoldUnique(n: nat, r: nat, q: int)
    requires 0 < r < 65536 && 0 < n && n - r == 65535 * q
    ensures Fold(n) == r
  {
    var p := FoldIs(n);
    assert r - Fold(n) == 65535 * (p - q);
  }

  /** The words of the datagram in network order, an odd byte padded with zero. */
  function WordSum(s: seq<byte>): nat {
    if s == [] then 0
    else if |s| == 1 then Word(s[0], 0)
    else Word(s[0], s[1]) + WordSum(s[2..])
  }

  /** A receiver accepts the sum of the pseudo-header and the datagram if it is all ones. */
  predicate Verifies(pseudo: nat, datagram: seq<byte>) { Fold(pseudo + WordSum(datagram)) == 0xffff }

  lemma {:induction false} SumUpdate(s: seq<byte>, k: nat, hi: byte, lo: byte)
    requires k % 2 == 0 && k + 2 <= |s|
    ensures WordSum(s) >= Word(s[k], s[k + 1])
    ensures WordSum(s[k := hi][k + 1 := lo]) == WordSum(s) - Word(s[k], s[k + 1]) + Word(hi, lo)
  {
    var t := s[k := hi][k + 1 := lo];
    if k == 0 {
      assert t[2..] == s[2..];
    } else {
      assert t[2..] == s[2..][k - 2 := hi][k - 1 := lo];
      SumUpdate(s[2..], k - 2, hi, lo);
    }
    hide Word;
  }

  // ----- The update ------------------------------------------------------------------------

  /** The new checksum: the flags, with the new one, are added to the complement of the old one. */
  function NewCheck(check: u16, flags: u16): u16 { 65535 - Fold(65535 - check + flags) }

  lemma SwapIs(w: u16)
    ensures Swap(w) == 256 * w - 65535 * (w / 256)
    ensures Swap(65535 - w) == 65535 - Swap(w)
    ensures w > 0 <==> Swap(w) > 0
  {
  }

  /** The update commutes with the byte order of the host. */
  lemma ByteOrder(check: u16, flags: u16)
    requires flags > 0
    ensures NewCheck(Swap(check), Swap(flags)) == Swap(NewCheck(check, flags))
  {
    var x, n := 65535 - check, 65535 - check + flags;
    var m := 65535 - Swap(check) + Swap(flags);
    SwapIs(check);
    SwapIs(x);
    SwapIs(flags);
    var q := FoldIs(n);
    var r := Fold(n);
    SwapIs(r);
    assert m - Swap(r) == 65535 * (256 * q - x / 256 - flags / 256 + r / 256);
    hide Swap, Fold;
    FoldUnique(m, Swap(r), 256 * q - x / 256 - flags / 256 + r / 256);
  }

  /** The word arithmetic of the update: the sum changes by the old flags, and so stands if they were zero. */
  lemma SumChange(total: nat, check: u16, flags: u16, bit: u16)
    requires total >= check + flags && Fold(total) == 0xffff && bit > 0 && flags + bit < 65536
    requires flags < 65535
    ensures Fold(total - check - flags + NewCheck(check, flags + bit) + (flags + bit)) == 0xffff <==> flags == 0
  {
    var n := 65535 - check + (flags + bit);
    var after := total - check - flags + NewCheck(check, flags + bit) + (flags + bit);
    var q1 := FoldIs(total);
    var q2 := FoldIs(n);
    assert after + flags == 65535 * (q1 + 1 + q2);
    hide Fold;
    FoldUnique(after, 65535 - flags, q1 + q2);
  }

  // ----- The frame ---------------------------------------------------------------------------

  /** Where the UDP header starts. */
  function UdpAt(frame: seq<byte>): (u: nat)
    requires |frame| >= 34
    ensures 14 <= u <= 74 && u % 2 == 0
  {
    14 + 4 * (frame[14] % 16)
  }

  predicate IsUdp(frame: seq<byte>) {
    |frame| >= 34 && frame[12] == 0x08 && frame[13] == 0x00 && frame[23] == 17
  }

  predicate IsToServer(frame: seq<byte>) {
    IsUdp(frame) &&
    var u := UdpAt(frame);
    |frame| >= u + 8 && Word(frame[u], frame[u + 1]) == CLIENT_PORT && Word(frame[u + 2], frame[u + 3]) == SERVER_PORT
  }

  /** A DHCP request without the broadcast flag (section 2 of RFC 2131). */
  predicate IsUnicastRequest(frame: seq<byte>) {
    IsToServer(frame) &&
    var u := UdpAt(frame);
    && |frame| >= u + 248 && frame[u + 244..u + 248] == [0x63, 0x82, 0x53, 0x63]
    && frame[u + 18] < 0x80
  }

  /**
   * The frames that get the flag, byte by byte: IPv4, UDP, from port 68 to port
   * 67, with the DHCP cookie and the top bit of the flags clear.
   */
  lemma RequestMeans(frame: seq<byte>)
    requires |frame| >= 34
    ensures var u := 14 + 4 * (frame[14] % 16);
            IsUnicastRequest(frame) <==>
              && frame[12..14] == [8, 0] && frame[23] == 17
              && |frame| >= u + 248 && frame[u..u + 4] == [0, 68, 0, 67]
              && frame[u + 244..u + 248] == [0x63, 0x82, 0x53, 0x63] && frame[u + 18] < 128
  {
    var u := UdpAt(frame);
    if |frame| >= u + 8 {
      assert Word(frame[u], frame[u + 1]) == 68 <==> frame[u] == 0 && frame[u + 1] == 68;
      assert Word(frame[u + 2], frame[u + 3]) == 67 <==> frame[u + 2] == 0 && frame[u + 3] == 67;
      assert frame[u..u + 4] == [frame[u], frame[u + 1], frame[u + 2], frame[u + 3]];
    }
    assert frame[12..14] == [frame[12], frame[13]];
    hide Word;
  }

  /** The top bit of the flags is set, and beside the checksum nothing else changes. */
  lemma BroadcastMeans(frame: seq<byte>, k: nat)
    requires IsUnicastRequest(frame) && k < |frame|
    ensures var u := 14 + 4 * (frame[14] % 16);
            k != u + 6 && k != u + 7 ==> Broadcast(frame)[k] == if k == u + 18 then frame[k] + 128 else frame[k]
  {
    var u := UdpAt(frame);
    var flags := Word(frame[u + 18], frame[u + 19]) + BROADCAST_FLAG;
    HighLow(frame[u + 18] + 128, frame[u + 19]);
    assert flags / 256 == frame[u + 18] + 128 && flags % 256 == frame[u + 19];
    hide Word, NewCheck;
  }

  /** As much of the frame is there as its headers promise. */
  predicate Complete(frame: seq<byte>) {
    && |frame| >= 14
    && (frame[12] == 0x08 && frame[13] == 0x00 ==> |frame| >= 34)
    && (IsUdp(frame) ==> |frame| >= UdpAt(frame) + 8)
    && (IsToServer(frame) ==> |frame| >= UdpAt(frame) + 248)
  }

  /** The frame with the flag set and the checksum updated, in network order. */
  function Broadcast(frame: seq<byte>): (r: seq<byte>)
    requires IsUnicastRequest(frame)
    ensures |r| == |frame|
  {
    var u := UdpAt(frame);
    var flags := Word(frame[u + 18], frame[u + 19]) + BROADCAST_FLAG;
    var check := NewCheck(Word(frame[u + 6], frame[u + 7]), flags);
    frame[u + 18 := flags / 256][u + 19 := flags % 256][u + 6 := check / 256][u + 7 := check % 256]
  }

  /**
   * For a datagram of any length whose checksum verifies, the new one verifies
   * if and only if the flags word was zero before: the code adds all of the new
   * word, where section 3 of RFC 1624 adds the difference.
   */
  lemma BroadcastVerifies(frame: seq<byte>, pseudo: nat, end: nat)
    requires IsUnicastRequest(frame) && UdpAt(frame) + 20 <= end <= |frame|
    requires Verifies(pseudo, frame[UdpAt(frame)..end])
    ensures Verifies(pseudo, Broadcast(frame)[UdpAt(frame)..end])
            <==> frame[UdpAt(frame) + 18] == 0 && frame[UdpAt(frame) + 19] == 0
  {
    var u := UdpAt(frame);
    var s, t := frame[u..end], Broadcast(frame)[u..end];
    var flags, check := Word(s[18], s[19]), Word(s[6], s[7]);
    var flags' := flags + BROADCAST_FLAG;
    var check' := NewCheck(check, flags');
    var mid := s[18 := flags' / 256][19 := flags' % 256];
    assert t == mid[6 := check' / 256][7 := check' % 256];
    SumUpdate(s, 18, flags' / 256, flags' % 256);
    SumUpdate(mid, 6, check' / 256, check' % 256);
    TwoWords(s);
    SumChange(pseudo + WordSum(s), check, flags, BROADCAST_FLAG);
    hide WordSum, NewCheck, Fold;
  }

  /**
   * In that case the field comes out as zero, which means that there is no
   * checksum, exactly if it was 0x8000.
   */
  lemma BroadcastToZero(frame: seq<byte>)
    requires IsUnicastRequest(frame) && frame[UdpAt(frame) + 18] == 0 && frame[UdpAt(frame) + 19] == 0
    ensures var u := UdpAt(frame);
            Broadcast(frame)[u + 6] == 0 && Broadcast(frame)[u + 7] == 0 <==> frame[u + 6] == 0x80 && frame[u + 7] == 0
  {
    var u := UdpAt(frame);
    var check := Word(frame[u + 6], frame[u + 7]);
    NewCheckZero(check);
    hide NewCheck;
  }

  lemma NewCheckZero(check: u16)
    ensures NewCheck(check, 0x8000) == 0 <==> check == 0x8000
  {
    var n := 65535 - check + 0x8000;
    if n >= 65536 {
      assert n / 65536 == 1 && n % 65536 == n - 65536;
      assert Fold(n) == Fold(n - 65535) == n - 65535;
    } else {
      assert Fold(n) == n;
    }
  }

  lemma TwoWords(s: seq<byte>)
    requires |s| >= 20
    ensures WordSum(s) >= Word(s[6], s[7]) + Word(s[18], s[19])
  {
    SumUpdate(s, 18, 0, 0);
    SumUpdate(s[18 := 0][19 := 0], 6, 0, 0);
    hide WordSum;
  }

  /**
   * A zero checksum means none was computed. The code updates it all the same,
   * and the datagram then verifies if and only if the sum without a checksum
   * was by chance congruent to the old flags word.
   */
  lemma ZeroCheckIsUpdated(frame: seq<byte>, pseudo: nat, end: nat)
    requires IsUnicastRequest(frame) && UdpAt(frame) + 20 <= end <= |frame|
    requires frame[UdpAt(frame) + 6] == 0 && frame[UdpAt(frame) + 7] == 0
    ensures var u := UdpAt(frame);
            Verifies(pseudo, Broadcast(frame)[u..end])
            <==> (pseudo + WordSum(frame[u..end]) - Word(frame[u + 18], frame[u + 19])) % 65535 == 0
  {
    var u := UdpAt(frame);
    var s, t := frame[u..end], Broadcast(frame)[u..end];
    var flags := Word(s[18], s[19]);
    var flags' := flags + BROADCAST_FLAG;
    var check' := NewCheck(0, flags');
    var mid := s[18 := flags' / 256][19 := flags' % 256];
    assert t == mid[6 := check' / 256][7 := check' % 256];
    SumUpdate(s, 18, flags' / 256, flags' % 256);
    SumUpdate(mid, 6, check' / 256, check' % 256);
    var after := pseudo + WordSum(t);
    assert after == pseudo + WordSum(s) - flags + flags' + check';
    TwoWords(s);
    ZeroChange((pseudo + WordSum(s)) as int - flags as int, flags', check', after);
    hide WordSum, Fold;
  }

  lemma ZeroChange(base: int, flags: u16, check: u16, after: nat)
    requires check == NewCheck(0, flags) && after == base + flags + check && flags > 0 && base >= 0
    ensures Fold(after) == 0xffff <==> base % 65535 == 0
  {
    var q := FoldIs(65535 + flags);
    var p := FoldIs(after);
    assert base - Fold(after) == 65535 * (p - q);
    var r := Fold(after);
    hide Fold, NewCheck;
    Congruent(base, r, p - q);
  }

  lemma Congruent(base: int, r: u16, q: int)
    requires base - r == 65535 * q && r > 0
    ensures r == 0xffff <==> base % 65535 == 0
  {
    if r == 0xffff {
      assert base == 65535 * (q + 1);
    } else {
      assert base == 65535 * q + r;
    }
  }

  /** A 16-bit load on a host of either byte order. */
  function Load(s: seq<byte>, k: nat, big: bool): u16
    requires k + 2 <= |s|
  {
    if big then Word(s[k], s[k + 1]) else Word(s[k + 1], s[k])
  }

  /** The bytes after a 16-bit store. */
  function Stored(s: seq<byte>, k: nat, w: u16, big: bool): (r: seq<byte>)
    requires k + 2 <= |s|
    ensures |r| == |s|
  {
    var v := if big then w else Swap(w);
    s[k := v / 256][k + 1 := v % 256]
  }

  method Store(a: array<byte>, k: nat, w: u16, big: bool)
    requires k + 2 <= a.Length
    modifies a
    ensures a[..] == Stored(old(a[..]), k, w, big)
  {
    if big {
      a[k], a[k + 1] := w / 256, w % 256;
    } else {
      a[k], a[k + 1] := w % 256, w / 256;
    }
  }

  method FoldLoop(n: nat) returns (sum: u16)
    ensures sum == Fold(n)
  {
    var s := n;
    while s / 65536 > 0
      invariant Fold(n) == Fold(s)
      decreases s
    {
      s := s % 65536 + s / 65536;
    }
    sum := s;
  }

  /** dhcp_flag_bcast, on a host of either byte order */
  method DhcpFlagBcast(frame: array<byte>, big: bool, disable: bool)
    requires Complete(frame[..])
    modifies frame
    ensures frame[..] == if !disable && IsUnicastRequest(old(frame[..])) then Broadcast(old(frame[..])) else old(frame[..])
  {
    ghost var was := frame[..];
    if !disable && frame[12] == 0x08 && frame[13] == 0x00 && frame[23] == 17 {
      var u := UdpAt(frame[..]);
      if Word(frame[u], frame[u + 1]) == CLIENT_PORT && Word(frame[u + 2], frame[u + 3]) == SERVER_PORT
         && frame[u + 244..u + 248] == [0x63, 0x82, 0x53, 0x63] && frame[u + 18] < 0x80 {
        SetFlag(frame, u, big);
      }
    }
  }

  method SetFlag(frame: array<byte>, u: nat, big: bool)
    requires IsUnicastRequest(frame[..]) && u == UdpAt(frame[..])
    modifies frame
    ensures frame[..] == Broadcast(old(frame[..]))
  {
    var before := frame[..];
    SameEdit(before, big);
    hide IsUnicastRequest, Broadcast, Stored, Swap, Word, NewCheck, Load, Fold, UdpAt;
    var flags: u16 := Load(before, u + 18, big) as int + if big then BROADCAST_FLAG else Swap(BROADCAST_FLAG);
    Store(frame, u + 18, flags, big);
    var between := frame[..];
    var check := Load(between, u + 6, big);
    var sum := FoldLoop(65535 - check + flags);
    Store(frame, u + 6, 65535 - sum, big);
  }

  /** What the host computes for the two words, in its own order. */
  predicate SameWords(frame: seq<byte>, u: nat, big: bool)
    requires u + 20 <= |frame| && frame[u + 18] < 0x80
  {
    var netFlags, netCheck := Word(frame[u + 18], frame[u + 19]) as int + BROADCAST_FLAG, Word(frame[u + 6], frame[u + 7]);
    netFlags < 65536 &&
    var flags, check := if big then netFlags else Swap(netFlags), if big then netCheck else Swap(netCheck);
    && Load(frame, u + 18, big) as int + (if big then BROADCAST_FLAG else Swap(BROADCAST_FLAG)) == flags
    && Load(frame, u + 6, big) == check
    && 65535 - Fold(65535 - check + flags) == if big then NewCheck(netCheck, netFlags) else Swap(NewCheck(netCheck, netFlags))
  }

  lemma HostWords(frame: seq<byte>, u: nat, big: bool)
    requires u + 20 <= |frame| && frame[u + 18] < 0x80
    ensures SameWords(frame, u, big)
  {
    Flags(frame[u + 18], frame[u + 19]);
    Flags(frame[u + 6], frame[u + 7]);
    hide Swap, Word, Fold;
    if !big {
      ByteOrder(Word(frame[u + 6], frame[u + 7]), Word(frame[u + 18], frame[u + 19]) + BROADCAST_FLAG);
    }
  }

  /** Whatever the byte order of the host, the bytes it leaves are the same. */
  lemma SameEdit(frame: seq<byte>, big: bool)
    requires IsUnicastRequest(frame)
    ensures var u := UdpAt(frame);
            var flags := Load(frame, u + 18, big) as int + if big then BROADCAST_FLAG else Swap(BROADCAST_FLAG);
            && 0 <= flags < 65536
            && var mid := Stored(frame, u + 18, flags, big);
               var check := Load(mid, u + 6, big);
               Stored(mid, u + 6, 65535 - Fold(65535 - check + flags), big) == Broadcast(frame)
  {
    var u := UdpAt(frame);
    HostWords(frame, u, big);
    hide Swap, Word, Fold, NewCheck;
    var netFlags, netCheck := Word(frame[u + 18], frame[u + 19]) + BROADCAST_FLAG, Word(frame[u + 6], frame[u + 7]);
    HostStore(frame, u + 18, netFlags, big);
    var mid := frame[u + 18 := netFlags / 256][u + 19 := netFlags % 256];
    assert Load(mid, u + 6, big) == Load(frame, u + 6, big);
    HostStore(mid, u + 6, NewCheck(netCheck, netFlags), big);
    hide Stored, Load;
  }

  /** Storing the host's form of a word leaves it in network order. */
  lemma HostStore(s: seq<byte>, k: nat, w: u16, big: bool)
    requires k + 2 <= |s|
    ensures Stored(s, k, if big then w else Swap(w), big) == s[k := w / 256][k + 1 := w % 256]
  {
    SwapTwice(w);
  }

  lemma HighLow(hi: int, lo: int)
    requires 0 <= hi < 256 && 0 <= lo < 256
    ensures (256 * hi + lo) / 256 == hi && (256 * hi + lo) % 256 == lo
  {
  }

  lemma SwapTwice(w: u16)
    ensures Swap(Swap(w)) == w
  {
    HighLow(w % 256, w / 256);
  }

  lemma Flags(hi: byte, lo: byte)
    ensures Word(lo, hi) == Swap(Word(hi, lo))
    ensures hi < 0x80 ==> Word(hi, lo) < 0x8000
    ensures hi < 0x80 ==> Word(lo, hi) as int + Swap(BROADCAST_FLAG) == Swap(Word(hi, lo) + BROADCAST_FLAG)
  {
    HighLow(hi, lo);
    assert Swap(BROADCAST_FLAG) == 0x80;
    if hi < 0x80 {
      HighLow(hi + 0x80, lo);
    }
  }
}
