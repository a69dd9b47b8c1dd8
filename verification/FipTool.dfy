// The builder and reader of fiptool.py as the object it is: entries and bodies
// are fields, and make grows and patches one byte string.

module FipTool {
  import opened Common
  import opened Words
  import opened Fields
  import opened FipFormat
  import opened FipImage

  class Fip {
    const env: Env
    var param1: seq<Bytes>
    var param2: seq<Bytes>
    var ldr2ndHdr: seq<Bytes>
    var blcp: Bytes
    var bl2: Bytes
    var ddr: Bytes
    var blcp2nd: Bytes
    var monitor: Bytes
    var loader: Bytes
    var compressAlgo: Algo

    ghost function State(): Contents
      reads this
    {
      Contents(param1, blcp, bl2, param2, ddr, blcp2nd, monitor, loader)
    }

    ghost predicate Valid()
      reads this
    {
      Shaped(State()) && Sized(LDR_2ND_HDR, ldr2ndHdr)
    }

    constructor (env: Env)
      ensures Valid() && this.env == env && Fresh(State()) && Unlinked(State()) && compressAlgo == NoAlgo && ddr == []
    {
      this.env := env;
      param1 := seq(|PARAM1|, i requires 0 <= i < |PARAM1| => if i == MAGIC1 then FIP_MAGIC else Zero(PARAM1[i]));
      param2 := seq(|PARAM2|, i requires 0 <= i < |PARAM2| => if i == MAGIC1 then PARAM2_MAGIC else Zero(PARAM2[i]));
      ldr2ndHdr := seq(|LDR_2ND_HDR|, i requires 0 <= i < |LDR_2ND_HDR| => Zero(LDR_2ND_HDR[i]));
      blcp, bl2, ddr, blcp2nd, monitor, loader := [], [], [], [], [], [];
      compressAlgo := NoAlgo;
    }

    // ----- Inputs --------------------------------------------------------------

    method AddBlcp(image: Bytes, runAddr: nat) returns (ok: bool)
      requires Valid()
      modifies `param1, `blcp
      ensures Valid() && (ok <==> runAddr < TWO_32)
      ensures ok ==> State() == old(State()).(param1 := old(param1)[BLCP_IMG_RUNADDR := Le(runAddr)], blcp := Pad(image))
    {
      ok := runAddr < TWO_32;
      if ok {
        param1 := param1[BLCP_IMG_RUNADDR := Le(runAddr)];
        blcp := Pad(image);
      }
    }

    method AddBl2(image: Bytes, fill: nat)
      requires Valid()
      modifies `bl2
      ensures Valid() && Aligned(|bl2|) && image <= bl2 && |bl2| >= fill
      ensures forall i :: |image| <= i < |bl2| ==> bl2[i] == if i < fill then 0xA9 else 0
    {
      var filled := image + seq(if fill > |image| then fill - |image| else 0, _ => 0xA9);
      bl2 := Pad(filled);
    }

    method AddLoader2nd(image: Bytes, algo: Algo) returns (ok: bool)
      requires Valid()
      modifies `loader, `compressAlgo
      ensures ok <==> Slice(image, 4, 4) == MAGIC_ORIG
      ensures ok ==> loader == image && compressAlgo == algo
      ensures !ok ==> loader == old(loader) && compressAlgo == old(compressAlgo)
    {
      ok := Slice(image, 4, 4) == MAGIC_ORIG;
      if ok {
        compressAlgo := algo;
        loader := image;
      }
    }

    // ----- First block -----------------------------------------------------------

    method UpdateParam1Cksum(image: Bytes) returns (r: Bytes)
      requires Valid() && |image| >= PARAM_SIZE && image[..PARAM_SIZE] == JoinAll(param1)
      modifies `param1
      ensures Valid() && param1 == Checked1(env, old(param1))
      ensures r == JoinAll(param1) + image[PARAM_SIZE..]
    {
      hide Join, Offset, ImageCrc;
      Offsets();
      JoinLength(PARAM1, param1, |PARAM1|);
      var crc := ImageCrc(env, Slice(image, NAND_INFO_AT, PARAM1_SIZE_WO_SIG - NAND_INFO_AT));
      assert Slice(image, NAND_INFO_AT, PARAM1_SIZE_WO_SIG - NAND_INFO_AT)
          == Slice(JoinAll(param1), NAND_INFO_AT, PARAM1_SIZE_WO_SIG - NAND_INFO_AT);
      JoinUpdate(PARAM1, param1, PARAM_CKSUM, crc, |PARAM1|);
      ghost var before := JoinAll(param1);
      param1 := param1[PARAM_CKSUM := crc];
      r := image[..12] + crc + image[16..];
      assert image[..12] == before[..12] && image[16..] == before[16..] + image[PARAM_SIZE..];
    }

    method MakeFip1() returns (ok: bool, bin: Bytes)
      requires Valid()
      modifies `param1
      ensures ok <==> Aligned(|blcp|) && Aligned(|bl2|) && |blcp| < TWO_32 && |bl2| < TWO_32
      ensures ok ==> Valid() && State() == Made1(env, old(State())) && bin == Image1(State())
    {
      hide Join, Offset, ImageCrc, Le, Slice, Checked1, Aligned;
      ok, bin := |blcp| < TWO_32 && |bl2| < TWO_32, [];
      if !ok {
        return;
      }
      param1 := param1[CHIP_CONF_SIZE := Le(|param1[CHIP_CONF]|)];
      param1 := param1[BLCP_IMG_CKSUM := ImageCrc(env, blcp)][BLCP_IMG_SIZE := Le(|blcp|)];
      param1 := param1[BL2_IMG_CKSUM := ImageCrc(env, bl2)][BL2_IMG_SIZE := Le(|bl2|)];
      ok := Aligned(|blcp|) && Aligned(|bl2|);
      if !ok {
        return;
      }
      assert param1 == Described(env, old(State()));
      var param1Bin := JoinAll(param1);
      Offsets();
      JoinLength(PARAM1, param1, |PARAM1|);
      param1Bin := UpdateParam1Cksum(param1Bin);
      bin := param1Bin + (blcp + bl2);
      assert bin == JoinAll(param1) + blcp + bl2;
    }

    method InsertParam1(image: Bytes, i: nat, value: Bytes) returns (r: Bytes)
      requires Valid() && |image| >= PARAM_SIZE && image[..PARAM_SIZE] == JoinAll(param1)
      requires i < |PARAM1| && |value| == PARAM1[i]
      modifies `param1
      ensures Valid() && param1 == Checked1(env, old(param1)[i := value])
      ensures r == JoinAll(param1) + image[PARAM_SIZE..]
    {
      hide Join, Offset, ImageCrc, Checked1;
      Offsets();
      JoinUpdate(PARAM1, param1, i, value, |PARAM1|);
      ghost var before := JoinAll(param1);
      param1 := param1[i := value];
      var at := Offset(PARAM1, i);
      r := image[..at] + value + image[at + |value|..];
      assert image[..at] == before[..at] && image[at + |value|..] == before[at + |value|..] + image[PARAM_SIZE..];
      assert r == JoinAll(param1) + image[PARAM_SIZE..];
      JoinLength(PARAM1, param1, |PARAM1|);
      ghost var r0 := r;
      r := UpdateParam1Cksum(r);
      assert r0[PARAM_SIZE..] == image[PARAM_SIZE..];
    }

    // ----- Second block ------------------------------------------------------------

    method PackDdrParam(image: Bytes) returns (ok: bool, r: Bytes)
      requires Valid()
      modifies `param2
      ensures ok <==> |Pad(ddr)| < TWO_32 && |Pad(image)| < TWO_32
      ensures ok ==> Valid() && param2 == Entered(env, old(param2), DDR_PARAM, |Pad(image)|, Pad(ddr))
      ensures ok ==> r == Pad(image) + Pad(ddr)
    {
      var bin := Pad(image);
      var body := Pad(ddr);
      ok, r := |body| < TWO_32 && |bin| < TWO_32, [];
      if ok {
        param2 := param2[DDR_PARAM := ImageCrc(env, body)];
        param2 := param2[DDR_PARAM + SIZE := Le(|body|)];
        param2 := param2[DDR_PARAM + LOADADDR := Le(|bin|)];
        r := bin + body;
      }
    }

    method PackBlcp2nd(image: Bytes, runAddr: nat) returns (ok: bool, r: Bytes)
      requires Valid()
      modifies `param2
      ensures ok <==> |Pad(blcp2nd)| < TWO_32 && |Pad(image)| < TWO_32 && runAddr < TWO_32
      ensures ok ==> Valid() && param2 == EnteredRun(env, old(param2), BLCP_2ND, |Pad(image)|, Pad(blcp2nd), runAddr)
      ensures ok ==> r == Pad(image) + Pad(blcp2nd)
    {
      var bin := Pad(image);
      var body := Pad(blcp2nd);
      ok, r := |body| < TWO_32 && |bin| < TWO_32 && runAddr < TWO_32, [];
      if ok {
        param2 := param2[BLCP_2ND := ImageCrc(env, body)];
        param2 := param2[BLCP_2ND + SIZE := Le(|body|)];
        param2 := param2[BLCP_2ND + LOADADDR := Le(|bin|)];
        param2 := param2[BLCP_2ND + RUNADDR := Le(runAddr)];
        r := bin + body;
      }
    }

    method PackMonitor(image: Bytes, runAddr: nat) returns (ok: bool, r: Bytes)
      requires Valid()
      modifies `param2
      ensures ok <==> |Pad(monitor)| < TWO_32 && |Pad(image)| < TWO_32 && runAddr < TWO_32
      ensures ok ==> Valid() && param2 == EnteredRun(env, old(param2), MONITOR, |Pad(image)|, Pad(monitor), runAddr)
      ensures ok ==> r == Pad(image) + Pad(monitor)
    {
      var bin := Pad(image);
      var body := Pad(monitor);
      ok, r := |body| < TWO_32 && |bin| < TWO_32 && runAddr < TWO_32, [];
      if ok {
        param2 := param2[MONITOR := ImageCrc(env, body)];
        param2 := param2[MONITOR + SIZE := Le(|body|)];
        param2 := param2[MONITOR + LOADADDR := Le(|bin|)];
        param2 := param2[MONITOR + RUNADDR := Le(runAddr)];
        r := bin + body;
      }
    }

    method CompressLdr2nd() returns (ok: bool)
      requires Valid() && loader != [] && ldr2ndHdr == Parse(LDR_2ND_HDR, loader)
      modifies `ldr2ndHdr, `loader
      ensures ok <==> KnownMagic(old(ldr2ndHdr)[LDR_MAGIC]) && !(Compresses(old(ldr2ndHdr), compressAlgo) && compressAlgo == Unsupported)
      ensures ok ==> loader == LoaderImage(env, old(loader), compressAlgo)
      ensures ok ==> ldr2ndHdr == old(ldr2ndHdr)[LDR_MAGIC :=
                if !Compresses(old(ldr2ndHdr), compressAlgo) then old(ldr2ndHdr)[LDR_MAGIC]
                else if compressAlgo == Lzma then MAGIC_LZMA else MAGIC_LZ4]
    {
      hide Parse;
      var hdr, body := Slice(loader, 0, LDR_HDR_SIZE), Slice(loader, LDR_HDR_SIZE, |loader|);
      var magic := ldr2ndHdr[LDR_MAGIC];
      if magic == MAGIC_ORIG {
        match compressAlgo {
          case NoAlgo =>
          case Lzma =>
            ldr2ndHdr := ldr2ndHdr[LDR_MAGIC := MAGIC_LZMA];
            body := env.lzma(body);
          case Lz4 =>
            ldr2ndHdr := ldr2ndHdr[LDR_MAGIC := MAGIC_LZ4];
            body := env.lz4(body);
          case Unsupported =>
            return false;
        }
      } else if !KnownMagic(magic) {
        return false;
      }
      loader := Pad(hdr + body);
      ok := true;
    }

    method UpdateLdr2ndHdr() returns (ok: bool)
      requires Valid() && |loader| >= LDR_HDR_SIZE
      modifies `ldr2ndHdr, `loader
      ensures ok <==> |old(loader)| < TWO_32
      ensures ok ==> Valid()
      ensures ok ==> loader == SealHeader(env, old(ldr2ndHdr)[LDR_SIZE := Le(|old(loader)|)], old(loader)[LDR_HDR_SIZE..])
    {
      hide Join, ImageCrc, Le;
      var body := loader[LDR_HDR_SIZE..];
      ok := |loader| < TWO_32;
      if ok {
        ldr2ndHdr := ldr2ndHdr[LDR_SIZE := Le(|loader|)];
        var covered := JoinAll(ldr2ndHdr) + body;
        var crc := ImageCrc(env, Slice(covered, LDR_CKSUM_END, |covered|));
        ldr2ndHdr := ldr2ndHdr[LDR_CKSUM := crc];
        loader := JoinAll(ldr2ndHdr) + body;
      }
    }

    method PackLoader2nd(image: Bytes) returns (ok: bool, r: Bytes)
      requires Valid() && loader != []
      modifies `param2, `ldr2ndHdr, `loader
      ensures ok <==> |Pad(image)| < TWO_32 && LoaderSealable(env, old(loader), compressAlgo)
      ensures ok ==> Valid() && param2 == old(param2)[LOADER_2ND_LOADADDR := Le(|Pad(image)|)]
      ensures ok ==> loader == SealLoader(env, old(loader), compressAlgo) && r == Pad(image) + loader
      ensures ok ==> LoaderWritten(env, old(loader), compressAlgo, loader)
    {
      hide Parse, LoaderImage, SealHeader, Le, Pad, LoaderWritten;
      var bin := Pad(image);
      ok, r := |bin| < TWO_32, [];
      if !ok {
        return;
      }
      param2 := param2[LOADER_2ND_LOADADDR := Le(|bin|)];
      ldr2ndHdr := Parse(LDR_2ND_HDR, loader);
      ok := CompressLdr2nd();
      if !ok {
        return;
      }
      ok := UpdateLdr2ndHdr();
      r := bin + loader;
      if ok {
        LoaderSealed(env, old(loader), compressAlgo);
      }
    }

    /** The bodies padded to whole blocks, without the loader. */
    ghost function PaddedBodies(): Contents
      reads this
    {
      State().(ddr := Pad(ddr), blcp2nd := Pad(blcp2nd), monitor := Pad(monitor), loader := [])
    }

    /** The DDR parameters, the second BLCP and the monitor, in that order. */
    method PackBodies(image: Bytes, args: Args, ghost k: Contents) returns (ok: bool, r: Bytes)
      requires Valid() && ddr != [] && Shaped(k) && PaddedBodies() == k.(param1 := param1)
      requires |image| == DdrAt(k) && Aligned(|image|)
      modifies `param2
      ensures ok <==> Fits(k, args)
      ensures ok ==> && Valid() && param2 == LinkedMonitor(env, k, args)
                     && r == image + k.ddr + k.blcp2nd + k.monitor && Aligned(|r|)
    {
      AlignedSum(|image|, |k.ddr|);
      AlignedSum(Blcp2ndAt(k), |k.blcp2nd|);
      AlignedSum(MonitorAt(k), |k.monitor|);
      hide Le, Int, ImageCrc, Aligned, Pad, LinkedMonitor, LinkedBlcp2nd, LinkedDdr, Runnable;
      ok, r := PackDdr(image, k);
      if ok {
        ok, r := PackBlcp2ndIfAny(r, args, k);
      }
      if ok {
        ok, r := PackMonitorIfAny(r, args, k);
      }
    }

    method PackDdr(image: Bytes, ghost k: Contents) returns (ok: bool, r: Bytes)
      requires Valid() && ddr != [] && Aligned(|image|) && |image| == DdrAt(k)
      requires Shaped(k) && param2 == k.param2 && k.ddr == Pad(ddr)
      modifies `param2
      ensures ok <==> FitsDdr(k)
      ensures ok ==> Valid() && param2 == LinkedDdr(env, k) && r == image + k.ddr
    {
      hide Le, Int, ImageCrc, Aligned, Entered;
      ok, r := PackDdrParam(image);
    }

    method PackBlcp2ndIfAny(image: Bytes, args: Args, ghost k: Contents) returns (ok: bool, r: Bytes)
      requires Valid() && Aligned(|image|) && |image| == Blcp2ndAt(k)
      requires Shaped(k) && FitsDdr(k) && param2 == LinkedDdr(env, k) && k.blcp2nd == Pad(blcp2nd)
      modifies `param2
      ensures ok <==> FitsBlcp2nd(k, args)
      ensures ok ==> Valid() && param2 == LinkedBlcp2nd(env, k, args) && r == image + k.blcp2nd
    {
      assert (blcp2nd == [] <==> k.blcp2nd == []) && Int(param2[BLCP_2ND + RUNADDR]) == Int(k.param2[BLCP_2ND + RUNADDR]);
      hide Le, Int, ImageCrc, Aligned, Pad, Entered, LinkedDdr;
      ok, r := true, image;
      if blcp2nd != [] {
        var given := RunAddr(param2, BLCP_2ND, args.blcp2nd);
        if given.None? {
          ok := false;
        } else {
          ok, r := PackBlcp2nd(image, given.value);
        }
      }
    }

    method PackMonitorIfAny(image: Bytes, args: Args, ghost k: Contents) returns (ok: bool, r: Bytes)
      requires Valid() && Aligned(|image|) && |image| == MonitorAt(k)
      requires Shaped(k) && FitsDdr(k) && FitsBlcp2nd(k, args)
      requires param2 == LinkedBlcp2nd(env, k, args) && k.monitor == Pad(monitor)
      modifies `param2
      ensures ok <==> FitsMonitor(k, args)
      ensures ok ==> Valid() && param2 == LinkedMonitor(env, k, args) && r == image + k.monitor
    {
      assert (monitor == [] <==> k.monitor == []) && Int(param2[MONITOR + RUNADDR]) == Int(k.param2[MONITOR + RUNADDR]);
      hide Le, Int, ImageCrc, Aligned, Pad, Entered, LinkedBlcp2nd;
      ok, r := true, image;
      if monitor != [] {
        var given := RunAddr(param2, MONITOR, args.monitor);
        if given.None? {
          ok := false;
        } else {
          ok, r := PackMonitor(image, given.value);
        }
      }
    }

    /** Enters the second block and its bodies behind a first block that is already there. */
    method AppendFip2(fip1: Bytes, args: Args) returns (ok: bool, bin: Bytes)
      requires Valid() && ddr != [] && Aligned(|blcp|) && Aligned(|bl2|) && fip1 == Image1(State())
      modifies `param1, `param2, `ldr2ndHdr, `loader
      ensures ok <==> Buildable(env, old(State()), args, compressAlgo)
      ensures ok ==> Valid() && SealedAs(env, old(State()), args, compressAlgo, State(), bin)
    {
      hide Buildable, Sized, Image1, JoinAll, Zero, Aligned, Packed, SealedAs, RoomLeft;
      ghost var c := State();
      var at := |fip1|;
      ok, bin := AppendPacked(fip1, args);
      if ok {
        bin := FinishFip2(bin, at, args, c);
      }
    }

    /** Everything but the contents of the second block, for which there is room. */
    method AppendPacked(fip1: Bytes, args: Args) returns (ok: bool, bin: Bytes)
      requires Valid() && ddr != [] && Aligned(|blcp|) && Aligned(|bl2|) && fip1 == Image1(State())
      modifies `param1, `param2, `ldr2ndHdr, `loader
      ensures var c := old(State());
              && (ok <==> Buildable(env, c, args, compressAlgo))
              && (ok ==> Valid() && RoomLeft(env, c, args, compressAlgo, Packed(env, c, compressAlgo), State(), bin))
      ensures ok ==> |fip1| == Load2(old(State()))
    {
      ghost var c, k := State(), PaddedBodies();
      assert Aligned(PARAM_SIZE);
      AlignedSum(PARAM_SIZE, |blcp|);
      AlignedSum(PARAM_SIZE + |blcp|, |bl2|);
      AlignedSum(Load2(k), PARAM_SIZE);
      BuildableIs(env, c, args, compressAlgo);
      hide Join, Offset, ImageCrc, Le, Pad, Aligned, Checked1, Linked, LinkedMonitor, LoaderSealable, SealLoader, Fits, Runnable;
      hide Buildable, Sized, Image1, ImageSize, JoinAll, SealedAs, Zero, RoomLeft;
      ok, bin := AppendBodies(fip1, args, k);
      if ok {
        ghost var front := JoinAll(param1) + (blcp + bl2) + Zero(PARAM_SIZE);
        ok, bin := PackLoaderIfAny(bin, front, k.ddr + k.blcp2nd + k.monitor);
      }
      if ok {
        LeavesRoom(env, c, args, compressAlgo, k, State(), bin);
      }
    }

    method FinishFip2(image: Bytes, at: nat, args: Args, ghost c: Contents) returns (bin: Bytes)
      requires Valid() && Buildable(env, c, args, compressAlgo) && at == Load2(c)
      requires RoomLeft(env, c, args, compressAlgo, Packed(env, c, compressAlgo), State(), image)
      modifies `param2
      ensures Valid() && SealedAs(env, c, args, compressAlgo, State(), bin)
    {
      ghost var before, l := State(), Packed(env, c, compressAlgo);
      ghost var head, tail := JoinAll(param1) + (l.blcp + l.bl2), l.ddr + l.blcp2nd + l.monitor + l.loader;
      assert |head| == at && image == head + Zero(PARAM_SIZE) + tail;
      hide Checked2, Zero, JoinAll, Buildable, SealedAs, RoomLeft, Packed;
      bin := FinishParam2(image, at, head, tail);
      ConcludeSeal(env, c, args, compressAlgo, l, before, State(), image, bin);
    }

    method PackLoaderIfAny(image: Bytes, ghost front: Bytes, ghost middle: Bytes) returns (ok: bool, r: Bytes)
      requires Valid() && Aligned(|image|) && image == front + middle
      modifies `param2, `ldr2ndHdr, `loader
      ensures var l := old(loader);
              ok <==> l == [] || (|image| < TWO_32 && LoaderSealable(env, l, compressAlgo))
      ensures var l := old(loader);
              ok ==> && Valid() && r == front + (middle + loader)
                     && loader == (if l == [] then [] else SealLoader(env, l, compressAlgo))
                     && param2 == (if l == [] then old(param2) else old(param2)[LOADER_2ND_LOADADDR := Le(|image|)])
    {
      hide Le, Pad, Aligned, LoaderSealable, SealLoader;
      ok, r := true, image;
      if loader != [] {
        ok, r := PackLoader2nd(image);
      }
      assert ok ==> r == front + middle + loader;
    }

    /** The first block with its link, room for the second, and the bodies but the loader. */
    method AppendBodies(fip1: Bytes, args: Args, ghost k: Contents) returns (ok: bool, bin: Bytes)
      requires Valid() && ddr != [] && fip1 == Image1(State()) && k == PaddedBodies() && Aligned(DdrAt(k))
      modifies `param1, `param2
      ensures ok <==> Fits(k, args)
      ensures ok ==> && Valid() && Load2(k) < TWO_32
                     && param1 == Checked1(env, old(param1)[PARAM2_LOADADDR := Le(Load2(k))])
                     && param2 == LinkedMonitor(env, k, args)
                     && |fip1| == Load2(k) == |JoinAll(param1) + (blcp + bl2)| && |bin| == LoaderAt(k) && Aligned(|bin|)
                     && bin == JoinAll(param1) + (blcp + bl2) + Zero(PARAM_SIZE) + (k.ddr + k.blcp2nd + k.monitor)
    {
      hide Join, Offset, ImageCrc, Le, Pad, Aligned, Checked1, LinkedMonitor, Fits, Runnable;
      Offsets();
      JoinLength(PARAM1, param1, |PARAM1|);
      var at := |fip1|;
      ok, bin := at < TWO_32, [];
      if !ok {
        NoRoom(k, args);
        return;
      }
      assert fip1[..PARAM_SIZE] == JoinAll(param1) && fip1[PARAM_SIZE..] == blcp + bl2;
      bin := InsertParam1(fip1, PARAM2_LOADADDR, Le(at));
      JoinLength(PARAM1, param1, |PARAM1|);
      bin := bin + Zero(PARAM_SIZE);
      ok, bin := PackBodies(bin, args, k);
    }

    /** Stores the checksum of the second block and puts the block where its room was left. */
    method FinishParam2(bin: Bytes, at: nat, ghost head: Bytes, ghost tail: Bytes) returns (r: Bytes)
      requires Valid() && |head| == at && bin == head + Zero(PARAM_SIZE) + tail
      modifies `param2
      ensures Valid() && param2 == Checked2(env, old(param2)) && r == head + JoinAll(param2) + tail
    {
      hide Join, Offset, ImageCrc;
      Offsets();
      JoinLength(PARAM2, param2, |PARAM2|);
      var param2Bin := JoinAll(param2);
      param2 := param2[PARAM2_CKSUM := ImageCrc(env, param2Bin[PARAM2_CKSUM_END..])];
      assert param2Bin[PARAM2_CKSUM_END..] == Slice(param2Bin, PARAM2_CKSUM_END, PARAM_SIZE - PARAM2_CKSUM_END);
      param2Bin := JoinAll(param2);
      JoinLength(PARAM2, param2, |PARAM2|);
      r := bin[..at] + param2Bin + bin[at + PARAM_SIZE..];
      assert bin[..at] == head && bin[at + PARAM_SIZE..] == tail;
    }

    lemma NoRoom(k: Contents, args: Args)
      requires Shaped(k) && Load2(k) >= TWO_32
      ensures !Fits(k, args)
    {
    }

    method Make(args: Args) returns (ok: bool, bin: Bytes)
      requires Valid()
      modifies `param1, `param2, `ldr2ndHdr, `loader
      ensures ok <==> Makeable(env, old(State()), args, compressAlgo)
      ensures ok ==>
                && Valid() && bin == MadeImage(env, old(State()), args, compressAlgo)
                && State() == Made(env, old(State()), args, compressAlgo).(ddr := ddr, blcp2nd := blcp2nd, monitor := monitor)
      ensures ok ==> ImageWritten(env, old(State()), args, compressAlgo, bin)
    {
      hide ImageWritten;
      ghost var c := State();
      TooLong(env, c, args, compressAlgo);
      hide Checked1, Checked2, Linked, SealLoader, Pad, Le, Aligned, Fits, LoaderSealable, Parts, JoinAll, Described;
      ok, bin := MakeFip1();
      if ok && ddr != [] {
        MadeFirst(env, c, args, compressAlgo);
        ok, bin := AppendFip2(bin, args);
      }
      if ok {
        MadeHolds(env, c, args, compressAlgo);
      }
    }

    lemma TooLong(env: Env, c: Contents, args: Args, algo: Algo)
      ensures Makeable(env, c, args, algo) ==> Aligned(|c.blcp|) && Aligned(|c.bl2|) && |c.blcp| < TWO_32 && |c.bl2| < TWO_32
    {
    }

    // ----- Reading -------------------------------------------------------------------

    method ReadFip(image: Bytes) returns (ok: bool)
      requires Valid()
      modifies `param1, `param2, `ldr2ndHdr, `blcp, `bl2, `ddr, `blcp2nd, `monitor, `loader
      ensures ok <==> Read(old(State()), image).Some?
      ensures ok ==> Valid() && State() == Read(old(State()), image).value
    {
      Offsets();
      hide Offset, Slice, Int, Parse, Read2;
      ok := Slice(image, 0, 8) == param1[MAGIC1];
      if !ok {
        return;
      }
      ReadParam1(image);
      ok := |image| >= BL2_IMG_SIZE_END;
      if !ok {
        return;
      }
      var readEnd := PARAM_SIZE;
      var blcpSize := Int(param1[BLCP_IMG_SIZE]);
      if blcpSize != 0 {
        blcp := Slice(image, readEnd, blcpSize);
        readEnd := readEnd + blcpSize;
      }
      var bl2Size := Int(param1[BL2_IMG_SIZE]);
      if bl2Size != 0 {
        bl2 := Slice(image, readEnd, bl2Size);
      }
      ok := ReadFip2(image);
    }

    method ReadParam1(bin: Bytes)
      requires Valid()
      modifies `param1
      ensures Valid() && param1 == Parse(PARAM1, bin)
    {
      hide Field;
      for i := 0 to |PARAM1|
        invariant Sized(PARAM1, param1)
        invariant forall j :: 0 <= j < i ==> param1[j] == Field(PARAM1, bin, j)
      {
        param1 := param1[i := Field(PARAM1, bin, i)];
      }
    }

    method ReadParam2(bin: Bytes)
      requires Valid()
      modifies `param2
      ensures Valid() && param2 == Parse(PARAM2, bin)
    {
      hide Field;
      for i := 0 to |PARAM2|
        invariant Sized(PARAM2, param2)
        invariant forall j :: 0 <= j < i ==> param2[j] == Field(PARAM2, bin, j)
      {
        param2 := param2[i := Field(PARAM2, bin, i)];
      }
    }

    method ReadFip2(image: Bytes) returns (ok: bool)
      requires Valid()
      modifies `param2, `ldr2ndHdr, `ddr, `blcp2nd, `monitor, `loader
      ensures var p := Parse(PARAM2, Slice(image, Int(param1[PARAM2_LOADADDR]), PARAM_SIZE));
              && (ok <==> Read2(old(State()), p, image).Some?)
              && (ok ==> Valid() && State() == Read2(old(State()), p, image).value)
    {
      hide Offset, Slice, Int, Parse;
      var param2Bin := Slice(image, Int(param1[PARAM2_LOADADDR]), PARAM_SIZE);
      ReadParam2(param2Bin);
      ddr := Slice(image, Int(param2[DDR_PARAM + LOADADDR]), Int(param2[DDR_PARAM + SIZE]));
      blcp2nd := Slice(image, Int(param2[BLCP_2ND + LOADADDR]), Int(param2[BLCP_2ND + SIZE]));
      monitor := Slice(image, Int(param2[MONITOR + LOADADDR]), Int(param2[MONITOR + SIZE]));
      ok := true;
      if Int(param2[LOADER_2ND_LOADADDR]) != 0 {
        ok := ReadLoader2nd(image);
      }
    }

    method ReadLoader2nd(image: Bytes) returns (ok: bool)
      requires Valid() && Int(param2[LOADER_2ND_LOADADDR]) != 0
      modifies `ldr2ndHdr, `loader
      ensures ok <==> ReadLoader(old(State()), param2, image).Some?
      ensures ok ==> Valid() && ReadLoader(old(State()), param2, image) == Some(loader)
    {
      hide Parse, Slice, Int;
      var at := Int(param2[LOADER_2ND_LOADADDR]);
      ldr2ndHdr := Parse(LDR_2ND_HDR, Slice(image, at, |image|));
      ok := KnownMagic(ldr2ndHdr[LDR_MAGIC]);
      if ok {
        loader := Slice(image, at, Int(ldr2ndHdr[LDR_SIZE]));
      }
    }
  }

  /** Builds a package, reads it into a new object and builds that again. */
  method Rebuild(builder: Fip, args: Args) returns (ok: bool, first: Bytes, second: Bytes)
    requires builder.Valid() && Unlinked(builder.State()) && builder.ddr != []
    modifies builder
    ensures ok <==> Makeable(builder.env, old(builder.State()), args, old(builder.compressAlgo))
    ensures ok ==> first == second
  {
    hide Makeable, MadeImage, Made, Read, Unlinked, Fresh, ImageWritten;
    ghost var c, algo := builder.State(), builder.compressAlgo;
    ok, first := builder.Make(args);
    second := first;
    if ok {
      var reader := new Fip(builder.env);
      RoundTrip(builder.env, c, args, algo, reader.State());
      var read := reader.ReadFip(first);
      var again: bool;
      again, second := reader.Make(args);
    }
  }
}
