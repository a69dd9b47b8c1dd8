// What the bytes of an image that make built hold, told from the image itself:
// the first block leads to the second, and that to every body.

module FipImage {
  import opened Common
  import opened Words
  import opened Fields
  import opened FipFormat

  /** The four bytes read as a number: the checksum below, 0xCAFE above. */
  predicate IsCrc(env: Env, entry: Bytes, covered: Bytes) {
    |entry| == 4 && Int(entry) == 0xCAFE * 0x1_0000 + env.crc(covered) as int
  }

  lemma ImageCrcIs(env: Env, b: Bytes)
    ensures IsCrc(env, ImageCrc(env, b), b)
  {
    var n := env.crc(b) as int;
    assert n == n % 256 + 256 * (n / 256);
  }

  /** The body as it was given, then fewer than 512 zeros. */
  predicate HoldsBody(image: Bytes, at: nat, size: nat, body: Bytes) {
    && at + size <= |image| && Aligned(size) && |body| <= size < |body| + IMAGE_ALIGN
    && image[at..at + |body|] == body
    && forall i :: at + |body| <= i < at + size ==> image[i] == 0
  }

  /** A recorded run address stays; without one it is the one given. */
  predicate RunsAt(recorded: nat, given: Option<nat>, run: nat) {
    if recorded != 0 then run == recorded else given == Some(run)
  }

  function HeaderLength(content: Bytes): nat {
    if |content| < LDR_HDR_SIZE then |content| else LDR_HDR_SIZE
  }

  /**
   * The header of content under the given magic with its length and checksum
   * brought up to date, then the stream, then zeros. Of a header cut short the
   * missing bytes are taken from the front of the stream.
   */
  predicate HoldsLoader(env: Env, content: Bytes, magic: Bytes, stream: Bytes, image: Bytes) {
    var was, h, n := Parse(LDR_2ND_HDR, content), Parse(LDR_2ND_HDR, image), HeaderLength(content);
    && Aligned(|image|) && LDR_HDR_SIZE <= |image| && n + |stream| <= |image| < n + |stream| + IMAGE_ALIGN
    && h[LDR_MAGIC] == magic && Int(h[LDR_SIZE]) == |image|
    && IsCrc(env, h[LDR_CKSUM], image[LDR_CKSUM_END..])
    && h[0] == was[0] && h[4..] == was[4..]
    && (forall i :: LDR_HDR_SIZE - n <= i < |stream| ==> image[n + i] == stream[i])
    && (forall i :: LDR_HDR_SIZE <= i < |image| && n + |stream| <= i ==> image[i] == 0)
  }

  /** The magic of the image names what its body went through. */
  predicate LoaderWritten(env: Env, content: Bytes, algo: Algo, image: Bytes) {
    var magic, body := Parse(LDR_2ND_HDR, content)[LDR_MAGIC], Slice(content, LDR_HDR_SIZE, |content|);
    && (magic == MAGIC_ORIG && algo == Lzma ==> HoldsLoader(env, content, MAGIC_LZMA, env.lzma(body), image))
    && (magic == MAGIC_ORIG && algo == Lz4 ==> HoldsLoader(env, content, MAGIC_LZ4, env.lz4(body), image))
    && (magic == MAGIC_ORIG && algo == NoAlgo ==> HoldsLoader(env, content, MAGIC_ORIG, body, image))
    && (magic != MAGIC_ORIG ==> HoldsLoader(env, content, magic, body, image))
  }

  lemma SealedHolds(env: Env, content: Bytes, magic: Bytes, stream: Bytes, image: Bytes)
    requires |magic| == 4 && content != []
    requires var padded := Pad(Slice(content, 0, LDR_HDR_SIZE) + stream);
             && |padded| < TWO_32 && LDR_HDR_SIZE <= |padded|
             && image == SealHeader(env, Parse(LDR_2ND_HDR, content)[LDR_MAGIC := magic][LDR_SIZE := Le(|padded|)],
                                    padded[LDR_HDR_SIZE..])
    ensures HoldsLoader(env, content, magic, stream, image)
  {
    hide Join, Offset, ImageCrc, Le, Int, IsCrc, Slice, Pad, Aligned;
    var n := HeaderLength(content);
    var padded := Pad(Slice(content, 0, LDR_HDR_SIZE) + stream);
    PaddedBytes(content, stream);
    var h := Parse(LDR_2ND_HDR, content)[LDR_MAGIC := magic][LDR_SIZE := Le(|padded|)];
    var body := padded[LDR_HDR_SIZE..];
    hide Parse;
    SealHeaderOk(env, h, body);
    SealHeaderBody(env, h, body);
    IntLe(|padded|);
    ImageCrcIs(env, image[LDR_CKSUM_END..]);
    hide SealHeader;
    assert forall i :: LDR_HDR_SIZE <= i < |image| ==> image[i] == body[i - LDR_HDR_SIZE] == padded[i];
  }

  lemma PaddedBytes(content: Bytes, stream: Bytes)
    ensures var n, padded := HeaderLength(content), Pad(Slice(content, 0, LDR_HDR_SIZE) + stream);
            && Aligned(|padded|) && n + |stream| <= |padded| < n + |stream| + IMAGE_ALIGN
            && (forall i :: 0 <= i < |stream| ==> padded[n + i] == stream[i])
            && (forall i :: n + |stream| <= i < |padded| ==> padded[i] == 0)
  {
    var n := HeaderLength(content);
    assert Slice(content, 0, LDR_HDR_SIZE) == content[..n];
  }

  /** Sealing leaves the body behind the header alone. */
  lemma SealHeaderBody(env: Env, h: seq<Bytes>, body: Bytes)
    requires Sized(LDR_2ND_HDR, h)
    ensures var image := SealHeader(env, h, body);
            |image| == LDR_HDR_SIZE + |body| && image[LDR_HDR_SIZE..] == body
  {
    hide Join, Offset, ImageCrc;
    Offsets();
    var covered := JoinAll(h) + body;
    var g := h[LDR_CKSUM := ImageCrc(env, Slice(covered, LDR_CKSUM_END, |covered|))];
    JoinLength(LDR_2ND_HDR, g, |g|);
  }

  /** Sealing a loader: the algorithm asked for compresses an original body, and the magic says so. */
  lemma LoaderSealed(env: Env, content: Bytes, algo: Algo)
    requires content != [] && LoaderSealable(env, content, algo)
    ensures LoaderWritten(env, content, algo, SealLoader(env, content, algo))
  {
    hide Parse, Pad, SealHeader, Le, Slice, HoldsLoader, KnownMagic;
    var body := Slice(content, LDR_HDR_SIZE, |content|);
    var image := SealLoader(env, content, algo);
    var magic := Parse(LDR_2ND_HDR, content)[LDR_MAGIC];
    assert |LoaderImage(env, content, algo)| < TWO_32;
    if magic != MAGIC_ORIG || algo == NoAlgo {
      SealedHolds(env, content, magic, body, image);
    } else if algo == Lzma {
      SealedHolds(env, content, MAGIC_LZMA, env.lzma(body), image);
    } else {
      SealedHolds(env, content, MAGIC_LZ4, env.lz4(body), image);
    }
  }

  /** Nothing of what the compressor gave is missing behind the header. */
  predicate KeepsStream(env: Env, content: Bytes)
    requires content != []
  {
    LoaderSealable(env, content, Lzma) ==>
      var stream, image := env.lzma(Slice(content, LDR_HDR_SIZE, |content|)), SealLoader(env, content, Lzma);
      |image| >= LDR_HDR_SIZE + |stream| && image[LDR_HDR_SIZE..LDR_HDR_SIZE + |stream|] == stream
  }

  /** The stream is whole for every compressor exactly when the loader has a whole header. */
  lemma WholeHeaderIff(env: Env, content: Bytes)
    requires content != [] && Parse(LDR_2ND_HDR, content)[LDR_MAGIC] == MAGIC_ORIG
    ensures |content| >= LDR_HDR_SIZE <==> forall lzma :: KeepsStream(env.(lzma := lzma), content)
  {
    hide Parse, Pad, SealLoader, Le, IsCrc, Int, Aligned, LoaderSealable;
    if |content| >= LDR_HDR_SIZE {
      forall lzma
        ensures KeepsStream(env.(lzma := lzma), content)
      {
        if LoaderSealable(env.(lzma := lzma), content, Lzma) {
          LoaderSealed(env.(lzma := lzma), content, Lzma);
        }
      }
    } else {
      var short := env.(lzma := _ => [1]);
      ShortHeaderLoses(short, content);
      assert !KeepsStream(env.(lzma := short.lzma), content);
    }
  }

  lemma ShortHeaderLoses(env: Env, content: Bytes)
    requires 0 < |content| < LDR_HDR_SIZE && Parse(LDR_2ND_HDR, content)[LDR_MAGIC] == MAGIC_ORIG
    requires forall b :: env.lzma(b) == [1]
    ensures !KeepsStream(env, content)
  {
    hide Parse, Le, IsCrc, Int, SealLoader;
    assert |LoaderImage(env, content, Lzma)| == IMAGE_ALIGN;
    assert LoaderSealable(env, content, Lzma);
    hide LoaderImage, LoaderSealable, Pad;
    LoaderSealed(env, content, Lzma);
    var image := SealLoader(env, content, Lzma);
    assert HoldsLoader(env, content, MAGIC_LZMA, [1], image);
    assert image[LDR_HDR_SIZE] == 0;
  }

  // ----- The first block and its bodies ------------------------------------------

  /** Everything in the first block that make does not compute is as it was. */
  predicate FirstWritten(env: Env, c: Contents, p: seq<Bytes>, image: Bytes)
    requires Shaped(c) && Sized(PARAM1, p) && |image| >= PARAM_SIZE
  {
    && (if c.ddr == [] then p[PARAM2_LOADADDR] == c.param1[PARAM2_LOADADDR] else Int(p[PARAM2_LOADADDR]) == Load2(c))
    && Int(p[CHIP_CONF_SIZE]) == |c.param1[CHIP_CONF]|
    && Int(p[BLCP_IMG_SIZE]) == |c.blcp| && Int(p[BL2_IMG_SIZE]) == |c.bl2|
    && HoldsBody(image, PARAM_SIZE, |c.blcp|, c.blcp) && HoldsBody(image, PARAM_SIZE + |c.blcp|, |c.bl2|, c.bl2)
    && IsCrc(env, p[BLCP_IMG_CKSUM], c.blcp) && IsCrc(env, p[BL2_IMG_CKSUM], c.bl2)
    && IsCrc(env, p[PARAM_CKSUM], image[NAND_INFO_AT..PARAM1_SIZE_WO_SIG])
    && forall i :: 0 <= i < |p| && !Computed1(i) ==> p[i] == c.param1[i]
  }

  predicate Computed1(i: nat) {
    || i == PARAM_CKSUM || i == CHIP_CONF_SIZE || i == PARAM2_LOADADDR
    || i == BLCP_IMG_CKSUM || i == BLCP_IMG_SIZE || i == BL2_IMG_CKSUM || i == BL2_IMG_SIZE
  }

  lemma FirstHolds(env: Env, c: Contents, link: Bytes, rest: Bytes)
    requires Shaped(c) && Aligned(|c.blcp|) && Aligned(|c.bl2|) && |c.blcp| < TWO_32 && |c.bl2| < TWO_32 && |link| == 4
    requires if c.ddr == [] then link == c.param1[PARAM2_LOADADDR] else Int(link) == Load2(c)
    ensures var p := Checked1(env, Described(env, c)[PARAM2_LOADADDR := link]);
            var image := JoinAll(p) + c.blcp + c.bl2 + rest;
            && |image| == Load2(c) + |rest| && Parse(PARAM1, image) == p && FirstWritten(env, c, p, image)
  {
    hide Join, Offset, Le, Int, ImageCrc, IsCrc, Parse, Aligned;
    Offsets();
    var d := Described(env, c)[PARAM2_LOADADDR := link];
    var p := Checked1(env, d);
    var image := JoinAll(p) + c.blcp + c.bl2 + rest;
    FirstEntries(env, c, link);
    JoinLength(PARAM1, p, |PARAM1|);
    JoinLength(PARAM1, d, |PARAM1|);
    ParseJoin(PARAM1, p, c.blcp + c.bl2 + rest);
    assert image == JoinAll(p) + (c.blcp + c.bl2 + rest);
    var covered := Slice(JoinAll(d), NAND_INFO_AT, PARAM1_SIZE_WO_SIG - NAND_INFO_AT);
    CksumOutside(PARAM1, d, PARAM_CKSUM, ImageCrc(env, covered), NAND_INFO_AT, PARAM1_SIZE_WO_SIG - NAND_INFO_AT);
    assert image[NAND_INFO_AT..PARAM1_SIZE_WO_SIG] == covered;
    ImageCrcIs(env, covered);
    hide Checked1, Described;
  }

  lemma FirstEntries(env: Env, c: Contents, link: Bytes)
    requires Shaped(c) && |c.blcp| < TWO_32 && |c.bl2| < TWO_32 && |link| == 4
    ensures var p := Checked1(env, Described(env, c)[PARAM2_LOADADDR := link]);
            && p[PARAM2_LOADADDR] == link && Int(p[CHIP_CONF_SIZE]) == |c.param1[CHIP_CONF]|
            && Int(p[BLCP_IMG_SIZE]) == |c.blcp| && Int(p[BL2_IMG_SIZE]) == |c.bl2|
            && IsCrc(env, p[BLCP_IMG_CKSUM], c.blcp) && IsCrc(env, p[BL2_IMG_CKSUM], c.bl2)
            && forall i :: 0 <= i < |p| && !Computed1(i) ==> p[i] == c.param1[i]
  {
    hide Join, Offset, Le, Int, ImageCrc, IsCrc, Slice;
    IntLe(|c.param1[CHIP_CONF]|);
    IntLe(|c.blcp|);
    IntLe(|c.bl2|);
    ImageCrcIs(env, c.blcp);
    ImageCrcIs(env, c.bl2);
  }

  // ----- The second block and its bodies -----------------------------------------

  /** The entries of one body lead to it, padded, and to its checksum. */
  predicate BodyWritten(env: Env, p: seq<Bytes>, base: nat, body: Bytes, image: Bytes)
    requires Sized(PARAM2, p) && base in {DDR_PARAM, BLCP_2ND, MONITOR}
  {
    var at, size := Int(p[base + LOADADDR]), Int(p[base + SIZE]);
    HoldsBody(image, at, size, body) && IsCrc(env, p[base], image[at..at + size])
  }

  predicate SecondWritten(env: Env, c: Contents, args: Args, algo: Algo, p: seq<Bytes>, image: Bytes)
    requires Shaped(c) && Sized(PARAM2, p)
  {
    && BodyWritten(env, p, DDR_PARAM, c.ddr, image)
    && (c.blcp2nd != [] ==> BodyWritten(env, p, BLCP_2ND, c.blcp2nd, image) && RunsAs(c, BLCP_2ND, args.blcp2nd, p))
    && (c.monitor != [] ==> BodyWritten(env, p, MONITOR, c.monitor, image) && RunsAs(c, MONITOR, args.monitor, p))
    && (c.loader != [] ==>
          var start := Int(p[LOADER_2ND_LOADADDR]);
          start <= |image| && LoaderWritten(env, c.loader, algo, image[start..]))
    && forall i :: 0 <= i < |p| && !Computed2(c, i) ==> p[i] == c.param2[i]
  }

  /** The second block at the given address, under its checksum. */
  predicate SecondAt(env: Env, c: Contents, args: Args, algo: Algo, at: nat, image: Bytes)
    requires Shaped(c)
  {
    && at + PARAM_SIZE <= |image|
    && var p := Parse(PARAM2, image[at..at + PARAM_SIZE]);
       && SecondWritten(env, c, args, algo, p, image)
       && IsCrc(env, p[PARAM2_CKSUM], image[at + PARAM2_CKSUM_END..at + PARAM_SIZE])
  }

  predicate RunsAs(c: Contents, base: nat, given: Option<nat>, p: seq<Bytes>)
    requires Shaped(c) && Sized(PARAM2, p) && base in {BLCP_2ND, MONITOR}
  {
    RunsAt(Int(c.param2[base + RUNADDR]), given, Int(p[base + RUNADDR]))
  }

  predicate Computed2(c: Contents, i: nat) {
    || i == PARAM2_CKSUM || DDR_PARAM <= i <= DDR_PARAM + SIZE
    || (c.blcp2nd != [] && BLCP_2ND <= i <= BLCP_2ND + RUNADDR)
    || (c.monitor != [] && MONITOR <= i <= MONITOR + RUNADDR)
    || (c.loader != [] && i == LOADER_2ND_LOADADDR)
  }

  predicate Entry(env: Env, p: seq<Bytes>, base: nat, at: nat, body: Bytes)
    requires Sized(PARAM2, p) && base in {DDR_PARAM, BLCP_2ND, MONITOR}
  {
    IsCrc(env, p[base], body) && Int(p[base + LOADADDR]) == at && Int(p[base + SIZE]) == |body|
  }

  /** The entries that stand in the package make leaves, k the bodies it packed. */
  predicate EntriesStand(env: Env, c: Contents, k: Contents, args: Args, p: seq<Bytes>)
    requires Shaped(c) && Sized(PARAM2, p)
  {
    && Entry(env, p, DDR_PARAM, DdrAt(k), k.ddr)
    && (c.blcp2nd != [] ==> Entry(env, p, BLCP_2ND, Blcp2ndAt(k), k.blcp2nd) && RunsAs(c, BLCP_2ND, args.blcp2nd, p))
    && (c.monitor != [] ==> Entry(env, p, MONITOR, MonitorAt(k), k.monitor) && RunsAs(c, MONITOR, args.monitor, p))
    && (c.loader != [] ==> Int(p[LOADER_2ND_LOADADDR]) == LoaderAt(k))
    && forall i :: 0 <= i < |p| && !Computed2(c, i) ==> p[i] == c.param2[i]
  }

  /** Only the n entries from lo on may differ. */
  predicate Outside(p: seq<Bytes>, q: seq<Bytes>, lo: nat, n: nat) {
    |p| == |q| && forall i :: 0 <= i < |p| && !(lo <= i < lo + n) ==> q[i] == p[i]
  }

  lemma EntryIs(env: Env, p: seq<Bytes>, base: nat, at: nat, body: Bytes)
    requires Sized(PARAM2, p) && base in {DDR_PARAM, BLCP_2ND, MONITOR} && at < TWO_32 && |body| < TWO_32
    ensures var q := Entered(env, p, base, at, body);
            Entry(env, q, base, at, body) && Outside(p, q, base, 3)
  {
    hide ImageCrc, IsCrc, Le, Int;
    IntLe(at);
    IntLe(|body|);
    ImageCrcIs(env, body);
  }

  /** What the link leaves in the entries: the run address recorded, or the one given. */
  lemma LinkedEntries(env: Env, c: Contents, k: Contents, args: Args)
    requires Shaped(c) && Shaped(k) && k.param2 == c.param2 && Fits(k, args)
    requires (k.blcp2nd == [] <==> c.blcp2nd == []) && (k.monitor == [] <==> c.monitor == [])
    requires k.loader == [] <==> c.loader == []
    ensures EntriesStand(env, c, k, args, Linked(env, k, args))
  {
    LinkedKeeps(env, c, k, args);
    hide ImageCrc, IsCrc, Le, Int, Entered, EnteredRun, Entry, RunsAs, Outside, Computed2;
    var p0 := LinkedDdr(env, k);
    EntryIs(env, k.param2, DDR_PARAM, DdrAt(k), k.ddr);
    var p1 := LinkedBlcp2nd(env, k, args);
    if k.blcp2nd != [] {
      RunEntryIs(env, c, p0, BLCP_2ND, Blcp2ndAt(k), k.blcp2nd, args.blcp2nd);
      SameEntry(env, c, p0, p1, DDR_PARAM, DdrAt(k), k.ddr, None, BLCP_2ND, 4);
    }
    var p2 := LinkedMonitor(env, k, args);
    if k.monitor != [] {
      RunEntryIs(env, c, p1, MONITOR, MonitorAt(k), k.monitor, args.monitor);
      SameEntry(env, c, p1, p2, DDR_PARAM, DdrAt(k), k.ddr, None, MONITOR, 4);
      SameEntry(env, c, p1, p2, BLCP_2ND, Blcp2ndAt(k), k.blcp2nd, args.blcp2nd, MONITOR, 4);
    }
    if k.loader != [] {
      var p := Linked(env, k, args);
      LoaderEntryIs(p2, LoaderAt(k));
      SameEntry(env, c, p2, p, DDR_PARAM, DdrAt(k), k.ddr, None, LOADER_2ND_LOADADDR, 1);
      SameEntry(env, c, p2, p, BLCP_2ND, Blcp2ndAt(k), k.blcp2nd, args.blcp2nd, LOADER_2ND_LOADADDR, 1);
      SameEntry(env, c, p2, p, MONITOR, MonitorAt(k), k.monitor, args.monitor, LOADER_2ND_LOADADDR, 1);
    }
  }

  lemma LinkedKeeps(env: Env, c: Contents, k: Contents, args: Args)
    requires Shaped(c) && Shaped(k) && k.param2 == c.param2 && Fits(k, args)
    requires (k.blcp2nd == [] <==> c.blcp2nd == []) && (k.monitor == [] <==> c.monitor == [])
    requires k.loader == [] <==> c.loader == []
    ensures var p := Linked(env, k, args); forall i :: 0 <= i < |p| && !Computed2(c, i) ==> p[i] == c.param2[i]
  {
    hide ImageCrc, Le, Int;
  }

  lemma LoaderEntryIs(p: seq<Bytes>, at: nat)
    requires Sized(PARAM2, p) && at < TWO_32
    ensures var q := p[LOADER_2ND_LOADADDR := Le(at)];
            Int(q[LOADER_2ND_LOADADDR]) == at && Outside(p, q, LOADER_2ND_LOADADDR, 1)
  {
    IntLe(at);
    hide Le, Int;
  }

  lemma RunEntryIs(env: Env, c: Contents, p: seq<Bytes>, base: nat, at: nat, body: Bytes, given: Option<nat>)
    requires Shaped(c) && Sized(PARAM2, p) && base in {BLCP_2ND, MONITOR} && at < TWO_32 && |body| < TWO_32
    requires Runnable(c.param2, base, given)
    ensures var q := EnteredRun(env, p, base, at, body, RunAddr(c.param2, base, given).value);
            && Entry(env, q, base, at, body) && RunsAs(c, base, given, q)
            && Outside(p, q, base, 4)
  {
    hide ImageCrc, IsCrc, Le, Int, Entered;
    EntryIs(env, p, base, at, body);
    IntLe(RunAddr(c.param2, base, given).value);
  }

  lemma SameEntry(env: Env, c: Contents, p: seq<Bytes>, q: seq<Bytes>, base: nat, at: nat, body: Bytes, given: Option<nat>,
                  lo: nat, n: nat)
    requires Shaped(c) && Sized(PARAM2, p) && Sized(PARAM2, q) && base in {DDR_PARAM, BLCP_2ND, MONITOR}
    requires Outside(p, q, lo, n) && (base + 4 <= lo || lo + n <= base)
    ensures Entry(env, p, base, at, body) ==> Entry(env, q, base, at, body)
    ensures base != DDR_PARAM && RunsAs(c, base, given, p) ==> RunsAs(c, base, given, q)
  {
    hide IsCrc, Int;
  }

  lemma BodyHolds(env: Env, p: seq<Bytes>, base: nat, at: nat, body: Bytes, image: Bytes)
    requires Sized(PARAM2, p) && base in {DDR_PARAM, BLCP_2ND, MONITOR}
    requires Entry(env, p, base, at, Pad(body))
    requires at + |Pad(body)| <= |image| && image[at..at + |Pad(body)|] == Pad(body)
    ensures BodyWritten(env, p, base, body, image)
  {
    hide IsCrc, Int, Aligned;
    var size := |Pad(body)|;
    assert image[at..at + |body|] == image[at..at + size][..|body|] == body;
    assert forall i :: at + |body| <= i < at + size ==> image[i] == image[at..at + size][i - at] == 0;
  }

  lemma CheckedStand(env: Env, c: Contents, k: Contents, args: Args, p: seq<Bytes>)
    requires Shaped(c) && Sized(PARAM2, p) && EntriesStand(env, c, k, args, p)
    ensures EntriesStand(env, c, k, args, Checked2(env, p))
    ensures var q := Checked2(env, p);
            IsCrc(env, q[PARAM2_CKSUM], Slice(JoinAll(q), PARAM2_CKSUM_END, PARAM_SIZE - PARAM2_CKSUM_END))
  {
    hide Join, Offset, Slice, ImageCrc, IsCrc, Int;
    CheckedDescribes(env, p);
    var q := Checked2(env, p);
    ImageCrcIs(env, Slice(JoinAll(q), PARAM2_CKSUM_END, PARAM_SIZE - PARAM2_CKSUM_END));
    hide Checked2;
  }

  lemma SecondParses(c: Contents, image: Bytes)
    requires Shaped(c) && image == Image(c)
    ensures var at := Load2(c);
            && at + PARAM_SIZE <= |image| && Parse(PARAM2, Slice(image, at, PARAM_SIZE)) == c.param2
            && image[at + PARAM2_CKSUM_END..at + PARAM_SIZE]
               == Slice(JoinAll(c.param2), PARAM2_CKSUM_END, PARAM_SIZE - PARAM2_CKSUM_END)
  {
    hide Join, Offset, Parse;
    PartAt(c, 3);
    hide Image;
    Offsets();
    JoinLength(PARAM2, c.param2, |PARAM2|);
    ParseJoin(PARAM2, c.param2, []);
    assert JoinAll(c.param2) + [] == JoinAll(c.param2);
    var at := Load2(c);
    assert image[at + PARAM2_CKSUM_END..at + PARAM_SIZE] == JoinAll(c.param2)[PARAM2_CKSUM_END..PARAM_SIZE];
  }

  lemma BodiesHold(env: Env, c: Contents, args: Args, k: Contents, image: Bytes)
    requires Shaped(c) && Shaped(k) && image == Image(k) && EntriesStand(env, c, k, args, k.param2)
    requires k.ddr == Pad(c.ddr) && k.blcp2nd == Pad(c.blcp2nd) && k.monitor == Pad(c.monitor)
    ensures BodyWritten(env, k.param2, DDR_PARAM, c.ddr, image)
    ensures c.blcp2nd != [] ==> BodyWritten(env, k.param2, BLCP_2ND, c.blcp2nd, image)
    ensures c.monitor != [] ==> BodyWritten(env, k.param2, MONITOR, c.monitor, image)
    ensures LoaderAt(k) <= |image| && image[LoaderAt(k)..] == k.loader
  {
    hide Join, Offset, Pad, Entry, BodyWritten, RunsAs, Int;
    PartAt(k, 4);
    PartAt(k, 5);
    PartAt(k, 6);
    PartAt(k, 7);
    hide Image;
    BodyHolds(env, k.param2, DDR_PARAM, DdrAt(k), c.ddr, image);
    if c.blcp2nd != [] {
      BodyHolds(env, k.param2, BLCP_2ND, Blcp2ndAt(k), c.blcp2nd, image);
    }
    if c.monitor != [] {
      BodyHolds(env, k.param2, MONITOR, MonitorAt(k), c.monitor, image);
    }
  }

  lemma SameStand(env: Env, c: Contents, l: Contents, k: Contents, args: Args)
    requires Shaped(c) && Shaped(k) && EntriesStand(env, c, l, args, k.param2)
    requires k == l.(param1 := k.param1, param2 := k.param2)
    ensures EntriesStand(env, c, k, args, k.param2)
  {
    hide Entry, RunsAs, Int;
  }

  lemma SecondFrom(env: Env, c: Contents, args: Args, algo: Algo, k: Contents, image: Bytes)
    requires Shaped(c) && Shaped(k) && EntriesStand(env, c, k, args, k.param2) 
    requires BodyWritten(env, k.param2, DDR_PARAM, c.ddr, image)
    requires c.blcp2nd != [] ==> BodyWritten(env, k.param2, BLCP_2ND, c.blcp2nd, image)
    requires c.monitor != [] ==> BodyWritten(env, k.param2, MONITOR, c.monitor, image)
    requires LoaderAt(k) <= |image|
    requires c.loader != [] ==> LoaderWritten(env, c.loader, algo, image[LoaderAt(k)..])
    ensures SecondWritten(env, c, args, algo, k.param2, image)
  {
    hide Entry, BodyWritten, RunsAs, Int, IsCrc, LoaderWritten;
  }

  lemma SecondHolds(env: Env, c: Contents, args: Args, algo: Algo)
    requires Buildable(env, c, args, algo)
    ensures var k := Seal(env, c, args, algo);
            Shaped(k) && SecondAt(env, c, args, algo, Load2(c), Image(k))
  {
    hide Join, Offset, Slice, Parse, Pad, Entry, BodyWritten, RunsAs, Int, IsCrc, Fits, SealLoader, LoaderSealable, LoaderWritten;
    hide Sealed1, Linked, Image, Checked2, EntriesStand;
    var l, k := Packed(env, c, algo), Seal(env, c, args, algo);
    var p, image := Linked(env, l, args), Image(k);
    if c.loader != [] {
      LoaderSealed(env, c.loader, algo);
      SealLoaderOk(env, c.loader, algo);
      hide LoaderOk;
    }
    LinkedEntries(env, c, l, args);
    CheckedStand(env, c, l, args, p);
    SameStand(env, c, l, k, args);
    SecondParses(k, image);
    BodiesHold(env, c, args, k, image);
    SecondFrom(env, c, args, algo, k, image);
  }

  // ----- The whole image ---------------------------------------------------------

  /**
   * What make writes, followed from the front of the image: the first block and
   * its bodies, and with DDR parameters the second block where the first one
   * says, its bodies where that one says, each run address recorded or given,
   * and the loader compressed as its magic says.
   */
  predicate ImageWritten(env: Env, c: Contents, args: Args, algo: Algo, image: Bytes)
    requires Shaped(c)
  {
    && |image| >= PARAM_SIZE
    && FirstWritten(env, c, Parse(PARAM1, image), image)
    && (if c.ddr == [] then |image| == Load2(c) else SecondAt(env, c, args, algo, Load2(c), image))
  }

  lemma MadeHolds(env: Env, c: Contents, args: Args, algo: Algo)
    requires Makeable(env, c, args, algo)
    ensures ImageWritten(env, c, args, algo, MadeImage(env, c, args, algo))
  {
    hide *;
    if c.ddr == [] {
      FirstAlone(env, c, args, algo);
    } else {
      BothBlocks(env, c, args, algo);
    }
  }

  lemma FirstAlone(env: Env, c: Contents, args: Args, algo: Algo)
    requires Makeable(env, c, args, algo) && c.ddr == []
    ensures ImageWritten(env, c, args, algo, MadeImage(env, c, args, algo))
  {
    hide Join, Offset, Parse, Int, Le, IsCrc, Checked1, FirstWritten, Aligned, ImageCrc;
    var link := c.param1[PARAM2_LOADADDR];
    FirstHolds(env, c, link, []);
    assert Described(env, c)[PARAM2_LOADADDR := link] == Described(env, c);
    assert Image1(Made1(env, c)) == JoinAll(Made1(env, c).param1) + c.blcp + c.bl2 + [];
  }

  lemma BothBlocks(env: Env, c: Contents, args: Args, algo: Algo)
    requires Makeable(env, c, args, algo) && c.ddr != []
    ensures ImageWritten(env, c, args, algo, MadeImage(env, c, args, algo))
  {
    hide Join, Offset, Parse, Pad, Int, Le, IsCrc, Fits, SealLoader, LoaderSealable, Checked1, Checked2, Linked, Described;
    hide FirstWritten, SecondAt, Image, Aligned;
    var k := Seal(env, c, args, algo);
    SecondHolds(env, c, args, algo);
    ImageIs(k);
    Load2Fits(Packed(env, c, algo), args);
    IntLe(Load2(c));
    var rest := JoinAll(k.param2) + k.ddr + k.blcp2nd + k.monitor + k.loader;
    FirstHolds(env, c, Le(Load2(c)), rest);
    assert Image(k) == JoinAll(k.param1) + c.blcp + c.bl2 + rest;
  }

  // ----- When make fails -----------------------------------------------------------

  /** Rounded up to a multiple of 512. */
  function Rounded(n: nat): nat { (n + 511) / 512 * 512 }

  lemma PadRounds(b: Bytes)
    ensures |Pad(b)| == Rounded(|b|)
  {
    RoundsUp(|b|);
    hide Rounded;
  }

  lemma RoundsUp(n: int)
    requires n >= 0
    ensures n + (-n) % 512 == Rounded(n)
  {
    var q, r := n / 512, n % 512;
    assert n == 512 * q + r;
    if r == 0 {
      assert -n == 512 * -q;
    } else {
      assert -n == 512 * (-q - 1) + (512 - r);
    }
  }

  /** A body behind at bytes of image: its address and length have 32 bits. */
  predicate Placed(at: nat, body: Bytes) { body != [] ==> at < TWO_32 && Rounded(|body|) < TWO_32 }

  /** A run address is needed for a body and is known, recorded or given, in 32 bits. */
  predicate Known(body: Bytes, recorded: nat, given: Option<nat>) {
    body != [] && recorded == 0 ==> given.Some? && given.value < TWO_32
  }

  /** What goes behind the header of a loader. */
  function Stream(env: Env, content: Bytes, algo: Algo): Bytes {
    var body := Slice(content, LDR_HDR_SIZE, |content|);
    if Parse(LDR_2ND_HDR, content)[LDR_MAGIC] != MAGIC_ORIG then body
    else if algo == Lzma then env.lzma(body) else if algo == Lz4 then env.lz4(body) else body
  }

  predicate LoaderTaken(env: Env, content: Bytes, algo: Algo)
    requires content != []
  {
    var magic := Parse(LDR_2ND_HDR, content)[LDR_MAGIC];
    && (magic == MAGIC_ORIG || magic == MAGIC_LZMA || magic == MAGIC_LZ4) && (magic == MAGIC_ORIG ==> algo != Unsupported)
    && Rounded(HeaderLength(content) + |Stream(env, content, algo)|) < TWO_32
  }

  /**
   * make succeeds exactly on aligned bodies whose addresses and lengths have 32
   * bits, with every run address known and a loader of a known magic.
   */
  lemma MakeableIff(env: Env, c: Contents, args: Args, algo: Algo)
    requires Shaped(c)
    ensures var at := PARAM_SIZE + |c.blcp| + |c.bl2| + PARAM_SIZE;
            var at1 := at + Rounded(|c.ddr|);
            var at2 := at1 + Rounded(|c.blcp2nd|);
            var at3 := at2 + Rounded(|c.monitor|);
            Makeable(env, c, args, algo) <==>
              && |c.blcp| % 512 == |c.bl2| % 512 == 0 && |c.blcp| < TWO_32 && |c.bl2| < TWO_32
              && (c.ddr != [] ==>
                    && Placed(at, c.ddr) && Placed(at1, c.blcp2nd) && Placed(at2, c.monitor)
                    && Known(c.blcp2nd, Int(c.param2[BLCP_2ND + RUNADDR]), args.blcp2nd)
                    && Known(c.monitor, Int(c.param2[MONITOR + RUNADDR]), args.monitor)
                    && (c.loader != [] ==> at3 < TWO_32 && LoaderTaken(env, c.loader, algo)))
  {
    FitsIff(c, args);
    if Aligned(|c.blcp|) && Aligned(|c.bl2|) {
      BuildableIs(env, c, args, algo);
    }
    if c.loader != [] {
      SealableIff(env, c.loader, algo);
    }
    hide Join, Offset, Parse, Pad, Int, Rounded, LoaderSealable, SealLoader, LoaderTaken, Fits, Known, Packed;
  }

  lemma FitsIff(c: Contents, args: Args)
    requires Shaped(c)
    ensures var k := c.(ddr := Pad(c.ddr), blcp2nd := Pad(c.blcp2nd), monitor := Pad(c.monitor), loader := []);
            var at1 := DdrAt(c) + Rounded(|c.ddr|);
            var at2 := at1 + Rounded(|c.blcp2nd|);
            && Blcp2ndAt(k) == at1 && MonitorAt(k) == at2 && LoaderAt(k) == at2 + Rounded(|c.monitor|)
            && (c.ddr != [] ==>
                  (Fits(k, args) <==>
                     && Placed(DdrAt(c), c.ddr) && Placed(at1, c.blcp2nd) && Placed(at2, c.monitor)
                     && Known(c.blcp2nd, Int(c.param2[BLCP_2ND + RUNADDR]), args.blcp2nd)
                     && Known(c.monitor, Int(c.param2[MONITOR + RUNADDR]), args.monitor)))
  {
    PadRounds(c.ddr);
    PadRounds(c.blcp2nd);
    PadRounds(c.monitor);
    assert Pad([]) == [];
    hide Pad, Int, Rounded, Aligned;
  }

  lemma SealableIff(env: Env, content: Bytes, algo: Algo)
    requires content != []
    ensures LoaderSealable(env, content, algo) <==> LoaderTaken(env, content, algo)
  {
    var magic := Parse(LDR_2ND_HDR, content)[LDR_MAGIC];
    if magic != MAGIC_ORIG || algo != Unsupported {
      ImageRounds(env, content, algo);
      hide Parse, Rounded, Stream, LoaderImage;
    }
  }

  lemma ImageRounds(env: Env, content: Bytes, algo: Algo)
    requires content != [] && (Parse(LDR_2ND_HDR, content)[LDR_MAGIC] != MAGIC_ORIG || algo != Unsupported)
    ensures |LoaderImage(env, content, algo)| == Rounded(HeaderLength(content) + |Stream(env, content, algo)|)
  {
    assert |Slice(content, 0, LDR_HDR_SIZE)| == HeaderLength(content);
    PadRounds(Slice(content, 0, LDR_HDR_SIZE) + Stream(env, content, algo));
    hide Parse, Pad, Rounded, Slice;
  }

  // ----- What reading takes from any image --------------------------------------------

  /** d is the n bytes from at on, or as many of them as there are. */
  predicate Took(image: Bytes, at: nat, n: nat, d: Bytes) {
    |d| <= n && forall i :: 0 <= i < n ==> TookByte(image, at, d, i)
  }

  predicate TookByte(image: Bytes, at: nat, d: Bytes, i: nat) {
    (i < |d| <==> at + i < |image|) && (i < |d| && at + i < |image| ==> d[i] == image[at + i])
  }

  lemma SliceTakes(image: Bytes, at: nat, n: nat)
    ensures Took(image, at, n, Slice(image, at, n))
  {
  }

  /** The bodies after the first block; one without a length stays what it was. */
  predicate TookFirst(c: Contents, p: seq<Bytes>, image: Bytes, d: Contents)
    requires Sized(PARAM1, p)
  {
    var n1, n2 := Int(p[BLCP_IMG_SIZE]), Int(p[BL2_IMG_SIZE]);
    && d.param1 == p
    && (if n1 == 0 then d.blcp == c.blcp else Took(image, PARAM_SIZE, n1, d.blcp))
    && (if n2 == 0 then d.bl2 == c.bl2 else Took(image, PARAM_SIZE + n1, n2, d.bl2))
  }

  /** The bodies the second block leads to; a loader without an address stays what it was. */
  predicate TookSecond(c: Contents, p: seq<Bytes>, image: Bytes, d: Contents)
    requires Sized(PARAM2, p)
  {
    var at := Int(p[LOADER_2ND_LOADADDR]);
    && d.param2 == p
    && Took(image, Int(p[DDR_PARAM + LOADADDR]), Int(p[DDR_PARAM + SIZE]), d.ddr)
    && Took(image, Int(p[BLCP_2ND + LOADADDR]), Int(p[BLCP_2ND + SIZE]), d.blcp2nd)
    && Took(image, Int(p[MONITOR + LOADADDR]), Int(p[MONITOR + SIZE]), d.monitor)
    && if at == 0 then d.loader == c.loader else Took(image, at, Int(LoaderHeader(image, at)[LDR_SIZE]), d.loader)
  }

  function LoaderHeader(image: Bytes, at: nat): (h: seq<Bytes>)
    ensures Sized(LDR_2ND_HDR, h)
  {
    Parse(LDR_2ND_HDR, Slice(image, at, |image|))
  }

  function SecondBlock(image: Bytes, p: seq<Bytes>): (q: seq<Bytes>)
    requires Sized(PARAM1, p)
    ensures Sized(PARAM2, q)
  {
    Parse(PARAM2, Slice(image, Int(p[PARAM2_LOADADDR]), PARAM_SIZE))
  }

  predicate Unknown(magic: Bytes) { magic != MAGIC_ORIG && magic != MAGIC_LZMA && magic != MAGIC_LZ4 }

  predicate ReadAs(c: Contents, image: Bytes, p: seq<Bytes>, q: seq<Bytes>, r: Option<Contents>)
    requires Sized(PARAM1, p) && Sized(PARAM2, q)
  {
    var at := Int(q[LOADER_2ND_LOADADDR]);
    && (r.None? <==> at != 0 && Unknown(LoaderHeader(image, at)[LDR_MAGIC]))
    && (r.Some? ==> TookFirst(c, p, image, r.value) && TookSecond(c, q, image, r.value))
  }

  /**
   * An image is refused exactly on another magic, on fewer than 220 bytes or on a
   * loader of an unknown magic; otherwise every body is what the entries lead to,
   * as far as the image goes.
   */
  lemma ReadTakes(c: Contents, image: Bytes)
    requires Shaped(c)
    ensures var p := Parse(PARAM1, image);
            if |image| < 220 || image[..8] != c.param1[MAGIC1] then Read(c, image).None?
            else ReadAs(c, image, p, SecondBlock(image, p), Read(c, image))
  {
    assert |image| >= 220 ==> Slice(image, 0, 8) == image[..8];
    hide Parse, Slice, Int, SecondBlock, ReadAs;
    if |image| >= 220 && image[..8] == c.param1[MAGIC1] {
      BlocksTake(c, Parse(PARAM1, image), image);
    }
  }

  lemma BlocksTake(c: Contents, p: seq<Bytes>, image: Bytes)
    requires Sized(PARAM1, p)
    ensures ReadAs(c, image, p, SecondBlock(image, p), Read12(c, p, image))
  {
    var q := SecondBlock(image, p);
    var b := Read1(c, p, image);
    FirstTakes(c, p, image);
    SecondTakes(b, q, image);
    assert Read12(c, p, image) == Read2(b, q, image);
    if Read2(b, q, image).Some? {
      Carried(b, c, p, q, image, Read2(b, q, image).value);
    }
    assert ReadAs(c, image, p, q, Read2(b, q, image)) by {
      hide Parse, Slice, Int, Took, Read1, Read2, LoaderHeader, Unknown, TookFirst, TookSecond, SecondBlock, Read12;
    }
  }

  lemma Carried(b: Contents, c: Contents, p: seq<Bytes>, q: seq<Bytes>, image: Bytes, d: Contents)
    requires Sized(PARAM1, p) && Sized(PARAM2, q) && b.loader == c.loader
    requires TookFirst(c, p, image, b) && d.param1 == b.param1 && d.blcp == b.blcp && d.bl2 == b.bl2
    requires TookSecond(b, q, image, d)
    ensures TookFirst(c, p, image, d) && TookSecond(c, q, image, d)
  {
    hide Parse, Slice, Int, Took;
  }

  lemma FirstTakes(c: Contents, p: seq<Bytes>, image: Bytes)
    requires Sized(PARAM1, p)
    ensures var d := Read1(c, p, image);
            TookFirst(c, p, image, d) && d.loader == c.loader
  {
    SliceTakes(image, PARAM_SIZE, Int(p[BLCP_IMG_SIZE]));
    SliceTakes(image, PARAM_SIZE + Int(p[BLCP_IMG_SIZE]), Int(p[BL2_IMG_SIZE]));
    hide Slice, Int, Took;
  }

  lemma SecondTakes(c: Contents, p: seq<Bytes>, image: Bytes)
    requires Sized(PARAM2, p)
    ensures var at, r := Int(p[LOADER_2ND_LOADADDR]), Read2(c, p, image);
            && (r.None? <==> at != 0 && Unknown(LoaderHeader(image, at)[LDR_MAGIC]))
            && (r.Some? ==> TookSecond(c, p, image, r.value)
                            && r.value.param1 == c.param1 && r.value.blcp == c.blcp && r.value.bl2 == c.bl2)
  {
    SliceTakes(image, Int(p[DDR_PARAM + LOADADDR]), Int(p[DDR_PARAM + SIZE]));
    SliceTakes(image, Int(p[BLCP_2ND + LOADADDR]), Int(p[BLCP_2ND + SIZE]));
    SliceTakes(image, Int(p[MONITOR + LOADADDR]), Int(p[MONITOR + SIZE]));
    LoaderTakes(c, p, image);
    hide Slice, Int, Took, Parse, LoaderHeader, Unknown, ReadLoader;
  }

  lemma LoaderTakes(c: Contents, p: seq<Bytes>, image: Bytes)
    requires Sized(PARAM2, p)
    ensures var at, r := Int(p[LOADER_2ND_LOADADDR]), ReadLoader(c, p, image);
            && (r.None? <==> at != 0 && Unknown(LoaderHeader(image, at)[LDR_MAGIC]))
            && (r.Some? && at == 0 ==> r.value == c.loader)
            && (r.Some? && at != 0 ==> Took(image, at, Int(LoaderHeader(image, at)[LDR_SIZE]), r.value))
  {
    var at := Int(p[LOADER_2ND_LOADADDR]);
    SliceTakes(image, at, Int(LoaderHeader(image, at)[LDR_SIZE]));
    hide Slice, Int, Took, Parse;
  }
}
