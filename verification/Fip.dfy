// The firmware image package of fiptool.py: a builder that grows and patches
// one byte string, and the reader that takes it apart again.

module Fields {
  import opened Common
  import opened Words

  type Bytes = seq<byte>

  function Zero(n: nat): (z: Bytes)
    ensures |z| == n
  {
    seq(n, _ => 0)
  }

  /** Python's b[lo:lo + len], clipped to the string. */
  function Slice(b: Bytes, lo: nat, len: nat): (s: Bytes)
    ensures |s| <= len
    ensures lo + len <= |b| ==> s == b[lo..lo + len]
  {
    if |b| <= lo then [] else if |b| <= lo + len then b[lo..] else b[lo..lo + len]
  }

  /** What the content setter stores: the value filled up with zeros. */
  function Fill(v: Bytes, size: nat): (f: Bytes)
    requires |v| <= size
    ensures |f| == size && v <= f
  {
    v + Zero(size - |v|)
  }

  function Offset(sizes: seq<nat>, i: nat): nat
    requires i <= |sizes|
  {
    if i == 0 then 0 else Offset(sizes, i - 1) + sizes[i - 1]
  }

  /** The concatenation of the first n fields. */
  function Join(fields: seq<Bytes>, n: nat): Bytes
    requires n <= |fields|
  {
    if n == 0 then [] else Join(fields, n - 1) + fields[n - 1]
  }

  function JoinAll(fields: seq<Bytes>): Bytes { Join(fields, |fields|) }

  predicate Sized(sizes: seq<nat>, fields: seq<Bytes>) {
    |fields| == |sizes| && forall i :: 0 <= i < |sizes| ==> |fields[i]| == sizes[i]
  }

  function Field(sizes: seq<nat>, b: Bytes, i: nat): (f: Bytes)
    requires i < |sizes|
    ensures |f| == sizes[i]
  {
    Fill(Slice(b, Offset(sizes, i), sizes[i]), sizes[i])
  }

  function Parse(sizes: seq<nat>, b: Bytes): (fields: seq<Bytes>)
    ensures |fields| == |sizes| && Sized(sizes, fields)
  {
    seq(|sizes|, i requires 0 <= i < |sizes| => Field(sizes, b, i))
  }

  lemma {:induction false} OffsetMonotone(sizes: seq<nat>, i: nat, j: nat)
    requires i <= j <= |sizes|
    ensures Offset(sizes, i) <= Offset(sizes, j)
  {
    if i < j {
      OffsetMonotone(sizes, i, j - 1);
    }
  }

  lemma {:induction false} JoinLength(sizes: seq<nat>, fields: seq<Bytes>, n: nat)
    requires Sized(sizes, fields) && n <= |fields|
    ensures |Join(fields, n)| == Offset(sizes, n)
  {
    if n > 0 {
      JoinLength(sizes, fields, n - 1);
    }
  }

  /** Each field sits at its offset. */
  lemma {:induction false} JoinSlice(sizes: seq<nat>, fields: seq<Bytes>, i: nat, n: nat)
    requires Sized(sizes, fields) && i < n <= |fields|
    ensures |Join(fields, n)| == Offset(sizes, n) >= Offset(sizes, i) + sizes[i]
    ensures Join(fields, n)[Offset(sizes, i)..Offset(sizes, i) + sizes[i]] == fields[i]
  {
    JoinLength(sizes, fields, n);
    JoinLength(sizes, fields, n - 1);
    if i < n - 1 {
      JoinSlice(sizes, fields, i, n - 1);
      OffsetMonotone(sizes, i + 1, n - 1);
    }
  }

  /** Parsing inverts joining, whatever follows. */
  lemma ParseJoin(sizes: seq<nat>, fields: seq<Bytes>, rest: Bytes)
    requires Sized(sizes, fields)
    ensures Parse(sizes, JoinAll(fields) + rest) == fields
  {
    forall i | 0 <= i < |sizes|
      ensures Field(sizes, JoinAll(fields) + rest, i) == fields[i]
    {
      FieldOfJoin(sizes, fields, rest, i);
    }
  }

  lemma FieldOfJoin(sizes: seq<nat>, fields: seq<Bytes>, rest: Bytes, i: nat)
    requires Sized(sizes, fields) && i < |fields|
    ensures Field(sizes, JoinAll(fields) + rest, i) == fields[i]
  {
    var b, lo := JoinAll(fields) + rest, Offset(sizes, i);
    JoinSlice(sizes, fields, i, |fields|);
    assert b[lo..lo + sizes[i]] == JoinAll(fields)[lo..lo + sizes[i]];
  }

  /** Joining inverts parsing, up to the end of the last field. */
  lemma JoinParse(sizes: seq<nat>, b: Bytes, n: nat)
    requires n <= |sizes| && Offset(sizes, n) <= |b|
    ensures Join(Parse(sizes, b), n) == b[..Offset(sizes, n)]
  {
    hide *;
    forall i | 0 <= i < n
      ensures IsCut(sizes, Parse(sizes, b), b, i)
    {
      OffsetMonotone(sizes, i + 1, n);
      FieldInside(sizes, b, i);
    }
    JoinCuts(sizes, Parse(sizes, b), b, n);
  }

  /** The field is the part of b at its offset. */
  predicate IsCut(sizes: seq<nat>, fields: seq<Bytes>, b: Bytes, i: nat)
    requires i < |sizes| == |fields|
  {
    Offset(sizes, i) <= Offset(sizes, i + 1) <= |b| && fields[i] == b[Offset(sizes, i)..Offset(sizes, i + 1)]
  }

  lemma FieldInside(sizes: seq<nat>, b: Bytes, i: nat)
    requires i < |sizes| && Offset(sizes, i + 1) <= |b|
    ensures IsCut(sizes, Parse(sizes, b), b, i)
  {
    assert Offset(sizes, i + 1) == Offset(sizes, i) + sizes[i];
    hide Offset, Join;
    assert Parse(sizes, b)[i] == Field(sizes, b, i);
  }

  lemma {:induction false} JoinCuts(sizes: seq<nat>, fields: seq<Bytes>, b: Bytes, n: nat)
    requires n <= |sizes| == |fields| && Offset(sizes, n) <= |b|
    requires forall i :: 0 <= i < n ==> IsCut(sizes, fields, b, i)
    ensures Join(fields, n) == b[..Offset(sizes, n)]
  {
    if n > 0 {
      assert IsCut(sizes, fields, b, n - 1);
      hide Offset;
      JoinCuts(sizes, fields, b, n - 1);
      Cut(b, Offset(sizes, n - 1), Offset(sizes, n));
    }
  }

  lemma Cut(b: Bytes, lo: nat, hi: nat)
    requires lo <= hi <= |b|
    ensures b[..lo] + b[lo..hi] == b[..hi]
  {
  }

  /** Storing a field overwrites its bytes and no others. */
  lemma {:induction false} JoinUpdate(sizes: seq<nat>, fields: seq<Bytes>, i: nat, v: Bytes, n: nat)
    requires Sized(sizes, fields) && i < n <= |fields| && |v| == sizes[i]
    ensures |Join(fields, n)| == Offset(sizes, n) >= Offset(sizes, i) + sizes[i]
    ensures Join(fields[i := v], n) ==
            Join(fields, n)[..Offset(sizes, i)] + v + Join(fields, n)[Offset(sizes, i) + sizes[i]..]
  {
    JoinLength(sizes, fields, n);
    JoinLength(sizes, fields, n - 1);
    OffsetMonotone(sizes, i + 1, n);
    if i < n - 1 {
      JoinUpdate(sizes, fields, i, v, n - 1);
      OffsetMonotone(sizes, i + 1, n - 1);
      Extend(Join(fields, n - 1), fields[n - 1], Offset(sizes, i), v);
    } else {
      JoinPrefix(fields, i, v, i);
    }
  }

  lemma Extend(a: Bytes, f: Bytes, at: nat, v: Bytes)
    requires at + |v| <= |a|
    ensures (a[..at] + v + a[at + |v|..]) + f == (a + f)[..at] + v + (a + f)[at + |v|..]
  {
  }

  lemma {:induction false} JoinPrefix(fields: seq<Bytes>, i: nat, v: Bytes, n: nat)
    requires n <= i < |fields|
    ensures Join(fields[i := v], n) == Join(fields, n)
  {
    if n > 0 {
      JoinPrefix(fields, i, v, n - 1);
    }
  }
}

// The format on values: what a built image holds, what reading one yields.
module FipFormat {
  import opened Common
  import opened Words
  import opened Fields

  const IMAGE_ALIGN := 512
  const PARAM_SIZE := 0x1000
  const PARAM1_SIZE_WO_SIG := 0x800

  const PARAM1: seq<nat> := [
    8, 4, 4, 128, 36, 8, 4, 4, 4, 4, 4, 4, 4, 4, 4, 4, 4, 760, 32, 512, 512, 512, 512, 512, 512
  ]
  const MAGIC1 := 0
  const PARAM_CKSUM := 2
  const NAND_INFO := 3
  const CHIP_CONF_SIZE := 6
  const BLCP_IMG_CKSUM := 7
  const BLCP_IMG_SIZE := 8
  const BLCP_IMG_RUNADDR := 9
  const BL2_IMG_CKSUM := 12
  const BL2_IMG_SIZE := 13
  const BL2_IMG_SIZE_END := 220
  const PARAM2_LOADADDR := 15
  const CHIP_CONF := 17
  const NAND_INFO_AT := 16     // the address of NAND_INFO
  const BL_PK_SIG := 21

  const PARAM2: seq<nat> := [8, 4, 4, 4, 4, 4, 4, 4, 4, 4, 4, 4, 4, 4, 4, 4, 4, 4, 4, 4016]
  const PARAM2_CKSUM := 1
  const PARAM2_CKSUM_END := 12
  const DDR_PARAM := 3
  const BLCP_2ND := 7
  const MONITOR := 11
  const LOADER_2ND_LOADADDR := 16
  // A body's CKSUM, LOADADDR, SIZE and RUNADDR entries follow one another.
  const LOADADDR := 1
  const SIZE := 2
  const RUNADDR := 3

  const LDR_2ND_HDR: seq<nat> := [4, 4, 4, 4, 8, 4, 4]
  const LDR_MAGIC := 1
  const LDR_CKSUM := 2
  const LDR_SIZE := 3
  const LDR_HDR_SIZE := 32
  const LDR_CKSUM_END := 12

  const FIP_MAGIC: Bytes := [0x43, 0x56, 0x42, 0x4c, 0x30, 0x31, 0x0a, 0x00]      // CVBL01
  const PARAM2_MAGIC: Bytes := [0x43, 0x56, 0x4c, 0x44, 0x30, 0x32, 0x0a, 0x00]   // CVLD02
  const MAGIC_ORIG: Bytes := [0x42, 0x4c, 0x33, 0x33]                             // BL33
  const MAGIC_LZMA: Bytes := [0x42, 0x33, 0x4d, 0x41]                             // B3MA
  const MAGIC_LZ4: Bytes := [0x42, 0x33, 0x5a, 0x34]                              // B3Z4

  /** The checksum and the compressors, which stay uninterpreted. */
  datatype Env = Env(crc: Bytes -> u16, lzma: Bytes -> Bytes, lz4: Bytes -> Bytes)

  datatype Algo = NoAlgo | Lzma | Lz4 | Unsupported

  /** Run addresses given on the command line. */
  datatype Args = Args(blcp2nd: Option<nat>, monitor: Option<nat>)

  /** The parameter entries and the bodies. */
  datatype Contents = Contents(
    param1: seq<Bytes>, blcp: Bytes, bl2: Bytes,
    param2: seq<Bytes>, ddr: Bytes, blcp2nd: Bytes, monitor: Bytes, loader: Bytes)

  predicate Shaped(c: Contents) {
    Sized(PARAM1, c.param1) && Sized(PARAM2, c.param2)
  }

  function ImageCrc(env: Env, b: Bytes): (crc: Bytes)
    ensures |crc| == 4
  {
    [env.crc(b) % 256, env.crc(b) / 256, 0xFE, 0xCA]
  }

  predicate Aligned(n: nat) { n % IMAGE_ALIGN == 0 }

  function Pad(b: Bytes): (p: Bytes)
    ensures Aligned(|p|) && b <= p && |p| < |b| + IMAGE_ALIGN
    ensures Aligned(|b|) ==> p == b
  {
    b + Zero((-|b|) % IMAGE_ALIGN)
  }

  // ----- Where things are ----------------------------------------------------

  function Load2(c: Contents): nat { PARAM_SIZE + |c.blcp| + |c.bl2| }
  function DdrAt(c: Contents): nat { Load2(c) + PARAM_SIZE }
  function Blcp2ndAt(c: Contents): nat { DdrAt(c) + |c.ddr| }
  function MonitorAt(c: Contents): nat { Blcp2ndAt(c) + |c.blcp2nd| }
  function LoaderAt(c: Contents): nat { MonitorAt(c) + |c.monitor| }
  function ImageSize(c: Contents): nat { LoaderAt(c) + |c.loader| }

  /** A package in the order it is stored: both parameter blocks, each followed by its bodies. */
  function Parts(c: Contents): seq<Bytes> {
    [JoinAll(c.param1), c.blcp, c.bl2, JoinAll(c.param2), c.ddr, c.blcp2nd, c.monitor, c.loader]
  }

  function Starts(c: Contents): seq<nat> {
    [0, PARAM_SIZE, PARAM_SIZE + |c.blcp|, Load2(c), DdrAt(c), Blcp2ndAt(c), MonitorAt(c), LoaderAt(c), ImageSize(c)]
  }

  function Image(c: Contents): Bytes { JoinAll(Parts(c)) }

  lemma Offsets()
    ensures Offset(PARAM1, MAGIC1) == 0 && Offset(PARAM1, PARAM_CKSUM) == 12 && Offset(PARAM1, NAND_INFO) == NAND_INFO_AT
    ensures Offset(PARAM1, BL2_IMG_SIZE) + 4 == BL2_IMG_SIZE_END && Offset(PARAM1, BL_PK_SIG) == PARAM1_SIZE_WO_SIG
    ensures Offset(PARAM1, PARAM2_LOADADDR) == 224
    ensures Offset(PARAM1, |PARAM1|) == PARAM_SIZE
    ensures Offset(PARAM2, MAGIC1) == 0 && Offset(PARAM2, PARAM2_CKSUM) == 8 && Offset(PARAM2, |PARAM2|) == PARAM_SIZE
    ensures Offset(LDR_2ND_HDR, LDR_MAGIC) == 4 && Offset(LDR_2ND_HDR, LDR_CKSUM) == 8
    ensures Offset(LDR_2ND_HDR, LDR_SIZE) == 12 && Offset(LDR_2ND_HDR, |LDR_2ND_HDR|) == LDR_HDR_SIZE
  {
    assert Offset(PARAM1, 4) == 144;
    assert Offset(PARAM1, 8) == 196;
    assert Offset(PARAM1, 12) == 212;
    assert Offset(PARAM1, 16) == 228;
    assert Offset(PARAM1, 20) == 1536;
    assert Offset(PARAM1, 23) == 3072;
    assert Offset(PARAM2, 4) == 20;
    assert Offset(PARAM2, 8) == 36;
    assert Offset(PARAM2, 12) == 52;
    assert Offset(PARAM2, 16) == 68;
    assert Offset(PARAM2, 19) == 80;
    assert Offset(LDR_2ND_HDR, 4) == 16;
  }

  // ----- Integers in entries -------------------------------------------------

  function Le(n: nat): (b: Bytes)
    requires n < TWO_32
    ensures |b| == 4
  {
    WordBytes(n)
  }

  function Int(b: Bytes): (n: nat)
    requires |b| == 4
    ensures n < TWO_32
  {
    BytesWord(b)
  }

  lemma IntLe(n: nat)
    requires n < TWO_32
    ensures Int(Le(n)) == n
  {
    var q1, q2 := n / 256, n / 65536;
    assert q2 == q1 / 256 && n / 16777216 == q2 / 256;
  }

  lemma LeInt(b: Bytes)
    requires |b| == 4
    ensures Le(Int(b)) == b
  {
    var n := Int(b);
    assert n / 256 == b[1] as int + 256 * (b[2] as int) + 65536 * (b[3] as int);
    assert n / 65536 == b[2] as int + 256 * (b[3] as int);
    assert n / 16777216 == b[3];
  }

  // ----- What make leaves in the entries ---------------------------------------

  function Checked1(env: Env, p: seq<Bytes>): (q: seq<Bytes>)
    requires Sized(PARAM1, p)
    ensures Sized(PARAM1, q)
  {
    p[PARAM_CKSUM := ImageCrc(env, Slice(JoinAll(p), NAND_INFO_AT, PARAM1_SIZE_WO_SIG - NAND_INFO_AT))]
  }

  function Checked2(env: Env, p: seq<Bytes>): (q: seq<Bytes>)
    requires Sized(PARAM2, p)
    ensures Sized(PARAM2, q)
  {
    p[PARAM2_CKSUM := ImageCrc(env, Slice(JoinAll(p), PARAM2_CKSUM_END, PARAM_SIZE - PARAM2_CKSUM_END))]
  }

  function Described(env: Env, c: Contents): (p: seq<Bytes>)
    requires Shaped(c) && |c.blcp| < TWO_32 && |c.bl2| < TWO_32
    ensures Sized(PARAM1, p)
  {
    c.param1[CHIP_CONF_SIZE := Le(|c.param1[CHIP_CONF]|)]
      [BLCP_IMG_CKSUM := ImageCrc(env, c.blcp)][BLCP_IMG_SIZE := Le(|c.blcp|)]
      [BL2_IMG_CKSUM := ImageCrc(env, c.bl2)][BL2_IMG_SIZE := Le(|c.bl2|)]
  }

  function SealHeader(env: Env, h: seq<Bytes>, body: Bytes): (image: Bytes)
    requires Sized(LDR_2ND_HDR, h)
  {
    var covered := JoinAll(h) + body;
    JoinAll(h[LDR_CKSUM := ImageCrc(env, Slice(covered, LDR_CKSUM_END, |covered|))]) + body
  }

  predicate KnownMagic(magic: Bytes) { magic == MAGIC_ORIG || magic == MAGIC_LZMA || magic == MAGIC_LZ4 }

  predicate Compresses(h: seq<Bytes>, algo: Algo)
    requires Sized(LDR_2ND_HDR, h)
  {
    h[LDR_MAGIC] == MAGIC_ORIG && algo != NoAlgo
  }

  /** The loader with its body compressed if asked for, before the header is brought up to date. */
  function LoaderImage(env: Env, content: Bytes, algo: Algo): (image: Bytes)
    requires content != []
    ensures Aligned(|image|) && |image| >= IMAGE_ALIGN
  {
    var h := Parse(LDR_2ND_HDR, content);
    var body := Slice(content, LDR_HDR_SIZE, |content|);
    Pad(Slice(content, 0, LDR_HDR_SIZE) +
        (if !Compresses(h, algo) then body else if algo == Lzma then env.lzma(body) else env.lz4(body)))
  }

  predicate LoaderSealable(env: Env, content: Bytes, algo: Algo)
    requires content != []
  {
    var h := Parse(LDR_2ND_HDR, content);
    KnownMagic(h[LDR_MAGIC]) && !(Compresses(h, algo) && algo == Unsupported) && |LoaderImage(env, content, algo)| < TWO_32
  }

  function SealLoader(env: Env, content: Bytes, algo: Algo): (image: Bytes)
    requires content != [] && LoaderSealable(env, content, algo)
  {
    var h := Parse(LDR_2ND_HDR, content);
    var image := LoaderImage(env, content, algo);
    var magic := if !Compresses(h, algo) then h[LDR_MAGIC] else if algo == Lzma then MAGIC_LZMA else MAGIC_LZ4;
    SealHeader(env, h[LDR_MAGIC := magic][LDR_SIZE := Le(|image|)], image[LDR_HDR_SIZE..])
  }

  function Packed(env: Env, c: Contents, algo: Algo): (k: Contents)
    requires c.loader == [] || LoaderSealable(env, c.loader, algo)
  {
    c.(ddr := Pad(c.ddr), blcp2nd := Pad(c.blcp2nd), monitor := Pad(c.monitor),
       loader := if c.loader == [] then [] else SealLoader(env, c.loader, algo))
  }

  function Entered(env: Env, p: seq<Bytes>, base: nat, at: nat, body: Bytes): (q: seq<Bytes>)
    requires Sized(PARAM2, p) && base in {DDR_PARAM, BLCP_2ND, MONITOR} && at < TWO_32 && |body| < TWO_32
    ensures Sized(PARAM2, q)
  {
    p[base := ImageCrc(env, body)][base + LOADADDR := Le(at)][base + SIZE := Le(|body|)]
  }

  /** A run address already in the package wins over the one given. */
  function RunAddr(p: seq<Bytes>, base: nat, given: Option<nat>): Option<nat>
    requires Sized(PARAM2, p) && base in {BLCP_2ND, MONITOR}
  {
    if Int(p[base + RUNADDR]) != 0 then Some(Int(p[base + RUNADDR])) else given
  }

  predicate Runnable(p: seq<Bytes>, base: nat, given: Option<nat>)
    requires Sized(PARAM2, p) && base in {BLCP_2ND, MONITOR}
  {
    RunAddr(p, base, given).Some? && RunAddr(p, base, given).value < TWO_32
  }

  function EnteredRun(env: Env, p: seq<Bytes>, base: nat, at: nat, body: Bytes, run: nat): (q: seq<Bytes>)
    requires Sized(PARAM2, p) && base in {BLCP_2ND, MONITOR} && at < TWO_32 && |body| < TWO_32 && run < TWO_32
    ensures Sized(PARAM2, q)
  {
    Entered(env, p, base, at, body)[base + RUNADDR := Le(run)]
  }

  predicate FitsDdr(k: Contents) { DdrAt(k) < TWO_32 && |k.ddr| < TWO_32 }

  predicate FitsBlcp2nd(k: Contents, args: Args)
    requires Shaped(k)
  {
    k.blcp2nd != [] ==> Blcp2ndAt(k) < TWO_32 && |k.blcp2nd| < TWO_32 && Runnable(k.param2, BLCP_2ND, args.blcp2nd)
  }

  predicate FitsMonitor(k: Contents, args: Args)
    requires Shaped(k)
  {
    k.monitor != [] ==> MonitorAt(k) < TWO_32 && |k.monitor| < TWO_32 && Runnable(k.param2, MONITOR, args.monitor)
  }

  /** Every address and length fits its entry, and every run address needed is known. */
  predicate Fits(k: Contents, args: Args)
    requires Shaped(k)
  {
    && FitsDdr(k) && FitsBlcp2nd(k, args) && FitsMonitor(k, args)
    && (k.loader != [] ==> LoaderAt(k) < TWO_32)
  }

  function LinkedDdr(env: Env, k: Contents): (p: seq<Bytes>)
    requires Shaped(k) && FitsDdr(k)
    ensures Sized(PARAM2, p)
  {
    Entered(env, k.param2, DDR_PARAM, DdrAt(k), k.ddr)
  }

  function LinkedBlcp2nd(env: Env, k: Contents, args: Args): (p: seq<Bytes>)
    requires Shaped(k) && FitsDdr(k) && FitsBlcp2nd(k, args)
    ensures Sized(PARAM2, p)
  {
    var p := LinkedDdr(env, k);
    if k.blcp2nd == [] then p
    else EnteredRun(env, p, BLCP_2ND, Blcp2ndAt(k), k.blcp2nd, RunAddr(k.param2, BLCP_2ND, args.blcp2nd).value)
  }

  function LinkedMonitor(env: Env, k: Contents, args: Args): (p: seq<Bytes>)
    requires Shaped(k) && FitsDdr(k) && FitsBlcp2nd(k, args) && FitsMonitor(k, args)
    ensures Sized(PARAM2, p)
  {
    var p := LinkedBlcp2nd(env, k, args);
    if k.monitor == [] then p
    else EnteredRun(env, p, MONITOR, MonitorAt(k), k.monitor, RunAddr(k.param2, MONITOR, args.monitor).value)
  }

  /** The second parameter block once every packed body has been entered. */
  function Linked(env: Env, k: Contents, args: Args): (p: seq<Bytes>)
    requires Shaped(k) && Fits(k, args)
    ensures Sized(PARAM2, p)
  {
    var p := LinkedMonitor(env, k, args);
    if k.loader == [] then p else p[LOADER_2ND_LOADADDR := Le(LoaderAt(k))]
  }

  predicate Buildable(env: Env, c: Contents, args: Args, algo: Algo) {
    && Shaped(c) && Aligned(|c.blcp|) && Aligned(|c.bl2|)
    && (c.loader == [] || LoaderSealable(env, c.loader, algo))
    && Fits(Packed(env, c, algo), args)
  }

  function Sealed1(env: Env, c: Contents): (p: seq<Bytes>)
    requires Shaped(c) && Load2(c) < TWO_32
    ensures Sized(PARAM1, p)
  {
    Checked1(env, Described(env, c)[PARAM2_LOADADDR := Le(Load2(c))])
  }

  /** The entries and bodies after make has built a package with DDR parameters. */
  function Seal(env: Env, c: Contents, args: Args, algo: Algo): Contents
    requires Buildable(env, c, args, algo)
  {
    var k := Packed(env, c, algo);
    k.(param1 := Sealed1(env, c), param2 := Checked2(env, Linked(env, k, args)))
  }

  // ----- What a package promises its reader --------------------------------------

  /** The entries for one body: its checksum, where it is and how long it is. */
  predicate Describes(env: Env, p: seq<Bytes>, base: nat, at: nat, body: Bytes)
    requires Sized(PARAM2, p) && base in {DDR_PARAM, BLCP_2ND, MONITOR}
  {
    if body == [] then Int(p[base + SIZE]) == 0
    else p[base] == ImageCrc(env, body) && Int(p[base + LOADADDR]) == at && Int(p[base + SIZE]) == |body|
  }

  predicate LoaderOk(env: Env, image: Bytes) {
    var h := Parse(LDR_2ND_HDR, image);
    && |image| >= LDR_HDR_SIZE && Aligned(|image|)
    && KnownMagic(h[LDR_MAGIC]) && Int(h[LDR_SIZE]) == |image|
    && h[LDR_CKSUM] == ImageCrc(env, image[LDR_CKSUM_END..])
  }

  predicate Consistent1(env: Env, c: Contents)
    requires Sized(PARAM1, c.param1)
  {
    && c.param1[MAGIC1] == FIP_MAGIC
    && Aligned(|c.blcp|) && Aligned(|c.bl2|)
    && Int(c.param1[CHIP_CONF_SIZE]) == |c.param1[CHIP_CONF]|
    && c.param1[BLCP_IMG_CKSUM] == ImageCrc(env, c.blcp) && Int(c.param1[BLCP_IMG_SIZE]) == |c.blcp|
    && c.param1[BL2_IMG_CKSUM] == ImageCrc(env, c.bl2) && Int(c.param1[BL2_IMG_SIZE]) == |c.bl2|
    && Int(c.param1[PARAM2_LOADADDR]) == Load2(c)
    && c.param1[PARAM_CKSUM] == ImageCrc(env, Slice(JoinAll(c.param1), NAND_INFO_AT, PARAM1_SIZE_WO_SIG - NAND_INFO_AT))
  }

  predicate Consistent2(env: Env, c: Contents)
    requires Sized(PARAM2, c.param2)
  {
    && c.ddr != [] && Aligned(|c.ddr|) && Aligned(|c.blcp2nd|) && Aligned(|c.monitor|)
    && Describes(env, c.param2, DDR_PARAM, DdrAt(c), c.ddr)
    && Describes(env, c.param2, BLCP_2ND, Blcp2ndAt(c), c.blcp2nd)
    && Describes(env, c.param2, MONITOR, MonitorAt(c), c.monitor)
    && (if c.loader == [] then Int(c.param2[LOADER_2ND_LOADADDR]) == 0
        else Int(c.param2[LOADER_2ND_LOADADDR]) == LoaderAt(c) && LoaderOk(env, c.loader))
    && c.param2[PARAM2_CKSUM] == ImageCrc(env, Slice(JoinAll(c.param2), PARAM2_CKSUM_END, PARAM_SIZE - PARAM2_CKSUM_END))
  }

  predicate Consistent(env: Env, c: Contents) {
    Shaped(c) && Consistent1(env, c) && Consistent2(env, c)
  }

  /** Nothing left over from another package: a body that is absent has no length or address. */
  predicate Clean(c: Contents) {
    && Shaped(c) && c.param1[MAGIC1] == FIP_MAGIC
    && (c.blcp2nd == [] ==> Int(c.param2[BLCP_2ND + SIZE]) == 0)
    && (c.monitor == [] ==> Int(c.param2[MONITOR + SIZE]) == 0)
    && (c.loader == [] ==> Int(c.param2[LOADER_2ND_LOADADDR]) == 0)
  }

  // ----- Building yields a consistent package ----------------------------------

  /** The bytes a checksum covers do not include its own entry. */
  lemma CksumOutside(sizes: seq<nat>, p: seq<Bytes>, i: nat, v: Bytes, lo: nat, len: nat)
    requires Sized(sizes, p) && i < |p| && |v| == sizes[i]
    requires Offset(sizes, i) + sizes[i] <= lo && lo + len <= Offset(sizes, |p|)
    ensures Slice(JoinAll(p[i := v]), lo, len) == Slice(JoinAll(p), lo, len)
  {
    hide Offset, Join;
    JoinUpdate(sizes, p, i, v, |p|);
    SpliceTail(JoinAll(p), JoinAll(p[i := v]), Offset(sizes, i), v, lo, len);
  }

  lemma SpliceTail(a: Bytes, b: Bytes, at: nat, v: Bytes, lo: nat, len: nat)
    requires at + |v| <= lo && lo + len <= |a| && b == a[..at] + v + a[at + |v|..]
    ensures b[lo..lo + len] == a[lo..lo + len]
  {
    assert forall j :: lo <= j < lo + len ==> b[j] == a[j];
  }

  lemma Sealed1Consistent(env: Env, c: Contents)
    requires Shaped(c) && Load2(c) < TWO_32 && Aligned(|c.blcp|) && Aligned(|c.bl2|)
    requires c.param1[MAGIC1] == FIP_MAGIC
    ensures Consistent1(env, c.(param1 := Sealed1(env, c)))
  {
    hide Join, Le, Int, Slice, ImageCrc, Offset;
    IntLe(|c.param1[CHIP_CONF]|);
    IntLe(|c.blcp|);
    IntLe(|c.bl2|);
    IntLe(Load2(c));
    Offsets();
    var p := Described(env, c)[PARAM2_LOADADDR := Le(Load2(c))];
    var v := ImageCrc(env, Slice(JoinAll(p), NAND_INFO_AT, PARAM1_SIZE_WO_SIG - NAND_INFO_AT));
    CksumOutside(PARAM1, p, PARAM_CKSUM, v, NAND_INFO_AT, PARAM1_SIZE_WO_SIG - NAND_INFO_AT);
  }

  lemma SealHeaderOk(env: Env, h: seq<Bytes>, body: Bytes)
    requires Sized(LDR_2ND_HDR, h)
    ensures var image := SealHeader(env, h, body);
            && |image| == LDR_HDR_SIZE + |body|
            && Parse(LDR_2ND_HDR, image) == h[LDR_CKSUM := ImageCrc(env, image[LDR_CKSUM_END..])]
  {
    hide Join, Offset, ImageCrc, Parse;
    Offsets();
    JoinLength(LDR_2ND_HDR, h, |h|);
    var covered := JoinAll(h) + body;
    var v := ImageCrc(env, Slice(covered, LDR_CKSUM_END, |covered|));
    var g := h[LDR_CKSUM := v];
    JoinUpdate(LDR_2ND_HDR, h, LDR_CKSUM, v, |h|);
    ParseJoin(LDR_2ND_HDR, g, body);
    var image := SealHeader(env, h, body);
    assert JoinAll(g)[LDR_CKSUM_END..] == JoinAll(h)[LDR_CKSUM_END..];
    assert image[LDR_CKSUM_END..] == JoinAll(g)[LDR_CKSUM_END..] + body == covered[LDR_CKSUM_END..];
  }

  lemma SealLoaderOk(env: Env, content: Bytes, algo: Algo)
    requires content != [] && LoaderSealable(env, content, algo)
    ensures LoaderOk(env, SealLoader(env, content, algo))
    ensures |SealLoader(env, content, algo)| == |LoaderImage(env, content, algo)|
  {
    hide Join, Offset, ImageCrc, Parse, LoaderImage, Le, Int;
    var h := Parse(LDR_2ND_HDR, content);
    var image := LoaderImage(env, content, algo);
    var magic := if !Compresses(h, algo) then h[LDR_MAGIC] else if algo == Lzma then MAGIC_LZMA else MAGIC_LZ4;
    SealHeaderOk(env, h[LDR_MAGIC := magic][LDR_SIZE := Le(|image|)], image[LDR_HDR_SIZE..]);
    IntLe(|image|);
  }

  /** A loader that is in order already is left alone, compressed or not. */
  lemma SealLoaderStands(env: Env, image: Bytes)
    requires LoaderOk(env, image)
    ensures image != [] && LoaderSealable(env, image, NoAlgo) && SealLoader(env, image, NoAlgo) == image
  {
    hide Join, Offset, ImageCrc, Le, Int;
    Offsets();
    var h := Parse(LDR_2ND_HDR, image);
    JoinParse(LDR_2ND_HDR, image, |LDR_2ND_HDR|);
    hide Parse;
    assert Slice(image, 0, LDR_HDR_SIZE) + Slice(image, LDR_HDR_SIZE, |image|) == image;
    assert LoaderImage(env, image, NoAlgo) == image;
    LeInt(h[LDR_SIZE]);
    var body := image[LDR_HDR_SIZE..];
    assert h[LDR_MAGIC := h[LDR_MAGIC]][LDR_SIZE := Le(|image|)] == h;
    assert JoinAll(h) + body == image;
    assert h[LDR_CKSUM := ImageCrc(env, image[LDR_CKSUM_END..])] == h;
    assert Slice(image, LDR_CKSUM_END, |image|) == image[LDR_CKSUM_END..];
  }

  lemma LinkedDescribes(env: Env, k: Contents, args: Args)
    requires Shaped(k) && Fits(k, args) && k.ddr != []
    requires k.blcp2nd == [] ==> Int(k.param2[BLCP_2ND + SIZE]) == 0
    requires k.monitor == [] ==> Int(k.param2[MONITOR + SIZE]) == 0
    requires k.loader == [] ==> Int(k.param2[LOADER_2ND_LOADADDR]) == 0
    ensures var p := Linked(env, k, args);
            && Describes(env, p, DDR_PARAM, DdrAt(k), k.ddr)
            && Describes(env, p, BLCP_2ND, Blcp2ndAt(k), k.blcp2nd)
            && Describes(env, p, MONITOR, MonitorAt(k), k.monitor)
            && Int(p[LOADER_2ND_LOADADDR]) == (if k.loader == [] then 0 else LoaderAt(k))
    ensures var p := Linked(env, k, args);
            && (k.blcp2nd != [] ==> Int(p[BLCP_2ND + RUNADDR]) == RunAddr(k.param2, BLCP_2ND, args.blcp2nd).value)
            && (k.monitor != [] ==> Int(p[MONITOR + RUNADDR]) == RunAddr(k.param2, MONITOR, args.monitor).value)
  {
    hide ImageCrc, Le, Int, Describes, EnteredRun, Entered;
    var p1 := LinkedDdr(env, k);
    EnteredDescribes(env, k.param2, DDR_PARAM, DdrAt(k), k.ddr);
    var p2 := LinkedBlcp2nd(env, k, args);
    if k.blcp2nd != [] {
      EnteredRunDescribes(env, p1, BLCP_2ND, Blcp2ndAt(k), k.blcp2nd, RunAddr(k.param2, BLCP_2ND, args.blcp2nd).value);
    }
    SameEntries(env, p1, p2, DDR_PARAM, DdrAt(k), k.ddr);
    Absent(env, p2, BLCP_2ND, Blcp2ndAt(k), k.blcp2nd);
    var p3 := LinkedMonitor(env, k, args);
    if k.monitor != [] {
      EnteredRunDescribes(env, p2, MONITOR, MonitorAt(k), k.monitor, RunAddr(k.param2, MONITOR, args.monitor).value);
    }
    SameEntries(env, p2, p3, DDR_PARAM, DdrAt(k), k.ddr);
    SameEntries(env, p2, p3, BLCP_2ND, Blcp2ndAt(k), k.blcp2nd);
    Absent(env, p3, MONITOR, MonitorAt(k), k.monitor);
    if k.loader != [] {
      IntLe(LoaderAt(k));
    }
    var p := Linked(env, k, args);
    SameEntries(env, p3, p, DDR_PARAM, DdrAt(k), k.ddr);
    SameEntries(env, p3, p, BLCP_2ND, Blcp2ndAt(k), k.blcp2nd);
    SameEntries(env, p3, p, MONITOR, MonitorAt(k), k.monitor);
  }

  lemma EnteredDescribes(env: Env, p: seq<Bytes>, base: nat, at: nat, body: Bytes)
    requires Sized(PARAM2, p) && base in {DDR_PARAM, BLCP_2ND, MONITOR} && at < TWO_32 && |body| < TWO_32 && body != []
    ensures var q := Entered(env, p, base, at, body);
            Describes(env, q, base, at, body) && forall i :: 0 <= i < |p| && !(base <= i < base + 3) ==> q[i] == p[i]
  {
    hide ImageCrc, Le, Int;
    IntLe(at);
    IntLe(|body|);
  }

  lemma EnteredRunDescribes(env: Env, p: seq<Bytes>, base: nat, at: nat, body: Bytes, run: nat)
    requires Sized(PARAM2, p) && base in {BLCP_2ND, MONITOR} && at < TWO_32 && |body| < TWO_32 && run < TWO_32
    requires body != []
    ensures var q := EnteredRun(env, p, base, at, body, run);
            && Describes(env, q, base, at, body) && Int(q[base + RUNADDR]) == run
            && forall i :: 0 <= i < |p| && !(base <= i < base + 4) ==> q[i] == p[i]
  {
    hide ImageCrc, Le, Int;
    EnteredDescribes(env, p, base, at, body);
    IntLe(run);
  }

  lemma SameEntries(env: Env, p: seq<Bytes>, q: seq<Bytes>, base: nat, at: nat, body: Bytes)
    requires Sized(PARAM2, p) && Sized(PARAM2, q) && base in {DDR_PARAM, BLCP_2ND, MONITOR}
    requires q[base..base + 3] == p[base..base + 3] && Describes(env, p, base, at, body)
    ensures Describes(env, q, base, at, body)
  {
    hide ImageCrc, Int;
    assert forall i :: base <= i < base + 3 ==> q[i] == q[base..base + 3][i - base] == p[i];
  }

  lemma Absent(env: Env, p: seq<Bytes>, base: nat, at: nat, body: Bytes)
    requires Sized(PARAM2, p) && base in {DDR_PARAM, BLCP_2ND, MONITOR}
    requires if body == [] then Int(p[base + SIZE]) == 0 else Describes(env, p, base, at, body)
    ensures Describes(env, p, base, at, body)
  {
  }

  lemma CheckedDescribes(env: Env, p: seq<Bytes>)
    requires Sized(PARAM2, p)
    ensures var q := Checked2(env, p);
            && q[PARAM2_CKSUM] == ImageCrc(env, Slice(JoinAll(q), PARAM2_CKSUM_END, PARAM_SIZE - PARAM2_CKSUM_END))
            && q == p[PARAM2_CKSUM := q[PARAM2_CKSUM]]
  {
    hide Join, Offset, Slice;
    Offsets();
    var v := ImageCrc(env, Slice(JoinAll(p), PARAM2_CKSUM_END, PARAM_SIZE - PARAM2_CKSUM_END));
    CksumOutside(PARAM2, p, PARAM2_CKSUM, v, PARAM2_CKSUM_END, PARAM_SIZE - PARAM2_CKSUM_END);
  }

  predicate RunAddrsStand(c: Contents, args: Args)
    requires Shaped(c)
  {
    && (c.blcp2nd != [] ==> RunAddr(c.param2, BLCP_2ND, args.blcp2nd) == Some(Int(c.param2[BLCP_2ND + RUNADDR])))
    && (c.monitor != [] ==> RunAddr(c.param2, MONITOR, args.monitor) == Some(Int(c.param2[MONITOR + RUNADDR])))
  }

  lemma Sealed2Consistent(env: Env, k: Contents, args: Args)
    requires Shaped(k) && Fits(k, args) && k.ddr != []
    requires Aligned(|k.ddr|) && Aligned(|k.blcp2nd|) && Aligned(|k.monitor|)
    requires k.blcp2nd == [] ==> Int(k.param2[BLCP_2ND + SIZE]) == 0
    requires k.monitor == [] ==> Int(k.param2[MONITOR + SIZE]) == 0
    requires if k.loader == [] then Int(k.param2[LOADER_2ND_LOADADDR]) == 0 else LoaderOk(env, k.loader)
    ensures Consistent2(env, k.(param2 := Checked2(env, Linked(env, k, args))))
    ensures RunAddrsStand(k.(param2 := Checked2(env, Linked(env, k, args))), args)
  {
    hide Join, Offset, Slice, ImageCrc, Le, Int, Describes, LoaderOk;
    LinkedDescribes(env, k, args);
    var p := Linked(env, k, args);
    hide Linked;
    CheckedDescribes(env, p);
    var q := Checked2(env, p);
    hide Checked2;
    SameEntries(env, p, q, DDR_PARAM, DdrAt(k), k.ddr);
    SameEntries(env, p, q, BLCP_2ND, Blcp2ndAt(k), k.blcp2nd);
    SameEntries(env, p, q, MONITOR, MonitorAt(k), k.monitor);
  }

  /** Whatever make is given, the package it builds keeps every promise. */
  lemma SealConsistent(env: Env, c: Contents, args: Args, algo: Algo)
    requires Buildable(env, c, args, algo) && Clean(c) && c.ddr != []
    ensures Consistent(env, Seal(env, c, args, algo))
    ensures RunAddrsStand(Seal(env, c, args, algo), args)
  {
    hide Sealed1, Linked, Checked2, LoaderSealable, SealLoader, Fits, Aligned, Describes, RunAddrsStand;
    var k := Packed(env, c, algo);
    if c.loader != [] {
      SealLoaderOk(env, c.loader, algo);
    }
    hide LoaderOk;
    Load2Fits(k, args);
    Sealed1Consistent(env, c);
    Sealed2Consistent(env, k, args);
    var r := k.(param2 := Checked2(env, Linked(env, k, args)));
    Consistent1Of(env, c.(param1 := Sealed1(env, c)), Seal(env, c, args, algo));
    Consistent2Of(env, r, Seal(env, c, args, algo), args);
  }

  lemma Load2Fits(k: Contents, args: Args)
    requires Shaped(k) && Fits(k, args)
    ensures Load2(k) < TWO_32
  {
  }

  lemma Consistent1Of(env: Env, c: Contents, d: Contents)
    requires Shaped(c) && Shaped(d) && c.param1 == d.param1 && c.blcp == d.blcp && c.bl2 == d.bl2 && Consistent1(env, c)
    ensures Consistent1(env, d)
  {
    hide Join, Offset, Slice, ImageCrc, Int;
  }

  lemma Consistent2Of(env: Env, c: Contents, d: Contents, args: Args)
    requires Shaped(c) && Shaped(d) && d == c.(param1 := d.param1) && Consistent2(env, c)
    ensures Consistent2(env, d)
    ensures RunAddrsStand(c, args) ==> RunAddrsStand(d, args)
  {
    hide Join, Offset, Slice, ImageCrc, Int, Describes, LoaderOk;
  }

  lemma Sealed1Stands(env: Env, c: Contents)
    requires Shaped(c) && Consistent1(env, c)
    ensures Load2(c) < TWO_32 && Sealed1(env, c) == c.param1
  {
    hide Join, Offset, Slice, ImageCrc, Le, Int, Aligned;
    LeInt(c.param1[CHIP_CONF_SIZE]);
    LeInt(c.param1[BLCP_IMG_SIZE]);
    LeInt(c.param1[BL2_IMG_SIZE]);
    LeInt(c.param1[PARAM2_LOADADDR]);
    assert Described(env, c) == c.param1;
    assert Described(env, c)[PARAM2_LOADADDR := Le(Load2(c))] == c.param1;
    assert Checked1(env, c.param1) == c.param1;
  }

  lemma PackedStands(env: Env, c: Contents)
    requires Shaped(c) && Consistent2(env, c)
    ensures c.loader == [] || LoaderSealable(env, c.loader, NoAlgo)
    ensures Packed(env, c, NoAlgo) == c
  {
    if c.loader != [] {
      SealLoaderStands(env, c.loader);
    }
    hide Join, Offset, Slice, ImageCrc, Le, Int, LoaderOk, SealLoader, LoaderSealable, Aligned, Describes;
  }

  lemma Checked2Stands(env: Env, c: Contents)
    requires Shaped(c) && Consistent2(env, c)
    ensures Checked2(env, c.param2) == c.param2
  {
    hide Join, Offset, Slice, ImageCrc, Le, Int, LoaderOk, Aligned, Describes;
  }

  /** A consistent package is built again exactly as it is. */
  lemma SealStands(env: Env, c: Contents, args: Args)
    requires Consistent(env, c) && RunAddrsStand(c, args)
    ensures Buildable(env, c, args, NoAlgo) && Seal(env, c, args, NoAlgo) == c
  {
    PackedStands(env, c);
    Sealed1Stands(env, c);
    LinkedStands(env, c, args);
    Checked2Stands(env, c);
    hide Packed, Sealed1, Linked, Checked2, LoaderSealable, Fits, Consistent2, RunAddrsStand;
    assert Seal(env, c, args, NoAlgo) == c.(param1 := c.param1, param2 := c.param2);
  }

  lemma EnteredStands(env: Env, p: seq<Bytes>, base: nat, at: nat, body: Bytes)
    requires Sized(PARAM2, p) && base in {DDR_PARAM, BLCP_2ND, MONITOR}
    requires body != [] && Describes(env, p, base, at, body)
    ensures at < TWO_32 && |body| < TWO_32 && Entered(env, p, base, at, body) == p
  {
    hide ImageCrc, Le, Int;
    LeInt(p[base + LOADADDR]);
    LeInt(p[base + SIZE]);
  }

  lemma LinkedStands(env: Env, c: Contents, args: Args)
    requires Consistent(env, c) && RunAddrsStand(c, args)
    ensures Fits(c, args) && Linked(env, c, args) == c.param2
  {
    hide Join, Offset, Slice, ImageCrc, Le, Int, LoaderOk, Entered, Aligned;
    EnteredStands(env, c.param2, DDR_PARAM, DdrAt(c), c.ddr);
    if c.blcp2nd != [] {
      EnteredStands(env, c.param2, BLCP_2ND, Blcp2ndAt(c), c.blcp2nd);
      LeInt(c.param2[BLCP_2ND + RUNADDR]);
    }
    if c.monitor != [] {
      EnteredStands(env, c.param2, MONITOR, MonitorAt(c), c.monitor);
      LeInt(c.param2[MONITOR + RUNADDR]);
    }
    LeInt(c.param2[LOADER_2ND_LOADADDR]);
    assert LinkedDdr(env, c) == c.param2;
    assert LinkedBlcp2nd(env, c, args) == c.param2;
    assert LinkedMonitor(env, c, args) == c.param2;
  }

  /** make is a fixpoint on its own output, whether or not the loader was compressed the first time. */
  lemma SealTwice(env: Env, c: Contents, args: Args, algo: Algo)
    requires Buildable(env, c, args, algo) && Clean(c) && c.ddr != []
    ensures var k := Seal(env, c, args, algo);
            Buildable(env, k, args, NoAlgo) && Seal(env, k, args, NoAlgo) == k
  {
    hide Consistent, RunAddrsStand, Buildable, Seal, Clean;
    SealConsistent(env, c, args, algo);
    SealStands(env, Seal(env, c, args, algo), args);
  }

  // ----- Reading ---------------------------------------------------------------

  function ReadBody(p: seq<Bytes>, base: nat, image: Bytes): Bytes
    requires Sized(PARAM2, p) && base in {DDR_PARAM, BLCP_2ND, MONITOR}
  {
    Slice(image, Int(p[base + LOADADDR]), Int(p[base + SIZE]))
  }

  function ReadLoader(c: Contents, p: seq<Bytes>, image: Bytes): Option<Bytes>
    requires Sized(PARAM2, p)
  {
    var at := Int(p[LOADER_2ND_LOADADDR]);
    var h := Parse(LDR_2ND_HDR, Slice(image, at, |image|));
    if at == 0 then Some(c.loader)
    else if !KnownMagic(h[LDR_MAGIC]) then None
    else Some(Slice(image, at, Int(h[LDR_SIZE])))
  }

  function Read1(c: Contents, p: seq<Bytes>, image: Bytes): Contents
    requires Sized(PARAM1, p)
  {
    var n1, n2 := Int(p[BLCP_IMG_SIZE]), Int(p[BL2_IMG_SIZE]);
    c.(param1 := p,
       blcp := if n1 == 0 then c.blcp else Slice(image, PARAM_SIZE, n1),
       bl2 := if n2 == 0 then c.bl2 else Slice(image, PARAM_SIZE + n1, n2))
  }

  function Read2(c: Contents, p: seq<Bytes>, image: Bytes): Option<Contents>
    requires Sized(PARAM2, p)
  {
    match ReadLoader(c, p, image)
    case None => None
    case Some(loader) =>
      Some(c.(param2 := p, ddr := ReadBody(p, DDR_PARAM, image), blcp2nd := ReadBody(p, BLCP_2ND, image),
              monitor := ReadBody(p, MONITOR, image), loader := loader))
  }

  function Read12(c: Contents, p: seq<Bytes>, image: Bytes): Option<Contents>
    requires Sized(PARAM1, p)
  {
    Read2(Read1(c, p, image), Parse(PARAM2, Slice(image, Int(p[PARAM2_LOADADDR]), PARAM_SIZE)), image)
  }

  /** What reading an image into a builder that holds c leaves there; None for a refused image. */
  function Read(c: Contents, image: Bytes): Option<Contents>
    requires Shaped(c)
  {
    if Slice(image, 0, 8) != c.param1[MAGIC1] || |image| < BL2_IMG_SIZE_END then None
    else Read12(c, Parse(PARAM1, image), image)
  }

  /** A builder nothing has been put into yet. */
  predicate Fresh(c: Contents) {
    && Shaped(c) && c.param1[MAGIC1] == FIP_MAGIC
    && c.blcp == [] && c.bl2 == [] && c.loader == []
  }

  function Lengths(c: Contents): seq<nat> {
    var p := Parts(c);
    [|p[0]|, |p[1]|, |p[2]|, |p[3]|, |p[4]|, |p[5]|, |p[6]|, |p[7]|]
  }

  lemma StartsAreOffsets(c: Contents, i: nat)
    requires Shaped(c) && i <= 8
    ensures Offset(Lengths(c), i) == Starts(c)[i]
  {
    Offsets();
    JoinLength(PARAM1, c.param1, |PARAM1|);
    JoinLength(PARAM2, c.param2, |PARAM2|);
    hide Join;
    var sizes := Lengths(c);
    assert Offset(sizes, 0) == Starts(c)[0];
    assert Offset(sizes, 1) == Starts(c)[1];
    assert Offset(sizes, 2) == Starts(c)[2];
    assert Offset(sizes, 3) == Starts(c)[3];
    assert Offset(sizes, 4) == Starts(c)[4];
    assert Offset(sizes, 5) == Starts(c)[5];
    assert Offset(sizes, 6) == Starts(c)[6];
    assert Offset(sizes, 7) == Starts(c)[7];
    assert Offset(sizes, 8) == Starts(c)[8];
  }

  /** Every part of a package lies at its address, in order, inside the image. */
  lemma PartAt(c: Contents, i: nat)
    requires Shaped(c) && i < 8
    ensures |Image(c)| == ImageSize(c) && Starts(c)[i] + |Parts(c)[i]| == Starts(c)[i + 1] <= ImageSize(c)
    ensures Image(c)[Starts(c)[i]..Starts(c)[i + 1]] == Parts(c)[i]
  {
    hide Join, Offset;
    StartsAreOffsets(c, i);
    StartsAreOffsets(c, i + 1);
    StartsAreOffsets(c, 8);
    JoinSlice(Lengths(c), Parts(c), i, 8);
    StartsStep(c, i);
  }

  lemma StartsStep(c: Contents, i: nat)
    requires Shaped(c) && i < 8
    ensures Starts(c)[i] + |Parts(c)[i]| == Starts(c)[i + 1] <= ImageSize(c)
  {
    Offsets();
    JoinLength(PARAM1, c.param1, |PARAM1|);
    JoinLength(PARAM2, c.param2, |PARAM2|);
    hide Join, Offset;
  }

  /** Addresses are 512-aligned. */
  lemma StartsAligned(env: Env, c: Contents, i: nat)
    requires Consistent(env, c) && i < 9
    ensures Aligned(Starts(c)[i])
  {
    hide Describes, LoaderOk, Slice, Join, Offset, ImageCrc, Int;
    assert Aligned(|c.loader|) by {
      assert c.loader != [] ==> LoaderOk(env, c.loader);
      LoaderAligned(env, c.loader);
    }
    AlignedSum(0, PARAM_SIZE);
    AlignedSum(PARAM_SIZE, |c.blcp|);
    AlignedSum(PARAM_SIZE + |c.blcp|, |c.bl2|);
    AlignedSum(Load2(c), PARAM_SIZE);
    AlignedSum(DdrAt(c), |c.ddr|);
    AlignedSum(Blcp2ndAt(c), |c.blcp2nd|);
    AlignedSum(MonitorAt(c), |c.monitor|);
    AlignedSum(LoaderAt(c), |c.loader|);
  }

  lemma AlignedSum(a: nat, b: nat)
    requires Aligned(b)
    ensures Aligned(a + b) <==> Aligned(a)
  {
  }

  lemma LoaderAligned(env: Env, image: Bytes)
    ensures image == [] || LoaderOk(env, image) ==> Aligned(|image|)
  {
  }

  /** The image gives back every entry and every body it was built from. */
  lemma ReadImage(env: Env, blank: Contents, c: Contents)
    requires Fresh(blank) && Consistent(env, c)
    ensures Read(blank, Image(c)) == Some(c)
  {
    hide Join, Offset, Int, ImageCrc, Describes, LoaderOk, ReadLoader, ReadBody, Slice;
    var image := Image(c);
    Read1Image(env, c);
    var g := Read1(blank, c.param1, image);
    Read2Image(env, g, c, image);
    hide Parse, Image, Read2;
  }

  lemma Read1Image(env: Env, c: Contents)
    requires Consistent(env, c)
    ensures var image := Image(c);
            && |image| >= BL2_IMG_SIZE_END && Slice(image, 0, 8) == c.param1[MAGIC1] && Parse(PARAM1, image) == c.param1
            && (c.blcp == [] || Slice(image, PARAM_SIZE, |c.blcp|) == c.blcp)
            && (c.bl2 == [] || Slice(image, PARAM_SIZE + |c.blcp|, |c.bl2|) == c.bl2)
            && Parse(PARAM2, Slice(image, Load2(c), PARAM_SIZE)) == c.param2
  {
    hide Join, Offset, Int, ImageCrc, Describes, LoaderOk, Parse;
    var image := Image(c);
    Offsets();
    PartAt(c, 0);
    PartAt(c, 1);
    PartAt(c, 2);
    PartAt(c, 3);
    hide Image;
    var head := JoinAll(c.param1);
    assert image == head + image[PARAM_SIZE..];
    ParseJoin(PARAM1, c.param1, image[PARAM_SIZE..]);
    ParseJoin(PARAM2, c.param2, []);
    assert JoinAll(c.param2) + [] == JoinAll(c.param2);
    JoinSlice(PARAM1, c.param1, MAGIC1, |PARAM1|);
    assert image[0..8] == head[0..8];
  }

  lemma ReadBodyAt(env: Env, p: seq<Bytes>, base: nat, at: nat, body: Bytes, image: Bytes)
    requires Sized(PARAM2, p) && base in {DDR_PARAM, BLCP_2ND, MONITOR} && Describes(env, p, base, at, body)
    requires at + |body| <= |image| && image[at..at + |body|] == body
    ensures ReadBody(p, base, image) == body
  {
    hide ImageCrc, Int;
  }

  lemma ReadLoaderAt(env: Env, g: Contents, p: seq<Bytes>, at: nat, loader: Bytes, image: Bytes)
    requires Sized(PARAM2, p) && 0 < at && at + |loader| == |image| && image[at..] == loader
    requires if loader == [] then Int(p[LOADER_2ND_LOADADDR]) == 0 && g.loader == []
             else Int(p[LOADER_2ND_LOADADDR]) == at && LoaderOk(env, loader)
    ensures ReadLoader(g, p, image) == Some(loader)
  {
    hide ImageCrc, Int, Join, Offset, Parse;
    assert Slice(image, at, |image|) == loader;
  }

  lemma Read2Image(env: Env, g: Contents, c: Contents, image: Bytes)
    requires g.loader == [] && Consistent(env, c) && image == Image(c)
    ensures Read2(g, c.param2, image) ==
            Some(g.(param2 := c.param2, ddr := c.ddr, blcp2nd := c.blcp2nd, monitor := c.monitor, loader := c.loader))
  {
    hide Join, Offset, Int, ImageCrc, Image, Describes, LoaderOk, ReadLoader, ReadBody, Slice, Aligned;
    PartAt(c, 4);
    PartAt(c, 5);
    PartAt(c, 6);
    PartAt(c, 7);
    ReadBodyAt(env, c.param2, DDR_PARAM, DdrAt(c), c.ddr, image);
    ReadBodyAt(env, c.param2, BLCP_2ND, Blcp2ndAt(c), c.blcp2nd, image);
    ReadBodyAt(env, c.param2, MONITOR, MonitorAt(c), c.monitor, image);
    ReadLoaderAt(env, g, c.param2, LoaderAt(c), c.loader, image);
  }

  predicate StoredBody(env: Env, p: seq<Bytes>, base: nat, image: Bytes)
    requires Sized(PARAM2, p) && base in {DDR_PARAM, BLCP_2ND, MONITOR}
  {
    Int(p[base + SIZE]) == 0 ||
    (Int(p[base + LOADADDR]) + Int(p[base + SIZE]) <= |image| && p[base] == ImageCrc(env, ReadBody(p, base, image)))
  }

  predicate StoredFirst(env: Env, p: seq<Bytes>, image: Bytes)
    requires Sized(PARAM1, p)
  {
    && p[PARAM_CKSUM] == ImageCrc(env, Slice(image, NAND_INFO_AT, PARAM1_SIZE_WO_SIG - NAND_INFO_AT))
    && p[BLCP_IMG_CKSUM] == ImageCrc(env, Slice(image, PARAM_SIZE, Int(p[BLCP_IMG_SIZE])))
    && p[BL2_IMG_CKSUM] == ImageCrc(env, Slice(image, PARAM_SIZE + Int(p[BLCP_IMG_SIZE]), Int(p[BL2_IMG_SIZE])))
  }

  /** The checksum of the second block, which covers the block behind its own field. */
  predicate StoredSecond(env: Env, c: Contents, image: Bytes)
    requires Shaped(c)
  {
    var at := Int(c.param1[PARAM2_LOADADDR]);
    c.param2[PARAM2_CKSUM] == ImageCrc(env, Slice(image, at + PARAM2_CKSUM_END, PARAM_SIZE - PARAM2_CKSUM_END))
  }

  /** The checksum in the header of the loader, which covers the loader behind it. */
  predicate StoredLoader(env: Env, c: Contents, image: Bytes)
    requires Shaped(c)
  {
    var at := Int(c.param2[LOADER_2ND_LOADADDR]);
    at != 0 ==> at <= |image| && HeaderOk(env, image[at..])
  }

  predicate HeaderOk(env: Env, loader: Bytes) {
    var h := Parse(LDR_2ND_HDR, loader);
    && LDR_HDR_SIZE <= Int(h[LDR_SIZE]) <= |loader|
    && h[LDR_CKSUM] == ImageCrc(env, Slice(loader, LDR_CKSUM_END, Int(h[LDR_SIZE]) - LDR_CKSUM_END))
  }

  lemma SecondStored(env: Env, c: Contents)
    requires Shaped(c) && Consistent(env, c)
    ensures StoredSecond(env, c, Image(c))
  {
    hide Join, Offset, ImageCrc, Aligned, Int, LoaderOk, Describes;
    var image, at := Image(c), Load2(c);
    PartAt(c, 3);
    hide Image;
    Offsets();
    JoinLength(PARAM2, c.param2, |PARAM2|);
    assert image[at + PARAM2_CKSUM_END..at + PARAM_SIZE] == JoinAll(c.param2)[PARAM2_CKSUM_END..PARAM_SIZE];
  }

  lemma LoaderHeaderOk(env: Env, loader: Bytes)
    requires LoaderOk(env, loader)
    ensures HeaderOk(env, loader)
  {
    hide Parse, Aligned, KnownMagic, ImageCrc;
  }

  lemma LoaderStored(env: Env, c: Contents)
    requires Shaped(c) && Consistent(env, c)
    ensures StoredLoader(env, c, Image(c))
  {
    hide Join, Offset, ImageCrc, Aligned, Int, LoaderOk, Describes, HeaderOk;
    var image := Image(c);
    PartAt(c, 7);
    hide Image;
    if c.loader != [] {
      assert image[LoaderAt(c)..] == c.loader;
      LoaderHeaderOk(env, c.loader);
    }
  }

  lemma FirstStored(env: Env, c: Contents)
    requires Shaped(c) && Consistent(env, c)
    ensures StoredFirst(env, c.param1, Image(c))
  {
    hide Join, Offset, ImageCrc, LoaderOk, Aligned, Int, Describes;
    var image := Image(c);
    PartAt(c, 0);
    PartAt(c, 1);
    PartAt(c, 2);
    hide Image;
    Offsets();
    JoinLength(PARAM1, c.param1, |PARAM1|);
    assert image[NAND_INFO_AT..PARAM1_SIZE_WO_SIG] == JoinAll(c.param1)[NAND_INFO_AT..PARAM1_SIZE_WO_SIG];
  }

  lemma BodiesStored(env: Env, c: Contents)
    requires Shaped(c) && Consistent(env, c)
    ensures StoredBody(env, c.param2, DDR_PARAM, Image(c))
    ensures StoredBody(env, c.param2, BLCP_2ND, Image(c)) && StoredBody(env, c.param2, MONITOR, Image(c))
  {
    hide Join, Offset, ImageCrc, LoaderOk, Aligned, Int;
    var image := Image(c);
    PartAt(c, 4);
    PartAt(c, 5);
    PartAt(c, 6);
    hide Image;
    ReadBodyAt(env, c.param2, DDR_PARAM, DdrAt(c), c.ddr, image);
    ReadBodyAt(env, c.param2, BLCP_2ND, Blcp2ndAt(c), c.blcp2nd, image);
    ReadBodyAt(env, c.param2, MONITOR, MonitorAt(c), c.monitor, image);
    hide Slice, ReadBody;
  }

  /** Every checksum in a package is that of the bytes stored where its entries point. */
  lemma StoredChecksums(env: Env, c: Contents)
    requires Shaped(c) && Consistent(env, c)
    ensures StoredFirst(env, c.param1, Image(c)) && StoredSecond(env, c, Image(c)) && StoredLoader(env, c, Image(c))
    ensures StoredBody(env, c.param2, DDR_PARAM, Image(c))
    ensures StoredBody(env, c.param2, BLCP_2ND, Image(c)) && StoredBody(env, c.param2, MONITOR, Image(c))
  {
    hide *;
    FirstStored(env, c);
    BodiesStored(env, c);
    SecondStored(env, c);
    LoaderStored(env, c);
  }

  // ----- Building and reading back -----------------------------------------------

  function Made1(env: Env, c: Contents): Contents
    requires Shaped(c) && |c.blcp| < TWO_32 && |c.bl2| < TWO_32
  {
    c.(param1 := Checked1(env, Described(env, c)))
  }

  /** Without DDR parameters make stops after the first block and its bodies. */
  function Image1(c: Contents): Bytes { JoinAll(c.param1) + c.blcp + c.bl2 }

  predicate Makeable(env: Env, c: Contents, args: Args, algo: Algo) {
    if c.ddr != [] then Buildable(env, c, args, algo)
    else Shaped(c) && Aligned(|c.blcp|) && Aligned(|c.bl2|) && |c.blcp| < TWO_32 && |c.bl2| < TWO_32
  }

  function Made(env: Env, c: Contents, args: Args, algo: Algo): Contents
    requires Makeable(env, c, args, algo)
  {
    if c.ddr != [] then Seal(env, c, args, algo) else Made1(env, c)
  }

  function MadeImage(env: Env, c: Contents, args: Args, algo: Algo): Bytes
    requires Makeable(env, c, args, algo)
  {
    if c.ddr != [] then Image(Made(env, c, args, algo)) else Image1(Made(env, c, args, algo))
  }

  /** Not made with DDR parameters, nor read from such a package, before. */
  predicate Unlinked(c: Contents) {
    Clean(c) && c.param2[MAGIC1] == PARAM2_MAGIC && Int(c.param1[PARAM2_LOADADDR]) == 0
  }

  /**
   * Reading what make produced recovers every entry and every body, and making
   * it again yields the same bytes, exactly when there are DDR parameters.
   */
  lemma RoundTrip(env: Env, c: Contents, args: Args, algo: Algo, blank: Contents)
    requires Makeable(env, c, args, algo) && Unlinked(c) && Fresh(blank)
    ensures Read(blank, MadeImage(env, c, args, algo)) == Some(Made(env, c, args, algo)) <==> c.ddr != []
    ensures c.ddr != [] ==>
              var k := Made(env, c, args, algo);
              Makeable(env, k, args, NoAlgo) && MadeImage(env, k, args, NoAlgo) == MadeImage(env, c, args, algo)
  {
    if c.ddr != [] {
      var k := Seal(env, c, args, algo);
      SealConsistent(env, c, args, algo);
      ReadImage(env, blank, k);
      SealTwice(env, c, args, algo);
      assert k.ddr != [];
    } else {
      ReadsHeaderAsParam2(env, c, blank);
    }
  }

  /** Without DDR parameters the reader takes the first block for the second. */
  lemma ReadsHeaderAsParam2(env: Env, c: Contents, blank: Contents)
    requires Shaped(c) && |c.blcp| < TWO_32 && |c.bl2| < TWO_32 && Shaped(blank)
    requires c.param1[MAGIC1] == FIP_MAGIC && Int(c.param1[PARAM2_LOADADDR]) == 0
    ensures var r := Read(blank, Image1(Made1(env, c)));
            r.None? || (Shaped(r.value) && r.value.param2[MAGIC1] == FIP_MAGIC != PARAM2_MAGIC)
  {
    hide Join, Offset, Int, ImageCrc, ReadLoader, ReadBody, Le;
    Offsets();
    var k := Made1(env, c);
    var image, rest := Image1(k), k.blcp + k.bl2;
    JoinLength(PARAM1, k.param1, |PARAM1|);
    assert image == JoinAll(k.param1) + rest;
    ParseJoin(PARAM1, k.param1, rest);
    FieldOfJoin(PARAM1, k.param1, rest, MAGIC1);
    var p2 := Slice(image, 0, PARAM_SIZE);
    assert p2 == JoinAll(k.param1);
    assert Slice(p2, 0, 8) == Slice(image, 0, 8);
    assert Field(PARAM2, p2, MAGIC1) == Field(PARAM1, image, MAGIC1);
  }

  // ----- For the builder that works in place --------------------------------------

  lemma ImageIs(c: Contents)
    ensures Image(c) == JoinAll(c.param1) + c.blcp + c.bl2 + JoinAll(c.param2) + c.ddr + c.blcp2nd + c.monitor + c.loader
  {
    var parts := Parts(c);
    var head := JoinAll(c.param1);
    var second := JoinAll(c.param2);
    assert Join(parts, 1) == head;
    assert Join(parts, 2) == head + c.blcp;
    assert Join(parts, 3) == head + c.blcp + c.bl2;
    assert Join(parts, 4) == head + c.blcp + c.bl2 + second;
    assert Join(parts, 5) == head + c.blcp + c.bl2 + second + c.ddr;
    assert Join(parts, 6) == head + c.blcp + c.bl2 + second + c.ddr + c.blcp2nd;
    assert Join(parts, 7) == head + c.blcp + c.bl2 + second + c.ddr + c.blcp2nd + c.monitor;
  }

  /** Updating the checksum before another entry is stored makes no difference after it is updated again. */
  lemma CheckedTwice(env: Env, p: seq<Bytes>, i: nat, v: Bytes)
    requires Sized(PARAM1, p) && i < |p| && i != PARAM_CKSUM && |v| == PARAM1[i]
    ensures Checked1(env, Checked1(env, p)[i := v]) == Checked1(env, p[i := v])
  {
    hide Join, Offset, Slice, ImageCrc;
    Offsets();
    var w := ImageCrc(env, Slice(JoinAll(p), NAND_INFO_AT, PARAM1_SIZE_WO_SIG - NAND_INFO_AT));
    assert p[PARAM_CKSUM := w][i := v] == p[i := v][PARAM_CKSUM := w];
    CksumOutside(PARAM1, p[i := v], PARAM_CKSUM, w, NAND_INFO_AT, PARAM1_SIZE_WO_SIG - NAND_INFO_AT);
  }

  /** What is left to check once the bodies are in: that the loader can be sealed and placed. */
  lemma BuildableIs(env: Env, c: Contents, args: Args, algo: Algo)
    requires Shaped(c) && Aligned(|c.blcp|) && Aligned(|c.bl2|)
    ensures var k := c.(ddr := Pad(c.ddr), blcp2nd := Pad(c.blcp2nd), monitor := Pad(c.monitor), loader := []);
            Buildable(env, c, args, algo) <==>
            Fits(k, args) && (c.loader == [] || (LoaderAt(k) < TWO_32 && LoaderSealable(env, c.loader, algo)))
  {
    var k := c.(ddr := Pad(c.ddr), blcp2nd := Pad(c.blcp2nd), monitor := Pad(c.monitor), loader := []);
    hide Pad, Fits;
    if c.loader == [] {
      assert Packed(env, c, algo) == k;
    } else if LoaderSealable(env, c.loader, algo) {
      SealLoaderOk(env, c.loader, algo);
      hide SealLoader, LoaderSealable, LoaderOk;
      FitsIs(k, Packed(env, c, algo), args);
    }
  }

  lemma FitsIs(k: Contents, l: Contents, args: Args)
    requires Shaped(k) && Shaped(l) && k == l.(loader := []) && l.loader != []
    ensures Fits(l, args) <==> Fits(k, args) && LoaderAt(k) < TWO_32
  {
    hide Runnable;
  }

  lemma LinkedIs(env: Env, k: Contents, l: Contents, args: Args)
    requires Shaped(k) && Shaped(l) && Fits(k, args) && Fits(l, args) && k == l.(loader := [])
    ensures Linked(env, l, args) ==
            if l.loader == [] then LinkedMonitor(env, k, args)
            else LinkedMonitor(env, k, args)[LOADER_2ND_LOADADDR := Le(LoaderAt(k))]
  {
    hide Le, Int, ImageCrc, Entered;
  }

  /** The pieces make leaves behind, in terms of what it started from. */
  lemma SealedPieces(env: Env, c: Contents, args: Args, algo: Algo) returns (l: Contents)
    requires Buildable(env, c, args, algo)
    ensures var k := c.(ddr := Pad(c.ddr), blcp2nd := Pad(c.blcp2nd), monitor := Pad(c.monitor), loader := []);
            && l == Packed(env, c, algo) && k == l.(loader := []) && Shaped(l) && Fits(k, args) && Fits(l, args)
            && (c.loader != [] ==> LoaderAt(k) < TWO_32 && l.loader == SealLoader(env, c.loader, algo))
            && Linked(env, l, args) ==
               if c.loader == [] then LinkedMonitor(env, k, args)
               else LinkedMonitor(env, k, args)[LOADER_2ND_LOADADDR := Le(LoaderAt(k))]
  {
    hide Pad, SealLoader, LoaderSealable, LoaderOk, LinkedMonitor, Linked, Fits;
    var k := c.(ddr := Pad(c.ddr), blcp2nd := Pad(c.blcp2nd), monitor := Pad(c.monitor), loader := []);
    if c.loader != [] {
      SealLoaderOk(env, c.loader, algo);
    }
    BuildableIs(env, c, args, algo);
    l := Packed(env, c, algo);
    LinkedIs(env, k, l, args);
  }

  lemma ImageFrom(c: Contents, head: Bytes, middle: Bytes, image: Bytes)
    requires head == JoinAll(c.param1) + (c.blcp + c.bl2) && middle == c.ddr + c.blcp2nd + c.monitor
    requires image == head + JoinAll(c.param2) + (middle + c.loader)
    ensures image == Image(c)
  {
    hide Join;
    ImageIs(c);
    assert head == JoinAll(c.param1) + c.blcp + c.bl2;
    assert image == head + JoinAll(c.param2) + middle + c.loader;
    assert head + JoinAll(c.param2) + middle == head + JoinAll(c.param2) + c.ddr + c.blcp2nd + c.monitor;
  }

  /** Building the first block beforehand changes neither whether nor what make builds. */
  lemma MadeFirst(env: Env, c: Contents, args: Args, algo: Algo)
    requires Shaped(c) && Aligned(|c.blcp|) && Aligned(|c.bl2|) && |c.blcp| < TWO_32 && |c.bl2| < TWO_32
    ensures var d := Made1(env, c);
            && (Buildable(env, d, args, algo) <==> Buildable(env, c, args, algo))
            && (Buildable(env, c, args, algo) ==>
                  Seal(env, c, args, algo) ==
                  var k := Packed(env, d, algo);
                  k.(param1 := Checked1(env, d.param1[PARAM2_LOADADDR := Le(Load2(k))]),
                     param2 := Checked2(env, Linked(env, k, args))))
  {
    hide LoaderSealable, Checked1, Checked2, Pad, SealLoader, Linked, Fits, Described;
    var d := Made1(env, c);
    if c.loader == [] || LoaderSealable(env, c.loader, algo) {
      var k, l := Packed(env, c, algo), Packed(env, d, algo);
      SameSecond(env, k, l, args);
      if Fits(k, args) {
        Load2Fits(k, args);
        CheckedTwice(env, Described(env, c), PARAM2_LOADADDR, Le(Load2(c)));
      }
    }
  }

  lemma SameSecond(env: Env, k: Contents, l: Contents, args: Args)
    requires Shaped(k) && Shaped(l) && l == k.(param1 := l.param1)
    ensures Fits(k, args) <==> Fits(l, args)
    ensures Fits(k, args) ==> Linked(env, k, args) == Linked(env, l, args)
  {
    hide Le, Int, ImageCrc, Runnable, Entered;
  }

  /** The entries and the bytes once the second block follows the first block of c. */
  predicate SealedAs(env: Env, c: Contents, args: Args, algo: Algo, after: Contents, image: Bytes)
    requires Buildable(env, c, args, algo)
  {
    var k := Packed(env, c, algo);
    && Shaped(after)
    && after.param1 == Checked1(env, c.param1[PARAM2_LOADADDR := Le(Load2(k))])
    && after.param2 == Checked2(env, Linked(env, k, args)) && after.loader == k.loader
    && image == Image(k.(param1 := after.param1, param2 := after.param2))
  }

  /** The same before the second block, for which there is room, has been stored; l is what gets packed. */
  predicate RoomLeft(env: Env, c: Contents, args: Args, algo: Algo, l: Contents, after: Contents, image: Bytes) {
    && Buildable(env, c, args, algo) && l == Packed(env, c, algo)
    && Shaped(l) && Fits(l, args) && Load2(l) < TWO_32 && Shaped(after)
    && after.param1 == Checked1(env, c.param1[PARAM2_LOADADDR := Le(Load2(l))])
    && after.param2 == Linked(env, l, args) && after.loader == l.loader
    && |JoinAll(after.param1) + (l.blcp + l.bl2)| == Load2(l)
    && image == JoinAll(after.param1) + (l.blcp + l.bl2) + Zero(PARAM_SIZE) + (l.ddr + l.blcp2nd + l.monitor + l.loader)
  }

  lemma LeavesRoom(env: Env, c: Contents, args: Args, algo: Algo, k: Contents, after: Contents, image: Bytes)
    requires Buildable(env, c, args, algo) && Shaped(after)
    requires k == c.(ddr := Pad(c.ddr), blcp2nd := Pad(c.blcp2nd), monitor := Pad(c.monitor), loader := [])
    requires Fits(k, args) && Load2(k) < TWO_32 && (c.loader != [] ==> LoaderAt(k) < TWO_32)
    requires after.param1 == Checked1(env, c.param1[PARAM2_LOADADDR := Le(Load2(k))])
    requires after.param2 == (if c.loader == [] then LinkedMonitor(env, k, args)
                              else LinkedMonitor(env, k, args)[LOADER_2ND_LOADADDR := Le(LoaderAt(k))])
    requires after.loader == Packed(env, c, algo).loader
    requires |JoinAll(after.param1) + (c.blcp + c.bl2)| == Load2(k)
    requires image == JoinAll(after.param1) + (c.blcp + c.bl2) + Zero(PARAM_SIZE) + (k.ddr + k.blcp2nd + k.monitor + after.loader)
    ensures RoomLeft(env, c, args, algo, Packed(env, c, algo), after, image)
  {
    var l := SealedPieces(env, c, args, algo);
    hide Checked1, Linked, LinkedMonitor, Le, JoinAll, Zero, Fits, Buildable, Pad, SealLoader;
  }

  lemma ConcludeSeal(env: Env, c: Contents, args: Args, algo: Algo, l: Contents, before: Contents, after: Contents,
                     room: Bytes, image: Bytes)
    requires RoomLeft(env, c, args, algo, l, before, room)
    requires Sized(PARAM2, after.param2) && after == before.(param2 := after.param2)
    requires after.param2 == Checked2(env, before.param2)
    requires image == JoinAll(before.param1) + (l.blcp + l.bl2) + JoinAll(after.param2) + (l.ddr + l.blcp2nd + l.monitor + l.loader)
    ensures SealedAs(env, c, args, algo, after, image)
  {
    hide Checked1, Checked2, Linked, Le, JoinAll, Zero, Fits, Buildable, Packed, Image;
    ImageFrom(l.(param1 := after.param1, param2 := after.param2),
              JoinAll(before.param1) + (l.blcp + l.bl2), l.ddr + l.blcp2nd + l.monitor, image);
  }
}
