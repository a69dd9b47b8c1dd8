// The MD5 context of md5.c: count, state and buffer are rewritten in place by
// every call. `Message` is the ghost concatenation of everything absorbed.

module Md5 {
  import opened Common
  import opened Words
  import opened Rfc1321

  // ----- Words and bytes ----------------------------------------------------

  lemma {:induction false} EncodeSnoc(ws: seq<u32>, w: u32)
    ensures Encode(ws + [w]) == Encode(ws) + WordBytes(w)
  {
    if ws != [] {
      assert (ws + [w])[1..] == ws[1..] + [w];
      EncodeSnoc(ws[1..], w);
    }
  }

  lemma {:induction false} DecodeSnoc(b: seq<byte>, q: seq<byte>)
    requires |b| % 4 == 0 && |q| == 4
    ensures Decode(b + q) == Decode(b) + [BytesWord(q)]
  {
    if b == [] {
      assert b + q == q && q[..4] == q;
    } else {
      assert (b + q)[4..] == b[4..] + q && (b + q)[..4] == b[..4];
      DecodeSnoc(b[4..], q);
    }
  }

  lemma WordRoundTrip(w: u32)
    ensures BytesWord(WordBytes(w)) == w
  {
    var q1, q2, q3 := w / 256, w / 65536, w / 16777216;
    assert q2 == q1 / 256 && q3 == q2 / 256;
  }

  /** Decoding inverts encoding, so a digest determines the chaining words. */
  lemma {:induction false} DecodeEncode(ws: seq<u32>)
    ensures Decode(Encode(ws)) == ws
  {
    hide WordBytes, BytesWord;
    if ws != [] {
      var b := Encode(ws);
      assert b[..4] == WordBytes(ws[0]) && b[4..] == Encode(ws[1..]);
      DecodeEncode(ws[1..]);
      WordRoundTrip(ws[0]);
    }
  }

  lemma EncodeNext(ws: seq<u32>, i: nat)
    requires i < |ws|
    ensures Encode(ws[..i + 1]) == Encode(ws[..i]) + WordBytes(ws[i])
  {
    assert ws[..i + 1] == ws[..i] + [ws[i]];
    EncodeSnoc(ws[..i], ws[i]);
  }

  lemma DecodeNext(b: seq<byte>, i: nat)
    requires 4 * i + 4 <= |b|
    ensures Decode(b[..4 * i + 4]) == Decode(b[..4 * i]) + [BytesWord(b[4 * i..4 * i + 4])]
  {
    assert b[..4 * i + 4] == b[..4 * i] + b[4 * i..4 * i + 4];
    DecodeSnoc(b[..4 * i], b[4 * i..4 * i + 4]);
  }

  method PutWord(output: array<byte>, j: nat, w: u32)
    requires j + 4 <= output.Length
    modifies output
    ensures output[..] == old(output[..j]) + WordBytes(w) + old(output[j + 4..])
  {
    hide ByteOf;
    output[j] := ByteOf(w, 0);
    output[j + 1] := ByteOf(w, 1);
    output[j + 2] := ByteOf(w, 2);
    output[j + 3] := ByteOf(w, 3);
  }

  method MD5Encode(output: array<byte>, input: array<u32>, len: nat)
    requires len % 4 == 0 && len <= output.Length && len <= 4 * input.Length
    modifies output
    ensures output[..] == Encode(old(input[..len / 4])) + old(output[len..])
    ensures input[..] == old(input[..])
  {
    ghost var ws := input[..len / 4];
    var i, j := 0, 0;
    assert Encode(ws[..0]) == [];
    hide Encode, ByteOf;
    while j < len
      invariant j == 4 * i <= len
      invariant input[..] == old(input[..])
      invariant output[..j] == Encode(ws[..i]) && output[j..] == old(output[j..])
    {
      ghost var done := output[..j];
      PutWord(output, j, input[i]);
      EncodeNext(ws, i);
      i := i + 1;
      j := j + 4;
    }
    assert ws[..i] == ws && output[..] == output[..len] + output[len..];
  }

  method MD5Decode(output: array<u32>, input: array<byte>, at: nat, len: nat)
    requires len % 4 == 0 && at + len <= input.Length && len <= 4 * output.Length
    modifies output
    ensures output[..len / 4] == Decode(old(input[at..at + len]))
    ensures input[..] == old(input[..])
  {
    ghost var b := input[at..at + len];
    var i, j := 0, 0;
    assert Decode(b[..0]) == [];
    hide Decode, BytesWord;
    while j < len
      invariant j == 4 * i <= len
      invariant input[..] == old(input[..])
      invariant output[..i] == Decode(b[..4 * i])
    {
      ghost var done := output[..i];
      output[i] := BytesWord([input[at + j], input[at + j + 1], input[at + j + 2], input[at + j + 3]]);
      DecodeNext(b, i);
      assert b[4 * i..4 * i + 4] == [input[at + j], input[at + j + 1], input[at + j + 2], input[at + j + 3]];
      assert output[..i + 1] == done + [output[i]];
      i := i + 1;
      j := j + 4;
    }
    assert b[..4 * i] == b;
  }

  // ----- The unrolled compression function ----------------------------------

  function FF(a: u32, b: u32, c: u32, d: u32, x: u32, s: nat, ac: u32): u32
    requires 0 < s < 32
  {
    Round(b, a + F(b, c, d) + x + ac, s)
  }

  function GG(a: u32, b: u32, c: u32, d: u32, x: u32, s: nat, ac: u32): u32
    requires 0 < s < 32
  {
    Round(b, a + G(b, c, d) + x + ac, s)
  }

  function HH(a: u32, b: u32, c: u32, d: u32, x: u32, s: nat, ac: u32): u32
    requires 0 < s < 32
  {
    Round(b, a + H(b, c, d) + x + ac, s)
  }

  function II(a: u32, b: u32, c: u32, d: u32, x: u32, s: nat, ac: u32): u32
    requires 0 < s < 32
  {
    Round(b, a + I(b, c, d) + x + ac, s)
  }

  /** Four operations bring the register names back to where they were. */
  lemma FourOperations(i: nat, h: Regs, x: seq<u32>)
    requires i + 4 <= 64 && |x| == 16
    ensures var r := Operations(i, h, x);
            var a := Operation(i, r, x);
            var d := Operation(i + 1, Regs(r.d, a, r.b, r.c), x);
            var c := Operation(i + 2, Regs(r.c, d, a, r.b), x);
            var b := Operation(i + 3, Regs(r.b, c, d, a), x);
            Operations(i + 4, h, x) == Regs(a, b, c, d)
  {
    hide Round, Mix, Source, Shift, Operation;
    var r := Operations(i, h, x);
    var r1 := Operations(i + 1, h, x);
    assert r1 == Regs(r.d, Operation(i, r, x), r.b, r.c);
    var r2 := Operations(i + 2, h, x);
    assert r2 == Regs(r1.d, Operation(i + 1, r1, x), r1.b, r1.c);
    var r3 := Operations(i + 3, h, x);
    assert r3 == Regs(r2.d, Operation(i + 2, r2, x), r2.b, r2.c);
  }

  method Round1(a0: u32, b0: u32, c0: u32, d0: u32, x: array<u32>, ghost h: Regs) returns (a: u32, b: u32, c: u32, d: u32)
    requires x.Length >= 16 && Regs(a0, b0, c0, d0) == Operations(0, h, x[..16])
    ensures Regs(a, b, c, d) == Operations(16, h, x[..16])
  {
    hide Round, F, G, H, I, Operations;
    a, b, c, d := a0, b0, c0, d0;
    ghost var w := x[..16];
    a := FF(a, b, c, d, x[0], 7, 0xd76aa478);
    d := FF(d, a, b, c, x[1], 12, 0xe8c7b756);
    c := FF(c, d, a, b, x[2], 17, 0x242070db);
    b := FF(b, c, d, a, x[3], 22, 0xc1bdceee);
    FourOperations(0, h, w);
    a := FF(a, b, c, d, x[4], 7, 0xf57c0faf);
    d := FF(d, a, b, c, x[5], 12, 0x4787c62a);
    c := FF(c, d, a, b, x[6], 17, 0xa8304613);
    b := FF(b, c, d, a, x[7], 22, 0xfd469501);
    FourOperations(4, h, w);
    a := FF(a, b, c, d, x[8], 7, 0x698098d8);
    d := FF(d, a, b, c, x[9], 12, 0x8b44f7af);
    c := FF(c, d, a, b, x[10], 17, 0xffff5bb1);
    b := FF(b, c, d, a, x[11], 22, 0x895cd7be);
    FourOperations(8, h, w);
    a := FF(a, b, c, d, x[12], 7, 0x6b901122);
    d := FF(d, a, b, c, x[13], 12, 0xfd987193);
    c := FF(c, d, a, b, x[14], 17, 0xa679438e);
    b := FF(b, c, d, a, x[15], 22, 0x49b40821);
    FourOperations(12, h, w);
  }

  method Round2(a0: u32, b0: u32, c0: u32, d0: u32, x: array<u32>, ghost h: Regs) returns (a: u32, b: u32, c: u32, d: u32)
    requires x.Length >= 16 && Regs(a0, b0, c0, d0) == Operations(16, h, x[..16])
    ensures Regs(a, b, c, d) == Operations(32, h, x[..16])
  {
    hide Round, F, G, H, I, Operations;
    a, b, c, d := a0, b0, c0, d0;
    ghost var w := x[..16];
    a := GG(a, b, c, d, x[1], 5, 0xf61e2562);
    d := GG(d, a, b, c, x[6], 9, 0xc040b340);
    c := GG(c, d, a, b, x[11], 14, 0x265e5a51);
    b := GG(b, c, d, a, x[0], 20, 0xe9b6c7aa);
    FourOperations(16, h, w);
    a := GG(a, b, c, d, x[5], 5, 0xd62f105d);
    d := GG(d, a, b, c, x[10], 9, 0x02441453);
    c := GG(c, d, a, b, x[15], 14, 0xd8a1e681);
    b := GG(b, c, d, a, x[4], 20, 0xe7d3fbc8);
    FourOperations(20, h, w);
    a := GG(a, b, c, d, x[9], 5, 0x21e1cde6);
    d := GG(d, a, b, c, x[14], 9, 0xc33707d6);
    c := GG(c, d, a, b, x[3], 14, 0xf4d50d87);
    b := GG(b, c, d, a, x[8], 20, 0x455a14ed);
    FourOperations(24, h, w);
    a := GG(a, b, c, d, x[13], 5, 0xa9e3e905);
    d := GG(d, a, b, c, x[2], 9, 0xfcefa3f8);
    c := GG(c, d, a, b, x[7], 14, 0x676f02d9);
    b := GG(b, c, d, a, x[12], 20, 0x8d2a4c8a);
    FourOperations(28, h, w);
  }

  method Round3(a0: u32, b0: u32, c0: u32, d0: u32, x: array<u32>, ghost h: Regs) returns (a: u32, b: u32, c: u32, d: u32)
    requires x.Length >= 16 && Regs(a0, b0, c0, d0) == Operations(32, h, x[..16])
    ensures Regs(a, b, c, d) == Operations(48, h, x[..16])
  {
    hide Round, F, G, H, I, Operations;
    a, b, c, d := a0, b0, c0, d0;
    ghost var w := x[..16];
    a := HH(a, b, c, d, x[5], 4, 0xfffa3942);
    d := HH(d, a, b, c, x[8], 11, 0x8771f681);
    c := HH(c, d, a, b, x[11], 16, 0x6d9d6122);
    b := HH(b, c, d, a, x[14], 23, 0xfde5380c);
    FourOperations(32, h, w);
    a := HH(a, b, c, d, x[1], 4, 0xa4beea44);
    d := HH(d, a, b, c, x[4], 11, 0x4bdecfa9);
    c := HH(c, d, a, b, x[7], 16, 0xf6bb4b60);
    b := HH(b, c, d, a, x[10], 23, 0xbebfbc70);
    FourOperations(36, h, w);
    a := HH(a, b, c, d, x[13], 4, 0x289b7ec6);
    d := HH(d, a, b, c, x[0], 11, 0xeaa127fa);
    c := HH(c, d, a, b, x[3], 16, 0xd4ef3085);
    b := HH(b, c, d, a, x[6], 23, 0x04881d05);
    FourOperations(40, h, w);
    a := HH(a, b, c, d, x[9], 4, 0xd9d4d039);
    d := HH(d, a, b, c, x[12], 11, 0xe6db99e5);
    c := HH(c, d, a, b, x[15], 16, 0x1fa27cf8);
    b := HH(b, c, d, a, x[2], 23, 0xc4ac5665);
    FourOperations(44, h, w);
  }

  method Round4(a0: u32, b0: u32, c0: u32, d0: u32, x: array<u32>, ghost h: Regs) returns (a: u32, b: u32, c: u32, d: u32)
    requires x.Length >= 16 && Regs(a0, b0, c0, d0) == Operations(48, h, x[..16])
    ensures Regs(a, b, c, d) == Operations(64, h, x[..16])
  {
    hide Round, F, G, H, I, Operations;
    a, b, c, d := a0, b0, c0, d0;
    ghost var w := x[..16];
    a := II(a, b, c, d, x[0], 6, 0xf4292244);
    d := II(d, a, b, c, x[7], 10, 0x432aff97);
    c := II(c, d, a, b, x[14], 15, 0xab9423a7);
    b := II(b, c, d, a, x[5], 21, 0xfc93a039);
    FourOperations(48, h, w);
    a := II(a, b, c, d, x[12], 6, 0x655b59c3);
    d := II(d, a, b, c, x[3], 10, 0x8f0ccc92);
    c := II(c, d, a, b, x[10], 15, 0xffeff47d);
    b := II(b, c, d, a, x[1], 21, 0x85845dd1);
    FourOperations(52, h, w);
    a := II(a, b, c, d, x[8], 6, 0x6fa87e4f);
    d := II(d, a, b, c, x[15], 10, 0xfe2ce6e0);
    c := II(c, d, a, b, x[6], 15, 0xa3014314);
    b := II(b, c, d, a, x[13], 21, 0x4e0811a1);
    FourOperations(56, h, w);
    a := II(a, b, c, d, x[4], 6, 0xf7537e82);
    d := II(d, a, b, c, x[11], 10, 0xbd3af235);
    c := II(c, d, a, b, x[2], 15, 0x2ad7d2bb);
    b := II(b, c, d, a, x[9], 21, 0xeb86d391);
    FourOperations(60, h, w);
  }

  /** state[0..4] after absorbing the 64-byte block that starts at `at`. */
  method MD5Transform(state: array<u32>, block: array<byte>, at: nat)
    requires state.Length == 4 && at + 64 <= block.Length
    modifies state
    ensures RegsOf(state[..]) == Compress(RegsOf(old(state[..])), old(block[at..at + 64]))
    ensures block[..] == old(block[..])
  {
    hide Operation;
    ghost var h := RegsOf(state[..]);
    var x := new u32[64];
    MD5Decode(x, block, at, 64);
    var a, b, c, d := Round1(state[0], state[1], state[2], state[3], x, h);
    hide Operations;
    a, b, c, d := Round2(a, b, c, d, x, h);
    a, b, c, d := Round3(a, b, c, d, x, h);
    a, b, c, d := Round4(a, b, c, d, x, h);
    state[0] := Add(state[0], a);
    state[1] := Add(state[1], b);
    state[2] := Add(state[2], c);
    state[3] := Add(state[3], d);
  }

  function RegsOf(s: seq<u32>): Regs
    requires |s| == 4
  {
    Regs(s[0], s[1], s[2], s[3])
  }

  // ----- Streaming ----------------------------------------------------------

  lemma {:induction false} FoldAppend(h: Regs, a: seq<byte>, b: seq<byte>)
    requires Aligned(|a|)
    ensures Fold(h, a + b) == Fold(Fold(h, a), b)
    decreases |a|
  {
    hide Compress;
    if |a| < 64 {
      assert a + b == b;
    } else {
      assert (a + b)[..64] == a[..64] && (a + b)[64..] == a[64..] + b;
      FoldAppend(Compress(h, a[..64]), a[64..], b);
    }
  }

  lemma FoldNext(m: seq<byte>, k: nat)
    requires Aligned(k) && k + 64 <= |m|
    ensures Aligned(k + 64)
    ensures Fold(INITIAL, m[..k + 64]) == Compress(Fold(INITIAL, m[..k]), m[k..k + 64])
  {
    hide Compress;
    var block := m[k..k + 64];
    assert m[..k] + block == m[..k + 64];
    FoldAppend(INITIAL, m[..k], block);
    var h := Fold(INITIAL, m[..k]);
    assert block[..64] == block && block[64..] == [];
    assert Fold(h, block) == Fold(Compress(h, block), []);
  }

  function Whole(n: nat): (w: nat)
    ensures w <= n < w + 64 && Aligned(w)
  {
    n - n % 64
  }

  /** The block loop's guard, evaluated in 32 bits, turns false once no whole block is left. */
  predicate BlockLoopFits(index: nat, len: u32) {
    index + len < 64 || Whole(index + len) - index + 64 < TWO_32
  }

  /** The index i of the block loop after k turns, as 32 bits hold it. */
  function LoopIndex(index: nat, k: nat): u32
    requires index < 64
  {
    if k == 0 then 64 - index else Wrap(LoopIndex(index, k - 1) + 64)
  }

  /** The guard i + 64 <= inputlen before turn k. */
  predicate LoopGuard(index: nat, len: u32, k: nat)
    requires index < 64
  {
    Wrap(LoopIndex(index, k) + 64) <= len
  }

  lemma {:induction false} LoopAligned(index: nat, k: nat)
    requires index < 64
    ensures Aligned(index + LoopIndex(index, k))
  {
    if k > 0 {
      LoopAligned(index, k - 1);
    }
  }

  lemma {:induction false} LoopCounts(index: nat, k: nat)
    requires index < 64 && 64 * k + 64 - index < TWO_32
    ensures LoopIndex(index, k) == 64 * k + 64 - index
  {
    if k > 0 {
      LoopCounts(index, k - 1);
    }
  }

  /** Where no whole block is left the guard is false exactly if i + 64 does not wrap. */
  lemma BlockLoopStops(index: nat, len: u32, i: int)
    requires index < 64 <= index + len && i == Whole(index + len) - index
    ensures i <= len < i + 64
    ensures Wrap(i + 64) <= len <==> !BlockLoopFits(index, len)
  {
  }

  /** When it does, the index stays in its residue class modulo 64 and the guard is never false. */
  lemma BlockLoopRunsOn(index: nat, len: u32, k: nat)
    requires index < 64 <= index + len && !BlockLoopFits(index, len)
    ensures LoopGuard(index, len, k)
  {
    LoopAligned(index, k);
    var i, w := LoopIndex(index, k), Whole(index + len);
    if i + 64 < TWO_32 {
      assert index + i + 64 <= w;
    }
  }

  /** The block loop of MD5Update ends if and only if BlockLoopFits. */
  lemma BlockLoopEndsIff(index: nat, len: u32)
    requires index < 64 <= index + len
    ensures (exists k: nat :: !LoopGuard(index, len, k)) <==> BlockLoopFits(index, len)
  {
    if BlockLoopFits(index, len) {
      var k := Whole(index + len) / 64 - 1;
      LoopCounts(index, k);
      BlockLoopStops(index, len, Whole(index + len) - index);
      assert !LoopGuard(index, len, k);
    } else {
      forall k: nat
        ensures LoopGuard(index, len, k)
      {
        BlockLoopRunsOn(index, len, k);
      }
    }
  }

  /** An input of 2^32 - 1 bytes into an empty context is one for which it never ends. */
  lemma BlockLoopRunsOver(k: nat)
    ensures !BlockLoopFits(0, 0xFFFF_FFFF) && LoopGuard(0, 0xFFFF_FFFF, k)
  {
    BlockLoopRunsOn(0, 0xFFFF_FFFF, k);
  }

  lemma BlockFits(n: nat, len: u32, i: nat)
    requires i <= len && Aligned(n + i)
    requires BlockLoopFits(n % 64, len)
    ensures Wrap(i + 64) == i + 64
  {
    assert (n % 64 + i) % 64 == 0;
  }

  lemma WholeIs(n: nat, w: nat)
    requires Aligned(w) && w <= n < w + 64
    ensures Whole(n) == w && n % 64 == n - w
  {
  }

  lemma SmallInputFits(index: nat, len: u32)
    requires index < 64 && len <= 0xFFFF_FF00
    ensures BlockLoopFits(index, len)
  {
  }

  lemma Split(x: int, q: int, r: int)
    requires x == TWO_32 * q + r && 0 <= r < TWO_32
    ensures x / TWO_32 == q && Wrap(x) == r
  {
  }

  /** (count[0] >> 3) & 0x3F */
  function BlockIndex(c: u32): (i: nat)
    ensures i < 64
  {
    c / 8 % 64
  }

  lemma LengthInBlock(n: nat)
    ensures BlockIndex(Wrap(8 * n)) == n % 64
  {
    var q := 8 * n / TWO_32;
    assert Wrap(8 * n) == 8 * (n - 0x2000_0000 * q);
    assert n == 64 * (0x80_0000 * q) + (n - 0x2000_0000 * q);
  }

  /** The two wrapping words stay the bit length modulo 2^64. */
  lemma CountsAdd(n: nat, len: u32)
    ensures var lo, bits, hi := Wrap(8 * n), Wrap(8 * (len as int)), Wrap(8 * n / TWO_32);
            && Add(lo, bits) == Wrap(8 * (n + len))
            && Add(Add(hi, if Add(lo, bits) < bits then 1 else 0), len / 0x2000_0000) == Wrap(8 * (n + len) / TWO_32)
  {
    var q, lo: int := 8 * n / TWO_32, 8 * n % TWO_32;
    var p, bits: int := len / 0x2000_0000, 8 * (len % 0x2000_0000);
    var carry: u32 := if lo + bits < TWO_32 then 0 else 1;
    var sum := lo + bits - TWO_32 * carry;
    assert 8 * (len as int) == TWO_32 * p + bits;
    hide Wrap;
    Split(8 * n, q, lo);
    Split(8 * (len as int), p, bits);
    Split(lo + bits, carry, sum);
    Split(8 * (n + len), q + p + carry, sum);
    WrapAdds(q, carry, p);
  }

  lemma WrapAdds(q: nat, carry: u32, p: u32)
    ensures Add(Add(Wrap(q), carry), p) == Wrap(q + carry + p)
  {
    var a := q / TWO_32;
    var b := (Wrap(q) as int + carry) / TWO_32;
    var c := (Add(Wrap(q), carry) as int + p) / TWO_32;
    Split(q + carry + p, a + b + c, Add(Add(Wrap(q), carry), p));
  }

  /** count is the bit length, state folds the whole blocks, buffer starts with the rest. */
  predicate Represents(count: seq<u32>, state: seq<u32>, buffer: seq<byte>, m: seq<byte>)
    requires |count| == 2 && |state| == 4 && |buffer| == 64
  {
    && count[0] == Wrap(8 * |m|) && count[1] == Wrap(8 * |m| / TWO_32)
    && RegsOf(state) == Fold(INITIAL, m[..Whole(|m|)])
    && buffer[..|m| % 64] == m[Whole(|m|)..]
  }

  lemma Slices(all: seq<byte>, data: seq<byte>, n: nat, i: nat, len: nat)
    requires n + |data| == |all| && all[n..] == data && i + len <= |data|
    ensures all[n + i..n + i + len] == data[i..i + len] && all[n + i..] == data[i..]
  {
    assert all[n + i..n + i + len] == all[n..][i..i + len];
  }

  /** The buffer after its residue has been filled up from the input. */
  lemma Filled(all: seq<byte>, data: seq<byte>, n: nat, residue: seq<byte>, buffer: seq<byte>)
    requires n + |data| == |all| && all[n..] == data && |residue| < 64 <= |residue| + |data|
    requires |residue| <= n && residue == all[n - |residue|..n] && buffer == residue + data[..64 - |residue|]
    ensures buffer == all[n - |residue|..n - |residue| + 64]
  {
    Slices(all, data, n, 0, 64 - |residue|);
  }

  /** The buffer after the bytes that follow the last whole block were copied behind its residue. */
  lemma Residue(all: seq<byte>, data: seq<byte>, n: nat, i: nat, residue: seq<byte>, buffer: seq<byte>)
    requires n + |data| == |all| && all[n..] == data && i <= |data|
    requires |residue| <= n + i && residue == all[n + i - |residue|..n + i]
    requires residue + data[i..] <= buffer
    ensures var e := n + i - |residue|;
            |all| - e <= |buffer| && buffer[..|all| - e] == all[e..]
  {
    Slices(all, data, n, i, 0);
    assert residue + data[i..] == all[n + i - |residue|..];
  }

  lemma Represent(count: seq<u32>, state: seq<u32>, buffer: seq<byte>, m: seq<byte>, w: nat)
    requires |count| == 2 && |state| == 4 && |buffer| == 64
    requires Aligned(w) && w <= |m| < w + 64
    requires count[0] == Wrap(8 * |m|) && count[1] == Wrap(8 * |m| / TWO_32)
    requires RegsOf(state) == Fold(INITIAL, m[..w])
    requires buffer[..|m| - w] == m[w..]
    ensures Represents(count, state, buffer, m)
  {
    hide Fold;
    WholeIs(|m|, w);
  }

  method MemCopy(dst: array<byte>, at: nat, src: array<byte>, from: nat, len: nat)
    requires dst != src && at + len <= dst.Length && from + len <= src.Length
    modifies dst
    ensures dst[..] == old(dst[..at]) + src[from..from + len] + old(dst[at + len..])
  {
    forall k | 0 <= k < len {
      dst[at + k] := src[from + k];
    }
  }

  class MD5Context {
    const count: array<u32>
    const state: array<u32>
    const buffer: array<byte>
    ghost var Message: seq<byte>

    ghost predicate Valid()
      reads this, count, state, buffer
    {
      && count.Length == 2 && state.Length == 4 && buffer.Length == 64 && count != state
      && Represents(count[..], state[..], buffer[..], Message)
    }

    ghost function Repr(): set<object>
      reads this
    {
      {this, count, state, buffer}
    }

    constructor ()
      ensures Valid() && Message == [] && fresh(Repr())
    {
      hide Compress, Fold, Whole;
      count := new u32[2](_ => 0);
      state := new u32[4](_ => 0);
      buffer := new byte[64](_ => 0);
      new;
      MD5Init();
    }

    method MD5Init()
      requires count.Length == 2 && state.Length == 4 && buffer.Length == 64 && count != state
      modifies this, count, state
      ensures Valid() && Message == []
    {
      hide Compress;
      count[0] := 0;
      count[1] := 0;
      state[0] := 0x67452301;
      state[1] := 0xEFCDAB89;
      state[2] := 0x98BADCFE;
      state[3] := 0x10325476;
      Message := [];
    }

    method MD5Update(input: array<byte>, inputlen: u32)
      requires Valid() && inputlen <= input.Length && input != buffer
      requires BlockLoopFits(|Message| % 64, inputlen)
      modifies this, count, state, buffer
      ensures Valid() && Message == old(Message) + input[..inputlen]
      ensures input[..] == old(input[..])
    {
      hide Compress, Fold, Aligned, Whole, BlockLoopFits, Wrap, BlockIndex, RegsOf;
      ghost var n, all := |Message|, Message + input[..inputlen];
      ghost var w := Whole(n);
      LengthInBlock(n);
      WholeIs(n, w);
      assert all[..w] == Message[..w] && all[w..n] == Message[w..];
      var index := BlockIndex(count[0]);
      AddLength(n, inputlen);
      if inputlen >= 64 - index {
        var i := AbsorbBlocks(input, inputlen, index, all, n);
        KeepRest(input, inputlen, 0, i, all, n);
      } else {
        KeepRest(input, inputlen, index, 0, all, n);
      }
    }

    method KeepRest(input: array<byte>, inputlen: u32, index: nat, i: nat, ghost all: seq<byte>, ghost n: nat)
      requires count.Length == 2 && state.Length == 4 && buffer.Length == 64 && count != state && input != buffer
      requires i <= inputlen <= input.Length && n + inputlen == |all| && all[n..] == input[..inputlen]
      requires count[0] == Wrap(8 * |all|) && count[1] == Wrap(8 * |all| / TWO_32)
      requires index <= n + i && index + inputlen - i < 64 && Aligned(n + i - index)
      requires RegsOf(state[..]) == Fold(INITIAL, all[..n + i - index])
      requires buffer[..index] == all[n + i - index..n + i]
      modifies this, buffer
      ensures Valid() && Message == all
      ensures input[..] == old(input[..])
    {
      hide Fold, Aligned, Wrap, Represents, RegsOf;
      ghost var data, residue := input[..inputlen], buffer[..index];
      MemCopy(buffer, index, input, i, inputlen - i);
      Residue(all, data, n, i, residue, buffer[..]);
      Represent(count[..], state[..], buffer[..], all, n + i - index);
      Message := all;
    }

    method AddLength(ghost n: nat, inputlen: u32)
      requires count.Length == 2 && count[0] == Wrap(8 * n) && count[1] == Wrap(8 * n / TWO_32)
      modifies count
      ensures count[0] == Wrap(8 * (n + inputlen)) && count[1] == Wrap(8 * (n + inputlen) / TWO_32)
    {
      hide Wrap, Add;
      var bits := Wrap(8 * (inputlen as int));
      count[0] := Add(count[0], bits);
      count[1] := Add(count[1], if count[0] < bits then 1 else 0);
      count[1] := Add(count[1], inputlen / 0x2000_0000);
      CountsAdd(n, inputlen);
    }

    /** Fills the buffer, then takes whole blocks straight from the input; i is the first byte not taken. */
    method AbsorbBlocks(input: array<byte>, inputlen: u32, index: nat, ghost all: seq<byte>, ghost n: nat)
      returns (i: nat)
      requires state.Length == 4 && buffer.Length == 64 && input != buffer
      requires index < 64 <= index + inputlen && inputlen <= input.Length
      requires n + inputlen == |all| && all[n..] == input[..inputlen]
      requires index <= n && index == n % 64 && Aligned(n - index) && buffer[..index] == all[n - index..n]
      requires RegsOf(state[..]) == Fold(INITIAL, all[..n - index])
      requires BlockLoopFits(index, inputlen)
      modifies state, buffer
      ensures i <= inputlen < i + 64 && Aligned(n + i)
      ensures RegsOf(state[..]) == Fold(INITIAL, all[..n + i])
      ensures input[..] == old(input[..])
    {
      hide Compress, Fold, Aligned, BlockLoopFits, Wrap;
      ghost var data, residue := input[..inputlen], buffer[..index];
      var partlen := 64 - index;
      MemCopy(buffer, index, input, 0, partlen);
      Filled(all, data, n, residue, buffer[..]);
      assert buffer[0..64] == buffer[..];
      MD5Transform(state, buffer, 0);
      FoldNext(all, n - index);
      i := partlen;
      while Wrap(i + 64) <= inputlen
        invariant partlen <= i <= inputlen
        invariant Aligned(n + i)
        invariant RegsOf(state[..]) == Fold(INITIAL, all[..n + i])
        invariant input[..] == old(input[..])
        decreases inputlen - i
        modifies state
      {
        BlockFits(n, inputlen, i);
        Slices(all, data, n, i, 64);
        assert input[i..i + 64] == data[i..i + 64];
        MD5Transform(state, input, i);
        FoldNext(all, n + i);
        i := i + 64;
      }
      BlockFits(n, inputlen, i);
    }

    method MD5Final(digest: array<byte>)
      requires Valid() && digest.Length == 16 && digest != buffer
      modifies this, count, state, buffer, digest
      ensures digest[..] == Digest(old(Message))
    {
      hide Compress, Fold, ByteOf, Wrap, Encode, Pad, BlockLoopFits;
      ghost var m := Message;
      LengthInBlock(|m|);
      var index := BlockIndex(count[0]);
      var padlen := if index < 56 then 56 - index else 120 - index;
      assert padlen == 1 + ZeroCount(|m|);
      var bits := new byte[8](_ => 0);
      MD5Encode(bits, count, 8);
      assert count[..8 / 4] == [Wrap(8 * |m|), Wrap(8 * |m| / TWO_32)];
      assert bits[..] == LengthBytes(|m|);
      var padding := new byte[64](k => if k == 0 then 0x80 else 0);
      ghost var pad := padding[..padlen];
      assert pad == [0x80] + Zeros(ZeroCount(|m|));
      SmallInputFits(|m| % 64, padlen);
      MD5Update(padding, padlen);
      assert Message == m + pad;
      SmallInputFits(|Message| % 64, 8);
      MD5Update(bits, 8);
      PaddedMessage(m, pad, bits[..], Message);
      MD5Encode(digest, state, 16);
      assert state[..16 / 4] == [state[0], state[1], state[2], state[3]];
    }
  }

  lemma PaddedMessage(m: seq<byte>, padding: seq<byte>, bits: seq<byte>, p: seq<byte>)
    requires padding == [0x80] + Zeros(ZeroCount(|m|)) && bits == LengthBytes(|m|)
    requires p == m + padding + bits[..8]
    ensures p == Pad(m) && p[..Whole(|p|)] == p
  {
    assert bits[..8] == bits;
  }

  // ----- Every cutting of a message gives the same digest --------------------

  function Flatten(chunks: seq<seq<byte>>): seq<byte> {
    if chunks == [] then [] else Flatten(chunks[..|chunks| - 1]) + chunks[|chunks| - 1]
  }

  lemma Absorbed(chunks: seq<seq<byte>>, k: nat)
    requires k < |chunks|
    ensures Flatten(chunks[..k + 1]) == Flatten(chunks[..k]) + chunks[k]
  {
    assert chunks[..k + 1][..k] == chunks[..k];
  }

  predicate ChunkFits(chunks: seq<seq<byte>>, k: nat)
    requires k < |chunks|
  {
    |chunks[k]| < TWO_32 && BlockLoopFits(|Flatten(chunks[..k])| % 64, |chunks[k]|)
  }

  method AbsorbChunk(context: MD5Context, chunk: seq<byte>)
    requires context.Valid() && |chunk| < TWO_32 && BlockLoopFits(|context.Message| % 64, |chunk|)
    modifies context.Repr()
    ensures context.Valid() && context.Message == old(context.Message) + chunk
  {
    hide BlockLoopFits, Represents;
    var input := new byte[|chunk|](i requires 0 <= i < |chunk| => chunk[i]);
    assert input[..|chunk|] == chunk;
    context.MD5Update(input, |chunk|);
  }

  method DigestOfChunks(chunks: seq<seq<byte>>) returns (digest: array<byte>)
    requires forall k :: 0 <= k < |chunks| ==> ChunkFits(chunks, k)
    ensures digest[..] == Digest(Flatten(chunks))
  {
    assert Flatten(chunks[..0]) == [];
    hide Digest, BlockLoopFits, Flatten, Represents;
    digest := new byte[16](_ => 0);
    var context := new MD5Context();
    for k := 0 to |chunks|
      invariant context.Valid() && fresh(context.Repr())
      invariant context.Message == Flatten(chunks[..k])
    {
      assert ChunkFits(chunks, k);
      AbsorbChunk(context, chunks[k]);
      Absorbed(chunks, k);
    }
    assert chunks[..|chunks|] == chunks;
    context.MD5Final(digest);
  }
}
