// Streaming MD5 (md5.c, md5.h): the digest as section 3 of RFC 1321 defines
// it on whole messages. Md5.dfy holds the in-place context that refines it.

module Words {
  import opened Common

  function Wrap(x: int): u32 { x % TWO_32 }

  function Add(x: u32, y: u32): u32 { Wrap(x as int + y as int) }

  function And(x: u32, y: u32): u32 { ((x as bv32) & (y as bv32)) as u32 }
  function Or(x: u32, y: u32): u32 { ((x as bv32) | (y as bv32)) as u32 }
  function Xor(x: u32, y: u32): u32 { ((x as bv32) ^ (y as bv32)) as u32 }
  function Not(x: u32): u32 { 0xFFFF_FFFF - x }
  function RotateLeft(x: u32, n: nat): u32
    requires 0 < n < 32
  {
    (((x as bv32) << n) | ((x as bv32) >> (32 - n))) as u32
  }

  /** (w >> 8 * k) & 0xFF */
  function ByteOf(w: u32, k: nat): byte
    requires k < 4
  {
    if k == 0 then w % 256 else if k == 1 then w / 256 % 256 else if k == 2 then w / 65536 % 256 else w / 16777216
  }

  /** The four bytes of a word, least significant first. */
  function WordBytes(w: u32): (b: seq<byte>)
    ensures |b| == 4
  {
    [ByteOf(w, 0), ByteOf(w, 1), ByteOf(w, 2), ByteOf(w, 3)]
  }

  function BytesWord(b: seq<byte>): u32
    requires |b| == 4
  {
    b[0] as int + 256 * (b[1] as int) + 65536 * (b[2] as int) + 16777216 * (b[3] as int)
  }

  function Encode(ws: seq<u32>): (b: seq<byte>)
    ensures |b| == 4 * |ws|
  {
    if ws == [] then [] else WordBytes(ws[0]) + Encode(ws[1..])
  }

  function Decode(b: seq<byte>): (ws: seq<u32>)
    requires |b| % 4 == 0
    ensures 4 * |ws| == |b|
  {
    if b == [] then [] else [BytesWord(b[..4])] + Decode(b[4..])
  }
}

module Rfc1321 {
  import opened Common
  import opened Words

  datatype Regs = Regs(a: u32, b: u32, c: u32, d: u32)

  const INITIAL := Regs(0x67452301, 0xefcdab89, 0x98badcfe, 0x10325476)

  /** The integer part of 4294967296 * abs(sin(i + 1)). */
  function T(i: nat): u32
    requires i < 64
  {
    match i
    case  0 => 0xd76aa478 case  1 => 0xe8c7b756 case  2 => 0x242070db case  3 => 0xc1bdceee
    case  4 => 0xf57c0faf case  5 => 0x4787c62a case  6 => 0xa8304613 case  7 => 0xfd469501
    case  8 => 0x698098d8 case  9 => 0x8b44f7af case 10 => 0xffff5bb1 case 11 => 0x895cd7be
    case 12 => 0x6b901122 case 13 => 0xfd987193 case 14 => 0xa679438e case 15 => 0x49b40821
    case 16 => 0xf61e2562 case 17 => 0xc040b340 case 18 => 0x265e5a51 case 19 => 0xe9b6c7aa
    case 20 => 0xd62f105d case 21 => 0x02441453 case 22 => 0xd8a1e681 case 23 => 0xe7d3fbc8
    case 24 => 0x21e1cde6 case 25 => 0xc33707d6 case 26 => 0xf4d50d87 case 27 => 0x455a14ed
    case 28 => 0xa9e3e905 case 29 => 0xfcefa3f8 case 30 => 0x676f02d9 case 31 => 0x8d2a4c8a
    case 32 => 0xfffa3942 case 33 => 0x8771f681 case 34 => 0x6d9d6122 case 35 => 0xfde5380c
    case 36 => 0xa4beea44 case 37 => 0x4bdecfa9 case 38 => 0xf6bb4b60 case 39 => 0xbebfbc70
    case 40 => 0x289b7ec6 case 41 => 0xeaa127fa case 42 => 0xd4ef3085 case 43 => 0x04881d05
    case 44 => 0xd9d4d039 case 45 => 0xe6db99e5 case 46 => 0x1fa27cf8 case 47 => 0xc4ac5665
    case 48 => 0xf4292244 case 49 => 0x432aff97 case 50 => 0xab9423a7 case 51 => 0xfc93a039
    case 52 => 0x655b59c3 case 53 => 0x8f0ccc92 case 54 => 0xffeff47d case 55 => 0x85845dd1
    case 56 => 0x6fa87e4f case 57 => 0xfe2ce6e0 case 58 => 0xa3014314 case 59 => 0x4e0811a1
    case 60 => 0xf7537e82 case 61 => 0xbd3af235 case 62 => 0x2ad7d2bb case _  => 0xeb86d391
  }

  function F(x: u32, y: u32, z: u32): u32 { Or(And(x, y), And(Not(x), z)) }
  function G(x: u32, y: u32, z: u32): u32 { Or(And(x, z), And(y, Not(z))) }
  function H(x: u32, y: u32, z: u32): u32 { Xor(Xor(x, y), z) }
  function I(x: u32, y: u32, z: u32): u32 { Xor(y, Or(x, Not(z))) }

  function Mix(i: nat, x: u32, y: u32, z: u32): u32 {
    if i < 16 then F(x, y, z) else if i < 32 then G(x, y, z) else if i < 48 then H(x, y, z) else I(x, y, z)
  }

  /** Which word of the block operation i reads. */
  function Source(i: nat): (k: nat)
    ensures k < 16
  {
    (if i < 16 then i else if i < 32 then 5 * i + 1 else if i < 48 then 3 * i + 5 else 7 * i) % 16
  }

  function Shift(i: nat): (s: nat)
    ensures 0 < s < 32
  {
    (if i < 16 then [7, 12, 17, 22] else if i < 32 then [5, 9, 14, 20]
     else if i < 48 then [4, 11, 16, 23] else [6, 10, 15, 21])[i % 4]
  }

  /** a = b + ((a + mix(b, c, d) + word + constant) <<< s) */
  function Round(b: u32, sum: int, s: nat): u32
    requires 0 < s < 32
  {
    Wrap(b + RotateLeft(Wrap(sum), s))
  }

  function Operation(i: nat, r: Regs, x: seq<u32>): u32
    requires i < 64 && |x| == 16
  {
    Round(r.b, r.a + Mix(i, r.b, r.c, r.d) + x[Source(i)] + T(i), Shift(i))
  }

  /** The registers after the first n operations; each operation renames them one place on. */
  function Operations(n: nat, r: Regs, x: seq<u32>): Regs
    requires n <= 64 && |x| == 16
  {
    if n == 0 then r
    else
      var p := Operations(n - 1, r, x);
      Regs(p.d, Operation(n - 1, p, x), p.b, p.c)
  }

  function Compress(h: Regs, block: seq<byte>): Regs
    requires |block| == 64
  {
    var r := Operations(64, h, Decode(block));
    Regs(Add(h.a, r.a), Add(h.b, r.b), Add(h.c, r.c), Add(h.d, r.d))
  }

  predicate Aligned(n: nat) { n % 64 == 0 }

  /** Chains Compress over the whole 64-byte blocks of m. */
  function Fold(h: Regs, m: seq<byte>): Regs
    decreases |m|
  {
    if |m| < 64 then h else Fold(Compress(h, m[..64]), m[64..])
  }

  function ZeroCount(n: nat): (z: nat)
    ensures z < 64 && (n + 1 + z + 8) % 64 == 0
  {
    (55 - n) % 64
  }

  function Zeros(n: nat): seq<byte> { seq(n, _ => 0) }

  /** The bit length modulo 2^64, low word first. */
  function LengthBytes(n: nat): (b: seq<byte>)
    ensures |b| == 8
  {
    Encode([Wrap(8 * n), Wrap(8 * n / TWO_32)])
  }

  /** One 0x80 byte, then zeros up to 56 modulo 64, then the length. */
  function Pad(m: seq<byte>): (p: seq<byte>)
    ensures Aligned(|p|)
  {
    m + ([0x80] + Zeros(ZeroCount(|m|))) + LengthBytes(|m|)
  }

  function Digest(m: seq<byte>): (d: seq<byte>)
    ensures |d| == 16
  {
    var r := Fold(INITIAL, Pad(m));
    Encode([r.a, r.b, r.c, r.d])
  }
}
