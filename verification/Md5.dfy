/** The streaming MD5 of md5.c against the one-shot digest of RFC 1321. */
module Md5 {
  import opened Words
  import opened BlockStream

  // ----- The reference: RFC 1321, sections 3.1 to 3.5 -----

  /** The four chaining registers. */
  datatype Regs = Regs(a: u32, b: u32, c: u32, d: u32)

  const IV := Regs(0x67452301, 0xEFCDAB89, 0x98BADCFE, 0x10325476)

  /** Section 3.4: the auxiliary functions and the rotated addition each operation ends with. */
  function F(x: bv32, y: bv32, z: bv32): bv32 { (x & y) | (!x & z) }
  function G(x: bv32, y: bv32, z: bv32): bv32 { (x & z) | (y & !z) }
  function H(x: bv32, y: bv32, z: bv32): bv32 { x ^ y ^ z }
  function I(x: bv32, y: bv32, z: bv32): bv32 { y ^ (x | !z) }

  /** The bits of a number and the number of bits: an unsigned int is both. */
  function Word(x: u32): bv32 { x as bv32 }
  function Value(w: bv32): u32 { w as int }

  function RotateLeft(w: bv32, s: bv6): bv32 requires s <= 32 { (w << s) | (w >> (32 - s)) }

  function RotateAdd(b: u32, sum: int, s: bv6): u32 requires s <= 32 {
    Wrap32(b + Value(RotateLeft(Word(Wrap32(sum)), s)))
  }

  function FF(a: u32, b: u32, c: u32, d: u32, x: u32, s: bv6, t: u32): u32 requires s <= 32 {
    RotateAdd(b, a + Value(F(Word(b), Word(c), Word(d))) + x + t, s)
  }
  function GG(a: u32, b: u32, c: u32, d: u32, x: u32, s: bv6, t: u32): u32 requires s <= 32 {
    RotateAdd(b, a + Value(G(Word(b), Word(c), Word(d))) + x + t, s)
  }
  function HH(a: u32, b: u32, c: u32, d: u32, x: u32, s: bv6, t: u32): u32 requires s <= 32 {
    RotateAdd(b, a + Value(H(Word(b), Word(c), Word(d))) + x + t, s)
  }
  function II(a: u32, b: u32, c: u32, d: u32, x: u32, s: bv6, t: u32): u32 requires s <= 32 {
    RotateAdd(b, a + Value(I(Word(b), Word(c), Word(d))) + x + t, s)
  }

  /** The sine table of section 3.4, T[i + 1] in the RFC's numbering. */
  function T(i: nat): u32 requires i < 64 {
    match i
    case 0 => 0xd76aa478 case 1 => 0xe8c7b756 case 2 => 0x242070db case 3 => 0xc1bdceee
    case 4 => 0xf57c0faf case 5 => 0x4787c62a case 6 => 0xa8304613 case 7 => 0xfd469501
    case 8 => 0x698098d8 case 9 => 0x8b44f7af case 10 => 0xffff5bb1 case 11 => 0x895cd7be
    case 12 => 0x6b901122 case 13 => 0xfd987193 case 14 => 0xa679438e case 15 => 0x49b40821
    case 16 => 0xf61e2562 case 17 => 0xc040b340 case 18 => 0x265e5a51 case 19 => 0xe9b6c7aa
    case 20 => 0xd62f105d case 21 => 0x02441453 case 22 => 0xd8a1e681 case 23 => 0xe7d3fbc8
    case 24 => 0x21e1cde6 case 25 => 0xc33707d6 case 26 => 0xf4d50d87 case 27 => 0x455a14ed
    case 28 => 0xa9e3e905 case 29 => 0xfcefa3f8 case 30 => 0x676f02d9 case 31 => 0x8d2a4c8a
    case 32 => 0xfffa3942 case 33 => 0x8771f681 case 34 => 0x6d9d6122 case 35 => 0xfde5380c
    case 36 => 0xa4beea44 case 37 => 0x4bdecfa9 case 38 => 0xf6bb4b60 case 39 => 0xbebfbc70
    case 40 => 0x289b7ec6 case 41 => 0xeaa127fa case 42 => 0xd4ef3085 case 43 => 0x04881d05
    case 44 => 0xd9d4d039 case 45 => 0xe6db99e5 case 46 => 0x1fa27cf8 case 47 => 0xc4ac5665
    case 48 => 0xf4292244 case 49 => 0x432aff97 case 50 => 0xab9423a7 case 51 => 0xfc93a039
    case 52 => 0x655b59c3 case 53 => 0x8f0ccc92 case 54 => 0xffeff47d case 55 => 0x85845dd1
    case 56 => 0x6fa87e4f case 57 => 0xfe2ce6e0 case 58 => 0xa3014314 case 59 => 0x4e0811a1
    case 60 => 0xf7537e82 case 61 => 0xbd3af235 case 62 => 0x2ad7d2bb case _ => 0xeb86d391
  }

  /** Which message word operation `i` reads: i, 5i+1, 3i+5 and 7i modulo 16 in the four rounds. */
  function WordOf(i: nat): nat requires i < 64 {
    if i < 16 then i else if i < 32 then (5 * i + 1) % 16 else if i < 48 then (3 * i + 5) % 16 else 7 * i % 16
  }

  /** How far operation `i` rotates: each round cycles through four amounts. */
  function Shift(i: nat): (s: bv6)
    requires i < 64
    ensures s <= 32
  {
    if i < 16 then (match i % 4 case 0 => 7 case 1 => 12 case 2 => 17 case _ => 22)
    else if i < 32 then (match i % 4 case 0 => 5 case 1 => 9 case 2 => 14 case _ => 20)
    else if i < 48 then (match i % 4 case 0 => 4 case 1 => 11 case 2 => 16 case _ => 23)
    else (match i % 4 case 0 => 6 case 1 => 10 case 2 => 15 case _ => 21)
  }

  /** Operation `i`, in the form where the registers rotate instead of the operands. */
  function Operation(i: nat, r: Regs, x: seq<u32>): Regs
    requires i < 64 && |x| == 16
  {
    var w := x[WordOf(i)];
    var b := if i < 16 then FF(r.a, r.b, r.c, r.d, w, Shift(i), T(i))
             else if i < 32 then GG(r.a, r.b, r.c, r.d, w, Shift(i), T(i))
             else if i < 48 then HH(r.a, r.b, r.c, r.d, w, Shift(i), T(i))
             else II(r.a, r.b, r.c, r.d, w, Shift(i), T(i));
    Regs(r.d, b, r.b, r.c)
  }

  function Operations(n: nat, r: Regs, x: seq<u32>): Regs
    requires n <= 64 && |x| == 16
  {
    if n == 0 then r else Operation(n - 1, Operations(n - 1, r, x), x)
  }

  /** Little-endian words of a block, and little-endian bytes of words. */
  function LittleEndian(b0: int, b1: int, b2: int, b3: int): int {
    b0 + 0x100 * b1 + 0x1_0000 * b2 + 0x100_0000 * b3
  }

  function WordAt(s: seq<byte>, j: nat): u32 requires j + 4 <= |s| {
    LittleEndian(s[j], s[j + 1], s[j + 2], s[j + 3])
  }

  function Decoded(s: seq<byte>): (x: seq<u32>)
    requires |s| % 4 == 0
    ensures |x| == |s| / 4
  {
    seq(|s| / 4, i requires 0 <= i < |s| / 4 => WordAt(s, 4 * i))
  }

  function WordByte(w: u32, k: nat): byte {
    match k
    case 0 => w % 0x100
    case 1 => w / 0x100 % 0x100
    case 2 => w / 0x1_0000 % 0x100
    case _ => w / 0x100_0000 % 0x100
  }

  function Encoded(x: seq<u32>): (s: seq<byte>)
    ensures |s| == 4 * |x|
  {
    seq(4 * |x|, j requires 0 <= j < 4 * |x| => WordByte(x[j / 4], j % 4))
  }

  /** Section 3.4: one block of 64 bytes. */
  function Compress(r: Regs, block: seq<byte>): Regs {
    if |block| != 64 then r else
    var x := Decoded(block);
    var z := Operations(4 * |x|, r, x);
    Regs(Add32(r.a, z.a), Add32(r.b, z.b), Add32(r.c, z.c), Add32(r.d, z.d))
  }

  /** Sections 3.1 and 3.2: a one bit, zeros up to 448 modulo 512 bits, and the 64-bit length. */
  function Zeros(n: nat): (s: seq<byte>) ensures |s| == n { seq(n, _ => 0) }

  function LengthWords(n: nat): seq<u32> {
    [8 * n % 0x1_0000_0000, 8 * n / 0x1_0000_0000 % 0x1_0000_0000]
  }

  function PadLength(n: nat): (p: nat)
    ensures 1 <= p <= 64 && (n + p) % 64 == 56
  {
    if n % 64 < 56 then 56 - n % 64 else 120 - n % 64
  }

  function Padded(s: seq<byte>): seq<byte> {
    s + [0x80] + Zeros(PadLength(|s|) - 1) + Encoded(LengthWords(|s|))
  }

  function OutputWords(r: Regs): (w: seq<u32>) ensures |w| == 4 { [r.a, r.b, r.c, r.d] }

  /** The one-shot digest of RFC 1321. */
  function Digest(s: seq<byte>): seq<byte> {
    Encoded(OutputWords(Absorb(Compress, IV, Padded(s))))
  }

  // ----- Facts about the reference -----

  /** Padding fills the last block exactly, so no byte of it is left out of the digest. */
  lemma PaddedIsWhole(s: seq<byte>)
    ensures Whole(|Padded(s)|) && |s| + 9 <= |Padded(s)| <= |s| + 72 && s <= Padded(s)
  {
    hide Encoded, Whole, PadLength;
    WholeIsMultiple(|Padded(s)|);
    var n := |s| + PadLength(|s|);
    assert |Padded(s)| == n + 8;
    EightMore(n);
  }

  lemma EightMore(n: nat)
    requires n % 64 == 56
    ensures (n + 8) % 64 == 0
  {
  }

  /** MD5Encode undoes MD5Decode. */
  lemma EncodeDecode(s: seq<byte>)
    requires |s| % 4 == 0
    ensures Encoded(Decoded(s)) == s
  {
    var e := Encoded(Decoded(s));
    forall j | 0 <= j < |s| ensures e[j] == s[j] {
      WordBytes(s, 4 * (j / 4));
    }
  }

  lemma WordBytes(s: seq<byte>, i: nat)
    requires i + 4 <= |s|
    ensures forall k :: 0 <= k < 4 ==> WordByte(WordAt(s, i), k) == s[i + k]
  {
    BytesOf(s[i], s[i + 1], s[i + 2], s[i + 3]);
  }

  lemma BytesOf(b0: byte, b1: byte, b2: byte, b3: byte)
    ensures var w := LittleEndian(b0, b1, b2, b3);
            w % 0x100 == b0 && w / 0x100 % 0x100 == b1 && w / 0x1_0000 % 0x100 == b2 && w / 0x100_0000 % 0x100 == b3
  {
    LowByte(b0, LittleEndian(b1, b2, b3, 0));
    LowByte(b1, LittleEndian(b2, b3, 0, 0));
    LowByte(b2, b3);
    LowTwo(b0 + 0x100 * b1 as int, LittleEndian(b2, b3, 0, 0));
    LowThree(LittleEndian(b0, b1, b2, 0), b3);
  }

  lemma LowByte(r: nat, q: nat)
    requires r < 0x100
    ensures (r + 0x100 * q) % 0x100 == r && (r + 0x100 * q) / 0x100 == q
  {
  }

  lemma LowTwo(r: nat, q: nat)
    requires r < 0x1_0000
    ensures (r + 0x1_0000 * q) / 0x1_0000 == q
  {
  }

  lemma LowThree(r: nat, q: nat)
    requires r < 0x100_0000
    ensures (r + 0x100_0000 * q) / 0x100_0000 == q
  {
  }

  // ----- The code -----

  method Md5Encode(output: array<byte>, input: array<u32>, len: nat)
    requires len % 4 == 0 && len <= output.Length && len <= 4 * input.Length
    requires output as object != input
    modifies output
    ensures output[..len] == Encoded(input[..len / 4])
    ensures forall j :: len <= j < output.Length ==> output[j] == old(output[j])
  {
    var i, j := 0, 0;
    while j < len
      invariant j == 4 * i <= len
      invariant forall k :: 0 <= k < j ==> output[k] == WordByte(input[k / 4], k % 4)
      invariant forall k :: j <= k < output.Length ==> output[k] == old(output[k])
    {
      output[j] := input[i] % 0x100;
      output[j + 1] := input[i] / 0x100 % 0x100;
      output[j + 2] := input[i] / 0x1_0000 % 0x100;
      output[j + 3] := input[i] / 0x100_0000 % 0x100;
      i := i + 1;
      j := j + 4;
    }
  }

  method Md5Decode(output: array<u32>, input: array<byte>, from: nat, len: nat)
    requires len % 4 == 0 && from + len <= input.Length && len <= 4 * output.Length
    requires output as object != input
    modifies output
    ensures output[..len / 4] == Decoded(input[from..from + len])
  {
    ghost var s := input[from..from + len];
    var i, j := 0, 0;
    while j < len
      invariant j == 4 * i <= len && s == input[from..from + len]
      invariant forall k :: 0 <= k < i ==> output[k] == WordAt(s, 4 * k)
    {
      hide LittleEndian;
      assert WordAt(s, j)
             == LittleEndian(input[from + j], input[from + j + 1], input[from + j + 2], input[from + j + 3]);
      output[i] := LittleEndian(input[from + j], input[from + j + 1], input[from + j + 2], input[from + j + 3]);
      i := i + 1;
      j := j + 4;
    }
  }

  /** Operations 1 to 16. */
  method Round1(ghost r: Regs, x: array<u32>, a0: u32, b0: u32, c0: u32, d0: u32)
    returns (a: u32, b: u32, c: u32, d: u32)
    requires x.Length >= 16
    requires Regs(a0, b0, c0, d0) == r
    ensures Regs(a, b, c, d) == Operations(16, r, x[..16])
  {
    hide FF, GG, HH, II;
    a, b, c, d := a0, b0, c0, d0;
    a := FF(a, b, c, d, x[0], 7, 0xd76aa478);  assert Operations(1, r, x[..16]) == Regs(d, a, b, c);
    d := FF(d, a, b, c, x[1], 12, 0xe8c7b756);  assert Operations(2, r, x[..16]) == Regs(c, d, a, b);
    c := FF(c, d, a, b, x[2], 17, 0x242070db);  assert Operations(3, r, x[..16]) == Regs(b, c, d, a);
    b := FF(b, c, d, a, x[3], 22, 0xc1bdceee);  assert Operations(4, r, x[..16]) == Regs(a, b, c, d);
    a := FF(a, b, c, d, x[4], 7, 0xf57c0faf);  assert Operations(5, r, x[..16]) == Regs(d, a, b, c);
    d := FF(d, a, b, c, x[5], 12, 0x4787c62a);  assert Operations(6, r, x[..16]) == Regs(c, d, a, b);
    c := FF(c, d, a, b, x[6], 17, 0xa8304613);  assert Operations(7, r, x[..16]) == Regs(b, c, d, a);
    b := FF(b, c, d, a, x[7], 22, 0xfd469501);  assert Operations(8, r, x[..16]) == Regs(a, b, c, d);
    a := FF(a, b, c, d, x[8], 7, 0x698098d8);  assert Operations(9, r, x[..16]) == Regs(d, a, b, c);
    d := FF(d, a, b, c, x[9], 12, 0x8b44f7af);  assert Operations(10, r, x[..16]) == Regs(c, d, a, b);
    c := FF(c, d, a, b, x[10], 17, 0xffff5bb1);  assert Operations(11, r, x[..16]) == Regs(b, c, d, a);
    b := FF(b, c, d, a, x[11], 22, 0x895cd7be);  assert Operations(12, r, x[..16]) == Regs(a, b, c, d);
    a := FF(a, b, c, d, x[12], 7, 0x6b901122);  assert Operations(13, r, x[..16]) == Regs(d, a, b, c);
    d := FF(d, a, b, c, x[13], 12, 0xfd987193);  assert Operations(14, r, x[..16]) == Regs(c, d, a, b);
    c := FF(c, d, a, b, x[14], 17, 0xa679438e);  assert Operations(15, r, x[..16]) == Regs(b, c, d, a);
    b := FF(b, c, d, a, x[15], 22, 0x49b40821);  assert Operations(16, r, x[..16]) == Regs(a, b, c, d);
  }

  /** Operations 17 to 32. */
  method Round2(ghost r: Regs, x: array<u32>, a0: u32, b0: u32, c0: u32, d0: u32)
    returns (a: u32, b: u32, c: u32, d: u32)
    requires x.Length >= 16
    requires Regs(a0, b0, c0, d0) == Operations(16, r, x[..16])
    ensures Regs(a, b, c, d) == Operations(32, r, x[..16])
  {
    hide FF, GG, HH, II;
    a, b, c, d := a0, b0, c0, d0;
    a := GG(a, b, c, d, x[1], 5, 0xf61e2562);  assert Operations(17, r, x[..16]) == Regs(d, a, b, c);
    d := GG(d, a, b, c, x[6], 9, 0xc040b340);  assert Operations(18, r, x[..16]) == Regs(c, d, a, b);
    c := GG(c, d, a, b, x[11], 14, 0x265e5a51);  assert Operations(19, r, x[..16]) == Regs(b, c, d, a);
    b := GG(b, c, d, a, x[0], 20, 0xe9b6c7aa);  assert Operations(20, r, x[..16]) == Regs(a, b, c, d);
    a := GG(a, b, c, d, x[5], 5, 0xd62f105d);  assert Operations(21, r, x[..16]) == Regs(d, a, b, c);
    d := GG(d, a, b, c, x[10], 9, 0x2441453);  assert Operations(22, r, x[..16]) == Regs(c, d, a, b);
    c := GG(c, d, a, b, x[15], 14, 0xd8a1e681);  assert Operations(23, r, x[..16]) == Regs(b, c, d, a);
    b := GG(b, c, d, a, x[4], 20, 0xe7d3fbc8);  assert Operations(24, r, x[..16]) == Regs(a, b, c, d);
    a := GG(a, b, c, d, x[9], 5, 0x21e1cde6);  assert Operations(25, r, x[..16]) == Regs(d, a, b, c);
    d := GG(d, a, b, c, x[14], 9, 0xc33707d6);  assert Operations(26, r, x[..16]) == Regs(c, d, a, b);
    c := GG(c, d, a, b, x[3], 14, 0xf4d50d87);  assert Operations(27, r, x[..16]) == Regs(b, c, d, a);
    b := GG(b, c, d, a, x[8], 20, 0x455a14ed);  assert Operations(28, r, x[..16]) == Regs(a, b, c, d);
    a := GG(a, b, c, d, x[13], 5, 0xa9e3e905);  assert Operations(29, r, x[..16]) == Regs(d, a, b, c);
    d := GG(d, a, b, c, x[2], 9, 0xfcefa3f8);  assert Operations(30, r, x[..16]) == Regs(c, d, a, b);
    c := GG(c, d, a, b, x[7], 14, 0x676f02d9);  assert Operations(31, r, x[..16]) == Regs(b, c, d, a);
    b := GG(b, c, d, a, x[12], 20, 0x8d2a4c8a);  assert Operations(32, r, x[..16]) == Regs(a, b, c, d);
  }

  /** Operations 33 to 40. */
  method Round3Head(ghost r: Regs, x: array<u32>, a0: u32, b0: u32, c0: u32, d0: u32)
    returns (a: u32, b: u32, c: u32, d: u32)
    requires x.Length >= 16
    requires Regs(a0, b0, c0, d0) == Operations(32, r, x[..16])
    ensures Regs(a, b, c, d) == Operations(40, r, x[..16])
  {
    hide FF, GG, HH, II;
    a, b, c, d := a0, b0, c0, d0;
    a := HH(a, b, c, d, x[5], 4, 0xfffa3942);  assert Operations(33, r, x[..16]) == Regs(d, a, b, c);
    d := HH(d, a, b, c, x[8], 11, 0x8771f681);  assert Operations(34, r, x[..16]) == Regs(c, d, a, b);
    c := HH(c, d, a, b, x[11], 16, 0x6d9d6122);  assert Operations(35, r, x[..16]) == Regs(b, c, d, a);
    b := HH(b, c, d, a, x[14], 23, 0xfde5380c);  assert Operations(36, r, x[..16]) == Regs(a, b, c, d);
    a := HH(a, b, c, d, x[1], 4, 0xa4beea44);  assert Operations(37, r, x[..16]) == Regs(d, a, b, c);
    d := HH(d, a, b, c, x[4], 11, 0x4bdecfa9);  assert Operations(38, r, x[..16]) == Regs(c, d, a, b);
    c := HH(c, d, a, b, x[7], 16, 0xf6bb4b60);  assert Operations(39, r, x[..16]) == Regs(b, c, d, a);
    b := HH(b, c, d, a, x[10], 23, 0xbebfbc70);  assert Operations(40, r, x[..16]) == Regs(a, b, c, d);
  }

  /** Operations 41 to 48. */
  method Round3Tail(ghost r: Regs, x: array<u32>, a0: u32, b0: u32, c0: u32, d0: u32)
    returns (a: u32, b: u32, c: u32, d: u32)
    requires x.Length >= 16
    requires Regs(a0, b0, c0, d0) == Operations(40, r, x[..16])
    ensures Regs(a, b, c, d) == Operations(48, r, x[..16])
  {
    hide FF, GG, HH, II;
    a, b, c, d := a0, b0, c0, d0;
    a := HH(a, b, c, d, x[13], 4, 0x289b7ec6);  assert Operations(41, r, x[..16]) == Regs(d, a, b, c);
    d := HH(d, a, b, c, x[0], 11, 0xeaa127fa);  assert Operations(42, r, x[..16]) == Regs(c, d, a, b);
    c := HH(c, d, a, b, x[3], 16, 0xd4ef3085);  assert Operations(43, r, x[..16]) == Regs(b, c, d, a);
    b := HH(b, c, d, a, x[6], 23, 0x4881d05);  assert Operations(44, r, x[..16]) == Regs(a, b, c, d);
    a := HH(a, b, c, d, x[9], 4, 0xd9d4d039);  assert Operations(45, r, x[..16]) == Regs(d, a, b, c);
    d := HH(d, a, b, c, x[12], 11, 0xe6db99e5);  assert Operations(46, r, x[..16]) == Regs(c, d, a, b);
    c := HH(c, d, a, b, x[15], 16, 0x1fa27cf8);  assert Operations(47, r, x[..16]) == Regs(b, c, d, a);
    b := HH(b, c, d, a, x[2], 23, 0xc4ac5665);  assert Operations(48, r, x[..16]) == Regs(a, b, c, d);
  }

  /** Operations 33 to 48. */
  method Round3(ghost r: Regs, x: array<u32>, a0: u32, b0: u32, c0: u32, d0: u32)
    returns (a: u32, b: u32, c: u32, d: u32)
    requires x.Length >= 16
    requires Regs(a0, b0, c0, d0) == Operations(32, r, x[..16])
    ensures Regs(a, b, c, d) == Operations(48, r, x[..16])
  {
    hide Operations;
    a, b, c, d := Round3Head(r, x, a0, b0, c0, d0);
    a, b, c, d := Round3Tail(r, x, a, b, c, d);
  }

  /** Operations 49 to 56. */
  method Round4Head(ghost r: Regs, x: array<u32>, a0: u32, b0: u32, c0: u32, d0: u32)
    returns (a: u32, b: u32, c: u32, d: u32)
    requires x.Length >= 16
    requires Regs(a0, b0, c0, d0) == Operations(48, r, x[..16])
    ensures Regs(a, b, c, d) == Operations(56, r, x[..16])
  {
    hide FF, GG, HH, II;
    a, b, c, d := a0, b0, c0, d0;
    a := II(a, b, c, d, x[0], 6, 0xf4292244);  assert Operations(49, r, x[..16]) == Regs(d, a, b, c);
    d := II(d, a, b, c, x[7], 10, 0x432aff97);  assert Operations(50, r, x[..16]) == Regs(c, d, a, b);
    c := II(c, d, a, b, x[14], 15, 0xab9423a7);  assert Operations(51, r, x[..16]) == Regs(b, c, d, a);
    b := II(b, c, d, a, x[5], 21, 0xfc93a039);  assert Operations(52, r, x[..16]) == Regs(a, b, c, d);
    a := II(a, b, c, d, x[12], 6, 0x655b59c3);  assert Operations(53, r, x[..16]) == Regs(d, a, b, c);
    d := II(d, a, b, c, x[3], 10, 0x8f0ccc92);  assert Operations(54, r, x[..16]) == Regs(c, d, a, b);
    c := II(c, d, a, b, x[10], 15, 0xffeff47d);  assert Operations(55, r, x[..16]) == Regs(b, c, d, a);
    b := II(b, c, d, a, x[1], 21, 0x85845dd1);  assert Operations(56, r, x[..16]) == Regs(a, b, c, d);
  }

  /** Operations 57 to 64. */
  method Round4Tail(ghost r: Regs, x: array<u32>, a0: u32, b0: u32, c0: u32, d0: u32)
    returns (a: u32, b: u32, c: u32, d: u32)
    requires x.Length >= 16
    requires Regs(a0, b0, c0, d0) == Operations(56, r, x[..16])
    ensures Regs(a, b, c, d) == Operations(64, r, x[..16])
  {
    hide FF, GG, HH, II;
    a, b, c, d := a0, b0, c0, d0;
    a := II(a, b, c, d, x[8], 6, 0x6fa87e4f);  assert Operations(57, r, x[..16]) == Regs(d, a, b, c);
    d := II(d, a, b, c, x[15], 10, 0xfe2ce6e0);  assert Operations(58, r, x[..16]) == Regs(c, d, a, b);
    c := II(c, d, a, b, x[6], 15, 0xa3014314);  assert Operations(59, r, x[..16]) == Regs(b, c, d, a);
    b := II(b, c, d, a, x[13], 21, 0x4e0811a1);  assert Operations(60, r, x[..16]) == Regs(a, b, c, d);
    a := II(a, b, c, d, x[4], 6, 0xf7537e82);  assert Operations(61, r, x[..16]) == Regs(d, a, b, c);
    d := II(d, a, b, c, x[11], 10, 0xbd3af235);  assert Operations(62, r, x[..16]) == Regs(c, d, a, b);
    c := II(c, d, a, b, x[2], 15, 0x2ad7d2bb);  assert Operations(63, r, x[..16]) == Regs(b, c, d, a);
    b := II(b, c, d, a, x[9], 21, 0xeb86d391);  assert Operations(64, r, x[..16]) == Regs(a, b, c, d);
  }

  /** Operations 49 to 64. */
  method Round4(ghost r: Regs, x: array<u32>, a0: u32, b0: u32, c0: u32, d0: u32)
    returns (a: u32, b: u32, c: u32, d: u32)
    requires x.Length >= 16
    requires Regs(a0, b0, c0, d0) == Operations(48, r, x[..16])
    ensures Regs(a, b, c, d) == Operations(64, r, x[..16])
  {
    hide Operations;
    a, b, c, d := Round4Head(r, x, a0, b0, c0, d0);
    a, b, c, d := Round4Tail(r, x, a, b, c, d);
  }

  function Registers(state: array<u32>): Regs
    requires state.Length == 4
    reads state
  {
    Regs(state[0], state[1], state[2], state[3])
  }

  method Md5Transform(state: array<u32>, block: array<byte>, from: nat)
    requires state.Length == 4 && from + 64 <= block.Length && state as object != block
    modifies state
    ensures Registers(state) == Compress(old(Registers(state)), old(block[from..from + 64]))
  {
    hide Operations;
    ghost var r := Registers(state);
    var x := new u32[64];
    Md5Decode(x, block, from, 64);
    var a, b, c, d := state[0], state[1], state[2], state[3];
    a, b, c, d := Round1(r, x, a, b, c, d);
    a, b, c, d := Round2(r, x, a, b, c, d);
    a, b, c, d := Round3(r, x, a, b, c, d);
    a, b, c, d := Round4(r, x, a, b, c, d);
    state[0] := Add32(state[0], a);
    state[1] := Add32(state[1], b);
    state[2] := Add32(state[2], c);
    state[3] := Add32(state[3], d);
  }

  /** memcpy between two distinct buffers. */
  method Copy(dst: array<byte>, at: nat, src: array<byte>, from: nat, n: nat)
    requires at + n <= dst.Length && from + n <= src.Length && dst != src
    modifies dst
    ensures dst[..] == old(dst[..at]) + src[from..from + n] + old(dst[at + n..])
  {
    forall k | 0 <= k < n {
      dst[at + k] := src[from + k];
    }
  }

  /** Whether `i + 64` still fits an unsigned int at the stop offset, so that the loop can stop there. */
  predicate GuardFits(index: nat, inputlen: nat)
    requires index < 64
  {
    inputlen >= 64 - index ==> StopOffset(index, inputlen) + 64 < 0x1_0000_0000
  }

  /**
   * The loop test `i + 64 <= inputlen` is computed in 32 bits. At the stop offset, where less than a
   * block is left, it is false exactly when the sum fits; otherwise the loop goes on past the input.
   */
  lemma LoopStopsIff(index: nat, inputlen: u32)
    requires index < 64 && inputlen >= 64 - index
    ensures var i := StopOffset(index, inputlen); 64 - index <= i <= inputlen < i + 64
    ensures !(Add32(StopOffset(index, inputlen), 64) <= inputlen) <==> GuardFits(index, inputlen)
    ensures inputlen <= 0x1_0000_0000 - 128 ==> GuardFits(index, inputlen)
  {
  }

  /** The offset after `n` turns of the loop. */
  function Turns(partlen: nat, n: nat): u32
    requires partlen <= 64
  {
    if n == 0 then partlen else Add32(Turns(partlen, n - 1), 64)
  }

  /** The test `i + 64 <= inputlen` fails after `n` turns. */
  predicate EndsAfter(index: nat, inputlen: u32, n: nat)
    requires index < 64
  {
    !(Add32(Turns(64 - index, n), 64) <= inputlen)
  }

  /** Wrapping keeps the distance to whole blocks. */
  lemma OffsetsAligned(i: u32, partlen: nat)
    requires partlen <= 64 && (i - partlen) % 64 == 0
    ensures (Add32(i, 64) - partlen) % 64 == 0
  {
    var k := (i - partlen) / 64;
    if i + 64 >= 0x1_0000_0000 { assert Add32(i, 64) - partlen == 64 * (k + 1 - 0x400_0000); }
  }

  /** Where the sum wraps at the stop offset, the test holds at every offset the loop can reach. */
  lemma TestHolds(i: u32, index: nat, inputlen: u32)
    requires index < 64 && inputlen >= 64 - index && !GuardFits(index, inputlen)
    requires (i - (64 - index)) % 64 == 0
    ensures Add32(i, 64) <= inputlen
  {
    var stop := StopOffset(index, inputlen);
    if i + 64 < 0x1_0000_0000 {
      var a, b := (i - (64 - index)) / 64, (stop - (64 - index)) / 64;
      assert (stop - (64 - index)) % 64 == 0 by { WholeMultiple(inputlen - (64 - index)); }
      assert i < stop;
      assert 64 * a < 64 * b;
    }
  }

  lemma WholeMultiple(left: nat)
    ensures (left - left % 64) % 64 == 0
  {
  }

  lemma {:induction false} TurnsAligned(index: nat, n: nat)
    requires index < 64
    ensures (Turns(64 - index, n) - (64 - index)) % 64 == 0
  {
    if n > 0 {
      TurnsAligned(index, n - 1);
      OffsetsAligned(Turns(64 - index, n - 1), 64 - index);
    }
  }

  lemma {:induction false} TurnsBelow(index: nat, inputlen: u32, n: nat)
    requires index < 64 && 64 - index + 64 * n < 0x1_0000_0000
    ensures Turns(64 - index, n) == 64 - index + 64 * n
  {
    if n > 0 { TurnsBelow(index, inputlen, n - 1); }
  }

  /** The block loop ends, after whatever number of turns, if and only if the sum fits at the stop offset. */
  lemma LoopEndsIff(index: nat, inputlen: u32)
    requires index < 64 && inputlen >= 64 - index
    ensures (exists n: nat :: EndsAfter(index, inputlen, n)) <==> GuardFits(index, inputlen)
  {
    var partlen := 64 - index;
    if GuardFits(index, inputlen) {
      var n: nat := (inputlen - partlen) / 64;
      assert StopOffset(index, inputlen) == partlen + 64 * n;
      TurnsBelow(index, inputlen, n);
      LoopStopsIff(index, inputlen);
      assert EndsAfter(index, inputlen, n);
    } else {
      forall n: nat ensures !EndsAfter(index, inputlen, n) {
        TurnsAligned(index, n);
        TestHolds(Turns(partlen, n), index, inputlen);
      }
    }
  }

  /** An input on which it never ends: 2^32 - 1 bytes for a context that holds no pending bytes. */
  lemma LoopForever(n: nat)
    ensures !EndsAfter(0, 0xffff_ffff, n) && !GuardFits(0, 0xffff_ffff)
  {
    LoopEndsIff(0, 0xffff_ffff);
  }

  /** `count` holds eight times the length modulo 2^64, in two words with a carry. */
  ghost predicate Counts(lo: u32, hi: u32, n: nat) {
    lo + 0x1_0000_0000 * hi == 8 * n % 0x1_0000_0000_0000_0000
  }

  lemma CountIndex(lo: u32, hi: u32, n: nat)
    requires Counts(lo, hi, n)
    ensures lo / 8 % 64 == Pending(n)
  {
    var q := 8 * n / 0x1_0000_0000_0000_0000;
    assert 8 * n == lo + 0x1_0000_0000 * hi + 0x1_0000_0000_0000_0000 * q;
    EighthsMod64(lo, n, 0x80_0000 * hi + 0x80_0000_0000_0000 * q);
  }

  lemma EighthsMod64(lo: nat, n: nat, k: int)
    requires 8 * n == lo + 512 * k
    ensures lo / 8 % 64 == n % 64
  {
    assert n == lo / 8 + 64 * k;
  }

  lemma CountWords(lo: u32, hi: u32, n: nat)
    requires Counts(lo, hi, n)
    ensures [lo, hi] == LengthWords(n)
  {
    assert 8 * n == lo + 0x1_0000_0000 * hi + 0x1_0000_0000_0000_0000 * (8 * n / 0x1_0000_0000_0000_0000);
    assert 8 * n / 0x1_0000_0000 == hi + 0x1_0000_0000 * (8 * n / 0x1_0000_0000_0000_0000);
  }

  lemma Remainder64(x: int, r: int, q: int)
    requires 0 <= r < 0x1_0000_0000_0000_0000 && x == r + 0x1_0000_0000_0000_0000 * q
    ensures x % 0x1_0000_0000_0000_0000 == r
  {
  }

  /** The comparison MD5Update detects the carry with. */
  lemma Carry(x: u32, y: u32)
    ensures x + y == Add32(x, y) + 0x1_0000_0000 * (if Add32(x, y) < y then 1 else 0)
  {
  }

  /** The 64-bit sum of the two-word count and `8 * len`, the carry taken from the wrapped low word. */
  lemma CountCarry(lo: u32, hi: u32, carry: int, n: nat, len: u32)
    requires Counts(lo, hi, n)
    requires carry == if Add32(lo, Wrap32(8 * len)) < Wrap32(8 * len) then 1 else 0
    ensures Counts(Add32(lo, Wrap32(8 * len)), Add32(Add32(hi, carry), len / 0x2000_0000), n + len)
  {
    var bits, high := Wrap32(8 * len), len / 0x2000_0000;
    assert 8 * len == bits + 0x1_0000_0000 * high;
    Carry(lo, bits);
    Carry(hi, carry);
    Carry(Add32(hi, carry), high);
    hide Wrap32, Add32;
    var lo', hi' := Add32(lo, bits), Add32(Add32(hi, carry), high);
    var q := (if Add32(hi, carry) < carry then 1 else 0) + (if hi' < high then 1 else 0);
    assert hi + carry + high == hi' + 0x1_0000_0000 * q;
    Remainder64(8 * (n + len), lo' + 0x1_0000_0000 * hi', 8 * n / 0x1_0000_0000_0000_0000 + q);
  }

  lemma SliceOfPrefix(a: array<byte>, n: nat, i: nat, j: nat)
    requires i <= j <= n <= a.Length
    ensures a[..n][i..j] == a[i..j]
  {
    forall k | 0 <= k < j - i ensures a[..n][i..j][k] == a[i..j][k] {
    }
  }

  class Md5Context {
    const count: array<u32>
    const state: array<u32>
    const buffer: array<byte>
    /** Every byte given to Update since Init. */
    ghost var fed: seq<byte>

    ghost predicate Valid()
      reads this, count, state, buffer
    {
      && count.Length == 2 && state.Length == 4 && buffer.Length == 64
      && count != state && count as object != buffer && state as object != buffer
      && Counts(count[0], count[1], |fed|)
      && Registers(state) == Absorb(Compress, IV, fed)
      && buffer[..Pending(|fed|)] == Tail(fed)
    }

    constructor ()
      ensures Valid() && fed == [] && fresh(count) && fresh(state) && fresh(buffer)
    {
      count := new u32[2];
      state := new u32[4];
      buffer := new byte[64];
      fed := [];
      new;
      Init();
    }

    /** MD5Init. */
    method Init()
      requires count.Length == 2 && state.Length == 4 && buffer.Length == 64
      requires count != state && count as object != buffer && state as object != buffer
      modifies this`fed, count, state
      ensures Valid() && fed == []
    {
      count[0] := 0;
      count[1] := 0;
      state[0] := 0x67452301;
      state[1] := 0xEFCDAB89;
      state[2] := 0x98BADCFE;
      state[3] := 0x10325476;
      fed := [];
    }

    /** The bookkeeping of `count` at the head of MD5Update. */
    method BumpCount(inputlen: u32)
      requires Valid()
      modifies count
      ensures Counts(count[0], count[1], |fed| + inputlen)
    {
      hide Counts, Absorb, Compress;
      ghost var lo, hi, carry := count[0], count[1], 0;
      var bits := Wrap32(8 * inputlen);
      count[0] := Add32(count[0], bits);
      if count[0] < bits {
        count[1] := Add32(count[1], 1);
        carry := 1;
      }
      count[1] := Add32(count[1], inputlen / 0x2000_0000);
      CountCarry(lo, hi, carry, |fed|, inputlen);
    }

    /** The block loop of MD5Update: every whole block of `input` from `partlen` on. */
    method AbsorbBlocks(input: array<byte>, partlen: nat, inputlen: u32, ghost stop: nat) returns (i: nat)
      requires partlen <= stop <= inputlen < stop + 64 && Whole(stop - partlen)
      requires stop + 64 < 0x1_0000_0000 && inputlen <= input.Length
      requires state.Length == 4 && input as object != state
      modifies state
      ensures i == stop
      ensures Registers(state) == Absorb(Compress, old(Registers(state)), old(input[partlen..inputlen]))
    {
      hide Compress, Absorb;
      ghost var s := input[..inputlen];
      ghost var r := Absorb(Compress, Registers(state), s[partlen..]);
      assert s[partlen..] == input[partlen..inputlen];
      i := partlen;
      while Add32(i, 64) <= inputlen
        invariant partlen <= i <= stop && Whole(i - partlen) && Whole(stop - i)
        invariant s == input[..inputlen] && Absorb(Compress, Registers(state), s[i..]) == r
        decreases stop - i
      {
        NextBlock(Compress, Registers(state), s, partlen, i, stop);
        SliceOfPrefix(input, inputlen, i, i + 64);
        Md5Transform(state, input, i);
        i := Add32(i, 64);
      }
      AbsorbShort(Compress, Registers(state), s[i..]);
    }

    /** The branch of MD5Update that completes the buffered block and goes on with whole blocks of the input. */
    method CompleteBlock(input: array<byte>, index: nat, inputlen: u32) returns (i: nat)
      requires state.Length == 4 && buffer.Length == 64 && state as object != buffer && input as object != state
      requires index < 64 && 64 - index <= inputlen <= input.Length && input != buffer && GuardFits(index, inputlen)
      modifies state, buffer
      ensures i == StopOffset(index, inputlen)
      ensures var partlen := 64 - index;
              Registers(state)
              == Absorb(Compress, Compress(old(Registers(state)), old(buffer[..index]) + input[..partlen]),
                        input[..inputlen][partlen..])
    {
      hide Compress, Absorb;
      var partlen := 64 - index;
      StopIsWhole(partlen, inputlen);
      ghost var stop := StopOffset(index, inputlen);
      hide StopOffset, GuardFits, Whole;
      Copy(buffer, index, input, 0, partlen);
      assert buffer[0..64] == old(buffer[..index]) + input[..partlen];
      Md5Transform(state, buffer, 0);
      i := AbsorbBlocks(input, partlen, inputlen, stop);
      SliceOfPrefix(input, inputlen, partlen, inputlen);
    }

    /** MD5Update. */
    method Update(input: array<byte>, inputlen: u32)
      requires Valid() && inputlen <= input.Length
      requires input != buffer && input as object != count && input as object != state
      requires GuardFits(Pending(|fed|), inputlen)
      modifies this`fed, count, state, buffer
      ensures Valid() && fed == old(fed) + input[..inputlen]
    {
      hide Compress, Absorb, Counts, Tail, Pending, StopOffset, GuardFits, Whole;
      var i, index := 0, count[0] / 8 % 64;
      var partlen := 64 - index;
      CountIndex(count[0], count[1], |fed|);
      BumpCount(inputlen);
      ghost var t, chunk := Tail(fed), input[..inputlen];
      ghost var head := SplitTail(fed);
      if inputlen >= partlen {
        StopIsWhole(partlen, inputlen);
        assert chunk[..partlen] == input[..partlen];
        i := CompleteBlock(input, index, inputlen);
        LongChunkAt(Compress, IV, head, t, chunk, partlen, i);
        index := 0;
      } else {
        i := 0;
        ShortChunk(Compress, IV, head, t, chunk);
      }
      Copy(buffer, index, input, i, inputlen - i);
      fed := fed + chunk;
    }

    /** MD5Final. */
    method Final(digest: array<byte>)
      requires Valid() && digest.Length >= 16
      requires digest != buffer && digest as object != count && digest as object != state
      modifies this`fed, count, state, buffer, digest
      ensures digest[..16] == Digest(old(fed))
    {
      hide Compress, Absorb, Encoded, Tail, Counts;
      ghost var message := fed;
      CountIndex(count[0], count[1], |fed|);
      CountWords(count[0], count[1], |fed|);
      var index := count[0] / 8 % 64;
      var padlen := if index < 56 then 56 - index else 120 - index;
      var padding := new byte[64](k => if k == 0 then 0x80 else 0);
      var bits := new byte[8];
      Md5Encode(bits, count, 8);
      assert count[..2] == LengthWords(|message|);
      assert padding[..padlen] == [0x80] + Zeros(padlen - 1) && bits[..8] == Encoded(LengthWords(|message|));
      Update(padding, padlen);
      Update(bits, 8);
      assert fed == Padded(message);
      Md5Encode(digest, state, 16);
      assert state[..16 / 4] == OutputWords(Registers(state));
    }
  }

  /** No update meets an input so long that its block loop cannot stop. */
  ghost predicate ChunksFit(chunks: seq<seq<byte>>) {
    forall n :: 0 <= n < |chunks| ==>
      |chunks[n]| < 0x1_0000_0000 && GuardFits(Pending(|Joined(chunks[..n])|), |chunks[n]|)
  }

  lemma JoinedNext(chunks: seq<seq<byte>>, n: nat)
    requires n < |chunks|
    ensures Joined(chunks[..n + 1]) == Joined(chunks[..n]) + chunks[n]
  {
    assert chunks[..n + 1][..n] == chunks[..n];
  }

  ghost function Texts(inputs: seq<array<byte>>): (r: seq<seq<byte>>)
    reads inputs
    ensures |r| == |inputs|
  {
    seq(|inputs|, i requires 0 <= i < |inputs| reads inputs => inputs[i][..])
  }

  /** Init, any sequence of updates, Final: the digest of the joined chunks, however they were cut. */
  method DigestOfChunks(inputs: seq<array<byte>>) returns (d: seq<byte>)
    requires ChunksFit(Texts(inputs))
    ensures d == Digest(Joined(Texts(inputs)))
  {
    hide Digest, GuardFits, Pending, Md5Context.Valid, Joined;
    ghost var chunks := Texts(inputs);
    assert Joined(chunks[..0]) == [] by { JoinedNone(chunks); }
    var context := new Md5Context();
    var n := 0;
    while n < |inputs|
      invariant n <= |inputs| && context.Valid() && context.fed == Joined(chunks[..n]) && Texts(inputs) == chunks
      invariant fresh(context) && fresh(context.count) && fresh(context.state) && fresh(context.buffer)
    {
      JoinedNext(chunks, n);
      assert inputs[n][..] == chunks[n];
      context.Update(inputs[n], inputs[n].Length);
      n := n + 1;
    }
    assert chunks[..n] == chunks;
    var digest := new byte[16];
    context.Final(digest);
    d := digest[..16];
  }

  lemma JoinedNone(chunks: seq<seq<byte>>)
    ensures Joined(chunks[..0]) == []
  {
  }
}
