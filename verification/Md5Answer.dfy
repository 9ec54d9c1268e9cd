/** A known answer: the digest of the alphabet, as section A.5 of RFC 1321 gives it. */
module Md5Answer {
  import opened Words
  import opened BlockStream
  import opened Md5
  import opened Md5Facts

  /** "abcdefghijklmnopqrstuvwxyz". */
  function Message(): (m: seq<byte>)
    ensures |m| == 26
  {
    seq(26, i requires 0 <= i < 26 => 0x61 + i)
  }

  /** Its one block in words. */
  predicate IsBlock(x: seq<u32>) {
    x == [0x64636261, 0x68676665, 0x6c6b6a69, 0x706f6e6d,
          0x74737271, 0x78777675, 0x00807a79, 0x00000000,
          0x00000000, 0x00000000, 0x00000000, 0x00000000,
          0x00000000, 0x00000000, 0x000000d0, 0x00000000]
  }

  /** One operation with everything it reads written out: registers, word, shift and constant. */
  lemma Op(n: nat, x: seq<u32>, a: bv32, b: bv32, c: bv32, d: bv32, w: bv32, s: bv6, t: bv32, e: bv32)
    requires n < 64 && |x| == 16 && Operations(n, IV, x) == RegsOf(a, b, c, d)
    requires x[WordOf(n)] == Value(w) && Shift(n) == s && T(n) == Value(t)
    requires e == WordOp(n, a, b, c, d, w, s, t)
    ensures Operations(n + 1, IV, x) == RegsOf(d, e, b, c)
  {
    hide F, G, H, I, FF, GG, HH, II, RotateLeft, T, Shift, WordOf, WordOp, Value, Operations, IV;
    NextOperation(n, IV, x);
    OpOnWords(n, a, b, c, d, w, s, t);
  }

  lemma NextOperation(n: nat, r: Regs, x: seq<u32>)
    requires n < 64 && |x| == 16
    ensures Operations(0, r, x) == r
    ensures Operations(n + 1, r, x) == Operation(n, Operations(n, r, x), x)
  {
  }

  lemma AtFirst(x: seq<u32>)
    requires IsBlock(x)
    ensures Operations(0, IV, x) == RegsOf(0x67452301, 0xefcdab89, 0x98badcfe, 0x10325476)
  {
  }

  lemma After4(x: seq<u32>)
    requires IsBlock(x)
    ensures Operations(4, IV, x) == RegsOf(0xd6d117a6, 0x4503b812, 0x227d8cf1, 0xaab1aaaa)
  {
    hide Operations, RegsOf, IV;
    AtFirst(x);
    Op(0, x, 0x67452301, 0xefcdab89, 0x98badcfe, 0x10325476, 0x64636261, 7, 0xd76aa478, 0xd6d117a6);
    Op(1, x, 0x10325476, 0xd6d117a6, 0xefcdab89, 0x98badcfe, 0x68676665, 12, 0xe8c7b756, 0xaab1aaaa);
    Op(2, x, 0x98badcfe, 0xaab1aaaa, 0xd6d117a6, 0xefcdab89, 0x6c6b6a69, 17, 0x242070db, 0x227d8cf1);
    Op(3, x, 0xefcdab89, 0x227d8cf1, 0xaab1aaaa, 0xd6d117a6, 0x706f6e6d, 22, 0xc1bdceee, 0x4503b812);
  }

  lemma After8(x: seq<u32>)
    requires IsBlock(x)
    ensures Operations(8, IV, x) == RegsOf(0xfe15f787, 0xda9bbb0d, 0xb71122fc, 0xa811b278)
  {
    hide Operations, RegsOf, IV;
    After4(x);
    Op(4, x, 0xd6d117a6, 0x4503b812, 0x227d8cf1, 0xaab1aaaa, 0x74737271, 7, 0xf57c0faf, 0xfe15f787);
    Op(5, x, 0xaab1aaaa, 0xfe15f787, 0x4503b812, 0x227d8cf1, 0x78777675, 12, 0x4787c62a, 0xa811b278);
    Op(6, x, 0x227d8cf1, 0xa811b278, 0xfe15f787, 0x4503b812, 0x00807a79, 17, 0xa8304613, 0xb71122fc);
    Op(7, x, 0x4503b812, 0xb71122fc, 0xa811b278, 0xfe15f787, 0x00000000, 22, 0xfd469501, 0xda9bbb0d);
  }

  lemma After12(x: seq<u32>)
    requires IsBlock(x)
    ensures Operations(12, IV, x) == RegsOf(0xae752899, 0x56cfa5cb, 0x7d4bd80b, 0x2bbe757f)
  {
    hide Operations, RegsOf, IV;
    After8(x);
    Op(8, x, 0xfe15f787, 0xda9bbb0d, 0xb71122fc, 0xa811b278, 0x00000000, 7, 0x698098d8, 0xae752899);
    Op(9, x, 0xa811b278, 0xae752899, 0xda9bbb0d, 0xb71122fc, 0x00000000, 12, 0x8b44f7af, 0x2bbe757f);
    Op(10, x, 0xb71122fc, 0x2bbe757f, 0xae752899, 0xda9bbb0d, 0x00000000, 17, 0xffff5bb1, 0x7d4bd80b);
    Op(11, x, 0xda9bbb0d, 0x7d4bd80b, 0x2bbe757f, 0xae752899, 0x00000000, 22, 0x895cd7be, 0x56cfa5cb);
  }

  lemma After16(x: seq<u32>)
    requires IsBlock(x)
    ensures Operations(16, IV, x) == RegsOf(0x1754a316, 0x608d6b7e, 0x00df74d5, 0x85567d90)
  {
    hide Operations, RegsOf, IV;
    After12(x);
    Op(12, x, 0xae752899, 0x56cfa5cb, 0x7d4bd80b, 0x2bbe757f, 0x00000000, 7, 0x6b901122, 0x1754a316);
    Op(13, x, 0x2bbe757f, 0x1754a316, 0x56cfa5cb, 0x7d4bd80b, 0x00000000, 12, 0xfd987193, 0x85567d90);
    Op(14, x, 0x7d4bd80b, 0x85567d90, 0x1754a316, 0x56cfa5cb, 0x000000d0, 17, 0xa679438e, 0x00df74d5);
    Op(15, x, 0x56cfa5cb, 0x00df74d5, 0x85567d90, 0x1754a316, 0x00000000, 22, 0x49b40821, 0x608d6b7e);
  }

  lemma After20(x: seq<u32>)
    requires IsBlock(x)
    ensures Operations(20, IV, x) == RegsOf(0x2d8071cc, 0x4c2145b3, 0xedfe7e4b, 0x5dcee119)
  {
    hide Operations, RegsOf, IV;
    After16(x);
    Op(16, x, 0x1754a316, 0x608d6b7e, 0x00df74d5, 0x85567d90, 0x68676665, 5, 0xf61e2562, 0x2d8071cc);
    Op(17, x, 0x85567d90, 0x2d8071cc, 0x608d6b7e, 0x00df74d5, 0x00807a79, 9, 0xc040b340, 0x5dcee119);
    Op(18, x, 0x00df74d5, 0x5dcee119, 0x2d8071cc, 0x608d6b7e, 0x00000000, 14, 0x265e5a51, 0xedfe7e4b);
    Op(19, x, 0x608d6b7e, 0xedfe7e4b, 0x5dcee119, 0x2d8071cc, 0x64636261, 20, 0xe9b6c7aa, 0x4c2145b3);
  }

  lemma After24(x: seq<u32>)
    requires IsBlock(x)
    ensures Operations(24, IV, x) == RegsOf(0x570c43e0, 0xc9f162d4, 0xc28ab49d, 0x977efd2a)
  {
    hide Operations, RegsOf, IV;
    After20(x);
    Op(20, x, 0x2d8071cc, 0x4c2145b3, 0xedfe7e4b, 0x5dcee119, 0x78777675, 5, 0xd62f105d, 0x570c43e0);
    Op(21, x, 0x5dcee119, 0x570c43e0, 0x4c2145b3, 0xedfe7e4b, 0x00000000, 9, 0x02441453, 0x977efd2a);
    Op(22, x, 0xedfe7e4b, 0x977efd2a, 0x570c43e0, 0x4c2145b3, 0x00000000, 14, 0xd8a1e681, 0xc28ab49d);
    Op(23, x, 0x4c2145b3, 0xc28ab49d, 0x977efd2a, 0x570c43e0, 0x74737271, 20, 0xe7d3fbc8, 0xc9f162d4);
  }

  lemma After28(x: seq<u32>)
    requires IsBlock(x)
    ensures Operations(28, IV, x) == RegsOf(0x25bfae3b, 0xe6d3b398, 0xf8c8365f, 0x89980104)
  {
    hide Operations, RegsOf, IV;
    After24(x);
    Op(24, x, 0x570c43e0, 0xc9f162d4, 0xc28ab49d, 0x977efd2a, 0x00000000, 5, 0x21e1cde6, 0x25bfae3b);
    Op(25, x, 0x977efd2a, 0x25bfae3b, 0xc9f162d4, 0xc28ab49d, 0x000000d0, 9, 0xc33707d6, 0x89980104);
    Op(26, x, 0xc28ab49d, 0x89980104, 0x25bfae3b, 0xc9f162d4, 0x706f6e6d, 14, 0xf4d50d87, 0xf8c8365f);
    Op(27, x, 0xc9f162d4, 0xf8c8365f, 0x89980104, 0x25bfae3b, 0x00000000, 20, 0x455a14ed, 0xe6d3b398);
  }

  lemma After32(x: seq<u32>)
    requires IsBlock(x)
    ensures Operations(32, IV, x) == RegsOf(0xf54d8710, 0xaeb35766, 0x2e69afc7, 0x927b72e2)
  {
    hide Operations, RegsOf, IV;
    After28(x);
    Op(28, x, 0x25bfae3b, 0xe6d3b398, 0xf8c8365f, 0x89980104, 0x00000000, 5, 0xa9e3e905, 0xf54d8710);
    Op(29, x, 0x89980104, 0xf54d8710, 0xe6d3b398, 0xf8c8365f, 0x6c6b6a69, 9, 0xfcefa3f8, 0x927b72e2);
    Op(30, x, 0xf8c8365f, 0x927b72e2, 0xf54d8710, 0xe6d3b398, 0x00000000, 14, 0x676f02d9, 0x2e69afc7);
    Op(31, x, 0xe6d3b398, 0x2e69afc7, 0x927b72e2, 0xf54d8710, 0x00000000, 20, 0x8d2a4c8a, 0xaeb35766);
  }

  lemma After36(x: seq<u32>)
    requires IsBlock(x)
    ensures Operations(36, IV, x) == RegsOf(0xb4bf680e, 0x06a5e211, 0x2361ed0a, 0x4c8ffa80)
  {
    hide Operations, RegsOf, IV;
    After32(x);
    Op(32, x, 0xf54d8710, 0xaeb35766, 0x2e69afc7, 0x927b72e2, 0x78777675, 4, 0xfffa3942, 0xb4bf680e);
    Op(33, x, 0x927b72e2, 0xb4bf680e, 0xaeb35766, 0x2e69afc7, 0x00000000, 11, 0x8771f681, 0x4c8ffa80);
    Op(34, x, 0x2e69afc7, 0x4c8ffa80, 0xb4bf680e, 0xaeb35766, 0x00000000, 16, 0x6d9d6122, 0x2361ed0a);
    Op(35, x, 0xaeb35766, 0x2361ed0a, 0x4c8ffa80, 0xb4bf680e, 0x000000d0, 23, 0xfde5380c, 0x06a5e211);
  }

  lemma After40(x: seq<u32>)
    requires IsBlock(x)
    ensures Operations(40, IV, x) == RegsOf(0xb9c0c733, 0x8d41bf99, 0x23a9451b, 0xf1e6dc7a)
  {
    hide Operations, RegsOf, IV;
    After36(x);
    Op(36, x, 0xb4bf680e, 0x06a5e211, 0x2361ed0a, 0x4c8ffa80, 0x68676665, 4, 0xa4beea44, 0xb9c0c733);
    Op(37, x, 0x4c8ffa80, 0xb9c0c733, 0x06a5e211, 0x2361ed0a, 0x74737271, 11, 0x4bdecfa9, 0xf1e6dc7a);
    Op(38, x, 0x2361ed0a, 0xf1e6dc7a, 0xb9c0c733, 0x06a5e211, 0x00000000, 16, 0xf6bb4b60, 0x23a9451b);
    Op(39, x, 0x06a5e211, 0x23a9451b, 0xf1e6dc7a, 0xb9c0c733, 0x00000000, 23, 0xbebfbc70, 0x8d41bf99);
  }

  lemma After44(x: seq<u32>)
    requires IsBlock(x)
    ensures Operations(44, IV, x) == RegsOf(0xa3e88ead, 0x90a35af5, 0x66f6468d, 0x02c0b11c)
  {
    hide Operations, RegsOf, IV;
    After40(x);
    Op(40, x, 0xb9c0c733, 0x8d41bf99, 0x23a9451b, 0xf1e6dc7a, 0x00000000, 4, 0x289b7ec6, 0xa3e88ead);
    Op(41, x, 0xf1e6dc7a, 0xa3e88ead, 0x8d41bf99, 0x23a9451b, 0x64636261, 11, 0xeaa127fa, 0x02c0b11c);
    Op(42, x, 0x23a9451b, 0x02c0b11c, 0xa3e88ead, 0x8d41bf99, 0x706f6e6d, 16, 0xd4ef3085, 0x66f6468d);
    Op(43, x, 0x8d41bf99, 0x66f6468d, 0x02c0b11c, 0xa3e88ead, 0x00807a79, 23, 0x04881d05, 0x90a35af5);
  }

  lemma After48(x: seq<u32>)
    requires IsBlock(x)
    ensures Operations(48, IV, x) == RegsOf(0xb5d41f9c, 0x71d10367, 0x703d54d8, 0xa04b4904)
  {
    hide Operations, RegsOf, IV;
    After44(x);
    Op(44, x, 0xa3e88ead, 0x90a35af5, 0x66f6468d, 0x02c0b11c, 0x00000000, 4, 0xd9d4d039, 0xb5d41f9c);
    Op(45, x, 0x02c0b11c, 0xb5d41f9c, 0x90a35af5, 0x66f6468d, 0x00000000, 11, 0xe6db99e5, 0xa04b4904);
    Op(46, x, 0x66f6468d, 0xa04b4904, 0xb5d41f9c, 0x90a35af5, 0x00000000, 16, 0x1fa27cf8, 0x703d54d8);
    Op(47, x, 0x90a35af5, 0x703d54d8, 0xa04b4904, 0xb5d41f9c, 0x6c6b6a69, 23, 0xc4ac5665, 0x71d10367);
  }

  lemma After52(x: seq<u32>)
    requires IsBlock(x)
    ensures Operations(52, IV, x) == RegsOf(0xfc32dd6e, 0x33edb197, 0xb35602cb, 0x65456b34)
  {
    hide Operations, RegsOf, IV;
    After48(x);
    Op(48, x, 0xb5d41f9c, 0x71d10367, 0x703d54d8, 0xa04b4904, 0x64636261, 6, 0xf4292244, 0xfc32dd6e);
    Op(49, x, 0xa04b4904, 0xfc32dd6e, 0x71d10367, 0x703d54d8, 0x00000000, 10, 0x432aff97, 0x65456b34);
    Op(50, x, 0x703d54d8, 0x65456b34, 0xfc32dd6e, 0x71d10367, 0x000000d0, 15, 0xab9423a7, 0xb35602cb);
    Op(51, x, 0x71d10367, 0xb35602cb, 0x65456b34, 0xfc32dd6e, 0x78777675, 21, 0xfc93a039, 0x33edb197);
  }

  lemma After56(x: seq<u32>)
    requires IsBlock(x)
    ensures Operations(56, IV, x) == RegsOf(0xc1e942f1, 0x83877d1b, 0x23a68048, 0xd9bb987c)
  {
    hide Operations, RegsOf, IV;
    After52(x);
    Op(52, x, 0xfc32dd6e, 0x33edb197, 0xb35602cb, 0x65456b34, 0x00000000, 6, 0x655b59c3, 0xc1e942f1);
    Op(53, x, 0x65456b34, 0xc1e942f1, 0x33edb197, 0xb35602cb, 0x706f6e6d, 10, 0x8f0ccc92, 0xd9bb987c);
    Op(54, x, 0xb35602cb, 0xd9bb987c, 0xc1e942f1, 0x33edb197, 0x00000000, 15, 0xffeff47d, 0x23a68048);
    Op(55, x, 0x33edb197, 0x23a68048, 0xd9bb987c, 0xc1e942f1, 0x68676665, 21, 0x85845dd1, 0x83877d1b);
  }

  lemma After60(x: seq<u32>)
    requires IsBlock(x)
    ensures Operations(60, IV, x) == RegsOf(0x0077c208, 0x5e6bc930, 0xa3e2247f, 0x847fc2e7)
  {
    hide Operations, RegsOf, IV;
    After56(x);
    Op(56, x, 0xc1e942f1, 0x83877d1b, 0x23a68048, 0xd9bb987c, 0x00000000, 6, 0x6fa87e4f, 0x0077c208);
    Op(57, x, 0xd9bb987c, 0x0077c208, 0x83877d1b, 0x23a68048, 0x00000000, 10, 0xfe2ce6e0, 0x847fc2e7);
    Op(58, x, 0x23a68048, 0x847fc2e7, 0x0077c208, 0x83877d1b, 0x00807a79, 15, 0xa3014314, 0xa3e2247f);
    Op(59, x, 0x83877d1b, 0xa3e2247f, 0x847fc2e7, 0x0077c208, 0x00000000, 21, 0x4e0811a1, 0x5e6bc930);
  }

  lemma After64(x: seq<u32>)
    requires IsBlock(x)
    ensures Operations(64, IV, x) == RegsOf(0x708ed9c2, 0x1116e6d8, 0xd38f1e7f, 0x2baf1354)
  {
    hide Operations, RegsOf, IV;
    After60(x);
    Op(60, x, 0x0077c208, 0x5e6bc930, 0xa3e2247f, 0x847fc2e7, 0x74737271, 6, 0xf7537e82, 0x708ed9c2);
    Op(61, x, 0x847fc2e7, 0x708ed9c2, 0x5e6bc930, 0xa3e2247f, 0x00000000, 10, 0xbd3af235, 0x2baf1354);
    Op(62, x, 0xa3e2247f, 0x2baf1354, 0x708ed9c2, 0x5e6bc930, 0x6c6b6a69, 15, 0x2ad7d2bb, 0xd38f1e7f);
    Op(63, x, 0x5e6bc930, 0xd38f1e7f, 0x2baf1354, 0x708ed9c2, 0x00000000, 21, 0xeb86d391, 0x1116e6d8);
  }

  lemma Registers(block: seq<byte>)
    requires |block| == 64 && IsBlock(Decoded(block))
    ensures Compress(IV, block) == Regs(0xd7d3fcc3, 0x00e49261, 0x6c49fb7d, 0x3be167ca)
  {
    After64(Decoded(block));
    hide Operations, Decoded;
  }

  /** The padding: a one bit, zeros, and 208 bits as the length. */
  lemma PaddedMessage()
    ensures Padded(Message()) == Message() + [0x80] + Zeros(29) + [0xd0] + Zeros(7)
  {
    var length := Encoded(LengthWords(26));
    assert LengthWords(26) == [208, 0] && PadLength(26) == 30;
    assert length == [0xd0] + Zeros(7);
    assert Message() + [0x80] + Zeros(29) + length == Message() + [0x80] + Zeros(29) + [0xd0] + Zeros(7);
  }

  ghost predicate IsPadded(p: seq<byte>) {
    && |p| == 64 && p[26] == 0x80 && p[56] == 0xd0
    && (forall k :: 0 <= k < 26 ==> p[k] == 0x61 + k)
    && (forall k :: 27 <= k < 56 || 57 <= k < 64 ==> p[k] == 0)
  }

  lemma PaddedBytes()
    ensures IsPadded(Padded(Message()))
  {
    PaddedMessage();
    hide Padded;
  }

  lemma WordIs(p: seq<byte>, j: nat, b0: byte, b1: byte, b2: byte, b3: byte, w: u32)
    requires j + 4 <= |p| && p[j] == b0 && p[j + 1] == b1 && p[j + 2] == b2 && p[j + 3] == b3
    requires w == LittleEndian(b0, b1, b2, b3)
    ensures WordAt(p, j) == w
  {
  }

  lemma Letters(p: seq<byte>)
    requires IsPadded(p)
    ensures WordAt(p, 0) == 0x64636261 && WordAt(p, 4) == 0x68676665 && WordAt(p, 8) == 0x6c6b6a69
    ensures WordAt(p, 12) == 0x706f6e6d && WordAt(p, 16) == 0x74737271 && WordAt(p, 20) == 0x78777675
    ensures WordAt(p, 24) == 0x00807a79 && WordAt(p, 56) == 0xd0
    ensures forall j :: 7 <= j < 16 && j != 14 ==> WordAt(p, 4 * j) == 0
  {
    hide WordAt;
    WordIs(p, 0, 0x61, 0x62, 0x63, 0x64, 0x64636261);
    WordIs(p, 4, 0x65, 0x66, 0x67, 0x68, 0x68676665);
    WordIs(p, 8, 0x69, 0x6a, 0x6b, 0x6c, 0x6c6b6a69);
    WordIs(p, 12, 0x6d, 0x6e, 0x6f, 0x70, 0x706f6e6d);
    WordIs(p, 16, 0x71, 0x72, 0x73, 0x74, 0x74737271);
    WordIs(p, 20, 0x75, 0x76, 0x77, 0x78, 0x78777675);
    WordIs(p, 24, 0x79, 0x7a, 0x80, 0, 0x00807a79);
    WordIs(p, 56, 0xd0, 0, 0, 0, 0xd0);
    forall j | 7 <= j < 16 && j != 14 ensures WordAt(p, 4 * j) == 0 {
      WordIs(p, 4 * j, 0, 0, 0, 0, 0);
    }
  }

  lemma BlockOfMessage()
    ensures |Padded(Message())| == 64 && IsBlock(Decoded(Padded(Message())))
  {
    PaddedBytes();
    var p := Padded(Message());
    hide Padded, Message, WordAt;
    Letters(p);
    hide IsPadded;
  }

  lemma ByteOf(w: u32, b0: byte, b1: byte, b2: byte, b3: byte)
    requires w == LittleEndian(b0, b1, b2, b3)
    ensures WordByte(w, 0) == b0 && WordByte(w, 1) == b1 && WordByte(w, 2) == b2 && WordByte(w, 3) == b3
  {
    BytesOf(b0, b1, b2, b3);
    hide LittleEndian;
  }

  lemma OutputBytes()
    ensures Encoded([0xd7d3fcc3, 0x00e49261, 0x6c49fb7d, 0x3be167ca])
            == [0xc3, 0xfc, 0xd3, 0xd7, 0x61, 0x92, 0xe4, 0x00,
                0x7d, 0xfb, 0x49, 0x6c, 0xca, 0x67, 0xe1, 0x3b]
  {
    hide WordByte;
    ByteOf(0xd7d3fcc3, 0xc3, 0xfc, 0xd3, 0xd7);
    ByteOf(0x00e49261, 0x61, 0x92, 0xe4, 0x00);
    ByteOf(0x6c49fb7d, 0x7d, 0xfb, 0x49, 0x6c);
    ByteOf(0x3be167ca, 0xca, 0x67, 0xe1, 0x3b);
  }

  /** MD5 ("abcdefghijklmnopqrstuvwxyz") = c3fcd3d76192e4007dfb496cca67e13b. */
  lemma DigestOfAlphabet()
    ensures Digest(Message())
            == [0xc3, 0xfc, 0xd3, 0xd7, 0x61, 0x92, 0xe4, 0x00,
                0x7d, 0xfb, 0x49, 0x6c, 0xca, 0x67, 0xe1, 0x3b]
  {
    var p := Padded(Message());
    BlockOfMessage();
    Registers(p);
    OutputBytes();
    OneBlock(p);
    hide Padded, Compress, Decoded, Encoded, Absorb, Message, IV;
  }

  lemma OneBlock(p: seq<byte>)
    requires |p| == 64
    ensures Absorb(Compress, IV, p) == Compress(IV, p)
  {
    assert p[..64] == p;
    hide Compress;
  }
}
