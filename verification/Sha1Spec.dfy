// SHA-1 as RFC 3174 defines it: padding (section 4), functions and constants (section 5),
// the 80-word schedule and five shifted registers (section 6.1).
module Sha1Spec {
  import opened Bytes

  function Rol1(x: word): word { (x << 1) | (x >> 31) }
  function Rol5(x: word): word { (x << 5) | (x >> 27) }
  function Rol30(x: word): word { (x << 30) | (x >> 2) }

  function BigEndianWord(a: byte, b: byte, c: byte, d: byte): word
  {
    ((a as word) << 24) | ((b as word) << 16) | ((c as word) << 8) | (d as word)
  }

  // Rotations: what leaves at the top comes in at the bottom.
  lemma Rotations(x: word)
    ensures Rol1(x) == x.RotateLeft(1) && Rol5(x) == x.RotateLeft(5) && Rol30(x) == x.RotateLeft(30)
  {
  }

  // The first byte of a word counts most.
  lemma WordValue(a: byte, b: byte, c: byte, d: byte)
    ensures BigEndianWord(a, b, c, d) ==
      0x100_0000 * (a as word) + 0x1_0000 * (b as word) + 0x100 * (c as word) + (d as word)
  {
  }

  // f(t; B, C, D)
  function F(t: nat, b: word, c: word, d: word): word
  {
    if t < 20 then (b & c) | ((!b) & d)
    else if t < 40 then b ^ c ^ d
    else if t < 60 then (b & c) | (b & d) | (c & d)
    else b ^ c ^ d
  }

  function K(t: nat): word
  {
    if t < 20 then 0x5A827999
    else if t < 40 then 0x6ED9EBA1
    else if t < 60 then 0x8F1BBCDC
    else 0xCA62C1D6
  }

  // W(t) of one 64-byte block.
  function W(block: seq<byte>, t: nat): word
    requires |block| == 64
  {
    if t < 16 then BigEndianWord(block[4 * t], block[4 * t + 1], block[4 * t + 2], block[4 * t + 3])
    else Rol1(W(block, t - 3) ^ W(block, t - 8) ^ W(block, t - 14) ^ W(block, t - 16))
  }

  // TEMP = S^5(A) + f(t; B, C, D) + E + W(t) + K(t)
  function Temp(rotated: word, f: word, e: word, w: word, k: word): word
  {
    rotated + f + e + w + k
  }

  datatype Regs = Regs(a: word, b: word, c: word, d: word, e: word)

  function Round(r: Regs, t: nat, w: word): Regs
  {
    Regs(Temp(Rol5(r.a), F(t, r.b, r.c, r.d), r.e, w, K(t)), r.a, Rol30(r.b), r.c, r.d)
  }

  // The registers after the first t rounds.
  function Rounds(h: Regs, block: seq<byte>, t: nat): Regs
    requires |block| == 64
  {
    if t == 0 then h else Round(Rounds(h, block, t - 1), t - 1, W(block, t - 1))
  }

  function Compress(h: Regs, block: seq<byte>): Regs
    requires |block| == 64
  {
    Sum(h, Rounds(h, block, 80))
  }

  function Sum(h: Regs, r: Regs): Regs
  {
    Regs(Plus(h.a, r.a), Plus(h.b, r.b), Plus(h.c, r.c), Plus(h.d, r.d), Plus(h.e, r.e))
  }

  // Addition modulo 2^32.
  function Plus(x: word, y: word): word { x + y }

  const INIT: Regs := Regs(0x67452301, 0xEFCDAB89, 0x98BADCFE, 0x10325476, 0xC3D2E1F0)

  // The chaining value after all whole blocks of s, starting from h.
  function Chain(h: Regs, s: seq<byte>): Regs
    decreases |s|
  {
    if |s| < 64 then h else Chain(Compress(h, s[..64]), s[64..])
  }

  // The bytes of s behind its last whole block.
  function Rest(s: seq<byte>): (r: seq<byte>)
    ensures |r| < 64 && |r| == |s| % 64
    decreases |s|
  {
    if |s| < 64 then s else Rest(s[64..])
  }

  // Zero bytes between the 0x80 byte and the length, for a message of n bytes.
  function PadZeros(n: nat): (z: nat)
    ensures (n + 1 + z) % 64 == 56 && z < 64
  {
    (119 - n % 64) % 64
  }

  const TWO64: nat := 0x1_0000_0000_0000_0000

  // Section 4. The length field is 64 bits wide.
  function Padded(msg: seq<byte>): (s: seq<byte>)
  {
    msg + [0x80] + Zeros(PadZeros(|msg|)) + ToBigEndian(8 * |msg| % TWO64, 8)
  }

  // Byte k of a word, the most significant first.
  function WordByte(w: word, k: nat): byte
  {
    if k == 0 then ((w >> 24) & 255) as byte
    else if k == 1 then ((w >> 16) & 255) as byte
    else if k == 2 then ((w >> 8) & 255) as byte
    else (w & 255) as byte
  }

  // The bytes of a word put together again, the first counting most, are the word.
  lemma WordBytesValue(w: word)
    ensures BigEndianWord(WordByte(w, 0), WordByte(w, 1), WordByte(w, 2), WordByte(w, 3)) == w
    ensures 0x100_0000 * (WordByte(w, 0) as word) + 0x1_0000 * (WordByte(w, 1) as word)
      + 0x100 * (WordByte(w, 2) as word) + (WordByte(w, 3) as word) == w
  {
  }

  function Reg(r: Regs, k: nat): word
  {
    if k == 0 then r.a else if k == 1 then r.b else if k == 2 then r.c else if k == 3 then r.d else r.e
  }

  // The five words, most significant byte first.
  function RegsBytes(r: Regs): (s: seq<byte>)
    ensures |s| == 20
  {
    seq(20, i requires 0 <= i < 20 => WordByte(Reg(r, i / 4), i % 4))
  }

  function Digest(msg: seq<byte>): (d: seq<byte>)
    ensures |d| == 20
  {
    RegsBytes(Chain(INIT, Padded(msg)))
  }

  // Whole blocks already chained need not be looked at again.
  lemma {:induction false} ChainConcat(h: Regs, a: seq<byte>, b: seq<byte>)
    ensures Chain(h, a + b) == Chain(Chain(h, a), Rest(a) + b)
    ensures Rest(a + b) == Rest(Rest(a) + b)
    decreases |a|
  {
    if |a| >= 64 {
      assert (a + b)[..64] == a[..64] && (a + b)[64..] == a[64..] + b;
      ChainConcat(Compress(h, a[..64]), a[64..], b);
    }
  }
}
