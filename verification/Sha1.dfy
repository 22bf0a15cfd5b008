// src/sha1.c: the in-place block transform and the streaming interface.
module Sha1 {
  import opened Bytes
  import opened Sha1Spec

  // ---------------------------------------------------------------- the block as words

  // Four bytes as a word of a little-endian host, and the bytes of such a word.
  function Pack(a: byte, b: byte, c: byte, d: byte): word
  {
    ((d as word) << 24) | ((c as word) << 16) | ((b as word) << 8) | (a as word)
  }

  function Byte0(w: word): byte { (w & 255) as byte }
  function Byte1(w: word): byte { ((w >> 8) & 255) as byte }
  function Byte2(w: word): byte { ((w >> 16) & 255) as byte }
  function Byte3(w: word): byte { ((w >> 24) & 255) as byte }

  lemma PackBytes(w: word)
    ensures Pack(Byte0(w), Byte1(w), Byte2(w), Byte3(w)) == w
  {
  }

  // block->l[i]
  function LoadWord(s: seq<byte>, at: nat): word
    requires at + 4 <= |s|
  {
    Pack(s[at], s[at + 1], s[at + 2], s[at + 3])
  }

  // The union's word view of the 64 bytes at off.
  function WordView(s: seq<byte>, off: nat): (l: seq<word>)
    requires off + 64 <= |s|
    ensures |l| == 16
  {
    seq(16, i requires 0 <= i < 16 => LoadWord(s, off + 4 * i))
  }

  lemma WordViewUpdate(s: seq<byte>, s': seq<byte>, off: nat, i: nat, w: word)
    requires off + 64 <= |s| == |s'| && i < 16
    requires forall m :: 0 <= m < |s| && !(off + 4 * i <= m < off + 4 * i + 4) ==> s'[m] == s[m]
    requires LoadWord(s', off + 4 * i) == w
    ensures WordView(s', off) == WordView(s, off)[i := w]
  {
    forall k | 0 <= k < 16 && k != i
      ensures WordView(s', off)[k] == WordView(s, off)[k]
    {
      var at := off + 4 * k;
      assert s'[at] == s[at] && s'[at + 1] == s[at + 1] && s'[at + 2] == s[at + 2] && s'[at + 3] == s[at + 3];
    }
  }

  // block->l[i] = w
  method StoreWord(buf: array<byte>, off: nat, i: nat, w: word)
    requires off + 64 <= buf.Length && i < 16
    modifies buf
    ensures WordView(buf[..], off) == old(WordView(buf[..], off))[i := w]
    ensures buf[..off] == old(buf[..off]) && buf[off + 64..] == old(buf[off + 64..])
  {
    ghost var before := buf[..];
    var at := off + 4 * i;
    buf[at] := Byte0(w);
    buf[at + 1] := Byte1(w);
    buf[at + 2] := Byte2(w);
    buf[at + 3] := Byte3(w);
    PackBytes(w);
    WordViewUpdate(before, buf[..], off, i, w);
  }

  // rol(x, 24) & 0xFF00FF00 | rol(x, 8) & 0x00FF00FF, the swap of blk0.
  function Swap(x: word): word
  {
    (((x << 24) | (x >> 8)) & 0xFF00FF00) | (((x << 8) | (x >> 24)) & 0x00FF00FF)
  }

  // A little-endian load followed by the swap is a big-endian load.
  lemma SwapLoad(a: byte, b: byte, c: byte, d: byte)
    ensures Swap(Pack(a, b, c, d)) == BigEndianWord(a, b, c, d)
  {
  }

  // Slot t mod 16 holds the most recent schedule word with that index; slots not yet
  // reached hold the block as loaded.
  ghost predicate Rolling(l: seq<word>, block: seq<byte>, t: nat)
    requires |block| == 64
  {
    && |l| == 16
    && (forall i :: t <= i < 16 ==> l[i] == LoadWord(block, 4 * i))
    && (forall j: nat :: j < t <= j + 16 ==> l[j % 16] == W(block, j))
  }

  // blk0(i) and blk(i).
  function Blk0(l: seq<word>, i: nat): word
    requires |l| == 16 && i < 16
  {
    Swap(l[i])
  }

  function Blk(l: seq<word>, i: nat): word
    requires |l| == 16
  {
    Rol1(l[(i + 13) % 16] ^ l[(i + 8) % 16] ^ l[(i + 2) % 16] ^ l[i % 16])
  }

  lemma Blk0IsScheduled(l: seq<word>, block: seq<byte>, t: nat)
    requires |block| == 64 && Rolling(l, block, t) && t < 16
    ensures Blk0(l, t) == W(block, t)
  {
    assert l[t] == LoadWord(block, 4 * t);
    SwapLoad(block[4 * t], block[4 * t + 1], block[4 * t + 2], block[4 * t + 3]);
  }

  lemma BlkIsScheduled(l: seq<word>, block: seq<byte>, t: nat)
    requires |block| == 64 && Rolling(l, block, t) && t >= 16
    ensures Blk(l, t) == W(block, t)
  {
    SameSlots(t);
    assert l[(t - 3) % 16] == W(block, t - 3);
    assert l[(t - 8) % 16] == W(block, t - 8);
    assert l[(t - 14) % 16] == W(block, t - 14);
    assert l[(t - 16) % 16] == W(block, t - 16);
  }

  lemma SameSlots(t: nat)
    requires t >= 16
    ensures (t + 13) % 16 == (t - 3) % 16 && (t + 8) % 16 == (t - 8) % 16
    ensures (t + 2) % 16 == (t - 14) % 16 && t % 16 == (t - 16) % 16
  {
  }

  lemma Roll(l: seq<word>, block: seq<byte>, t: nat, w: word)
    requires |block| == 64 && Rolling(l, block, t) && w == W(block, t)
    ensures Rolling(l[t % 16 := w], block, t + 1)
  {
    var l' := l[t % 16 := w];
    forall j: nat | j < t + 1 <= j + 16
      ensures l'[j % 16] == W(block, j)
    {
      if j < t {
        DistinctSlots(j, t);
      }
    }
  }

  lemma DistinctSlots(j: nat, t: nat)
    requires j < t < j + 16
    ensures j % 16 != t % 16
  {
  }

  // blk0 or blk: the next schedule word, left in its slot.
  method Expand(buf: array<byte>, off: nat, t: nat, ghost block: seq<byte>) returns (w: word)
    requires off + 64 <= buf.Length && |block| == 64 && t < 80
    requires Rolling(WordView(buf[..], off), block, t)
    modifies buf
    ensures w == W(block, t)
    ensures Rolling(WordView(buf[..], off), block, t + 1)
    ensures buf[..off] == old(buf[..off]) && buf[off + 64..] == old(buf[off + 64..])
  {
    var l := WordView(buf[..], off);
    if t < 16 {
      w := Blk0(l, t);
      Blk0IsScheduled(l, block, t);
    } else {
      w := Blk(l, t);
      BlkIsScheduled(l, block, t);
    }
    Roll(l, block, t, w);
    StoreWord(buf, off, t % 16, w);
  }

  // ---------------------------------------------------------------- the rounds

  // R0 to R4 differ in the function and the constant; R0 and R1 only in blk0 and blk.
  function Mix(t: nat, w: word, x: word, y: word): word
  {
    if t < 20 then (w & (x ^ y)) ^ y
    else if t < 40 then w ^ x ^ y
    else if t < 60 then ((w | x) & y) | (w & x)
    else w ^ x ^ y
  }

  lemma MixIsF(t: nat, w: word, x: word, y: word)
    ensures Mix(t, w, x, y) == F(t, w, x, y)
  {
    Choose(w, x, y);
    Majority(w, x, y);
  }

  lemma Choose(w: word, x: word, y: word)
    ensures (w & (x ^ y)) ^ y == (w & x) | ((!w) & y)
  {
  }

  lemma Majority(w: word, x: word, y: word)
    ensures ((w | x) & y) | (w & x) == (w & x) | (w & y) | (x & y)
  {
  }

  lemma SumOrder(z: word, f: word, m: word, k: word, r: word)
    ensures z + (f + m + k + r) == Temp(r, f, z, m, k)
  {
  }

  // The constants in the macros R0 to R4.
  function MacroConstant(t: nat): word
  {
    if t < 20 then 0x5A827999 else if t < 40 then 0x6ED9EBA1 else if t < 60 then 0x8F1BBCDC else 0xCA62C1D6
  }

  // What a macro makes of z: mix, schedule word, constant and rotated v are added to it.
  function Added(t: nat, v: word, w: word, x: word, y: word, z: word, m: word): word
  {
    z + (Mix(t, w, x, y) + m + MacroConstant(t) + Rol5(v))
  }

  lemma AddedIsTemp(t: nat, v: word, w: word, x: word, y: word, z: word, m: word)
    ensures Added(t, v, w, x, y, z, m) == Temp(Rol5(v), F(t, w, x, y), z, m, K(t))
  {
    MixIsF(t, w, x, y);
    SumOrder(z, Mix(t, w, x, y), m, MacroConstant(t), Rol5(v));
  }

  // With renamed registers, one macro is one round of the shifting registers.
  lemma MacroIsRound(h: Regs, block: seq<byte>, t: nat, v: word, w: word, x: word, y: word, z: word, m: word)
    requires |block| == 64 && m == W(block, t)
    requires Regs(v, w, x, y, z) == Rounds(h, block, t)
    ensures Regs(Added(t, v, w, x, y, z, m), v, Rol30(w), x, y) == Rounds(h, block, t + 1)
  {
    AddedIsTemp(t, v, w, x, y, z, m);
  }

  // R0 to R4: the next schedule word is added in, and w is rotated.
  method R(buf: array<byte>, off: nat, t: nat, v: word, w: word, x: word, y: word, z: word,
           ghost h: Regs, ghost block: seq<byte>)
    returns (z': word, w': word)
    requires off + 64 <= buf.Length && |block| == 64 && t < 80
    requires Rolling(WordView(buf[..], off), block, t)
    requires Regs(v, w, x, y, z) == Rounds(h, block, t)
    modifies buf
    ensures Regs(z', v, w', x, y) == Rounds(h, block, t + 1)
    ensures Rolling(WordView(buf[..], off), block, t + 1)
    ensures buf[..off] == old(buf[..off]) && buf[off + 64..] == old(buf[off + 64..])
  {
    var m := Expand(buf, off, t, block);
    MacroIsRound(h, block, t, v, w, x, y, z, m);
    z' := Added(t, v, w, x, y, z, m);
    w' := Rol30(w);
  }

  // Five macros bring the register names back to where they started.
  method FiveRounds(buf: array<byte>, off: nat, t: nat, r: Regs, ghost h: Regs, ghost block: seq<byte>)
    returns (r': Regs, end: nat)
    requires off + 64 <= buf.Length && |block| == 64 && t <= 75
    requires Rolling(WordView(buf[..], off), block, t)
    requires r == Rounds(h, block, t)
    modifies buf
    ensures end == t + 5 && r' == Rounds(h, block, end)
    ensures Rolling(WordView(buf[..], off), block, end)
    ensures buf[..off] == old(buf[..off]) && buf[off + 64..] == old(buf[off + 64..])
  {
    var a, b, c, d, e := r.a, r.b, r.c, r.d, r.e;
    var t1 := t + 1;
    var t2 := t1 + 1;
    var t3 := t2 + 1;
    var t4 := t3 + 1;
    e, b := R(buf, off, t, a, b, c, d, e, h, block);
    d, a := R(buf, off, t1, e, a, b, c, d, h, block);
    c, e := R(buf, off, t2, d, e, a, b, c, h, block);
    b, d := R(buf, off, t3, c, d, e, a, b, h, block);
    a, c := R(buf, off, t4, b, c, d, e, a, h, block);
    r', end := Regs(a, b, c, d, e), t4 + 1;
  }

  function RegsOf(state: array<word>): Regs
    reads state
    requires state.Length == 5
  {
    Regs(state[0], state[1], state[2], state[3], state[4])
  }

  method AddRegs(state: array<word>, r: Regs)
    requires state.Length == 5
    modifies state
    ensures RegsOf(state) == Sum(old(RegsOf(state)), r)
  {
    state[0] := Plus(state[0], r.a);
    state[1] := Plus(state[1], r.b);
    state[2] := Plus(state[2], r.c);
    state[3] := Plus(state[3], r.d);
    state[4] := Plus(state[4], r.e);
  }

  // SHA1Transform on the 64 bytes at off. They are overwritten by the end of the schedule;
  // the sixteen unrolled groups of five rounds are a loop here.
  method SHA1Transform(state: array<word>, buf: array<byte>, off: nat)
    requires state.Length == 5 && off + 64 <= buf.Length
    modifies state, buf
    ensures RegsOf(state) == Compress(old(RegsOf(state)), old(buf[off..off + 64]))
    ensures buf[..off] == old(buf[..off]) && buf[off + 64..] == old(buf[off + 64..])
  {
    ghost var h, block := RegsOf(state), buf[off..off + 64];
    var r := RegsOf(state);
    var t := 0;
    for group := 0 to 16
      invariant t == 5 * group
      invariant RegsOf(state) == h && r == Rounds(h, block, t)
      invariant Rolling(WordView(buf[..], off), block, t)
      invariant buf[..off] == old(buf[..off]) && buf[off + 64..] == old(buf[off + 64..])
    {
      r, t := FiveRounds(buf, off, t, r, h, block);
    }
    AddRegs(state, r);
  }
}
