// SHA1Init, SHA1Update and SHA1Final of src/sha1.c.
module Sha1Stream {
  import opened Bytes
  import opened Sha1Spec
  import opened Sha1

  const TWO32: nat := 0x1_0000_0000

  // ---------------------------------------------------------------- the bit count

  // The two-word count of a context that has absorbed n bytes.
  ghost predicate Counts(low: nat, high: nat, n: nat)
  {
    low < TWO32 && high < TWO32 && high * TWO32 + low == 8 * n % TWO64
  }

  lemma CountsSplit(low: nat, high: nat, n: nat)
    requires Counts(low, high, n)
    ensures low == 8 * n % TWO32 && low / 8 % 64 == n % 64
  {
    var m := 8 * n / TWO64;
    var r := m * TWO32 + high;
    WholeWords(8 * n, m, high, low);
    LowWord(8 * n, r, low);
    LowBlock(n, r, low);
  }

  lemma WholeWords(x: nat, m: nat, high: nat, low: nat)
    requires m == x / TWO64 && high * TWO32 + low == x % TWO64
    ensures x == (m * TWO32 + high) * TWO32 + low
  {
    assert x == m * TWO64 + x % TWO64;
  }

  lemma LowWord(x: nat, r: nat, low: nat)
    requires x == r * TWO32 + low && low < TWO32
    ensures x % TWO32 == low
  {
  }

  lemma LowBlock(n: nat, r: nat, low: nat)
    requires 8 * n == r * TWO32 + low
    ensures low / 8 % 64 == n % 64
  {
    var bytes := n - r * 0x2000_0000;
    assert low == 8 * bytes;
    SameBlock(n, r * 0x80_0000, bytes);
  }

  lemma SameBlock(n: nat, blocks: nat, rest: nat)
    requires n == 64 * blocks + rest
    ensures n % 64 == rest % 64
  {
  }

  // The low word of the count, wrapping around.
  function AddLow(low: nat, bits: nat): nat
  {
    (low + bits) % TWO32
  }

  // The high word: one more if the low word wrapped around, and the bits of len above it.
  function AddHigh(low': nat, high: nat, bits: nat, len: nat): nat
  {
    ((if low' < bits then (high + 1) % TWO32 else high) + len / 0x2000_0000) % TWO32
  }

  // The carry in the first addition and the high bits of len in the second keep the count.
  lemma CountsAdd(low: nat, high: nat, n: nat, len: nat, bits: nat)
    requires Counts(low, high, n) && len < TWO32 && bits == 8 * len % TWO32
    ensures Counts(AddLow(low, bits), AddHigh(AddLow(low, bits), high, bits, len), n + len)
  {
    var top := len / 0x2000_0000;
    assert 8 * len == top * TWO32 + bits;
    var low' := AddLow(low, bits);
    var carry := if low' < bits then 1 else 0;
    assert low + bits == carry * TWO32 + low';
    var h := if low' < bits then (high + 1) % TWO32 else high;
    var c1 := if carry == 1 && high == TWO32 - 1 then 1 else 0;
    assert high + carry == c1 * TWO32 + h;
    var high' := (h + top) % TWO32;
    var c2 := (h + top) / TWO32;
    var q := 8 * n / TWO64;
    assert 8 * (n + len) == (q + c1 + c2) * TWO64 + high' * TWO32 + low';
    Remainder(8 * (n + len), q + c1 + c2, high' * TWO32 + low');
  }

  lemma Remainder(x: nat, q: nat, r: nat)
    requires x == q * TWO64 + r && r < TWO64
    ensures x % TWO64 == r
  {
  }

  // ---------------------------------------------------------------- absorbing bytes

  // memcpy
  method CopyBytes(dst: array<byte>, at: nat, src: array<byte>, from: nat, n: nat)
    requires dst != src && at + n <= dst.Length && from + n <= src.Length
    modifies dst
    ensures dst[..at] == old(dst[..at])
    ensures dst[at..at + n] == src[from..from + n]
  {
    for k := 0 to n
      invariant dst[..at] == old(dst[..at])
      invariant dst[at..at + k] == src[from..from + k]
    {
      dst[at + k] := src[from + k];
    }
  }

  // Whole blocks straight from the caller's data.
  method WholeBlocks(state: array<word>, data: array<byte>, start: nat, len: nat)
    returns (i: nat)
    requires state.Length == 5 && start <= len <= data.Length
    modifies state, data
    ensures start <= i <= len
    ensures RegsOf(state) == Chain(old(RegsOf(state)), old(data[start..len]))
    ensures data[i..len] == Rest(old(data[start..len]))
    ensures data[len..] == old(data[len..])
  {
    ghost var h, todo := RegsOf(state), data[start..len];
    ghost var whole, tail := todo, data[len..];
    i := start;
    while i + 63 < len
      invariant start <= i <= len
      invariant todo == data[i..len]
      invariant Chain(RegsOf(state), todo) == Chain(h, whole)
      invariant Rest(todo) == Rest(whole)
      invariant data[len..] == tail
    {
      ghost var block := todo[..64];
      todo := todo[64..];
      assert data[i..i + 64] == block;
      BlockStep(state, data, i, len);
      i := i + 64;
    }
  }

  method BlockStep(state: array<word>, data: array<byte>, i: nat, len: nat)
    requires state.Length == 5 && i + 64 <= len <= data.Length
    modifies state, data
    ensures RegsOf(state) == Compress(old(RegsOf(state)), old(data[i..i + 64]))
    ensures data[i + 64..len] == old(data[i + 64..len])
    ensures data[len..] == old(data[len..])
  {
    ghost var behind := data[i + 64..];
    ghost var next, tail := data[i + 64..len], data[len..];
    assert next == behind[..len - i - 64] && tail == behind[len - i - 64..];
    SHA1Transform(state, data, i);
    assert data[i + 64..] == behind;
    assert data[i + 64..len] == behind[..len - i - 64] && data[len..] == behind[len - i - 64..];
  }

  // The test for a full block is made in 32-bit arithmetic. It is right exactly while the bytes
  // buffered and the new ones add up to less than 2^32.
  lemma FullTestExact(j: nat, len: nat)
    requires j < 64 && len < TWO32
    ensures ((j + len) % TWO32 > 63 <==> j + len > 63) <==> j + len < TWO32
  {
  }

  // The copying half of SHA1Update, with j bytes of a block buffered.
  method Absorb(state: array<word>, buffer: array<byte>, data: array<byte>, j: nat, len: nat)
    requires state.Length == 5 && buffer.Length == 64 && data != buffer
    requires j < 64 && len <= data.Length && j + len < TWO32
    modifies state, buffer, data
    ensures RegsOf(state) == Chain(old(RegsOf(state)), old(buffer[..j]) + old(data[..len]))
    ensures buffer[..(j + len) % 64] == Rest(old(buffer[..j]) + old(data[..len]))
    ensures data[len..] == old(data[len..])
  {
    ghost var all := buffer[..j] + data[..len];
    var i, at := 0, j;
    if (j + len) % TWO32 > 63 {
      i := AbsorbBlocks(state, buffer, data, j, len, all);
      at := 0;
    }
    KeepRest(buffer, at, data, i, len, Rest(all));
  }

  // The last memcpy of SHA1Update: what is left of the data is buffered.
  method KeepRest(buffer: array<byte>, at: nat, data: array<byte>, i: nat, len: nat, ghost tail: seq<byte>)
    requires buffer.Length == 64 && data != buffer && i <= len <= data.Length
    requires at <= 64 && tail == buffer[..at] + data[i..len] && |tail| < 64
    modifies buffer
    ensures buffer[..|tail|] == tail
  {
    CopyBytes(buffer, at, data, i, len - i);
    assert buffer[..at + (len - i)] == buffer[..at] + buffer[at..at + (len - i)];
  }

  method AbsorbBlocks(state: array<word>, buffer: array<byte>, data: array<byte>, j: nat, len: nat,
                      ghost all: seq<byte>)
    returns (i: nat)
    requires state.Length == 5 && buffer.Length == 64 && data != buffer
    requires j < 64 && len <= data.Length && j + len >= 64 && all == buffer[..j] + data[..len]
    modifies state, buffer, data
    ensures RegsOf(state) == Chain(old(RegsOf(state)), all)
    ensures i <= len && data[i..len] == Rest(all)
    ensures data[len..] == old(data[len..])
  {
    i := 64 - j;
    FillBlock(state, buffer, data, j, i, all[..64]);
    assert data[i..len] == all[64..];
    i := WholeBlocks(state, data, i, len);
  }

  // Completing the buffered block.
  method FillBlock(state: array<word>, buffer: array<byte>, data: array<byte>, j: nat, i: nat, ghost block: seq<byte>)
    requires state.Length == 5 && buffer.Length == 64 && data != buffer && j + i == 64 && i <= data.Length
    requires block == buffer[..j] + data[..i]
    modifies state, buffer
    ensures RegsOf(state) == Compress(old(RegsOf(state)), block)
  {
    CopyBytes(buffer, j, data, 0, i);
    assert buffer[0..64] == block;
    SHA1Transform(state, buffer, 0);
  }

  // ---------------------------------------------------------------- the context

  class Context {
    const state: array<word>
    const buffer: array<byte>
    var count0: nat
    var count1: nat
    ghost var absorbed: seq<byte>

    ghost predicate Valid()
      reads this, state, buffer
    {
      && state.Length == 5
      && Counts(count0, count1, |absorbed|)
      && RegsOf(state) == Chain(INIT, absorbed)
      && buffer.Length == 64 && buffer[..|absorbed| % 64] == Rest(absorbed)
    }

    // SHA1Init
    constructor ()
      ensures Valid() && fresh(state) && fresh(buffer) && absorbed == []
    {
      state := new word[5][0x67452301, 0xEFCDAB89, 0x98BADCFE, 0x10325476, 0xC3D2E1F0];
      count0, count1 := 0, 0;
      buffer := new byte[64];
      absorbed := [];
    }

    method AddCount(len: nat) returns (j: nat)
      requires len < TWO32 && Counts(count0, count1, |absorbed|)
      modifies this`count0, this`count1
      ensures j == |absorbed| % 64 && Counts(count0, count1, |absorbed| + len)
    {
      var bits := 8 * len % TWO32;
      CountsSplit(count0, count1, |absorbed|);
      CountsAdd(count0, count1, |absorbed|, len, bits);
      j := count0 / 8 % 64;
      count0 := AddLow(count0, bits);
      count1 := AddHigh(count0, count1, bits, len);
    }

    // SHA1Update. Whole blocks of the caller's data are compressed, and overwritten, in
    // place. The bytes already buffered and len must not add up to 2^32 (FullTestExact).
    method Update(data: array<byte>, len: nat)
      requires Valid() && len <= data.Length && |absorbed| % 64 + len < TWO32
      requires data != buffer
      modifies this`absorbed, this`count0, this`count1, state, buffer, data
      ensures Valid()
      ensures absorbed == old(absorbed) + old(data[..len])
      ensures data[len..] == old(data[len..])
    {
      ghost var d, pending := data[..len], Rest(absorbed);
      var j := AddCount(len);
      assert buffer[..j] == pending && data[..len] == d;
      ChainConcat(INIT, absorbed, d);
      Absorb(state, buffer, data, j, len);
      RestLength(absorbed, d, j + len);
      absorbed := absorbed + d;
    }

    // One byte of padding.
    method Pad(b: byte)
      requires Valid()
      modifies this`absorbed, this`count0, this`count1, state, buffer
      ensures Valid() && absorbed == old(absorbed) + [b]
    {
      var data := new byte[1][b];
      assert data[..1] == [b];
      Update(data, 1);
    }

    // Zeros until the count says that 56 bytes are buffered.
    method PadTo56(ghost m: seq<byte>)
      requires Valid() && absorbed == m + [0x80]
      modifies this`absorbed, this`count0, this`count1, state, buffer
      ensures Valid() && absorbed == m + [0x80] + Zeros(PadZeros(|m|))
    {
      ghost var z, n, body := 0, PadZeros(|m|), absorbed;
      CountsSplit(count0, count1, |absorbed|);
      while count0 / 8 % 64 * 8 != 448
        invariant Valid() && absorbed == body + Zeros(z) && z <= n
        invariant count0 / 8 % 64 == |absorbed| % 64
        decreases n - z
      {
        FirstAt56(|m|, z);
        Pad(0);
        assert Zeros(z + 1) == Zeros(z) + [0];
        z := z + 1;
        CountsSplit(count0, count1, |absorbed|);
      }
      FirstAt56(|m|, z);
    }

    // SHA1Final. The length is noted before padding. The context is wiped.
    method Final(digest: array<byte>)
      requires Valid() && digest.Length == 20 && digest != buffer
      modifies this`absorbed, this`count0, this`count1, state, buffer, digest
      ensures digest[..] == Digest(old(absorbed))
    {
      ghost var m := absorbed;
      var finalcount := LengthField(count0, count1, |m|);
      Pad(0x80);
      PadTo56(m);
      Update(finalcount, 8);
      assert absorbed == Padded(m);
      WriteDigest(state, digest);
      Wipe(state, buffer);
      count0, count1 := 0, 0;
    }
  }

  lemma RestLength(a: seq<byte>, b: seq<byte>, n: nat)
    requires n == |a| % 64 + |b|
    ensures n % 64 == |a + b| % 64
  {
  }

  // The padding loop stops at the first number of zeros that reaches 56.
  lemma FirstAt56(n: nat, z: nat)
    requires z <= PadZeros(n)
    ensures (n + 1 + z) % 64 == 56 <==> z == PadZeros(n)
  {
  }

  // Byte i of the length field: the high word comes first, each from its highest byte on.
  function CountByte(low: nat, high: nat, i: nat): byte
    requires i < 8
  {
    LowByte(ShiftBytes(if i >= 4 then low else high, 3 - i % 4))
  }

  lemma ShiftWords(low: nat, high: nat, n: nat)
    requires low < TWO32 && n == high * TWO32 + low
    ensures forall k :: 0 <= k < 4 ==> ShiftBytes(n, k) % 256 == ShiftBytes(low, k) % 256
    ensures forall k :: 0 <= k < 4 ==> ShiftBytes(n, k + 4) == ShiftBytes(high, k)
  {
    var n1, l1 := n / 256, low / 256;
    assert n1 == high * 0x100_0000 + l1;
    var n2, l2 := n1 / 256, l1 / 256;
    assert n2 == high * 0x1_0000 + l2;
    var n3, l3 := n2 / 256, l2 / 256;
    assert n3 == high * 0x100 + l3;
    assert n3 / 256 == high;
    forall k | 0 <= k < 4
      ensures ShiftBytes(n, k) % 256 == ShiftBytes(low, k) % 256
    {
      assert ShiftBytes(n, 1) == n1 && ShiftBytes(low, 1) == l1;
      assert ShiftBytes(n, 2) == ShiftBytes(n1, 1) == n2 && ShiftBytes(low, 2) == ShiftBytes(l1, 1) == l2;
      assert ShiftBytes(n, 3) == ShiftBytes(n1, 2) == ShiftBytes(n2, 1) == n3;
      assert ShiftBytes(low, 3) == ShiftBytes(l1, 2) == ShiftBytes(l2, 1) == l3;
    }
    forall k | 0 <= k < 4
      ensures ShiftBytes(n, k + 4) == ShiftBytes(high, k)
    {
      assert ShiftBytes(n, k + 4) == ShiftBytes(n1, k + 3) == ShiftBytes(n2, k + 2) == ShiftBytes(n3, k + 1);
    }
  }

  lemma CountByteIsLength(low: nat, high: nat, n: nat, i: nat)
    requires low < TWO32 && n == high * TWO32 + low && i < 8
    ensures CountByte(low, high, i) == ToBigEndian(n, 8)[i]
  {
    BigEndianAt(n, 8, i);
    ShiftWords(low, high, n);
    if i < 4 {
      assert ShiftBytes(n, (3 - i) + 4) == ShiftBytes(high, 3 - i);
    } else {
      assert 3 - i % 4 == 7 - i;
      SameLowByte(ShiftBytes(n, 7 - i), ShiftBytes(low, 7 - i));
    }
  }

  lemma SameLowByte(a: nat, b: nat)
    requires a % 256 == b % 256
    ensures LowByte(a) == LowByte(b)
  {
  }

  method LengthField(low: nat, high: nat, ghost n: nat) returns (field: array<byte>)
    requires Counts(low, high, n)
    ensures fresh(field) && field.Length == 8 && field[..] == ToBigEndian(8 * n % TWO64, 8)
  {
    field := new byte[8];
    for i := 0 to 8
      invariant forall k :: 0 <= k < i ==> field[k] == CountByte(low, high, k)
    {
      field[i] := CountByte(low, high, i);
    }
    forall k | 0 <= k < 8
      ensures field[k] == ToBigEndian(8 * n % TWO64, 8)[k]
    {
      CountByteIsLength(low, high, 8 * n % TWO64, k);
    }
  }

  // The digest: the words of the state in order, each from its highest byte on.
  method WriteDigest(state: array<word>, digest: array<byte>)
    requires state.Length == 5 && digest.Length == 20
    modifies digest
    ensures digest[..] == RegsBytes(RegsOf(state))
  {
    for i := 0 to 20
      invariant forall k :: 0 <= k < i ==> digest[k] == WordByte(state[k / 4], k % 4)
    {
      digest[i] := WordByte(state[i / 4], i % 4);
    }
  }

  method Wipe(state: array<word>, buffer: array<byte>)
    modifies state, buffer
    ensures forall k :: 0 <= k < state.Length ==> state[k] == 0
    ensures forall k :: 0 <= k < buffer.Length ==> buffer[k] == 0
  {
    forall k | 0 <= k < state.Length {
      state[k] := 0;
    }
    forall k | 0 <= k < buffer.Length {
      buffer[k] := 0;
    }
  }

  // However a message is cut into Update calls, the digest is that of the whole message.
  method DigestOfPieces(pieces: seq<seq<byte>>) returns (digest: array<byte>)
    requires forall k :: 0 <= k < |pieces| ==> |Flatten(pieces[..k])| % 64 + |pieces[k]| < TWO32
    ensures fresh(digest) && digest[..] == Digest(Flatten(pieces))
  {
    var context := new Context();
    var k := 0;
    while k < |pieces|
      invariant 0 <= k <= |pieces|
      invariant context.Valid() && fresh(context) && fresh(context.state) && fresh(context.buffer)
      invariant context.absorbed == Flatten(pieces[..k])
    {
      var piece := pieces[k];
      var data := new byte[|piece|](i requires 0 <= i < |piece| => piece[i]);
      assert data[..|piece|] == piece;
      context.Update(data, |piece|);
      FlattenSnoc(pieces[..k], piece);
      assert pieces[..k] + [piece] == pieces[..k + 1];
      k := k + 1;
    }
    assert pieces[..k] == pieces;
    digest := new byte[20];
    context.Final(digest);
  }
}
