// The known answer of RFC 6455, section 1.3, computed by the definitions of RFC 3174 and RFC 4648:
// it fixes their constants, rotations and byte orders, and those of the handshake.
module Sha1Example {
  import opened Bytes
  import opened Sha1Spec

  // dGhlIHNhbXBsZSBub25jZQ==, and behind it 258EAFA5-E914-47DA-95CA-C5AB0DC85B11, in rows of
  // sixteen bytes.
  const ROW0: seq<byte> := [
    0x64, 0x47, 0x68, 0x6C, 0x49, 0x48, 0x4E, 0x68, 0x62, 0x58, 0x42, 0x73, 0x5A, 0x53, 0x42, 0x75]
  const ROW1: seq<byte> := [
    0x62, 0x32, 0x35, 0x6A, 0x5A, 0x51, 0x3D, 0x3D, 0x32, 0x35, 0x38, 0x45, 0x41, 0x46, 0x41, 0x35]
  const ROW2: seq<byte> := [
    0x2D, 0x45, 0x39, 0x31, 0x34, 0x2D, 0x34, 0x37, 0x44, 0x41, 0x2D, 0x39, 0x35, 0x43, 0x41, 0x2D]
  const ROW3: seq<byte> := [
    0x43, 0x35, 0x41, 0x42, 0x30, 0x44, 0x43, 0x38, 0x35, 0x42, 0x31, 0x31]
  const SAMPLE: seq<byte> := ROW0 + ROW1 + ROW2 + ROW3

  // The padding: the last row of the first block, and the second block.
  const PADDED_ROW: seq<byte> := ROW3 + [0x80, 0, 0, 0]
  const ONE: seq<byte> := ROW0 + ROW1 + ROW2 + PADDED_ROW
  const LENGTH: seq<byte> := [0, 0, 0, 0, 0, 0, 1, 0xE0]
  const TWO: seq<byte> := Zeros(56) + LENGTH

  const ANSWER: seq<byte> := [
    0xB3, 0x7A, 0x4F, 0x2C, 0xC0, 0x62, 0x4F, 0x16, 0x90, 0xF6, 0x46, 0x06, 0xCF, 0x38, 0x59, 0x45,
    0xB2, 0xBE, 0xC4, 0xEA]

  // ---------------------------------------------------------------- eight rounds at a time

  datatype Eight = Eight(w0: word, w1: word, w2: word, w3: word, w4: word, w5: word, w6: word, w7: word)

  function Mixed(a: word, b: word, c: word, d: word): word
  {
    Rol1(a ^ b ^ c ^ d)
  }

  // The eight words behind sixteen others.
  function NextEight(a: Eight, b: Eight): Eight
  {
    var x0 := Mixed(b.w5, b.w0, a.w2, a.w0);
    var x1 := Mixed(b.w6, b.w1, a.w3, a.w1);
    var x2 := Mixed(b.w7, b.w2, a.w4, a.w2);
    var x3 := Mixed(x0, b.w3, a.w5, a.w3);
    var x4 := Mixed(x1, b.w4, a.w6, a.w4);
    var x5 := Mixed(x2, b.w5, a.w7, a.w5);
    var x6 := Mixed(x3, b.w6, b.w0, a.w6);
    var x7 := Mixed(x4, b.w7, b.w1, a.w7);
    Eight(x0, x1, x2, x3, x4, x5, x6, x7)
  }

  function FourRounds(r: Regs, t: nat, a: word, b: word, c: word, d: word): Regs
  {
    Round(Round(Round(Round(r, t, a), t + 1, b), t + 2, c), t + 3, d)
  }

  function EightRounds(r: Regs, t: nat, w: Eight): Regs
  {
    FourRounds(FourRounds(r, t, w.w0, w.w1, w.w2, w.w3), t + 4, w.w4, w.w5, w.w6, w.w7)
  }

  // w is what the schedule of the block holds from t on.
  predicate Scheduled(block: seq<byte>, t: nat, w: Eight)
    requires |block| == 64
  {
    && W(block, t) == w.w0 && W(block, t + 1) == w.w1 && W(block, t + 2) == w.w2 && W(block, t + 3) == w.w3
    && W(block, t + 4) == w.w4 && W(block, t + 5) == w.w5 && W(block, t + 6) == w.w6 && W(block, t + 7) == w.w7
  }

  // After t rounds the registers are r, and a and b are the next sixteen words.
  predicate Stage(h: Regs, block: seq<byte>, t: nat, a: Eight, b: Eight, r: Regs)
    requires |block| == 64
  {
    Rounds(h, block, t) == r && Scheduled(block, t, a) && Scheduled(block, t + 8, b)
  }

  lemma MoreWords(block: seq<byte>, t: nat, a: Eight, b: Eight, next: Eight)
    requires |block| == 64 && Scheduled(block, t, a) && Scheduled(block, t + 8, b) && next == NextEight(a, b)
    ensures Scheduled(block, t + 16, next)
  {
    NextWord(block, t + 16, b.w5, b.w0, a.w2, a.w0);
    NextWord(block, t + 17, b.w6, b.w1, a.w3, a.w1);
    NextWord(block, t + 18, b.w7, b.w2, a.w4, a.w2);
    NextWord(block, t + 19, next.w0, b.w3, a.w5, a.w3);
    NextWord(block, t + 20, next.w1, b.w4, a.w6, a.w4);
    NextWord(block, t + 21, next.w2, b.w5, a.w7, a.w5);
    NextWord(block, t + 22, next.w3, b.w6, b.w0, a.w6);
    NextWord(block, t + 23, next.w4, b.w7, b.w1, a.w7);
  }

  lemma NextWord(block: seq<byte>, t: nat, a: word, b: word, c: word, d: word)
    requires |block| == 64 && t >= 16
    requires W(block, t - 3) == a && W(block, t - 8) == b && W(block, t - 14) == c && W(block, t - 16) == d
    ensures W(block, t) == Mixed(a, b, c, d)
  {
  }

  lemma MoreRounds(h: Regs, block: seq<byte>, t: nat, a: Eight, r: Regs, r': Regs)
    requires |block| == 64 && Rounds(h, block, t) == r && Scheduled(block, t, a) && r' == EightRounds(r, t, a)
    ensures Rounds(h, block, t + 8) == r'
  {
    var r4 := FourRounds(r, t, a.w0, a.w1, a.w2, a.w3);
    assert Rounds(h, block, t + 1) == Round(r, t, a.w0);
    assert Rounds(h, block, t + 2) == Round(Round(r, t, a.w0), t + 1, a.w1);
    assert Rounds(h, block, t + 3) == Round(Round(Round(r, t, a.w0), t + 1, a.w1), t + 2, a.w2);
    assert Rounds(h, block, t + 4) == r4;
    assert Rounds(h, block, t + 5) == Round(r4, t + 4, a.w4);
    assert Rounds(h, block, t + 6) == Round(Round(r4, t + 4, a.w4), t + 5, a.w5);
    assert Rounds(h, block, t + 7) == Round(Round(Round(r4, t + 4, a.w4), t + 5, a.w5), t + 6, a.w6);
  }

  lemma Advance(h: Regs, block: seq<byte>, t: nat, a: Eight, b: Eight, r: Regs, next: Eight, r': Regs)
    requires |block| == 64 && Stage(h, block, t, a, b, r)
    requires next == NextEight(a, b) && r' == EightRounds(r, t, a)
    ensures Stage(h, block, t + 8, b, next, r')
  {
    MoreWords(block, t, a, b, next);
    MoreRounds(h, block, t, a, r, r');
  }

  // ---------------------------------------------------------------- the two blocks

  // The schedule of the first block, and the registers after every eight rounds.
  const FIRST_W0 := Eight(0x6447686C, 0x49484E68, 0x62584273, 0x5A534275,
    0x6232356A, 0x5A513D3D, 0x32353845, 0x41464135)
  const FIRST_W1 := Eight(0x2D453931, 0x342D3437, 0x44412D39, 0x3543412D,
    0x43354142, 0x30444338, 0x35423131, 0x80000000)
  const FIRST_W2 := Eight(0x363CA02C, 0x24E81236, 0x8856B441, 0x06FB3C92,
    0x6FB4BCB6, 0x460B16E3, 0x599219AE, 0x35BF9369)
  const FIRST_W3 := Eight(0x3267458E, 0xF828FD04, 0x753A96A7, 0x6336F612,
    0xC3D66383, 0x06EB86F9, 0x73B4FD42, 0xA503C5B8)
  const FIRST_W4 := Eight(0x15CDAE35, 0x531E5DC5, 0x6FB6B7D0, 0x6C16E4AC,
    0x4DDD36BD, 0x35D36946, 0xE8AE8B9C, 0x4A933AD0)
  const FIRST_W5 := Eight(0xCE8628B4, 0x415DBA9E, 0x2792F049, 0x8E9B79E7,
    0x79C425C5, 0x6353B49D, 0x00994218, 0x8A950ED1)
  const FIRST_W6 := Eight(0xAF5D0B99, 0xFD9883DE, 0x1ED8FFEB, 0xF007FF28,
    0x425E3674, 0x059631C0, 0xAD6C3C31, 0x860B71D7)
  const FIRST_W7 := Eight(0x87BFC548, 0x3E64F92D, 0x8D0AB761, 0x34E1EE35,
    0x0ACF5108, 0xC2B479DA, 0x6C93370A, 0xF7935BA1)
  const FIRST_W8 := Eight(0xE91C91C1, 0xBED165A2, 0x4C3E4ABE, 0x50D96238,
    0xB6587DDE, 0x1A2EE6E6, 0x2D335896, 0xF3495D0B)
  const FIRST_W9 := Eight(0xF30E0A1D, 0x32CE5459, 0x7165E3B8, 0xAB05FF94,
    0xC5949F0B, 0xBCD84E4A, 0x07720392, 0xFF3FF806)

  const FIRST_R0 := Regs(0x67452301, 0xEFCDAB89, 0x98BADCFE, 0x10325476, 0xC3D2E1F0)
  const FIRST_R1 := Regs(0x2E0CE601, 0x73553E84, 0x5CC82E5A, 0xB7631F04, 0x14F80E6B)
  const FIRST_R2 := Regs(0xA004C468, 0xE922CC9D, 0xAB86825B, 0xD86F6CAF, 0x8D33AE61)
  const FIRST_R3 := Regs(0x250E26EF, 0xBEAFD554, 0xB44BC2D5, 0xD4611C28, 0x0246AE5F)
  const FIRST_R4 := Regs(0xA6680A1F, 0xB7DABC8B, 0x4206D8F9, 0xC6AEC70D, 0x95C7DF60)
  const FIRST_R5 := Regs(0x2BA2C83E, 0xD0869081, 0x1A1D8209, 0xD3334889, 0x2779E4F2)
  const FIRST_R6 := Regs(0xABE1748A, 0xDEE4B7A8, 0x5CBFCCD3, 0x97D7CD14, 0xDB71A8F5)
  const FIRST_R7 := Regs(0x7E1242F2, 0x50C9104C, 0x131822B1, 0x49B1A4E5, 0x4439FD9C)
  const FIRST_R8 := Regs(0x685E2FF6, 0x840054D3, 0xE43C0363, 0x3350802E, 0x921CB616)
  const FIRST_R9 := Regs(0x7E65E044, 0x80D59773, 0x81CE06DF, 0xA59B8126, 0x33E1963B)
  const FIRST_R10 := Regs(0xF48A5426, 0x835995E1, 0x25C11EFB, 0x4A45C402, 0x9A73C2F2)

  // The schedule of the second block, and the registers after every eight rounds.
  const SECOND_W0 := Eight(0x00000000, 0x00000000, 0x00000000, 0x00000000,
    0x00000000, 0x00000000, 0x00000000, 0x00000000)
  const SECOND_W1 := Eight(0x00000000, 0x00000000, 0x00000000, 0x00000000,
    0x00000000, 0x00000000, 0x00000000, 0x000001E0)
  const SECOND_W2 := Eight(0x00000000, 0x00000000, 0x000003C0, 0x00000000,
    0x00000000, 0x00000780, 0x00000000, 0x000003C0)
  const SECOND_W3 := Eight(0x00000F00, 0x00000000, 0x00000000, 0x00001E00,
    0x00000000, 0x00000CC0, 0x00003C00, 0x00000440)
  const SECOND_W4 := Eight(0x00000000, 0x00007800, 0x00000F00, 0x00003300,
    0x0000F000, 0x00000F00, 0x00000000, 0x0001EF00)
  const SECOND_W5 := Eight(0x00000000, 0x0000CC00, 0x0003C000, 0x00004380,
    0x00000000, 0x00078F00, 0x0000FF00, 0x00032680)
  const SECOND_W6 := Eight(0x000F0000, 0x0000F000, 0x00003300, 0x001EFF00,
    0x00000000, 0x000CB800, 0x003C0000, 0x00040B00)
  const SECOND_W7 := Eight(0x0000F000, 0x0078FF00, 0x000FF000, 0x00338700,
    0x00F00000, 0x000FC300, 0x0000F000, 0x01EFBB00)
  const SECOND_W8 := Eight(0x00000000, 0x00CC0000, 0x03C0F000, 0x00438000,
    0x00000000, 0x078F0000, 0x00FF0000, 0x03269E00)
  const SECOND_W9 := Eight(0x0F000000, 0x00F0F000, 0x00333C00, 0x1EFF8800,
    0x00000000, 0x0CB88800, 0x3C00F000, 0x040A4A00)

  const SECOND_R0 := Regs(0x5BCF7727, 0x7327416A, 0xBE7BFBF9, 0x5A781878, 0x5E46A4E2)
  const SECOND_R1 := Regs(0x25C018BE, 0xB3BBCAFE, 0xE4E97BEE, 0xB90F74BC, 0xC5615548)
  const SECOND_R2 := Regs(0x986DF268, 0x990B7BE7, 0xAB50FCE7, 0x195DB4B7, 0x4941806B)
  const SECOND_R3 := Regs(0x53C73650, 0x3E5179E7, 0x103EF3E6, 0xC48C56CA, 0x4A8022D4)
  const SECOND_R4 := Regs(0x3CF6EB58, 0xF4DDD7B7, 0xC90FB815, 0xBD5F2D4F, 0xE4C9F7DB)
  const SECOND_R5 := Regs(0x6F698F1A, 0xC6FF0CD3, 0xDE5AB7BC, 0x5F6F3CBB, 0x1DA48A85)
  const SECOND_R6 := Regs(0xA3EF857E, 0xC8CDA3DA, 0xCEF6480E, 0xFF1EF4D7, 0xC7A4D2B3)
  const SECOND_R7 := Regs(0xA1B68141, 0x660DD0B1, 0x0B1CEF5E, 0xE795018D, 0xD7F8A8F6)
  const SECOND_R8 := Regs(0xA5937450, 0xD5EF1ED7, 0xC444CBE3, 0xDDD22788, 0x558467C6)
  const SECOND_R9 := Regs(0xC90888CA, 0xF6D1AFEE, 0x6FCE9FE5, 0x538D8F6E, 0x025E9447)
  const SECOND_R10 := Regs(0x57AAD805, 0x4D3B0DAC, 0xD27A4A0D, 0x74C040CD, 0x54782008)

  lemma First16(block: seq<byte>)
    requires |block| == 64 && Stage(FIRST_R0, block, 0, FIRST_W0, FIRST_W1, FIRST_R0)
    ensures Stage(FIRST_R0, block, 16, FIRST_W2, FIRST_W3, FIRST_R2)
  {
    Advance(FIRST_R0, block, 0, FIRST_W0, FIRST_W1, FIRST_R0, FIRST_W2, FIRST_R1);
    Advance(FIRST_R0, block, 8, FIRST_W1, FIRST_W2, FIRST_R1, FIRST_W3, FIRST_R2);
  }

  lemma First32(block: seq<byte>)
    requires |block| == 64 && Stage(FIRST_R0, block, 16, FIRST_W2, FIRST_W3, FIRST_R2)
    ensures Stage(FIRST_R0, block, 32, FIRST_W4, FIRST_W5, FIRST_R4)
  {
    Advance(FIRST_R0, block, 16, FIRST_W2, FIRST_W3, FIRST_R2, FIRST_W4, FIRST_R3);
    Advance(FIRST_R0, block, 24, FIRST_W3, FIRST_W4, FIRST_R3, FIRST_W5, FIRST_R4);
  }

  lemma First48(block: seq<byte>)
    requires |block| == 64 && Stage(FIRST_R0, block, 32, FIRST_W4, FIRST_W5, FIRST_R4)
    ensures Stage(FIRST_R0, block, 48, FIRST_W6, FIRST_W7, FIRST_R6)
  {
    Advance(FIRST_R0, block, 32, FIRST_W4, FIRST_W5, FIRST_R4, FIRST_W6, FIRST_R5);
    Advance(FIRST_R0, block, 40, FIRST_W5, FIRST_W6, FIRST_R5, FIRST_W7, FIRST_R6);
  }

  lemma First64(block: seq<byte>)
    requires |block| == 64 && Stage(FIRST_R0, block, 48, FIRST_W6, FIRST_W7, FIRST_R6)
    ensures Stage(FIRST_R0, block, 64, FIRST_W8, FIRST_W9, FIRST_R8)
  {
    Advance(FIRST_R0, block, 48, FIRST_W6, FIRST_W7, FIRST_R6, FIRST_W8, FIRST_R7);
    Advance(FIRST_R0, block, 56, FIRST_W7, FIRST_W8, FIRST_R7, FIRST_W9, FIRST_R8);
  }

  lemma First80(block: seq<byte>)
    requires |block| == 64 && Stage(FIRST_R0, block, 64, FIRST_W8, FIRST_W9, FIRST_R8)
    ensures Rounds(FIRST_R0, block, 80) == FIRST_R10
  {
    MoreRounds(FIRST_R0, block, 64, FIRST_W8, FIRST_R8, FIRST_R9);
    MoreRounds(FIRST_R0, block, 72, FIRST_W9, FIRST_R9, FIRST_R10);
  }

  lemma Second16(block: seq<byte>)
    requires |block| == 64 && Stage(SECOND_R0, block, 0, SECOND_W0, SECOND_W1, SECOND_R0)
    ensures Stage(SECOND_R0, block, 16, SECOND_W2, SECOND_W3, SECOND_R2)
  {
    Advance(SECOND_R0, block, 0, SECOND_W0, SECOND_W1, SECOND_R0, SECOND_W2, SECOND_R1);
    Advance(SECOND_R0, block, 8, SECOND_W1, SECOND_W2, SECOND_R1, SECOND_W3, SECOND_R2);
  }

  lemma Second32(block: seq<byte>)
    requires |block| == 64 && Stage(SECOND_R0, block, 16, SECOND_W2, SECOND_W3, SECOND_R2)
    ensures Stage(SECOND_R0, block, 32, SECOND_W4, SECOND_W5, SECOND_R4)
  {
    Advance(SECOND_R0, block, 16, SECOND_W2, SECOND_W3, SECOND_R2, SECOND_W4, SECOND_R3);
    Advance(SECOND_R0, block, 24, SECOND_W3, SECOND_W4, SECOND_R3, SECOND_W5, SECOND_R4);
  }

  lemma Second48(block: seq<byte>)
    requires |block| == 64 && Stage(SECOND_R0, block, 32, SECOND_W4, SECOND_W5, SECOND_R4)
    ensures Stage(SECOND_R0, block, 48, SECOND_W6, SECOND_W7, SECOND_R6)
  {
    Advance(SECOND_R0, block, 32, SECOND_W4, SECOND_W5, SECOND_R4, SECOND_W6, SECOND_R5);
    Advance(SECOND_R0, block, 40, SECOND_W5, SECOND_W6, SECOND_R5, SECOND_W7, SECOND_R6);
  }

  lemma Second64(block: seq<byte>)
    requires |block| == 64 && Stage(SECOND_R0, block, 48, SECOND_W6, SECOND_W7, SECOND_R6)
    ensures Stage(SECOND_R0, block, 64, SECOND_W8, SECOND_W9, SECOND_R8)
  {
    Advance(SECOND_R0, block, 48, SECOND_W6, SECOND_W7, SECOND_R6, SECOND_W8, SECOND_R7);
    Advance(SECOND_R0, block, 56, SECOND_W7, SECOND_W8, SECOND_R7, SECOND_W9, SECOND_R8);
  }

  lemma Second80(block: seq<byte>)
    requires |block| == 64 && Stage(SECOND_R0, block, 64, SECOND_W8, SECOND_W9, SECOND_R8)
    ensures Rounds(SECOND_R0, block, 80) == SECOND_R10
  {
    MoreRounds(SECOND_R0, block, 64, SECOND_W8, SECOND_R8, SECOND_R9);
    MoreRounds(SECOND_R0, block, 72, SECOND_W9, SECOND_R9, SECOND_R10);
  }

  // The four words of a row of bytes.
  predicate RowHolds(row: seq<byte>, a: word, b: word, c: word, d: word)
    requires |row| == 16
  {
    && a == BigEndianWord(row[0], row[1], row[2], row[3]) && b == BigEndianWord(row[4], row[5], row[6], row[7])
    && c == BigEndianWord(row[8], row[9], row[10], row[11]) && d == BigEndianWord(row[12], row[13], row[14], row[15])
  }

  lemma FourWords(block: seq<byte>, t: nat, row: seq<byte>, a: word, b: word, c: word, d: word)
    requires |block| == 64 && t <= 12 && |row| == 16 && RowHolds(row, a, b, c, d)
    requires forall k :: 0 <= k < 16 ==> block[4 * t + k] == row[k]
    ensures W(block, t) == a && W(block, t + 1) == b && W(block, t + 2) == c && W(block, t + 3) == d
  {
    var at := 4 * t;
    assert row[0] == block[at] && row[1] == block[at + 1] && row[2] == block[at + 2] && row[3] == block[at + 3];
    assert row[4] == block[at + 4] && row[5] == block[at + 5] && row[6] == block[at + 6] && row[7] == block[at + 7];
    assert row[8] == block[at + 8] && row[9] == block[at + 9];
    assert row[10] == block[at + 10] && row[11] == block[at + 11];
    assert row[12] == block[at + 12] && row[13] == block[at + 13];
    assert row[14] == block[at + 14] && row[15] == block[at + 15];
  }

  // A block of four rows.
  lemma FourRows(block: seq<byte>, p: seq<byte>, q: seq<byte>, r: seq<byte>, s: seq<byte>, a: Eight, b: Eight)
    requires |p| == |q| == |r| == |s| == 16 && block == p + q + r + s
    requires RowHolds(p, a.w0, a.w1, a.w2, a.w3) && RowHolds(q, a.w4, a.w5, a.w6, a.w7)
    requires RowHolds(r, b.w0, b.w1, b.w2, b.w3) && RowHolds(s, b.w4, b.w5, b.w6, b.w7)
    ensures Scheduled(block, 0, a) && Scheduled(block, 8, b)
  {
    FourWords(block, 0, p, a.w0, a.w1, a.w2, a.w3);
    FourWords(block, 4, q, a.w4, a.w5, a.w6, a.w7);
    FourWords(block, 8, r, b.w0, b.w1, b.w2, b.w3);
    FourWords(block, 12, s, b.w4, b.w5, b.w6, b.w7);
  }

  lemma RowWords()
    ensures |ROW0| == |ROW1| == |ROW2| == |PADDED_ROW| == 16
    ensures RowHolds(ROW0, FIRST_W0.w0, FIRST_W0.w1, FIRST_W0.w2, FIRST_W0.w3)
    ensures RowHolds(ROW1, FIRST_W0.w4, FIRST_W0.w5, FIRST_W0.w6, FIRST_W0.w7)
    ensures RowHolds(ROW2, FIRST_W1.w0, FIRST_W1.w1, FIRST_W1.w2, FIRST_W1.w3)
    ensures RowHolds(PADDED_ROW, FIRST_W1.w4, FIRST_W1.w5, FIRST_W1.w6, FIRST_W1.w7)
  {
  }

  lemma FirstWords()
    ensures |ONE| == 64 && Scheduled(ONE, 0, FIRST_W0) && Scheduled(ONE, 8, FIRST_W1)
  {
    RowWords();
    FourRows(ONE, ROW0, ROW1, ROW2, PADDED_ROW, FIRST_W0, FIRST_W1);
  }

  lemma SecondWords()
    ensures |TWO| == 64 && Scheduled(TWO, 0, SECOND_W0) && Scheduled(TWO, 8, SECOND_W1)
  {
    var row := Zeros(8) + LENGTH;
    assert TWO == Zeros(16) + Zeros(16) + Zeros(16) + row;
    FourRows(TWO, Zeros(16), Zeros(16), Zeros(16), row, SECOND_W0, SECOND_W1);
  }

  lemma FirstBlock()
    ensures |ONE| == 64 && Compress(INIT, ONE) == SECOND_R0
  {
    FirstWords();
    assert INIT == FIRST_R0;
    First16(ONE);
    First32(ONE);
    First48(ONE);
    First64(ONE);
    First80(ONE);
  }

  lemma SecondBlock()
    ensures |TWO| == 64 && Compress(SECOND_R0, TWO) == LAST
  {
    SecondWords();
    Second16(TWO);
    Second32(TWO);
    Second48(TWO);
    Second64(TWO);
    Second80(TWO);
  }

  const LAST := Regs(0xB37A4F2C, 0xC0624F16, 0x90F64606, 0xCF385945, 0xB2BEC4EA)

  // The padded message is these two blocks.
  lemma SamplePadded()
    ensures Padded(SAMPLE) == ONE + TWO
  {
    PaddedRows(SAMPLE, ROW0 + ROW1 + ROW2, ROW3);
  }

  lemma PaddedRows(msg: seq<byte>, rows: seq<byte>, row: seq<byte>)
    requires |msg| == 60 && msg == rows + row
    ensures Padded(msg) == (rows + (row + [0x80, 0, 0, 0])) + (Zeros(56) + LENGTH)
  {
    var bits: nat := 8 * |msg| % TWO64;
    SampleLength(bits);
    SampleZeros(|msg|);
    ThreeMore(56, PadZeros(|msg|));
    PaddedAs(msg, bits, [0, 0, 0] + Zeros(56), LENGTH);
    Joined(msg, rows, row, Zeros(56), LENGTH);
  }

  lemma PaddedAs(msg: seq<byte>, bits: nat, z: seq<byte>, l: seq<byte>)
    requires bits == 8 * |msg| % TWO64 && z == Zeros(PadZeros(|msg|)) && l == ToBigEndian(bits, 8)
    ensures Padded(msg) == msg + [0x80] + z + l
  {
  }

  lemma SampleZeros(n: nat)
    requires n == 60
    ensures PadZeros(n) == 59
  {
  }

  lemma ThreeMore(n: nat, z: nat)
    requires z == n + 3
    ensures Zeros(z) == [0, 0, 0] + Zeros(n)
  {
  }

  lemma Joined(all: seq<byte>, rows: seq<byte>, row: seq<byte>, zeros: seq<byte>, length: seq<byte>)
    requires all == rows + row
    ensures all + [0x80] + ([0, 0, 0] + zeros) + length == (rows + (row + [0x80, 0, 0, 0])) + (zeros + length)
  {
    assert [0x80 as byte] + [0, 0, 0] == [0x80, 0, 0, 0];
    assert all + [0x80] + ([0, 0, 0] + zeros) + length == rows + row + ([0x80] + [0, 0, 0]) + (zeros + length);
  }

  lemma SampleLength(bits: nat)
    requires bits == 480
    ensures ToBigEndian(bits, 8) == LENGTH
  {
    NoBytes(6);
    assert ToBigEndian(1, 7) == ToBigEndian(0, 6) + [LowByte(1)];
    assert ToBigEndian(bits, 8) == ToBigEndian(1, 7) + [LowByte(bits)];
  }

  lemma {:induction false} NoBytes(k: nat)
    ensures ToBigEndian(0, k) == Zeros(k)
  {
    if k > 0 {
      NoBytes(k - 1);
    }
  }

  // The digest of the sample key of RFC 6455 followed by the GUID.
  lemma SampleDigest()
    ensures Digest(SAMPLE) == ANSWER
  {
    SamplePadded();
    FirstBlock();
    SecondBlock();
    TwoBlocks(INIT, ONE, TWO);
    assert RegsBytes(LAST) == ANSWER;
  }

  lemma TwoBlocks(h: Regs, one: seq<byte>, two: seq<byte>)
    requires |one| == |two| == 64
    ensures Chain(h, one + two) == Compress(Compress(h, one), two)
  {
    assert (one + two)[..64] == one && (one + two)[64..] == two && two[..64] == two && two[64..] == [];
    assert Chain(Compress(h, one), two) == Chain(Compress(Compress(h, one), two), []);
  }
}
