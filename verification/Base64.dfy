// src/base64.c, and binDecode of sample/home/js/base64.js as its inverse.
module Base64 {
  import opened Bytes

  const PAD: byte := 0x3D

  // ---------------------------------------------------------------- the alphabet

  // base64[x]: A-Z, a-z, 0-9, +, /.
  function Symbol(x: word): byte
    requires x < 64
  {
    if x < 26 then (x + 65) as byte
    else if x < 52 then (x + 71) as byte
    else if x < 62 then (x - 4) as byte
    else if x == 62 then 0x2B
    else 0x2F
  }

  // The alphabet of RFC 4648, table 1: A-Z, a-z, 0-9, + and /.
  const UPPER: seq<byte> := [
    65, 66, 67, 68, 69, 70, 71, 72, 73, 74, 75, 76, 77, 78, 79, 80, 81, 82, 83, 84, 85, 86, 87, 88, 89, 90]
  const LOWER: seq<byte> := [
    97, 98, 99, 100, 101, 102, 103, 104, 105, 106, 107, 108, 109, 110, 111, 112, 113, 114, 115, 116, 117, 118,
    119, 120, 121, 122]
  const DIGITS: seq<byte> := [48, 49, 50, 51, 52, 53, 54, 55, 56, 57]
  const SIGNS: seq<byte> := [43, 47]

  lemma UpperSymbols()
    ensures UPPER == [
      Symbol(0), Symbol(1), Symbol(2), Symbol(3), Symbol(4), Symbol(5), Symbol(6), Symbol(7), Symbol(8),
      Symbol(9), Symbol(10), Symbol(11), Symbol(12), Symbol(13), Symbol(14), Symbol(15), Symbol(16), Symbol(17),
      Symbol(18), Symbol(19), Symbol(20), Symbol(21), Symbol(22), Symbol(23), Symbol(24), Symbol(25)]
  {
  }

  lemma LowerSymbols()
    ensures LOWER == [
      Symbol(26), Symbol(27), Symbol(28), Symbol(29), Symbol(30), Symbol(31), Symbol(32), Symbol(33),
      Symbol(34), Symbol(35), Symbol(36), Symbol(37), Symbol(38), Symbol(39), Symbol(40), Symbol(41),
      Symbol(42), Symbol(43), Symbol(44), Symbol(45), Symbol(46), Symbol(47), Symbol(48), Symbol(49),
      Symbol(50), Symbol(51)]
  {
  }

  lemma OtherSymbols()
    ensures DIGITS == [
      Symbol(52), Symbol(53), Symbol(54), Symbol(55), Symbol(56), Symbol(57), Symbol(58), Symbol(59),
      Symbol(60), Symbol(61)]
    ensures SIGNS == [Symbol(62), Symbol(63)]
  {
  }

  predicate IsSymbol(c: byte)
  {
    65 <= c <= 90 || 97 <= c <= 122 || 48 <= c <= 57 || c == 0x2B || c == 0x2F || c == PAD
  }

  // _keyStr.indexOf (c), for a character the filter lets through.
  function IndexOf(c: byte): word
    requires IsSymbol(c)
  {
    if 65 <= c <= 90 then (c as word) - 65
    else if 97 <= c <= 122 then (c as word) - 71
    else if 48 <= c <= 57 then (c as word) + 4
    else if c == 0x2B then 62
    else if c == 0x2F then 63
    else 64
  }

  lemma IndexOfSymbol(x: word)
    requires x < 64
    ensures IsSymbol(Symbol(x)) && IndexOf(Symbol(x)) == x
  {
  }

  // The script's index is that of the alphabet, and the padding sign stands behind it.
  lemma SymbolOfIndex(c: byte)
    requires IsSymbol(c)
    ensures if c == 61 then IndexOf(c) == 64 else IndexOf(c) < 64 && Symbol(IndexOf(c)) == c
  {
  }

  // ---------------------------------------------------------------- RFC 4648, section 4

  function First(a: byte): word { (a as word) >> 2 }
  function Second(a: byte, b: byte): word { (((a as word) & 3) << 4) | ((b as word) >> 4) }
  function Third(b: byte, c: byte): word { (((b as word) & 15) << 2) | ((c as word) >> 6) }
  function Fourth(c: byte): word { (c as word) & 63 }

  lemma Sextets(a: byte, b: byte, c: byte)
    ensures First(a) < 64 && Second(a, b) < 64 && Third(b, c) < 64 && Fourth(c) < 64
  {
  }

  // The four digits in base 64 and the three in base 256 are the same number.
  lemma SextetsValue(a: byte, b: byte, c: byte)
    ensures 0x4_0000 * First(a) + 0x1000 * Second(a, b) + 0x40 * Third(b, c) + Fourth(c) ==
      0x1_0000 * (a as word) + 0x100 * (b as word) + (c as word)
  {
  }

  // One group of one to three bytes; missing bits are zero.
  function Group(s: seq<byte>): (t: seq<byte>)
    requires 1 <= |s| <= 3
    ensures |t| == 4
  {
    var b := if |s| > 1 then s[1] else 0;
    var c := if |s| > 2 then s[2] else 0;
    Sextets(s[0], b, c);
    [Symbol(First(s[0])), Symbol(Second(s[0], b)),
     if |s| > 1 then Symbol(Third(b, c)) else PAD,
     if |s| > 2 then Symbol(Fourth(c)) else PAD]
  }

  function Encoded(s: seq<byte>): (t: seq<byte>)
    ensures |t| == (|s| + 2) / 3 * 4
  {
    if s == [] then []
    else if |s| <= 3 then Group(s)
    else Group(s[..3]) + Encoded(s[3..])
  }

  // ---------------------------------------------------------------- base64_encode

  // c = (x * 256 + y) * 256 + z, and the four sextets cut out of it.
  function Join(x: byte, y: byte, z: byte): word
  {
    Mul(Mul(x as word, y), z)
  }

  function Mul(c: word, b: byte): word { c * 256 + (b as word) }

  lemma MulZero(c: word)
    ensures Mul(c, 0) == c * 256
  {
  }

  function Cut1(c: word): word { (c & 0x00fc0000) >> 18 }
  function Cut2(c: word): word { (c & 0x0003f000) >> 12 }
  function Cut3(c: word): word { (c & 0x00000fc0) >> 6 }
  function Cut4(c: word): word { c & 0x0000003f }

  lemma Cuts(x: byte, y: byte, z: byte)
    ensures Cut1(Join(x, y, z)) == First(x) && Cut2(Join(x, y, z)) == Second(x, y)
    ensures Cut3(Join(x, y, z)) == Third(y, z) && Cut4(Join(x, y, z)) == Fourth(z)
  {
  }

  // Reading one group: missing bytes count as zero, and i always advances by three.
  method ReadGroup(q: seq<byte>, start: nat) returns (i: nat, c: word)
    requires start < |q|
    ensures i == start + 3
    ensures c == Join(q[start],
      if start + 1 < |q| then q[start + 1] else 0, if start + 2 < |q| then q[start + 2] else 0)
  {
    i := start;
    c := q[i] as word;
    i := i + 1;
    c := AddNext(q, i, c);
    i := i + 1;
    c := AddNext(q, i, c);
    i := i + 1;
  }

  // The next byte of a group joins it at the low end; past the data it is zero.
  method AddNext(q: seq<byte>, i: nat, c: word) returns (c': word)
    ensures c' == Mul(c, if i < |q| then q[i] else 0)
  {
    MulZero(c);
    c' := c * 256;
    if i < |q| {
      c' := c' + (q[i] as word);
    }
  }

  function GroupAt(q: seq<byte>, start: nat): seq<byte>
    requires start < |q|
  {
    Group(q[start..if |q| < start + 3 then |q| else start + 3])
  }

  lemma GroupFromCuts(q: seq<byte>, start: nat, c: word)
    requires start < |q|
    requires c == Join(q[start],
      if start + 1 < |q| then q[start + 1] else 0, if start + 2 < |q| then q[start + 2] else 0)
    ensures Cut1(c) < 64 && Cut2(c) < 64 && Cut3(c) < 64 && Cut4(c) < 64
    ensures GroupAt(q, start) == [Symbol(Cut1(c)), Symbol(Cut2(c)),
      if start + 1 < |q| then Symbol(Cut3(c)) else PAD, if start + 2 < |q| then Symbol(Cut4(c)) else PAD]
  {
    var y: byte := if start + 1 < |q| then q[start + 1] else 0;
    var z: byte := if start + 2 < |q| then q[start + 2] else 0;
    Cuts(q[start], y, z);
    Sextets(q[start], y, z);
  }

  // The text for the input from i on.
  function Todo(q: seq<byte>, i: nat): (t: seq<byte>)
    ensures |t| == (if i < |q| then (|q| - i + 2) / 3 * 4 else 0)
  {
    if i < |q| then Encoded(q[i..]) else []
  }

  lemma EncodedStep(q: seq<byte>, start: nat, i: nat)
    requires start < |q| && i == start + 3
    ensures Todo(q, start) == GroupAt(q, start) + Todo(q, i)
  {
    var rest := q[start..];
    if |rest| <= 3 {
      assert q[start..if |q| < start + 3 then |q| else start + 3] == rest;
    } else {
      assert rest[..3] == q[start..i] && rest[3..] == q[i..];
    }
  }

  // base64_encode. The text and its terminator fit the allocation for every size.
  method Base64Encode(q: seq<byte>) returns (str: array<byte>, p: nat)
    ensures fresh(str) && str.Length == (|q| + 3) * 4 / 3 + 1
    ensures p < str.Length && str[p] == 0
    ensures str[..p] == Encoded(q)
  {
    var size := |q|;
    str := new byte[(size + 3) * 4 / 3 + 1];
    p := 0;
    var i := 0;
    ghost var whole := Encoded(q);
    assert q[0..] == q;
    while i < size
      invariant p < str.Length && str[..p] + Todo(q, i) == whole
      decreases size - i
    {
      ghost var start := i;
      var c;
      i, c := ReadGroup(q, i);
      GroupFromCuts(q, start, c);
      EncodedStep(q, start, i);
      p := Append(str, p, Cut1(c), Cut2(c), Cut3(c), Cut4(c), i > size + 1, i > size, Todo(q, i), whole);
    }
    str[p] := 0;
  }

  // The four stores through p++.
  method Append(str: array<byte>, p: nat, s1: word, s2: word, s3: word, s4: word, pad3: bool, pad4: bool,
                ghost todo: seq<byte>, ghost whole: seq<byte>)
    returns (end: nat)
    requires p + 4 <= |whole| < str.Length && s1 < 64 && s2 < 64 && s3 < 64 && s4 < 64
    requires str[..p] + ([Symbol(s1), Symbol(s2), if pad3 then PAD else Symbol(s3),
                          if pad4 then PAD else Symbol(s4)] + todo) == whole
    modifies str
    ensures end == p + 4 && str[..end] + todo == whole
  {
    ghost var done := str[..p];
    end := p;
    str[end] := Symbol(s1);
    end := end + 1;
    str[end] := Symbol(s2);
    end := end + 1;
    if pad3 {
      str[end] := PAD;
    } else {
      str[end] := Symbol(s3);
    }
    end := end + 1;
    if pad4 {
      str[end] := PAD;
    } else {
      str[end] := Symbol(s4);
    }
    end := end + 1;
    ghost var group := [Symbol(s1), Symbol(s2), if pad3 then PAD else Symbol(s3), if pad4 then PAD else Symbol(s4)];
    assert str[..end] == done + group;
    Regroup(done, group, todo);
  }

  // ---------------------------------------------------------------- binDecode

  predicate AllSymbols(t: seq<byte>)
  {
    forall i :: 0 <= i < |t| ==> IsSymbol(t[i])
  }

  // Everything but the alphabet and the padding sign is taken out.
  function Filter(input: seq<byte>): (t: seq<byte>)
    ensures AllSymbols(t)
  {
    if input == [] then []
    else if IsSymbol(input[0]) then [input[0]] + Filter(input[1..])
    else Filter(input[1..])
  }

  // The index of a character in the alphabet; past the end of the input it is 0.
  function IndexAt(t: seq<byte>, i: nat): word
    requires AllSymbols(t)
  {
    if i < |t| then IndexOf(t[i]) else 0
  }

  function Chr1(e1: word, e2: word): word { (e1 << 2) | (e2 >> 4) }
  function Chr2(e2: word, e3: word): word { ((e2 & 15) << 4) | (e3 >> 2) }
  function Chr3(e3: word, e4: word): word { ((e3 & 3) << 6) | e4 }

  function DecodedGroup(e1: word, e2: word, e3: word, e4: word): seq<word>
  {
    [Chr1(e1, e2)] + (if e3 != 64 then [Chr2(e2, e3)] else []) + (if e4 != 64 then [Chr3(e3, e4)] else [])
  }

  function Decoded(t: seq<byte>): seq<word>
    requires AllSymbols(t)
    decreases |t|
  {
    if t == [] then []
    else
      DecodedGroup(IndexAt(t, 0), IndexAt(t, 1), IndexAt(t, 2), IndexAt(t, 3))
        + Decoded(if |t| <= 4 then [] else t[4..])
  }

  // What the characters from i on decode to.
  function DecodedFrom(t: seq<byte>, i: nat): seq<word>
    requires AllSymbols(t)
  {
    if i < |t| then Decoded(t[i..]) else []
  }

  lemma DecodedStep(t: seq<byte>, i: nat)
    requires AllSymbols(t) && i < |t|
    ensures DecodedFrom(t, i)
         == DecodedGroup(IndexAt(t, i), IndexAt(t, i + 1), IndexAt(t, i + 2), IndexAt(t, i + 3)) + DecodedFrom(t, i + 4)
  {
    var r := t[i..];
    assert IndexAt(r, 0) == IndexAt(t, i) && IndexAt(r, 1) == IndexAt(t, i + 1);
    assert IndexAt(r, 2) == IndexAt(t, i + 2) && IndexAt(r, 3) == IndexAt(t, i + 3);
    if |r| > 4 {
      assert r[4..] == t[i + 4..];
    } else {
      assert Decoded([]) == [];
    }
  }

  method Emit(output: seq<word>, e1: word, e2: word, e3: word, e4: word) returns (more: seq<word>)
    ensures more == output + DecodedGroup(e1, e2, e3, e4)
  {
    more := output + [Chr1(e1, e2)];
    if e3 != 64 {
      more := more + [Chr2(e2, e3)];
    }
    if e4 != 64 {
      more := more + [Chr3(e3, e4)];
    }
  }

  method BinDecode(input: seq<byte>) returns (output: seq<word>)
    ensures output == Decoded(Filter(input))
  {
    var t := Filter(input);
    output := [];
    var i := 0;
    assert t[0..] == t;
    while i < |t|
      invariant output + DecodedFrom(t, i) == Decoded(t)
      decreases |t| - i
    {
      ghost var before, start := output, i;
      DecodedStep(t, i);
      var e1 := IndexAt(t, i);
      i := i + 1;
      var e2 := IndexAt(t, i);
      i := i + 1;
      var e3 := IndexAt(t, i);
      i := i + 1;
      var e4 := IndexAt(t, i);
      i := i + 1;
      output := Emit(output, e1, e2, e3, e4);
      Regroup(before, DecodedGroup(e1, e2, e3, e4), DecodedFrom(t, start + 4));
    }
  }

  // ---------------------------------------------------------------- the round trip

  function Widen(s: seq<byte>): seq<word>
  {
    seq(|s|, i requires 0 <= i < |s| => Wide(s[i]))
  }

  function Wide(b: byte): word { b as word }

  lemma Chars(a: byte, b: byte, c: byte)
    ensures Chr1(First(a), Second(a, b)) == a as word
    ensures Chr2(Second(a, b), Third(b, c)) == b as word
    ensures Chr3(Third(b, c), Fourth(c)) == c as word
  {
  }

  lemma GroupSymbols(s: seq<byte>)
    requires 1 <= |s| <= 3
    ensures AllSymbols(Group(s))
    ensures var t := Group(s);
      DecodedGroup(IndexAt(t, 0), IndexAt(t, 1), IndexAt(t, 2), IndexAt(t, 3)) == Widen(s)
  {
    var b := if |s| > 1 then s[1] else 0;
    var c := if |s| > 2 then s[2] else 0;
    Sextets(s[0], b, c);
    IndexOfSymbol(First(s[0]));
    IndexOfSymbol(Second(s[0], b));
    IndexOfSymbol(Third(b, c));
    IndexOfSymbol(Fourth(c));
    Chars(s[0], b, c);
  }

  lemma {:induction false} EncodedSymbols(s: seq<byte>)
    ensures AllSymbols(Encoded(s))
    decreases |s|
  {
    if 0 < |s| <= 3 {
      GroupSymbols(s);
    } else if |s| > 3 {
      GroupSymbols(s[..3]);
      EncodedSymbols(s[3..]);
    }
  }

  lemma {:induction false} DecodeEncoded(s: seq<byte>)
    requires AllSymbols(Encoded(s))
    ensures Decoded(Encoded(s)) == Widen(s)
    decreases |s|
  {
    if 0 < |s| <= 3 {
      GroupSymbols(s);
    } else if |s| > 3 {
      GroupSymbols(s[..3]);
      EncodedSymbols(s[3..]);
      DecodeEncoded(s[3..]);
      DecodedFront(Group(s[..3]), Encoded(s[3..]));
      assert Widen(s) == Widen(s[..3]) + Widen(s[3..]);
    }
  }

  lemma DecodedFront(group: seq<byte>, rest: seq<byte>)
    requires |group| == 4 && AllSymbols(group) && AllSymbols(rest) && AllSymbols(group + rest)
    ensures Decoded(group + rest)
         == DecodedGroup(IndexAt(group, 0), IndexAt(group, 1), IndexAt(group, 2), IndexAt(group, 3)) + Decoded(rest)
  {
    assert rest != [] ==> (group + rest)[4..] == rest;
  }

  lemma {:induction false} FilterKeeps(t: seq<byte>)
    requires AllSymbols(t)
    ensures Filter(t) == t
  {
    if t != [] {
      FilterKeeps(t[1..]);
    }
  }

  // binDecode inverts base64_encode on every byte string.
  lemma EncodeDecode(s: seq<byte>)
    ensures Decoded(Filter(Encoded(s))) == Widen(s)
  {
    EncodedSymbols(s);
    FilterKeeps(Encoded(s));
    DecodeEncoded(s);
  }
}
