// The UTF-8 automaton of src/websocket.c and what it recognises and decodes.
module Utf8 {
  import opened Bytes

  const ACCEPT: nat := 0
  const REJECT: nat := 1

  // ---------------------------------------------------------------- the automaton

  // First 256 entries of the table: the class of a byte.
  function Class(b: byte): (t: nat)
    ensures t < 12
  {
    if b <= 0x7F then 0
    else if b <= 0x8F then 1
    else if b <= 0x9F then 9
    else if b <= 0xBF then 7
    else if b <= 0xC1 then 8
    else if b <= 0xDF then 2
    else if b == 0xE0 then 10
    else if b == 0xED then 4
    else if b <= 0xEF then 3
    else if b == 0xF0 then 11
    else if b <= 0xF3 then 6
    else if b == 0xF4 then 5
    else 8
  }

  // Remaining entries of the table: row `state`, column `t`.
  function Row(state: nat, t: nat): (next: nat)
    requires state < 9 && t < 12
    ensures next < 9
  {
    match state
    case 0 =>
      if t == 0 then 0 else if t == 2 then 2 else if t == 3 then 3 else if t == 4 then 5
      else if t == 5 then 8 else if t == 6 then 7 else if t == 10 then 4 else if t == 11 then 6
      else 1
    case 2 => if t == 1 || t == 7 || t == 9 then 0 else 1
    case 3 => if t == 1 || t == 7 || t == 9 then 2 else 1
    case 4 => if t == 7 then 2 else 1
    case 5 => if t == 1 || t == 9 then 2 else 1
    case 6 => if t == 7 || t == 9 then 3 else 1
    case 7 => if t == 1 || t == 7 || t == 9 then 3 else 1
    case 8 => if t == 1 then 3 else 1
    case _ => 1
  }

  function Next(state: nat, b: byte): (next: nat)
    requires state < 9
    ensures next < 9
  {
    Row(state, Class(b))
  }

  function RunDfa(state: nat, s: seq<byte>): (end: nat)
    requires state < 9
    ensures end < 9
    decreases |s|
  {
    if s == [] then state else RunDfa(Next(state, s[0]), s[1..])
  }

  lemma {:induction false} RejectIsFinal(s: seq<byte>)
    ensures RunDfa(REJECT, s) == REJECT
  {
    if s != [] {
      RejectIsFinal(s[1..]);
    }
  }

  lemma {:induction false} RunConcat(state: nat, a: seq<byte>, b: seq<byte>)
    requires state < 9
    ensures RunDfa(state, a + b) == RunDfa(RunDfa(state, a), b)
    decreases |a|
  {
    if a == [] {
      assert a + b == b;
    } else {
      assert (a + b)[0] == a[0] && (a + b)[1..] == a[1..] + b;
      RunConcat(Next(state, a[0]), a[1..], b);
    }
  }

  // ---------------------------------------------------------------- RFC 3629, section 4

  predicate Tail(b: byte) { 0x80 <= b <= 0xBF }

  // The productions UTF8-1 to UTF8-4.
  predicate IsChar(c: seq<byte>)
  {
    || (|c| == 1 && c[0] <= 0x7F)
    || (|c| == 2 && 0xC2 <= c[0] <= 0xDF && Tail(c[1]))
    || (|c| == 3 && c[0] == 0xE0 && 0xA0 <= c[1] <= 0xBF && Tail(c[2]))
    || (|c| == 3 && (0xE1 <= c[0] <= 0xEC || 0xEE <= c[0] <= 0xEF) && Tail(c[1]) && Tail(c[2]))
    || (|c| == 3 && c[0] == 0xED && 0x80 <= c[1] <= 0x9F && Tail(c[2]))
    || (|c| == 4 && c[0] == 0xF0 && 0x90 <= c[1] <= 0xBF && Tail(c[2]) && Tail(c[3]))
    || (|c| == 4 && 0xF1 <= c[0] <= 0xF3 && Tail(c[1]) && Tail(c[2]) && Tail(c[3]))
    || (|c| == 4 && c[0] == 0xF4 && 0x80 <= c[1] <= 0x8F && Tail(c[2]) && Tail(c[3]))
  }

  predicate AllChars(cs: seq<seq<byte>>)
  {
    forall i :: 0 <= i < |cs| ==> IsChar(cs[i])
  }

  // UTF8-octets = *( UTF8-char )
  ghost predicate IsWellFormed(s: seq<byte>)
  {
    exists cs: seq<seq<byte>> :: AllChars(cs) && Flatten(cs) == s
  }

  // The number of bytes the automaton takes from `state` until it accepts or rejects, or
  // all of them when it does neither.
  function Span(state: nat, s: seq<byte>): (n: nat)
    requires state < 9
    ensures n <= |s| && (s != [] ==> n > 0)
    decreases |s|
  {
    if s == [] then 0
    else if Next(state, s[0]) <= REJECT then 1
    else 1 + Span(Next(state, s[0]), s[1..])
  }

  // The four lengths of a character, one transition at a time.
  lemma OneByte(a: byte)
    ensures Next(ACCEPT, a) == ACCEPT <==> IsChar([a])
  {
  }

  lemma TwoBytes(a: byte, b: byte)
    requires Next(ACCEPT, a) > REJECT
    ensures Next(Next(ACCEPT, a), b) == ACCEPT <==> IsChar([a, b])
  {
  }

  lemma ThreeBytes(a: byte, b: byte, c: byte)
    requires Next(ACCEPT, a) > REJECT && Next(Next(ACCEPT, a), b) > REJECT
    ensures Next(Next(Next(ACCEPT, a), b), c) == ACCEPT <==> IsChar([a, b, c])
  {
  }

  lemma FourBytes(a: byte, b: byte, c: byte, d: byte)
    requires Next(ACCEPT, a) > REJECT && Next(Next(ACCEPT, a), b) > REJECT
    requires Next(Next(Next(ACCEPT, a), b), c) > REJECT
    ensures Next(Next(Next(Next(ACCEPT, a), b), c), d) <= REJECT
    ensures Next(Next(Next(Next(ACCEPT, a), b), c), d) == ACCEPT <==> IsChar([a, b, c, d])
  {
  }

  // One transition of Span and RunDfa, for runs that have not decided yet.
  lemma SpanStep(state: nat, s: seq<byte>)
    requires state < 9 && s != []
    ensures Next(state, s[0]) <= REJECT || |s| == 1 ==>
      Span(state, s) == 1 && RunDfa(state, s[..Span(state, s)]) == Next(state, s[0])
    ensures Next(state, s[0]) > REJECT ==>
      && Span(state, s) == 1 + Span(Next(state, s[0]), s[1..])
      && RunDfa(state, s[..Span(state, s)])
           == RunDfa(Next(state, s[0]), s[1..][..Span(Next(state, s[0]), s[1..])])
  {
    var n := Span(state, s);
    assert s[..n][1..] == s[1..][..n - 1];
  }

  // The same, k transitions deep from ACCEPT.
  lemma SpanOne(s: seq<byte>, q1: nat)
    requires |s| >= 1 && q1 == Next(ACCEPT, s[0]) && (q1 <= REJECT || |s| == 1)
    ensures Span(ACCEPT, s) == 1 && RunDfa(ACCEPT, s[..1]) == q1 && s[..1] == [s[0]]
  {
    SpanStep(ACCEPT, s);
  }

  lemma SpanTwo(s: seq<byte>, q1: nat, q2: nat)
    requires |s| >= 2 && q1 == Next(ACCEPT, s[0]) && q1 > REJECT
    requires q2 == Next(q1, s[1]) && (q2 <= REJECT || |s| == 2)
    ensures Span(ACCEPT, s) == 2 && RunDfa(ACCEPT, s[..2]) == q2 && s[..2] == [s[0], s[1]]
  {
    SpanStep(ACCEPT, s);
    SpanStep(q1, s[1..]);
  }

  lemma SpanMore(s: seq<byte>, q1: nat, q2: nat)
    requires |s| >= 3 && q1 == Next(ACCEPT, s[0]) && q1 > REJECT
    requires q2 == Next(q1, s[1]) && q2 > REJECT
    ensures Span(ACCEPT, s) == 2 + Span(q2, s[2..])
    ensures RunDfa(ACCEPT, s[..Span(ACCEPT, s)]) == RunDfa(q2, s[2..][..Span(q2, s[2..])])
  {
    SpanStep(ACCEPT, s);
    SpanStep(q1, s[1..]);
    assert s[1..][1..] == s[2..];
  }

  lemma SpanThree(s: seq<byte>, q1: nat, q2: nat, q3: nat)
    requires |s| >= 3 && q1 == Next(ACCEPT, s[0]) && q1 > REJECT
    requires q2 == Next(q1, s[1]) && q2 > REJECT
    requires q3 == Next(q2, s[2]) && (q3 <= REJECT || |s| == 3)
    ensures Span(ACCEPT, s) == 3 && RunDfa(ACCEPT, s[..3]) == q3 && s[..3] == [s[0], s[1], s[2]]
  {
    SpanMore(s, q1, q2);
    SpanStep(q2, s[2..]);
  }

  lemma SpanFour(s: seq<byte>, q1: nat, q2: nat, q3: nat, q4: nat)
    requires |s| >= 4 && q1 == Next(ACCEPT, s[0]) && q1 > REJECT
    requires q2 == Next(q1, s[1]) && q2 > REJECT
    requires q3 == Next(q2, s[2]) && q3 > REJECT
    requires q4 == Next(q3, s[3]) && (q4 <= REJECT || |s| == 4)
    ensures Span(ACCEPT, s) == 4 && RunDfa(ACCEPT, s[..4]) == q4
    ensures s[..4] == [s[0], s[1], s[2], s[3]]
  {
    SpanMore(s, q1, q2);
    SpanStep(q2, s[2..]);
    SpanStep(q3, s[2..][1..]);
  }

  // From ACCEPT the automaton decides within four bytes, and it accepts there exactly the
  // characters of the grammar.
  lemma SpanIsChar(s: seq<byte>)
    requires s != []
    ensures Span(ACCEPT, s) <= 4
    ensures RunDfa(ACCEPT, s[..Span(ACCEPT, s)]) == ACCEPT <==> IsChar(s[..Span(ACCEPT, s)])
  {
    var q1 := Next(ACCEPT, s[0]);
    if q1 <= REJECT || |s| == 1 {
      SpanOne(s, q1);
      OneByte(s[0]);
    } else {
      var q2 := Next(q1, s[1]);
      if q2 <= REJECT || |s| == 2 {
        SpanTwo(s, q1, q2);
        TwoBytes(s[0], s[1]);
      } else {
        var q3 := Next(q2, s[2]);
        if q3 <= REJECT || |s| == 3 {
          SpanThree(s, q1, q2, q3);
          ThreeBytes(s[0], s[1], s[2]);
        } else {
          FourBytes(s[0], s[1], s[2], s[3]);
          SpanFour(s, q1, q2, q3, Next(q3, s[3]));
        }
      }
    }
  }

  lemma {:induction false} SpanDecides(state: nat, s: seq<byte>)
    requires state < 9 && s != []
    ensures Span(state, s) == |s| || RunDfa(state, s[..Span(state, s)]) <= REJECT
    decreases |s|
  {
    SpanStep(state, s);
    if Next(state, s[0]) > REJECT && |s| > 1 {
      SpanDecides(Next(state, s[0]), s[1..]);
    }
  }

  // A character in front is taken whole, and brings the automaton back to ACCEPT.
  lemma CharSpan(c: seq<byte>, rest: seq<byte>)
    requires IsChar(c)
    ensures Span(ACCEPT, c + rest) == |c|
    ensures RunDfa(ACCEPT, c) == ACCEPT
  {
    var s := c + rest;
    assert s[..|c|] == c;
    var q1 := Next(ACCEPT, c[0]);
    if |c| == 1 {
      OneByte(c[0]);
      SpanOne(s, q1);
    } else if |c| == 2 {
      TwoBytes(c[0], c[1]);
      SpanTwo(s, q1, Next(q1, c[1]));
    } else if |c| == 3 {
      ThreeBytes(c[0], c[1], c[2]);
      SpanThree(s, q1, Next(q1, c[1]), Next(Next(q1, c[1]), c[2]));
    } else {
      FourBytes(c[0], c[1], c[2], c[3]);
      SpanFour(s, q1, Next(q1, c[1]), Next(Next(q1, c[1]), c[2]), Next(Next(Next(q1, c[1]), c[2]), c[3]));
    }
  }

  // ---------------------------------------------------------------- recognition

  lemma {:induction false} CharsAccepted(cs: seq<seq<byte>>)
    requires AllChars(cs)
    ensures RunDfa(ACCEPT, Flatten(cs)) == ACCEPT
  {
    if cs != [] {
      CharSpan(cs[0], []);
      RunConcat(ACCEPT, cs[0], Flatten(cs[1..]));
      CharsAccepted(cs[1..]);
    }
  }

  // The characters of an accepted byte string, in order.
  function Characters(s: seq<byte>): (cs: seq<seq<byte>>)
    requires RunDfa(ACCEPT, s) == ACCEPT
    ensures AllChars(cs) && Flatten(cs) == s
    decreases |s|
  {
    if s == [] then []
    else
      var n := Span(ACCEPT, s);
      SpanDecides(ACCEPT, s);
      SpanIsChar(s);
      RunConcat(ACCEPT, s[..n], s[n..]);
      RejectIsFinal(s[n..]);
      assert s == s[..n] + s[n..];
      assert n == |s| ==> s[..n] == s;
      [s[..n]] + Characters(s[n..])
  }

  // The automaton ends in ACCEPT exactly on the octet strings of RFC 3629, section 4.
  lemma AcceptedIffWellFormed(s: seq<byte>)
    ensures RunDfa(ACCEPT, s) == ACCEPT <==> IsWellFormed(s)
  {
    if RunDfa(ACCEPT, s) == ACCEPT {
      var cs := Characters(s);
      assert AllChars(cs) && Flatten(cs) == s;
    }
    if IsWellFormed(s) {
      var cs :| AllChars(cs) && Flatten(cs) == s;
      CharsAccepted(cs);
    }
  }

  lemma WellFormedConcat(a: seq<byte>, b: seq<byte>)
    requires IsWellFormed(a) && IsWellFormed(b)
    ensures IsWellFormed(a + b)
  {
    AcceptedIffWellFormed(a);
    AcceptedIffWellFormed(b);
    RunConcat(ACCEPT, a, b);
    AcceptedIffWellFormed(a + b);
  }

  // verify_utf8: the caller's automaton state is advanced over the string, stopping at
  // the first rejection.
  method VerifyUtf8(state: nat, str: seq<byte>) returns (end: nat)
    requires state < 9
    ensures end == RunDfa(state, str)
  {
    end := state;
    var i := 0;
    while i < |str|
      invariant 0 <= i <= |str| && end < 9
      invariant RunDfa(end, str[i..]) == RunDfa(state, str)
    {
      var kind := Class(str[i]);
      end := Row(end, kind);
      if end == REJECT {
        RejectIsFinal(str[i..][1..]);
        break;
      }
      assert str[i..][1..] == str[i + 1..];
      i := i + 1;
    }
  }

  // ws_validate_string: 0 on well-formed text, 1 on anything else, an unfinished last
  // character included.
  method ValidateString(str: seq<byte>) returns (r: int)
    ensures r == 0 <==> IsWellFormed(str)
    ensures r == 0 || r == 1
  {
    AcceptedIffWellFormed(str);
    var state := VerifyUtf8(ACCEPT, str);
    if state == REJECT {
      return 1;
    }
    if state != ACCEPT {
      return 1;
    }
    return 0;
  }

  // ---------------------------------------------------------------- decoding

  type Scalar = v: bv32 | v <= 0x10FFFF && !(0xD800 <= v <= 0xDFFF)

  // RFC 3629, section 3.
  function Encode(v: Scalar): (c: seq<byte>)
    ensures 1 <= |c| <= 4
  {
    if v <= 0x7F then [v as byte]
    else if v <= 0x7FF then [(0xC0 | (v >> 6)) as byte, Continuation(v)]
    else if v <= 0xFFFF then [(0xE0 | (v >> 12)) as byte, Continuation(v >> 6), Continuation(v)]
    else [(0xF0 | (v >> 18)) as byte, Continuation(v >> 12), Continuation(v >> 6), Continuation(v)]
  }

  // 10xxxxxx, from the six low bits.
  function Continuation(v: bv32): byte
  {
    (0x80 | (v & 0x3F)) as byte
  }

  function EncodeAll(vs: seq<Scalar>): (s: seq<byte>)
  {
    if vs == [] then [] else Encode(vs[0]) + EncodeAll(vs[1..])
  }

  // The bits of the first byte that belong to the code point.
  function LeadMask(t: nat): bv32
  {
    match t
    case 0 => 0xFF case 1 => 0x7F case 2 => 0x3F case 3 => 0x1F case 4 => 0x0F
    case 5 => 0x07 case 6 => 0x03 case 7 => 0x01 case _ => 0
  }

  // The bits a leading byte contributes.
  function Lead(b: byte): bv32
  {
    LeadMask(Class(b)) & (b as bv32)
  }

  // Six more bits from a continuation byte.
  function Push(p: bv32, b: byte): bv32
  {
    ((b as bv32) & 0x3F) | (p << 6)
  }

  // utf8_decode: the next state and the code point accumulated so far.
  function DecodeByte(state: nat, p: bv32, b: byte): (r: (nat, bv32))
    requires state < 9
    ensures r.0 == Next(state, b)
  {
    (Next(state, b), if state != ACCEPT then Push(p, b) else Lead(b))
  }

  // Folding utf8_decode over a string, noting the code point whenever ACCEPT is reached.
  function Decode(state: nat, p: bv32, s: seq<byte>): (r: (nat, seq<bv32>))
    requires state < 9
    decreases |s|
  {
    if s == [] then (state, [])
    else
      var (q, p') := DecodeByte(state, p, s[0]);
      var (end, vs) := Decode(q, p', s[1..]);
      (end, (if q == ACCEPT then [p'] else []) + vs)
  }

  lemma EncodedIsChar(v: Scalar)
    ensures IsChar(Encode(v))
  {
  }

  // The code point after the continuation bytes `t`.
  function Continue(p: bv32, t: seq<byte>): (r: bv32)
    decreases |t|
  {
    if t == [] then p else Continue(Push(p, t[0]), t[1..])
  }

  lemma LeadBits(v: Scalar)
    ensures Lead(Encode(v)[0])
         == (if v <= 0x7F then v else if v <= 0x7FF then v >> 6 else if v <= 0xFFFF then v >> 12 else v >> 18)
  {
  }

  lemma ContinueBy(p: bv32, t: seq<byte>)
    ensures |t| == 0 ==> Continue(p, t) == p
    ensures |t| == 1 ==> Continue(p, t) == Push(p, t[0])
    ensures |t| == 2 ==> Continue(p, t) == Push(Push(p, t[0]), t[1])
    ensures |t| == 3 ==> Continue(p, t) == Push(Push(Push(p, t[0]), t[1]), t[2])
    decreases |t|
  {
    if |t| > 0 {
      ContinueBy(Push(p, t[0]), t[1..]);
    }
  }

  lemma PushStep(v: bv32, high: bv32)
    requires high == v >> 6
    ensures Push(high, Continuation(v)) == v
  {
  }

  lemma ShiftSteps(v: bv32)
    ensures v >> 12 == (v >> 6) >> 6 && v >> 18 == (v >> 12) >> 6
  {
  }

  lemma PushBits(v: Scalar)
    ensures 0x7F < v <= 0x7FF ==> Push(v >> 6, Encode(v)[1]) == v
    ensures 0x7FF < v <= 0xFFFF ==> Push(Push(v >> 12, Encode(v)[1]), Encode(v)[2]) == v
    ensures 0xFFFF < v ==>
      Push(Push(Push(v >> 18, Encode(v)[1]), Encode(v)[2]), Encode(v)[3]) == v
  {
    ShiftSteps(v);
    PushStep(v, v >> 6);
    PushStep(v >> 6, v >> 12);
    PushStep(v >> 12, v >> 18);
  }

  lemma {:induction false} DecodeSpan(state: nat, p: bv32, t: seq<byte>, rest: seq<byte>)
    requires REJECT < state < 9 && t != []
    requires Span(state, t) == |t| && RunDfa(state, t) == ACCEPT
    ensures var (end, vs) := Decode(ACCEPT, Continue(p, t), rest);
      Decode(state, p, t + rest) == (end, [Continue(p, t)] + vs)
    decreases |t|
  {
    assert (t + rest)[0] == t[0] && (t + rest)[1..] == t[1..] + rest;
    var (q, p') := DecodeByte(state, p, t[0]);
    if q == ACCEPT {
      assert t[1..] == [] && t[1..] + rest == rest;
    } else {
      RejectIsFinal(t[1..]);
      DecodeSpan(q, p', t[1..], rest);
      var (end, vs) := Decode(ACCEPT, Continue(p, t), rest);
      assert [] + ([Continue(p, t)] + vs) == [Continue(p, t)] + vs;
    }
  }

  // What the decoder makes of one character.
  function CodePoint(c: seq<byte>): bv32
    requires c != []
  {
    Continue(Lead(c[0]), c[1..])
  }

  lemma CodePointOfEncoded(v: Scalar)
    ensures CodePoint(Encode(v)) == v
  {
    LeadBits(v);
    PushBits(v);
    ContinueBy(Lead(Encode(v)[0]), Encode(v)[1..]);
  }

  lemma DecodeChar(p: bv32, c: seq<byte>, rest: seq<byte>)
    requires IsChar(c)
    ensures var (end, vs) := Decode(ACCEPT, CodePoint(c), rest);
      Decode(ACCEPT, p, c + rest) == (end, [CodePoint(c)] + vs)
  {
    CharSpan(c, []);
    assert c + [] == c && c[..|c|] == c;
    SpanStep(ACCEPT, c);
    var q := Next(ACCEPT, c[0]);
    assert (c + rest)[0] == c[0] && (c + rest)[1..] == c[1..] + rest;
    if |c| == 1 {
      assert c[1..] == [] && c[1..] + rest == rest;
    } else {
      assert c[1..][..|c| - 1] == c[1..];
      DecodeSpan(q, Lead(c[0]), c[1..], rest);
      var (end, vs) := Decode(ACCEPT, CodePoint(c), rest);
      assert [] + ([CodePoint(c)] + vs) == [CodePoint(c)] + vs;
    }
  }

  // Folding utf8_decode over the encoding of any sequence of scalars gives it back.
  lemma {:induction false} DecodeEncodeAll(p: bv32, vs: seq<Scalar>)
    ensures Decode(ACCEPT, p, EncodeAll(vs)) == (ACCEPT, vs)
    decreases |vs|
  {
    if vs != [] {
      EncodedIsChar(vs[0]);
      CodePointOfEncoded(vs[0]);
      DecodeChar(p, Encode(vs[0]), EncodeAll(vs[1..]));
      DecodeEncodeAll(vs[0], vs[1..]);
      assert [vs[0] as bv32] + vs[1..] == vs;
    }
  }

  // And back: every character is the encoding of the scalar it decodes to.
  lemma PushBack(high: bv32, b: byte)
    requires high < 0x10000 && Tail(b)
    ensures Push(high, b) >> 6 == high && Continuation(Push(high, b)) == b
  {
  }

  lemma LeadBack(a: byte)
    ensures a <= 0x7F ==> Lead(a) == a as bv32
    ensures 0xC2 <= a <= 0xDF ==> Lead(a) == (a as bv32) - 0xC0
    ensures 0xE0 <= a <= 0xEF ==> Lead(a) == (a as bv32) - 0xE0
    ensures 0xF0 <= a <= 0xF4 ==> Lead(a) == (a as bv32) - 0xF0
  {
  }

  lemma PushRange(high: bv32, b: byte, lo: byte, hi: byte)
    requires high < 0x10000 && lo <= b <= hi && 0x80 <= lo && hi <= 0xBF
    ensures high * 64 + ((lo as bv32) & 0x3F) <= Push(high, b) <= high * 64 + ((hi as bv32) & 0x3F)
  {
  }

  lemma TwoByteScalar(a: byte, b: byte, v: bv32)
    requires IsChar([a, b]) && v == Push(Lead(a), b)
    ensures 0x80 <= v <= 0x7FF
    ensures v >> 6 == Lead(a) && (0xC0 | Lead(a)) as byte == a && Continuation(v) == b
  {
    LeadBack(a);
    PushBack(Lead(a), b);
    PushRange(Lead(a), b, 0x80, 0xBF);
  }

  lemma ThreeByteScalar(a: byte, b: byte, c: byte, u: bv32, v: bv32)
    requires IsChar([a, b, c]) && u == Push(Lead(a), b) && v == Push(u, c)
    ensures 0x800 <= v <= 0xFFFF && !(0xD800 <= v <= 0xDFFF)
    ensures u >> 6 == Lead(a) && v >> 6 == u && v >> 12 == Lead(a)
    ensures (0xE0 | Lead(a)) as byte == a && Continuation(u) == b && Continuation(v) == c
  {
    LeadBack(a);
    PushBack(Lead(a), b);
    PushRange(Lead(a), b,
      if a == 0xE0 then 0xA0 else 0x80,
      if a == 0xED then 0x9F else 0xBF);
    PushBack(u, c);
    PushRange(u, c, 0x80, 0xBF);
    ShiftSteps(v);
  }

  // The first two bytes of four.
  lemma FourByteFront(a: byte, b: byte, t: bv32)
    requires 0xF0 <= a <= 0xF4 && Tail(b) && (a == 0xF0 ==> 0x90 <= b) && (a == 0xF4 ==> b <= 0x8F)
    requires t == Push(Lead(a), b)
    ensures 0x10 <= t <= 0x10F && t >> 6 == Lead(a) && (0xF0 | Lead(a)) as byte == a && Continuation(t) == b
  {
    LeadBack(a);
    PushBack(Lead(a), b);
    PushRange(Lead(a), b,
      if a == 0xF0 then 0x90 else 0x80,
      if a == 0xF4 then 0x8F else 0xBF);
  }

  // The third byte.
  lemma FourByteThird(t: bv32, c: byte, u: bv32)
    requires 0x10 <= t <= 0x10F && Tail(c) && u == Push(t, c)
    ensures 0x400 <= u <= 0x43FF && u >> 6 == t && Continuation(u) == c
  {
  }

  // The fourth byte.
  lemma FourByteFourth(u: bv32, d: byte, v: bv32)
    requires 0x400 <= u <= 0x43FF && Tail(d) && v == Push(u, d)
    ensures 0x10000 <= v <= 0x10FFFF && v >> 6 == u && Continuation(v) == d
  {
  }

  lemma FourByteScalar(a: byte, b: byte, c: byte, d: byte, t: bv32, u: bv32, v: bv32)
    requires IsChar([a, b, c, d]) && t == Push(Lead(a), b) && u == Push(t, c) && v == Push(u, d)
    ensures 0x10000 <= v <= 0x10FFFF
    ensures t >> 6 == Lead(a) && u >> 6 == t && v >> 6 == u && v >> 12 == t && v >> 18 == t >> 6
    ensures (0xF0 | Lead(a)) as byte == a
    ensures Continuation(t) == b && Continuation(u) == c && Continuation(v) == d
  {
    FourByteParts(a, b, c, d);
    FourByteFront(a, b, t);
    FourByteThird(t, c, u);
    FourByteFourth(u, d, v);
    ShiftBack(t, u, v);
  }

  lemma FourByteParts(a: byte, b: byte, c: byte, d: byte)
    requires IsChar([a, b, c, d])
    ensures 0xF0 <= a <= 0xF4 && Tail(b) && Tail(c) && Tail(d)
    ensures (a == 0xF0 ==> 0x90 <= b) && (a == 0xF4 ==> b <= 0x8F)
  {
  }

  lemma ShiftBack(t: bv32, u: bv32, v: bv32)
    requires v >> 6 == u && u >> 6 == t
    ensures v >> 12 == t && v >> 18 == t >> 6
  {
    ShiftSteps(v);
  }

  // Decoding a character gives a scalar whose encoding is the character.
  ghost predicate IsEncodingOf(c: seq<byte>, v: bv32)
  {
    v <= 0x10FFFF && !(0xD800 <= v <= 0xDFFF) && Encode(v) == c
  }

  lemma EncodeTwo(a: byte, b: byte)
    requires IsChar([a, b])
    ensures IsEncodingOf([a, b], Push(Lead(a), b))
  {
    TwoByteScalar(a, b, Push(Lead(a), b));
  }

  lemma EncodeThree(a: byte, b: byte, c: byte)
    requires IsChar([a, b, c])
    ensures IsEncodingOf([a, b, c], Push(Push(Lead(a), b), c))
  {
    var u := Push(Lead(a), b);
    ThreeByteScalar(a, b, c, u, Push(u, c));
  }

  lemma EncodeFour(a: byte, b: byte, c: byte, d: byte)
    requires IsChar([a, b, c, d])
    ensures IsEncodingOf([a, b, c, d], Push(Push(Push(Lead(a), b), c), d))
  {
    var t := Push(Lead(a), b);
    var u := Push(t, c);
    FourByteScalar(a, b, c, d, t, u, Push(u, d));
  }

  lemma EncodeCodePoint(c: seq<byte>)
    requires IsChar(c)
    ensures IsEncodingOf(c, CodePoint(c))
  {
    ContinueBy(Lead(c[0]), c[1..]);
    if |c| == 1 {
      LeadBack(c[0]);
    } else if |c| == 2 {
      assert c == [c[0], c[1]];
      EncodeTwo(c[0], c[1]);
    } else if |c| == 3 {
      assert c == [c[0], c[1], c[2]];
      EncodeThree(c[0], c[1], c[2]);
    } else {
      assert c == [c[0], c[1], c[2], c[3]];
      EncodeFour(c[0], c[1], c[2], c[3]);
    }
  }

  lemma {:induction false} CharactersDecode(p: bv32, cs: seq<seq<byte>>) returns (vs: seq<Scalar>)
    requires AllChars(cs)
    ensures EncodeAll(vs) == Flatten(cs)
    ensures Decode(ACCEPT, p, Flatten(cs)) == (ACCEPT, vs)
    decreases |cs|
  {
    if cs == [] {
      vs := [];
    } else {
      var v := CodePoint(cs[0]);
      EncodeCodePoint(cs[0]);
      DecodeChar(p, cs[0], Flatten(cs[1..]));
      var rest := CharactersDecode(v, cs[1..]);
      vs := [v] + rest;
      assert vs[0] == v && vs[1..] == rest;
    }
  }

  // Well-formed strings are exactly the encodings of sequences of scalars, and the decoder
  // is the inverse of the encoding on them.
  lemma WellFormedIffEncoded(s: seq<byte>)
    ensures IsWellFormed(s) <==> exists vs: seq<Scalar> :: EncodeAll(vs) == s
    ensures IsWellFormed(s) ==>
      exists vs: seq<Scalar> :: EncodeAll(vs) == s && Decode(ACCEPT, 0, s) == (ACCEPT, vs)
  {
    AcceptedIffWellFormed(s);
    if IsWellFormed(s) {
      var vs := CharactersDecode(0, Characters(s));
      assert EncodeAll(vs) == s;
    }
    if exists vs: seq<Scalar> :: EncodeAll(vs) == s {
      var vs: seq<Scalar> :| EncodeAll(vs) == s;
      EncodedAccepted(vs);
    }
  }

  lemma {:induction false} EncodedAccepted(vs: seq<Scalar>)
    ensures RunDfa(ACCEPT, EncodeAll(vs)) == ACCEPT
    decreases |vs|
  {
    if vs != [] {
      EncodedIsChar(vs[0]);
      CharSpan(Encode(vs[0]), []);
      RunConcat(ACCEPT, Encode(vs[0]), EncodeAll(vs[1..]));
      EncodedAccepted(vs[1..]);
    }
  }
}
