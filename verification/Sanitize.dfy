// sanitize_utf8 of src/websocket.c: malformed sequences become question marks, an
// unfinished last sequence becomes NULs, and the length never changes.
module Sanitize {
  import opened Bytes
  import opened Utf8

  const QUESTION: byte := 0x3F
  const NUL: byte := 0

  function Fill(b: byte, n: nat): (s: seq<byte>)
    ensures |s| == n && forall i :: 0 <= i < n ==> s[i] == b
  {
    seq(n, i => b)
  }

  // How many bytes are replaced when the byte after k pending ones is rejected.
  function Replaced(k: nat): (n: nat)
  {
    if k == 0 then 1 else k
  }

  // Reference: take the span the automaton decides on. A character is kept. A malformed
  // span of one byte is replaced; of a longer one all but the last byte are, and the last
  // byte is looked at again from the start state.
  function Sanitized(s: seq<byte>): (r: seq<byte>)
    ensures |r| == |s|
    decreases |s|
  {
    if s == [] then []
    else
      var n := Span(ACCEPT, s);
      var end := RunDfa(ACCEPT, s[..n]);
      if end == ACCEPT then s[..n] + Sanitized(s[n..])
      else if end != REJECT then SpanDecides(ACCEPT, s); Fill(NUL, n)
      else
        var bad := Replaced(n - 1);
        Fill(QUESTION, bad) + Sanitized(s[bad..])
  }

  lemma {:induction false} FillWellFormed(b: byte, n: nat)
    requires b <= 0x7F
    ensures IsWellFormed(Fill(b, n))
  {
    AcceptedIffWellFormed(Fill(b, n));
    if n > 0 {
      FillWellFormed(b, n - 1);
      AcceptedIffWellFormed(Fill(b, n - 1));
      assert Fill(b, n)[1..] == Fill(b, n - 1);
    }
  }

  // Whatever the input, the output is well-formed.
  lemma {:induction false} SanitizedWellFormed(s: seq<byte>)
    ensures IsWellFormed(Sanitized(s))
    decreases |s|
  {
    if s == [] {
      FillWellFormed(NUL, 0);
      assert Fill(NUL, 0) == [];
    } else {
      var n := Span(ACCEPT, s);
      var end := RunDfa(ACCEPT, s[..n]);
      SpanDecides(ACCEPT, s);
      if end == ACCEPT {
        AcceptedIffWellFormed(s[..n]);
        SanitizedWellFormed(s[n..]);
        WellFormedConcat(s[..n], Sanitized(s[n..]));
      } else if end != REJECT {
        FillWellFormed(NUL, n);
      } else {
        var bad := Replaced(n - 1);
        FillWellFormed(QUESTION, bad);
        SanitizedWellFormed(s[bad..]);
        WellFormedConcat(Fill(QUESTION, bad), Sanitized(s[bad..]));
      }
    }
  }

  lemma {:induction false} CharactersKept(cs: seq<seq<byte>>)
    requires AllChars(cs)
    ensures Sanitized(Flatten(cs)) == Flatten(cs)
    decreases |cs|
  {
    if cs != [] {
      var rest := Flatten(cs[1..]);
      CharSpan(cs[0], rest);
      assert Flatten(cs)[..|cs[0]|] == cs[0] && Flatten(cs)[|cs[0]|..] == rest;
      CharactersKept(cs[1..]);
    }
  }

  // The sanitiser changes a string exactly when the validator refuses it.
  lemma SanitizedIdentity(s: seq<byte>)
    ensures Sanitized(s) == s <==> IsWellFormed(s)
  {
    SanitizedWellFormed(s);
    if IsWellFormed(s) {
      var cs :| AllChars(cs) && Flatten(cs) == s;
      CharactersKept(cs);
    }
  }

  lemma SanitizedIdempotent(s: seq<byte>)
    ensures Sanitized(Sanitized(s)) == Sanitized(s)
  {
    SanitizedWellFormed(s);
    SanitizedIdentity(Sanitized(s));
  }

  // ---------------------------------------------------------------- what is kept

  // Well-formed text in front is kept, and what follows is sanitised by itself.
  lemma SanitizedFront(t: seq<byte>, s: seq<byte>)
    requires IsWellFormed(t)
    ensures Sanitized(t + s) == t + Sanitized(s)
  {
    var cs :| AllChars(cs) && Flatten(cs) == t;
    CharactersFront(cs, s);
  }

  lemma {:induction false} CharactersFront(cs: seq<seq<byte>>, s: seq<byte>)
    requires AllChars(cs)
    ensures Sanitized(Flatten(cs) + s) == Flatten(cs) + Sanitized(s)
    decreases |cs|
  {
    if cs == [] {
      assert [] + s == s && [] + Sanitized(s) == Sanitized(s);
    } else {
      var c, rest := cs[0], Flatten(cs[1..]) + s;
      CharSpan(c, rest);
      Regroup(c, Flatten(cs[1..]), s);
      assert (c + rest)[..|c|] == c && (c + rest)[|c|..] == rest;
      CharactersFront(cs[1..], s);
      Regroup(c, Flatten(cs[1..]), Sanitized(s));
    }
  }

  // A character does not start with the tail of one.
  lemma StartsNoTail(t: seq<byte>)
    requires IsWellFormed(t) && t != []
    ensures !Tail(t[0])
  {
    var cs :| AllChars(cs) && Flatten(cs) == t;
    assert IsChar(cs[0]);
  }

  // The automaton goes on only on tails, and on nothing below 0x80.
  lemma GoesOn(state: nat, b: byte)
    requires state < 9
    ensures Next(state, b) > REJECT ==> b > 0x7F
    ensures state > REJECT && !Tail(b) ==> Next(state, b) == REJECT
    ensures state == ACCEPT && Next(state, b) == REJECT ==> b > 0x7F
  {
  }

  lemma {:induction false} SpanAppend(state: nat, s: seq<byte>, t: seq<byte>)
    requires state < 9 && s != []
    ensures var n := Span(state, s);
      if RunDfa(state, s[..n]) <= REJECT then Span(state, s + t) == n && (s + t)[..n] == s[..n]
      else n == |s| && s[..n] == s && Span(state, s + t) == n + Span(RunDfa(state, s), t)
    decreases |s|
  {
    var u := s + t;
    SpanStep(state, s);
    SpanDecides(state, s);
    var q := Next(state, s[0]);
    assert u[0] == s[0] && u[1..] == s[1..] + t;
    if q > REJECT {
      if |s| == 1 {
        assert s[1..] == [] && u[1..] == t;
      } else {
        SpanAppend(q, s[1..], t);
      }
    }
  }

  // A decision at the front of u leaves what lies behind to itself.
  lemma BehindDecision(u: seq<byte>, n: nat, end: nat, k: nat, m: nat)
    requires u != [] && n == Span(ACCEPT, u) && end == RunDfa(ACCEPT, u[..n]) && end <= REJECT
    requires k == (if end == ACCEPT then n else Replaced(n - 1)) && k <= m <= |u|
    ensures Sanitized(u)[m..] == Sanitized(u[k..])[m - k..]
  {
    Decided(u, n, end, k);
    DropFront(Sanitized(u), if end == ACCEPT then u[..n] else Fill(QUESTION, k), Sanitized(u[k..]), m);
  }

  lemma Decided(u: seq<byte>, n: nat, end: nat, k: nat)
    requires u != [] && n == Span(ACCEPT, u) && end == RunDfa(ACCEPT, u[..n]) && end <= REJECT
    requires k == (if end == ACCEPT then n else Replaced(n - 1))
    ensures k <= |u| && Sanitized(u) == (if end == ACCEPT then u[..n] else Fill(QUESTION, k)) + Sanitized(u[k..])
  {
    if end == ACCEPT {
      CharacterKept(u, n);
    } else {
      SpoiledFilled(u, n, k);
    }
  }

  lemma CharacterKept(u: seq<byte>, n: nat)
    requires u != [] && n == Span(ACCEPT, u) && RunDfa(ACCEPT, u[..n]) == ACCEPT
    ensures Sanitized(u) == u[..n] + Sanitized(u[n..])
  {
  }

  lemma SpoiledFilled(u: seq<byte>, n: nat, k: nat)
    requires u != [] && n == Span(ACCEPT, u) && RunDfa(ACCEPT, u[..n]) == REJECT && k == Replaced(n - 1)
    ensures k <= |u| && Sanitized(u) == Fill(QUESTION, k) + Sanitized(u[k..])
  {
  }

  lemma DropFront(whole: seq<byte>, front: seq<byte>, rest: seq<byte>, m: nat)
    requires whole == front + rest && |front| <= m <= |whole|
    ensures whole[m..] == rest[m - |front|..]
  {
  }

  // Well-formed text behind whatever bytes is kept: the index steps back to its start.
  lemma {:induction false} SanitizedBehind(s: seq<byte>, t: seq<byte>)
    requires IsWellFormed(t)
    ensures Sanitized(s + t)[|s|..] == t
    decreases |s|
  {
    var u := s + t;
    if s == [] {
      assert u == t;
      SanitizedIdentity(t);
    } else if t != [] {
      SpanAppend(ACCEPT, s, t);
      var n := Span(ACCEPT, s);
      var end := RunDfa(ACCEPT, s[..n]);
      if end <= REJECT {
        var k := if end == ACCEPT then n else Replaced(n - 1);
        assert u[k..] == s[k..] + t;
        SanitizedBehind(s[k..], t);
        BehindDecision(u, n, end, k, |s|);
      } else {
        BehindUnfinished(s, t, u, end);
      }
    }
  }

  lemma BehindUnfinished(s: seq<byte>, t: seq<byte>, u: seq<byte>, end: nat)
    requires s != [] && t != [] && IsWellFormed(t) && end == RunDfa(ACCEPT, s) && end > REJECT
    requires u == s + t && Span(ACCEPT, u) == |s| + Span(end, t)
    ensures Sanitized(u)[|s|..] == t
  {
    Stopped(s, t, end);
    assert u[|s|..] == t;
    SanitizedIdentity(t);
    BehindDecision(u, |s| + 1, REJECT, |s|, |s|);
  }

  // A sequence that has begun is given up at the first byte of the text.
  lemma Stopped(s: seq<byte>, t: seq<byte>, end: nat)
    requires s != [] && t != [] && IsWellFormed(t) && end == RunDfa(ACCEPT, s) && end > REJECT
    requires Span(ACCEPT, s + t) == |s| + Span(end, t)
    ensures Span(ACCEPT, s + t) == |s| + 1 && RunDfa(ACCEPT, (s + t)[..|s| + 1]) == REJECT
  {
    StartsNoTail(t);
    GoesOn(end, t[0]);
    RunConcat(ACCEPT, s, [t[0]]);
    assert (s + t)[..|s| + 1] == s + [t[0]];
    assert RunDfa(end, [t[0]]) == REJECT;
  }

  // A last character that is cut short becomes NULs.
  lemma SanitizedCutShort(t: seq<byte>, c: seq<byte>, k: nat)
    requires IsWellFormed(t) && IsChar(c) && 0 < k < |c|
    ensures Sanitized(t + c[..k]) == t + seq(k, _ => 0)
  {
    var u := c[..k];
    assert u + c[k..] == c && c + [] == c;
    CharSpan(c, []);
    SpanAppend(ACCEPT, u, c[k..]);
    SanitizedFront(t, u);
    assert Fill(NUL, k) == seq(k, _ => 0);
  }

  lemma {:induction false} SpanHigh(state: nat, s: seq<byte>, i: nat)
    requires state < 9 && s != [] && i < Span(state, s)
    requires i + 1 < Span(state, s) || RunDfa(state, s[..Span(state, s)]) > REJECT
    ensures s[i] > 0x7F
    decreases |s|
  {
    SpanStep(state, s);
    GoesOn(state, s[0]);
    if i > 0 {
      SpanHigh(Next(state, s[0]), s[1..], i - 1);
    }
  }

  // What is left unfinished is at most three bytes.
  lemma UnfinishedShort(s: seq<byte>)
    requires s != [] && RunDfa(ACCEPT, s[..Span(ACCEPT, s)]) > REJECT
    ensures Span(ACCEPT, s) == |s| <= 3
  {
    SpanIsChar(s);
    SpanDecides(ACCEPT, s);
    if |s| == 4 {
      assert s[..4] == s;
      var q1 := Next(ACCEPT, s[0]);
      var q2 := Next(q1, s[1]);
      SpanStep(ACCEPT, s);
      SpanStep(q1, s[1..]);
      SpanStep(q2, s[2..]);
      FourBytes(s[0], s[1], s[2], s[3]);
      SpanFour(s, q1, q2, Next(q2, s[2]), Next(Next(q2, s[2]), s[3]));
    }
  }

  // Byte by byte: nothing below 0x80 is changed. A byte that is changed becomes a question mark,
  // or, among the last three, a NUL.
  lemma {:induction false} SanitizedAt(s: seq<byte>, i: nat)
    requires i < |s|
    ensures s[i] <= 0x7F ==> Sanitized(s)[i] == s[i]
    ensures Sanitized(s)[i] == s[i] || Sanitized(s)[i] == 63 || (Sanitized(s)[i] == 0 && i + 3 >= |s|)
    decreases |s|
  {
    var n := Span(ACCEPT, s);
    var end := RunDfa(ACCEPT, s[..n]);
    SpanDecides(ACCEPT, s);
    if end > REJECT {
      UnfinishedShort(s);
      SpanHigh(ACCEPT, s, i);
    } else {
      var k := if end == ACCEPT then n else Replaced(n - 1);
      Decided(s, n, end, k);
      if i >= k {
        SanitizedAt(s[k..], i - k);
      } else if end == REJECT {
        RejectedHigh(s, n, i);
      }
    }
  }

  lemma RejectedHigh(s: seq<byte>, n: nat, i: nat)
    requires s != [] && n == Span(ACCEPT, s) && RunDfa(ACCEPT, s[..n]) == REJECT && i < Replaced(n - 1)
    ensures s[i] > 0x7F
  {
    if n == 1 {
      assert s[..1] == [s[0]] && RunDfa(ACCEPT, [s[0]]) == RunDfa(Next(ACCEPT, s[0]), []);
      GoesOn(ACCEPT, s[0]);
    } else {
      SpanHigh(ACCEPT, s, i);
    }
  }

  // ---------------------------------------------------------------- the loop

  // The first k bytes of s have been read from the start state, and nothing is decided yet.
  ghost predicate Pending(s: seq<byte>, k: nat, state: nat)
  {
    && k <= |s| && state < 9 && state != REJECT && (k == 0 <==> state == ACCEPT)
    && RunDfa(ACCEPT, s[..k]) == state
    && Span(ACCEPT, s) == k + Span(state, s[k..])
  }

  lemma ReadOne(s: seq<byte>, k: nat, state: nat)
    requires Pending(s, k, state) && k < |s|
    ensures var q := Next(state, s[k]);
      && RunDfa(ACCEPT, s[..k + 1]) == q
      && (if q <= REJECT then Span(ACCEPT, s) == k + 1 else Pending(s, k + 1, q))
  {
    RunConcat(ACCEPT, s[..k], [s[k]]);
    assert s[..k + 1] == s[..k] + [s[k]];
    SpanStep(state, s[k..]);
    assert s[k..][1..] == s[k + 1..];
  }

  lemma StillPending(s: seq<byte>, k: nat, state: nat)
    requires Pending(s, k, state) && k < |s| && Next(state, s[k]) > REJECT
    ensures Pending(s, k + 1, Next(state, s[k]))
  {
    ReadOne(s, k, state);
  }

  lemma Completed(s: seq<byte>, k: nat, state: nat)
    requires Pending(s, k, state) && k < |s| && Next(state, s[k]) == ACCEPT
    ensures Sanitized(s) == s[..k + 1] + Sanitized(s[k + 1..])
  {
    ReadOne(s, k, state);
  }

  lemma Spoiled(s: seq<byte>, k: nat, state: nat)
    requires Pending(s, k, state) && k < |s| && Next(state, s[k]) == REJECT
    ensures Sanitized(s) == Fill(QUESTION, Replaced(k)) + Sanitized(s[Replaced(k)..])
  {
    ReadOne(s, k, state);
  }

  lemma Unfinished(s: seq<byte>, state: nat)
    requires Pending(s, |s|, state)
    ensures Sanitized(s) == Fill(NUL, |s|)
  {
    assert s[..|s|] == s;
  }

  // The first j bytes of the output are final, `todo` is still to come, and everything
  // behind j is NUL.
  ghost predicate Written(out: seq<byte>, j: nat, todo: seq<byte>, whole: seq<byte>)
  {
    && |out| == |whole| + 1 && j <= |whole|
    && out[..j] + todo == whole
    && forall l :: j <= l < |out| ==> out[l] == NUL
  }

  lemma WriteMore(out: seq<byte>, j: nat, part: seq<byte>, todo: seq<byte>, whole: seq<byte>, out': seq<byte>)
    requires Written(out, j, part + todo, whole) && |out'| == |out|
    requires out'[..j + |part|] == out[..j] + part
    requires forall l :: j + |part| <= l < |out| ==> out'[l] == out[l]
    ensures Written(out', j + |part|, todo, whole)
  {
    assert out[..j] + part + todo == out[..j] + (part + todo);
  }

  // Between two rounds of the loop: k bytes are pending behind the j final ones.
  ghost predicate Scanning(str: seq<byte>, i: nat, j: nat, k: nat, state: nat, out: seq<byte>)
  {
    && j + k == i <= |str|
    && Pending(str[j..], k, state)
    && Written(out, j, Sanitized(str[j..]), Sanitized(str))
  }

  // sanitize_utf8. The index steps back over a byte that spoils a sequence, so that byte is
  // read a second time with nothing pending.
  method SanitizeUtf8(str: seq<byte>) returns (buf: array<byte>)
    ensures fresh(buf) && buf.Length == |str| + 1
    ensures buf[..|str|] == Sanitized(str)
    ensures buf[|str|] == NUL
  {
    var len := |str|;
    buf := new byte[len + 1](_ => NUL);
    var state, prev, cp := ACCEPT, ACCEPT, 0 as bv32;
    var i, j, k := 0, 0, 0;
    NothingPending(str);
    assert str[0..] == str;
    while i < len
      invariant Scanning(str, i, j, k, state, buf[..]) && prev == state
      decreases len - i, k
    {
      i, j, k, state, cp := Round(str, buf, i, j, k, state, prev, cp);
      prev := state;
      i := i + 1;
    }
    Finished(str, j, k, state, buf[..]);
  }

  lemma Finished(str: seq<byte>, j: nat, k: nat, state: nat, out: seq<byte>)
    requires Scanning(str, |str|, j, k, state, out)
    ensures |out| == |str| + 1 && out[..|str|] == Sanitized(str) && out[|str|] == NUL
  {
    Unfinished(str[j..], state);
    assert out[..|str|] == out[..j] + Fill(NUL, k);
  }

  // The body of the loop, before prev is noted and i is advanced.
  method Round(str: seq<byte>, buf: array<byte>, i: nat, j: nat, k: nat, state: nat, prev: nat, cp: bv32)
    returns (i': int, j': nat, k': nat, state': nat, cp': bv32)
    requires i < |str| && Scanning(str, i, j, k, state, buf[..]) && prev == state
    modifies buf
    ensures i' == i || (i' == i - 1 && k' < k)
    ensures Scanning(str, i' + 1, j', k', state', buf[..])
  {
    ghost var rest, todo, next := str[j..], Sanitized(str[j..]), j;
    ghost var now := todo;
    i', j', k' := i, j, k;
    state', cp', next, rest, todo := ReadByte(str, i, j, k, state, cp, rest);
    if state' == REJECT {
      j' := ReplacePending(buf, j, k, next, now, todo, Sanitized(str));
      state' := ACCEPT;
      if prev != ACCEPT {
        i' := i - 1;
      }
      k' := 0;
    } else if state' == ACCEPT {
      j' := KeepPending(buf, j, str, i, next, now, todo, Sanitized(str));
      k' := 0;
    } else {
      k' := k + 1;
    }
  }

  lemma NothingPending(s: seq<byte>)
    ensures Pending(s, 0, ACCEPT)
  {
    assert s[0..] == s;
  }

  // The switch's utf8_decode, with what its three outcomes mean for the k pending bytes at j
  // and for the output still to come, which continues from `next`.
  method ReadByte(str: seq<byte>, i: nat, ghost j: nat, ghost k: nat, state: nat, cp: bv32, ghost s: seq<byte>)
    returns (q: nat, p: bv32, ghost next: nat, ghost rest: seq<byte>, ghost todo: seq<byte>)
    requires j + k == i < |str| && s == str[j..] && Pending(s, k, state)
    ensures next <= |str| && rest == str[next..] && todo == Sanitized(rest)
    ensures q == ACCEPT ==> next == i + 1 && Sanitized(s) == str[j..next] + todo
    ensures q == REJECT ==> next == j + Replaced(k) && Sanitized(s) == Fill(QUESTION, Replaced(k)) + todo
    ensures q <= REJECT ==> Pending(rest, 0, ACCEPT)
    ensures q > REJECT ==> next == j && rest == s && Pending(rest, k + 1, q)
  {
    var r := DecodeByte(state, cp, str[i]);
    q, p := r.0, r.1;
    next := if q == ACCEPT then i + 1 else if q == REJECT then j + Replaced(k) else j;
    rest := str[next..];
    todo := Sanitized(rest);
    if q == ACCEPT {
      CompletedAt(str, s, i, j, k, state);
      NothingPending(rest);
    } else if q == REJECT {
      SpoiledAt(str, s, j, k, state, next);
      NothingPending(rest);
    } else {
      StillPending(s, k, state);
    }
  }

  lemma CompletedAt(str: seq<byte>, s: seq<byte>, i: nat, j: nat, k: nat, state: nat)
    requires j + k == i < |str| && s == str[j..] && Pending(s, k, state) && Next(state, str[i]) == ACCEPT
    ensures Sanitized(s) == str[j..i + 1] + Sanitized(str[i + 1..])
  {
    Completed(s, k, state);
    assert s[..k + 1] == str[j..i + 1] && s[k + 1..] == str[i + 1..];
  }

  lemma SpoiledAt(str: seq<byte>, s: seq<byte>, j: nat, k: nat, state: nat, next: nat)
    requires j + k < |str| && s == str[j..] && Pending(s, k, state) && Next(state, str[j + k]) == REJECT
    requires next == j + Replaced(k)
    ensures Sanitized(s) == Fill(QUESTION, Replaced(k)) + Sanitized(str[next..])
  {
    Spoiled(s, k, state);
    assert s[Replaced(k)..] == str[next..];
  }

  // The rejecting case: one question mark per pending byte, or one for the byte itself.
  method ReplacePending(buf: array<byte>, j: nat, k: nat, ghost next: nat,
                        ghost now: seq<byte>, ghost todo: seq<byte>, ghost whole: seq<byte>)
    returns (end: nat)
    requires Written(buf[..], j, now, whole)
    requires next == j + Replaced(k) && now == Fill(QUESTION, Replaced(k)) + todo
    modifies buf
    ensures end == next && Written(buf[..], end, todo, whole)
  {
    ghost var before := buf[..];
    end := j;
    if k != 0 {
      var l := 0;
      while l < k
        invariant 0 <= l <= k && end == j + l
        invariant forall m :: 0 <= m < j || end <= m < buf.Length ==> buf[m] == before[m]
        invariant forall m :: j <= m < end ==> buf[m] == QUESTION
      {
        buf[end] := QUESTION;
        end := end + 1;
        l := l + 1;
      }
    } else {
      buf[end] := QUESTION;
      end := end + 1;
    }
    assert buf[..end] == before[..j] + Fill(QUESTION, Replaced(k));
    WriteMore(before, j, Fill(QUESTION, Replaced(k)), todo, whole, buf[..]);
  }

  // The accepting case: the pending bytes and the one that completes them are copied.
  method KeepPending(buf: array<byte>, j: nat, str: seq<byte>, i: nat, ghost next: nat,
                     ghost now: seq<byte>, ghost todo: seq<byte>, ghost whole: seq<byte>)
    returns (end: nat)
    requires j <= i < |str| && Written(buf[..], j, now, whole)
    requires next == i + 1 && now == str[j..next] + todo
    modifies buf
    ensures end == next && Written(buf[..], end, todo, whole)
  {
    ghost var before := buf[..];
    end := j;
    var l := j;
    while l < i
      invariant j <= l <= i && end == l
      invariant forall m :: 0 <= m < j || end <= m < buf.Length ==> buf[m] == before[m]
      invariant forall m :: j <= m < end ==> buf[m] == str[m]
    {
      buf[end] := str[l];
      end := end + 1;
      l := l + 1;
    }
    buf[end] := str[i];
    end := end + 1;
    assert buf[..end] == before[..j] + str[j..next];
    WriteMore(before, j, str[j..next], todo, whole, buf[..]);
  }
}
