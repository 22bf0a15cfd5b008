// parse_headers of src/websocket.c: an HTTP request is accepted line by line.
module Headers {
  import opened Bytes
  import opened HeaderLine

  // ---------------------------------------------------------------- strstr

  predicate CrLfAt(s: seq<byte>, k: int)
  {
    0 <= k < |s| - 1 && s[k] == CR && s[k + 1] == LF
  }

  // An empty line: the end of one line, and at once the end of the next.
  predicate BlankAt(s: seq<byte>, k: int)
  {
    CrLfAt(s, k) && CrLfAt(s, k + 2)
  }

  // The first line end from a place on (strstr).
  function FindCrLf(s: seq<byte>, from: nat): (r: Place)
    requires from <= |s|
    ensures r.Here? ==> from <= r.value && CrLfAt(s, r.value) && forall k :: from <= k < r.value ==> !CrLfAt(s, k)
    ensures r.Nowhere? ==> forall k :: from <= k ==> !CrLfAt(s, k)
    decreases |s| - from
  {
    if CrLfAt(s, from) then Here(from) else if from == |s| then Nowhere else FindCrLf(s, from + 1)
  }

  // The first empty line (strstr).
  function FindBlank(s: seq<byte>, from: nat): (r: Place)
    requires from <= |s|
    ensures r.Here? ==> from <= r.value && BlankAt(s, r.value) && forall k :: from <= k < r.value ==> !BlankAt(s, k)
    ensures r.Nowhere? ==> forall k :: from <= k ==> !BlankAt(s, k)
    decreases |s| - from
  {
    if BlankAt(s, from) then Here(from) else if from == |s| then Nowhere else FindBlank(s, from + 1)
  }

  // ---------------------------------------------------------------- lines

  // A text cut at its line ends.
  function Lines(s: seq<byte>): (ls: seq<seq<byte>>)
    ensures |ls| > 0
    decreases |s|
  {
    match FindCrLf(s, 0)
    case Nowhere => [s]
    case Here(n) => [s[..n]] + Lines(s[n + 2..])
  }

  function Join(ls: seq<seq<byte>>): seq<byte>
    requires |ls| > 0
  {
    if |ls| == 1 then ls[0] else ls[0] + [13, 10] + Join(ls[1..])
  }

  // Cutting loses nothing, and no line end is left inside a line.
  lemma {:induction false} LinesJoin(s: seq<byte>)
    ensures Join(Lines(s)) == s
    ensures forall i, k :: 0 <= i < |Lines(s)| ==> !CrLfAt(Lines(s)[i], k)
    decreases |s|
  {
    var r := FindCrLf(s, 0);
    if r.Here? {
      var n := r.value;
      LinesJoin(s[n + 2..]);
      assert Lines(s)[1..] == Lines(s[n + 2..]);
      assert s == s[..n] + [CR, LF] + s[n + 2..];
      forall i, k | 0 <= i < |Lines(s)|
        ensures !CrLfAt(Lines(s)[i], k)
      {
        if i == 0 {
          assert CrLfAt(s[..n], k) ==> CrLfAt(s, k);
        } else {
          assert Lines(s)[i] == Lines(s[n + 2..])[i - 1];
        }
      }
    }
  }

  ghost predicate AllAccepted(ls: seq<seq<byte>>)
  {
    forall i :: 0 <= i < |ls| ==> Accepted(ls[i])
  }

  // The request ends at its first empty line, that is not its very beginning, and every line
  // before it is accepted.
  ghost predicate GoodRequest(buffer: seq<byte>, p: nat)
    requires p <= |buffer|
  {
    p + 4 == |buffer| && p > 0 && AllAccepted(Lines(buffer[..p]))
  }

  // The line that starts at `line` ends at or before the empty line.
  lemma NextLine(buffer: seq<byte>, p: nat, line: nat, next: nat)
    requires BlankAt(buffer, p) && (forall k :: 0 <= k < p ==> !BlankAt(buffer, k)) && line <= p
    requires FindCrLf(buffer, line) == Here(next)
    ensures next == p || next + 2 < p
    ensures Lines(buffer[line..p]) ==
      if next == p then [buffer[line..p]] else [buffer[line..next]] + Lines(buffer[next + 2..p])
  {
    assert CrLfAt(buffer, p) && CrLfAt(buffer, next);
    if next < p {
      assert !BlankAt(buffer, next);
      MiddleLine(buffer, p, line, next);
    } else {
      LastLine(buffer, p, line);
    }
  }

  lemma MiddleLine(buffer: seq<byte>, p: nat, line: nat, next: nat)
    requires line <= next && next + 2 <= p <= |buffer| && CrLfAt(buffer, next)
    requires forall k :: line <= k < next ==> !CrLfAt(buffer, k)
    ensures Lines(buffer[line..p]) == [buffer[line..next]] + Lines(buffer[next + 2..p])
  {
    var s, n := buffer[line..p], next - line;
    assert s[n] == buffer[next] && s[n + 1] == buffer[next + 1];
    forall k | 0 <= k < n
      ensures !CrLfAt(s, k)
    {
      assert !CrLfAt(buffer, line + k);
    }
    FirstOnly(s, n);
    assert s[..n] == buffer[line..next] && s[n + 2..] == buffer[next + 2..p];
  }

  lemma LastLine(buffer: seq<byte>, p: nat, line: nat)
    requires line <= p <= |buffer| && forall k :: line <= k < p ==> !CrLfAt(buffer, k)
    ensures Lines(buffer[line..p]) == [buffer[line..p]]
  {
    var s := buffer[line..p];
    if FindCrLf(s, 0).Here? {
      var k := FindCrLf(s, 0).value;
      assert CrLfAt(buffer, line + k);
    }
  }

  lemma FirstOnly(s: seq<byte>, n: nat)
    requires CrLfAt(s, n) && forall k :: 0 <= k < n ==> !CrLfAt(s, k)
    ensures FindCrLf(s, 0) == Here(n)
  {
  }

  lemma AcceptedCons(l: seq<byte>, ls: seq<seq<byte>>)
    ensures AllAccepted([l] + ls) <==> Accepted(l) && AllAccepted(ls)
  {
    if AllAccepted([l] + ls) {
      assert ([l] + ls)[0] == l;
      forall i | 0 <= i < |ls|
        ensures Accepted(ls[i])
      {
        assert ([l] + ls)[i + 1] == ls[i];
      }
    }
  }

  // The loop of parse_headers stands at `line`: what is left has to be accepted; or it has
  // gone past the empty line, because the buffer goes on behind it.
  ghost predicate Standing(buffer: seq<byte>, p: nat, line: nat)
    requires p <= |buffer|
  {
    if line <= p then
      && (AllAccepted(Lines(buffer[..p])) <==> AllAccepted(Lines(buffer[line..p])))
      && (line == p ==> p == 0)
    else line == p + 2 && p + 4 < |buffer|
  }

  // One turn of the loop, at a line that is not behind the empty line.
  lemma OneLine(buffer: seq<byte>, p: nat, line: nat, next: nat)
    requires FindBlank(buffer, 0) == Here(p) && line <= p && Standing(buffer, p, line)
    requires FindCrLf(buffer, line) == Here(next)
    ensures next <= p
    ensures next == line ==> !GoodRequest(buffer, p)
    ensures next > line && !Accepted(buffer[line..next]) ==> !GoodRequest(buffer, p)
    ensures next > line && Accepted(buffer[line..next]) ==>
      if next == p && p + 4 == |buffer| then GoodRequest(buffer, p)
      else Standing(buffer, p, next + 2)
  {
    NextLine(buffer, p, line, next);
    var l := buffer[line..next];
    if next == p {
      AcceptedCons(l, []);
      assert [l] + [] == [l];
    } else {
      AcceptedCons(l, Lines(buffer[next + 2..p]));
    }
    if next == line {
      EmptyRefused();
      assert l == [];
    }
  }

  // The bytes in front of the first NUL: what the string functions of C see of a buffer.
  function CString(raw: seq<byte>): (s: seq<byte>)
    ensures s <= raw && forall k :: 0 <= k < |s| ==> s[k] != 0
    ensures |s| < |raw| ==> raw[|s|] == 0
    decreases |raw|
  {
    if raw == [] || raw[0] == 0 then [] else [raw[0]] + CString(raw[1..])
  }

  // parse_headers, on a buffer that holds an empty line, as its caller makes sure.
  method ParseHeaders(raw: seq<byte>) returns (r: int)
    requires FindBlank(CString(raw), 0).Here?
    ensures r == 0 || r == 1
    ensures r == 0 <==> GoodRequest(CString(raw), FindBlank(CString(raw), 0).value)
  {
    r := ParseString(CString(raw));
  }

  method ParseString(buffer: seq<byte>) returns (r: int)
    requires FindBlank(buffer, 0).Here?
    ensures r == 0 || r == 1
    ensures r == 0 <==> GoodRequest(buffer, FindBlank(buffer, 0).value)
  {
    ghost var p := FindBlank(buffer, 0).value;
    // -1 for the null pointer, which is never reached: a line end is always found.
    var line: int := 0;
    assert buffer[0..p] == buffer[..p];
    while line >= 0
      invariant 0 <= line <= |buffer| && Standing(buffer, p, line)
      decreases |buffer| - line
    {
      var at := line;
      var next := FindCrLf(buffer, at);
      assert CrLfAt(buffer, p) && CrLfAt(buffer, p + 2);
      var len := if next.Here? then next.value - at else |buffer| - at;
      if at <= p {
        OneLine(buffer, p, at, next.value);
      }
      if len <= 0 {
        return 1;
      }
      var tmp := buffer[at..at + len];
      var what := SetHeaderFields(tmp);
      if what.Refused? {
        return 1;
      }
      line := if next.Here? then next.value + 2 else -1;
      if EndsThere(buffer, next.value) {
        return 0;
      }
    }
    return 0;
  }

  // What begins at k is an empty line and nothing else (strcmp).
  predicate EndsThere(s: seq<byte>, k: nat)
  {
    k + 4 == |s| && BlankAt(s, k)
  }
}
