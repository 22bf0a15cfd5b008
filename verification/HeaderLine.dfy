// One line of an HTTP request: ws_set_header_fields and ws_parse_request of src/websocket.c.
module HeaderLine {
  import opened Bytes

  const TAB: byte := 9
  const LF: byte := 10
  const CR: byte := 13
  const SPACE: byte := 32
  const COLON: byte := 58

  // "GET " and "get "
  const GET: seq<byte> := [71, 69, 84, 32]
  const GET_LOWER: seq<byte> := [103, 101, 116, 32]

  // " HTTP/1.0" and " HTTP/1.1"
  const HTTP10: seq<byte> := [32, 72, 84, 84, 80, 47, 49, 46, 48]
  const HTTP11: seq<byte> := [32, 72, 84, 84, 80, 47, 49, 46, 49]

  // isspace(), in the C locale.
  predicate IsSpace(b: byte)
  {
    b == SPACE || 9 <= b <= 13
  }

  predicate SpaceAt(l: seq<byte>, k: int)
  {
    0 <= k < |l| && IsSpace(l[k])
  }

  // ---------------------------------------------------------------- strstr

  predicate FoundAt(s: seq<byte>, pat: seq<byte>, k: nat)
  {
    k + |pat| <= |s| && s[k..k + |pat|] == pat
  }

  // strstr (s, pat): the first place.
  function Find(s: seq<byte>, pat: seq<byte>, from: nat): (r: Place)
    requires from <= |s|
    ensures r.Here? ==>
      from <= r.value && FoundAt(s, pat, r.value) && forall k :: from <= k < r.value ==> !FoundAt(s, pat, k)
    ensures r.Nowhere? ==> forall k :: from <= k <= |s| ==> !FoundAt(s, pat, k)
    decreases |s| - from
  {
    if FoundAt(s, pat, from) then Here(from) else if from == |s| then Nowhere else Find(s, pat, from + 1)
  }

  // ---------------------------------------------------------------- lines that are accepted

  // The line speaks of a GET somewhere, and so is taken for the request line.
  ghost predicate MentionsGet(l: seq<byte>)
  {
    exists k: nat :: FoundAt(l, GET, k) || FoundAt(l, GET_LOWER, k)
  }

  // The protocol is at k: the first HTTP/1.0, or if there is none the first HTTP/1.1.
  ghost predicate ProtocolAt(l: seq<byte>, k: nat)
  {
    || (FoundAt(l, HTTP10, k) && forall j: nat :: j < k ==> !FoundAt(l, HTTP10, j))
    || (FoundAt(l, HTTP11, k) && (forall j: nat :: j < k ==> !FoundAt(l, HTTP11, j))
        && forall j: nat :: !FoundAt(l, HTTP10, j))
  }

  // A method, a path of at least one byte up to k, and a protocol.
  ghost predicate RequestAt(l: seq<byte>, k: nat)
  {
    (FoundAt(l, GET, 0) || FoundAt(l, GET_LOWER, 0)) && ProtocolAt(l, k) && k > 4
  }

  // A name up to n, the colon at p, and a value from v on: white space may stand on both sides
  // of the colon, and none in the name.
  ghost predicate FieldAt(l: seq<byte>, n: nat, p: nat, v: nat)
  {
    && 0 < n <= p < v <= |l| && l[p] == COLON
    && (forall k :: 0 <= k < p ==> l[k] != COLON)
    && (forall k :: 0 <= k < n ==> l[k] != SPACE && l[k] != TAB) && !SpaceAt(l, n - 1)
    && (forall k :: n <= k < p ==> SpaceAt(l, k))
    && (forall k :: p < k < v ==> SpaceAt(l, k)) && !SpaceAt(l, v)
  }

  ghost predicate Accepted(l: seq<byte>)
  {
    && (l != [] ==> l[0] != LF && l[0] != CR)
    && if MentionsGet(l) then exists k: nat :: RequestAt(l, k)
       else exists n: nat, p: nat, v: nat :: FieldAt(l, n, p, v)
  }

  // There is only one way to read a line.
  lemma ReadOneWay(l: seq<byte>, k: nat, k': nat, n: nat, p: nat, v: nat, n': nat, p': nat, v': nat)
    ensures RequestAt(l, k) && RequestAt(l, k') ==> k == k'
    ensures FieldAt(l, n, p, v) && FieldAt(l, n', p', v') ==> n == n' && p == p' && v == v'
  {
    var ends := (SpaceAt(l, n - 1), SpaceAt(l, n' - 1), SpaceAt(l, v), SpaceAt(l, v'));
    if FieldAt(l, n, p, v) && FieldAt(l, n', p', v') {
      assert p == p';
    }
  }

  lemma EmptyRefused()
    ensures !Accepted([])
  {
    var l: seq<byte> := [];
    assert forall k: nat :: !FoundAt(l, GET, k) && !FoundAt(l, GET_LOWER, k);
  }

  // What a line says.
  datatype Parsed = Refused | Request(path: seq<byte>) | Field(name: seq<byte>, value: seq<byte>)

  ghost predicate Says(l: seq<byte>, what: Parsed)
  {
    match what
    case Refused => !Accepted(l)
    case Request(path) =>
      Accepted(l) && MentionsGet(l) && exists k: nat :: RequestAt(l, k) && k <= |l| && path == l[4..k]
    case Field(name, value) =>
      Accepted(l) && !MentionsGet(l)
      && exists n: nat, p: nat, v: nat :: FieldAt(l, n, p, v) && name == l[..n] && value == l[v..]
  }

  // "GET " or "get ", a path that starts with a slash and has no blank in it, and " HTTP/1.0" or
  // " HTTP/1.1" are read as that path.
  lemma RequestRead(get: seq<byte>, path: seq<byte>, minor: byte)
    requires get == [71, 69, 84, 32] || get == [103, 101, 116, 32]
    requires path != [] && path[0] == 47 && forall k :: 0 <= k < |path| ==> path[k] != 32
    requires minor == 48 || minor == 49
    ensures Says(get + path + [32, 72, 84, 84, 80, 47, 49, 46, minor], Request(path))
  {
    var proto: seq<byte> := [32, 72, 84, 84, 80, 47, 49, 46, minor];
    var l, k := get + path + proto, 4 + |path|;
    RequestParts(l, get, path, proto, k);
    assert FoundAt(l, GET, 0) || FoundAt(l, GET_LOWER, 0);
    assert FoundAt(l, proto, k) && proto == if minor == 48 then HTTP10 else HTTP11;
    forall j: nat | j != k
      ensures !FoundAt(l, HTTP10, j) && !FoundAt(l, HTTP11, j)
    {
      if j + 9 <= |l| {
        var at := l[j..j + 9];
        assert at[0] == l[j] && at[1] == l[j + 1];
      }
    }
    assert minor == 49 ==> !FoundAt(l, HTTP10, k) by {
      assert l[k..k + 9][8] == minor;
    }
    assert ProtocolAt(l, k) && RequestAt(l, k) && l[0] == get[0];
  }

  lemma RequestParts(l: seq<byte>, get: seq<byte>, path: seq<byte>, proto: seq<byte>, k: nat)
    requires l == get + path + proto && |get| == 4 && |proto| == 9 && k == 4 + |path|
    ensures l[0..4] == get && l[4..k] == path && l[k..k + 9] == proto
  {
  }

  // White space: a blank, or one of the bytes from tab to carriage return.
  predicate IsBlank(b: byte)
  {
    b == 32 || 9 <= b <= 13
  }

  // A name without white space and colons, a colon, a blank, and a value that does not start
  // with white space are read as that name and that value.
  lemma FieldRead(name: seq<byte>, value: seq<byte>)
    requires name != [] && forall k :: 0 <= k < |name| ==> !IsBlank(name[k]) && name[k] != 58
    requires (value != [] ==> !IsBlank(value[0])) && !MentionsGet(name + [58, 32] + value)
    ensures Says(name + [58, 32] + value, Field(name, value))
  {
    var l, n := name + [58, 32] + value, |name|;
    assert l[..n] == name && l[n + 2..] == value && l[n] == 58 && l[n + 1] == 32;
    assert forall k :: 0 <= k < n ==> l[k] == name[k];
    assert value != [] ==> l[n + 2] == value[0];
    assert FieldAt(l, n, n, n + 2);
  }

  // A name never holds a blank, a tab or a colon, and no value starts with white space.
  lemma FieldClean(l: seq<byte>, name: seq<byte>, value: seq<byte>)
    requires Says(l, Field(name, value))
    ensures name != [] && forall k :: 0 <= k < |name| ==> name[k] != 32 && name[k] != 9 && name[k] != 58
    ensures value != [] ==> !IsBlank(value[0])
  {
  }

  // ---------------------------------------------------------------- ws_parse_request

  method ParseRequest(line: seq<byte>) returns (path: Parsed)
    ensures path.Refused? <==> !exists k: nat :: RequestAt(line, k)
    ensures path.Refused? || path.Request?
    ensures path.Request? ==> exists k: nat :: RequestAt(line, k) && k <= |line| && path.path == line[4..k]
  {
    if !(GET <= line || GET_LOWER <= line) {
      assert !FoundAt(line, GET, 0) && !FoundAt(line, GET_LOWER, 0);
      return Refused;
    }
    var proto := Find(line, HTTP10, 0);
    if proto.Nowhere? {
      proto := Find(line, HTTP11, 0);
    }
    if proto.Nowhere? {
      return Refused;
    }
    var k := proto.value;
    assert ProtocolAt(line, k);
    // The path has rlen = k - 4 bytes.
    if k <= 4 {
      forall j: nat
        ensures !RequestAt(line, j)
      {
        if ProtocolAt(line, j) {
          OneProtocol(line, j, k);
        }
      }
      return Refused;
    }
    assert RequestAt(line, k);
    return Request(line[4..k]);
  }

  lemma OneProtocol(l: seq<byte>, j: nat, k: nat)
    requires ProtocolAt(l, j) && ProtocolAt(l, k)
    ensures j == k
  {
  }

  // ---------------------------------------------------------------- ws_set_header_fields

  // The loop that steps p back over white space in front of the colon.
  method StepBack(line: seq<byte>, p: nat) returns (n: nat)
    requires p <= |line|
    ensures n <= p && !SpaceAt(line, n - 1) && forall k :: n <= k < p ==> SpaceAt(line, k)
  {
    n := p;
    while n != 0 && IsSpace(line[n - 1])
      invariant n <= p && forall k :: n <= k < p ==> SpaceAt(line, k)
    {
      n := n - 1;
    }
  }

  // The loop that steps over white space in front of the value.
  method StepOn(line: seq<byte>, from: nat) returns (v: nat)
    requires from <= |line|
    ensures from <= v <= |line| && !SpaceAt(line, v) && forall k :: from <= k < v ==> SpaceAt(line, k)
  {
    v := from;
    while v < |line| && IsSpace(line[v])
      invariant from <= v <= |line| && forall k :: from <= k < v ==> SpaceAt(line, k)
    {
      v := v + 1;
    }
  }

  // ws_set_header_fields, on the bytes of a line in front of its NUL.
  method SetHeaderFields(line: seq<byte>) returns (what: Parsed)
    ensures Says(line, what)
  {
    if line != [] && (line[0] == LF || line[0] == CR) {
      return Refused;
    }
    if Find(line, GET, 0).Here? || Find(line, GET_LOWER, 0).Here? {
      assert MentionsGet(line);
      what := ParseRequest(line);
      return;
    }
    assert !MentionsGet(line);
    what := ParseField(line);
  }

  method ParseField(line: seq<byte>) returns (what: Parsed)
    ensures what.Refused? <==> !exists n: nat, p: nat, v: nat :: FieldAt(line, n, p, v)
    ensures what.Refused? || what.Field?
    ensures what.Field? ==>
      exists n: nat, p: nat, v: nat :: FieldAt(line, n, p, v) && what.name == line[..n] && what.value == line[v..]
  {
    var colon := Find(line, [COLON], 0);
    ColonsFound(line);
    if colon.Nowhere? {
      return Refused;
    }
    var p := colon.value;
    var n := StepBack(line, p);
    if n == 0 || exists k :: 0 <= k < n && (line[k] == SPACE || line[k] == TAB) {
      forall n': nat, p': nat, v': nat
        ensures !FieldAt(line, n', p', v')
      {
        NoField(line, n, p, n', p', v');
      }
      return Refused;
    }
    var v := StepOn(line, p + 1);
    assert FieldAt(line, n, p, v);
    return Field(line[..n], line[v..]);
  }

  lemma ColonFound(l: seq<byte>, k: nat)
    ensures FoundAt(l, [COLON], k) <==> k < |l| && l[k] == COLON
  {
    if k < |l| {
      assert l[k..k + 1] == [l[k]];
    }
  }

  lemma ColonsFound(l: seq<byte>)
    ensures forall k: nat :: FoundAt(l, [COLON], k) <==> k < |l| && l[k] == COLON
  {
    forall k: nat
      ensures FoundAt(l, [COLON], k) <==> k < |l| && l[k] == COLON
    {
      ColonFound(l, k);
    }
  }

  // White space up to the colon, and a name in front of it that is empty or has a blank in it.
  lemma NoField(l: seq<byte>, n: nat, p: nat, n': nat, p': nat, v': nat)
    requires n <= p < |l| && l[p] == COLON && forall k :: 0 <= k < p ==> l[k] != COLON
    requires !SpaceAt(l, n - 1) && forall k :: n <= k < p ==> SpaceAt(l, k)
    requires n == 0 || exists k :: 0 <= k < n && (l[k] == SPACE || l[k] == TAB)
    ensures !FieldAt(l, n', p', v')
  {
    var ends := (SpaceAt(l, n - 1), SpaceAt(l, n' - 1));
  }
}
