// The unit splitter of producer/nalstreamer.c: a file of an H.264 stream (Annex B) is cut at
// the start codes 00 00 00 01 that the scanner accepts.
module Nal {
  import opened Bytes

  const CODE: seq<byte> := [0, 0, 0, 1]

  // ---------------------------------------------------------------- the scanner

  // How many bytes of a start code have been matched, after one more byte.
  function Step(count: nat, b: byte): (c: nat)
    ensures c <= count + 1
  {
    if (b == 0 && count < 3) || (b == 1 && count == 3) then count + 1 else 0
  }

  // A place found in what lies i bytes further on.
  function Shift(r: Place, i: nat): Place
  {
    if r.Here? then Here(r.value + i) else Nowhere
  }

  // The number of bytes up to the end of the first code accepted in s.
  function NextCode(count: nat, s: seq<byte>): (r: Place)
    requires count < 4
    ensures r.Here? ==> 0 < r.value <= |s|
    decreases |s|
  {
    if s == [] then Nowhere
    else if Step(count, s[0]) == 4 then Here(1)
    else Shift(NextCode(Step(count, s[0]), s[1..]), 1)
  }

  // The matched bytes are the beginning of a start code.
  lemma {:induction false} NextCodeIsCode(count: nat, before: seq<byte>, s: seq<byte>)
    requires count < 4 && before == CODE[..count]
    ensures var r := NextCode(count, s);
      r.Here? ==> r.value + count >= 4 && (before + s)[r.value + count - 4..r.value + count] == CODE
    decreases |s|
  {
    if s != [] {
      var c := Step(count, s[0]);
      if c == count + 1 && c < 4 {
        assert before + [s[0]] == CODE[..c];
        NextCodeIsCode(c, before + [s[0]], s[1..]);
        assert before + [s[0]] + s[1..] == before + s;
      } else if c == 4 {
        assert before + s == CODE + s[1..];
      } else {
        NextCodeIsCode(0, [], s[1..]);
        if NextCode(0, s[1..]).Here? {
          NextCodeLater(before, s, NextCode(0, s[1..]).value);
        }
      }
    }
  }

  // A code behind the first byte of s, seen from `before` on.
  lemma NextCodeLater(before: seq<byte>, s: seq<byte>, n: nat)
    requires s != [] && 4 <= n < |s| && ([] + s[1..])[n - 4..n] == CODE
    ensures (before + s)[n + 1 + |before| - 4..n + 1 + |before|] == CODE
  {
    assert [] + s[1..] == s[1..];
    assert (before + s)[n + 1 + |before| - 4..n + 1 + |before|] == s[n + 1 - 4..n + 1] == s[1..][n - 4..n];
  }

  lemma CodeFound(rest: seq<byte>)
    ensures NextCode(0, CODE + rest) == Here(4)
  {
    var s := CODE + rest;
    assert s[0] == 0 && s[1..][0] == 0 && s[1..][1..][0] == 0 && s[1..][1..][1..][0] == 1;
    assert NextCode(3, s[1..][1..][1..]) == Here(1);
    assert NextCode(2, s[1..][1..]) == Here(2);
    assert NextCode(1, s[1..]) == Here(3);
  }

  // ---------------------------------------------------------------- units

  // The unit that starts s: up to the next code accepted behind its own.
  function UnitLength(s: seq<byte>): (n: nat)
    requires |s| >= 4
    ensures n <= |s|
  {
    match NextCode(0, s[4..])
    case Nowhere => |s|
    case Here(n) => n
  }

  // How far the buffer is filled while that unit is read.
  function Fill(s: seq<byte>): (n: nat)
    requires |s| >= 4
  {
    match NextCode(0, s[4..])
    case Nowhere => |s|
    case Here(n) => 4 + n
  }

  // s from the first code accepted on.
  function FromCode(s: seq<byte>): (t: seq<byte>)
  {
    match NextCode(0, s)
    case Nowhere => []
    case Here(n) => if n >= 4 then s[n - 4..] else []
  }

  lemma FromCodeStarts(s: seq<byte>)
    ensures NextCode(0, s).Here? <==> FromCode(s) != []
    ensures FromCode(s) != [] ==> CODE <= FromCode(s)
  {
    NextCodeIsCode(0, [], s);
    assert [] + s == s;
    if NextCode(0, s).Here? {
      var n := NextCode(0, s).value;
      assert s[n - 4..][..4] == s[n - 4..n];
    }
  }

  // Behind a unit lies the next code, or the end of the file.
  lemma UnitEnds(s: seq<byte>)
    requires CODE <= s
    ensures UnitLength(s) >= 4
    ensures UnitLength(s) < |s| ==> CODE <= s[UnitLength(s)..]
    ensures FromCode(s[UnitLength(s)..]) == s[UnitLength(s)..]
  {
    var r := NextCode(0, s[4..]);
    NextCodeIsCode(0, [], s[4..]);
    assert [] + s[4..] == s[4..];
    if r.Here? {
      var rest := s[r.value..];
      assert rest[..4] == s[4..][r.value - 4..r.value];
      assert rest == CODE + rest[4..];
      CodeFound(rest[4..]);
    }
  }

  // The units of a file that starts with a code.
  function Units(s: seq<byte>): (us: seq<seq<byte>>)
    requires s != [] ==> CODE <= s
    decreases |s|
  {
    if s == [] then []
    else
      UnitEnds(s);
      [s[..UnitLength(s)]] + Units(s[UnitLength(s)..])
  }

  // Nothing is lost and nothing is invented: the units put together are the file.
  lemma {:induction false} UnitsPartition(s: seq<byte>)
    requires s != [] ==> CODE <= s
    ensures Flatten(Units(s)) == s
    decreases |s|
  {
    if s != [] {
      UnitEnds(s);
      var n := UnitLength(s);
      UnitsPartition(s[n..]);
      FlattenCons(s[..n], Units(s[n..]));
      CutAt(s, n);
    }
  }

  lemma CutAt(s: seq<byte>, n: nat)
    requires n <= |s|
    ensures s[..n] + s[n..] == s
  {
  }

  // Each unit starts with its code.
  lemma {:induction false} UnitsStart(s: seq<byte>)
    requires s != [] ==> CODE <= s
    ensures forall i :: 0 <= i < |Units(s)| ==> CODE <= Units(s)[i]
    decreases |s|
  {
    if s != [] {
      UnitEnds(s);
      var first, rest := s[..UnitLength(s)], Units(s[UnitLength(s)..]);
      UnitsStart(s[UnitLength(s)..]);
      assert CODE <= first;
      forall i | 0 <= i < |[first] + rest|
        ensures CODE <= ([first] + rest)[i]
      {
        assert i > 0 ==> ([first] + rest)[i] == rest[i - 1];
      }
    }
  }

  // ---------------------------------------------------------------- reading

  class File {
    const data: seq<byte>
    var pos: nat

    constructor (data: seq<byte>)
      ensures this.data == data && pos == 0
    {
      this.data, pos := data, 0;
    }

    ghost function Left(): seq<byte>
      reads this
      requires pos <= |data|
    {
      data[pos..]
    }
  }

  // The scanner has taken i of the bytes of s and matched `count` bytes of a code.
  ghost predicate Scanning(s: seq<byte>, i: nat, count: nat)
  {
    i <= |s| && count < 4 && NextCode(0, s) == Shift(NextCode(count, s[i..]), i)
  }

  lemma NextCodeStep(count: nat, u: seq<byte>, b: byte, rest: seq<byte>)
    requires count < 4 && u == [b] + rest
    ensures if Step(count, b) == 4 then NextCode(count, u) == Here(1)
            else NextCode(count, u) == Shift(NextCode(Step(count, b), rest), 1)
  {
    assert u[0] == b && u[1..] == rest;
  }

  lemma FoundLater(found: Place, count: nat, u: seq<byte>, b: byte, rest: seq<byte>, i: nat, next: nat)
    requires count < 4 && u == [b] + rest && next == i + 1 && found == Shift(NextCode(count, u), i)
    ensures if Step(count, b) == 4 then found == Here(next)
            else found == Shift(NextCode(Step(count, b), rest), next)
  {
    NextCodeStep(count, u, b, rest);
  }

  lemma CutFirst(s: seq<byte>, i: nat, next: nat)
    requires i < |s| && next == i + 1
    ensures s[i..] == [s[i]] + s[next..]
  {
  }

  lemma ScanOne(s: seq<byte>, i: nat, count: nat, next: nat)
    requires Scanning(s, i, count) && i < |s| && next == i + 1
    ensures if Step(count, s[i]) == 4 then NextCode(0, s) == Here(next) else Scanning(s, next, Step(count, s[i]))
  {
    CutFirst(s, i, next);
    FoundLater(NextCode(0, s), count, s[i..], s[i], s[next..], i, next);
  }

  // The loop of read_nal, `taken` bytes into the bytes s that were left: nothing found yet, or
  // nalLen bytes of the unit t are in the buffer.
  ghost predicate Reading(s: seq<byte>, t: seq<byte>, taken: nat, endCount: nat, extract: bool,
    nalLen: nat, filled: seq<byte>)
  {
    && taken <= |s| && t == FromCode(s) && |filled| == nalLen
    && if !extract then nalLen == 0 && Scanning(s, taken, endCount)
       else
         && CODE <= t && taken == |s| - |t| + nalLen && 4 <= nalLen <= |t|
         && filled == t[..nalLen] && Scanning(t[4..], nalLen - 4, endCount)
  }

  // One more byte of the unit.
  lemma Extracted(s: seq<byte>, t: seq<byte>, taken: nat, endCount: nat, nalLen: nat, filled: seq<byte>, next: nat)
    requires Reading(s, t, taken, endCount, true, nalLen, filled) && taken < |s| && next == nalLen + 1
    ensures next <= |t| && next <= Fill(t) && filled + [s[taken]] == t[..next]
    ensures var c := Step(endCount, s[taken]);
      if c == 4 then UnitLength(t) == next - 4 && nalLen >= 7
      else Reading(s, t, taken + 1, c, true, next, filled + [s[taken]])
  {
    assert t == s[|s| - |t|..];
    ScanOne(t[4..], nalLen - 4, endCount, next - 4);
    NextCodeIsCode(0, [], t[4..]);
    assert t[..next] == t[..nalLen] + [t[nalLen]];
  }

  // One more byte in front of the first code.
  lemma Skipped(s: seq<byte>, t: seq<byte>, taken: nat, endCount: nat, filled: seq<byte>)
    requires Reading(s, t, taken, endCount, false, 0, filled) && taken < |s|
    ensures var c := Step(endCount, s[taken]);
      if c == 4 then Reading(s, t, taken + 1, 0, true, 4, CODE)
      else Reading(s, t, taken + 1, c, false, 0, filled)
  {
    ScanOne(s, taken, endCount, taken + 1);
    if Step(endCount, s[taken]) == 4 {
      FromCodeStarts(s);
      assert t[..4] == CODE;
      assert t[4..][0..] == t[4..];
    }
  }

  lemma Shorter(a: array<byte>, t: seq<byte>, n: nat, m: nat)
    requires m <= n <= a.Length && n <= |t| && a[..n] == t[..n]
    ensures a[..m] == t[..m]
  {
    assert a[..m] == a[..n][..m] && t[..m] == t[..n][..m];
  }

  lemma UnitRead(s: seq<byte>, t: seq<byte>, taken: nat, n: nat, unit: seq<byte>)
    requires t == FromCode(s) && taken <= |s| && taken == |s| - |t| + n + 4
    requires CODE <= t && n == UnitLength(t) && unit == t[..n]
    ensures taken >= 4 && Delivered(t, n, unit, s[taken - 4..])
  {
    assert t == s[|s| - |t|..];
  }

  method Store(buff: array<byte>, at: nat, b: byte)
    requires at < buff.Length
    modifies buff
    ensures buff[..at + 1] == old(buff[..at]) + [b]
  {
    buff[at] := b;
  }

  // The code that has been detected, put in front of its unit.
  method StoreCode(buff: array<byte>)
    requires 4 <= buff.Length
    modifies buff
    ensures buff[..4] == CODE
  {
    for i := 0 to 3
      invariant forall k :: 0 <= k < i ==> buff[k] == 0
    {
      buff[i] := 0;
    }
    buff[3] := 1;
  }

  // What one more byte does to the buffer: it joins the unit, or completes the first code.
  method TakeByte(buff: array<byte>, b: byte, endCount: nat, extract: bool, nalLen: nat,
      ghost s: seq<byte>, ghost t: seq<byte>, ghost taken: nat, ghost filled: seq<byte>)
    returns (n: nat, ghost now: seq<byte>)
    requires Reading(s, t, taken, endCount, extract, nalLen, filled) && taken < |s| && b == s[taken]
    requires nalLen <= buff.Length && buff[..nalLen] == filled
    requires t != [] ==> 4 <= |t| && Fill(t) < buff.Length
    modifies buff
    ensures n == if extract then nalLen + 1 else nalLen
    ensures var c := Step(endCount, b);
      if c < 4 then
        n <= buff.Length && (extract ==> n < buff.Length)
        && Reading(s, t, taken + 1, c, extract, n, now) && buff[..n] == now
      else if !extract then
        4 < buff.Length && Reading(s, t, taken + 1, 0, true, 4, now) && buff[..4] == now
      else
        CODE <= t && UnitLength(t) == n - 4 && n <= |t| && n <= buff.Length && buff[..n - 4] == t[..n - 4]
        && t == FromCode(s) && taken + 1 == |s| - |t| + n
  {
    n, now := nalLen, filled;
    if extract {
      Extracted(s, t, taken, endCount, nalLen, filled, nalLen + 1);
      Store(buff, nalLen, b);
      n, now := nalLen + 1, filled + [b];
      if Step(endCount, b) == 4 {
        Shorter(buff, t, nalLen + 1, nalLen - 3);
      }
    } else {
      Skipped(s, t, taken, endCount, filled);
      if Step(endCount, b) == 4 {
        StoreCode(buff);
        now := CODE;
      }
    }
  }

  lemma AtStart(s: seq<byte>)
    ensures Reading(s, FromCode(s), 0, 0, false, 0, [])
    ensures FromCode(s) != [] ==> CODE <= FromCode(s)
  {
    FromCodeStarts(s);
    assert s[0..] == s;
  }

  lemma AtEnd(s: seq<byte>, t: seq<byte>, endCount: nat, extract: bool, nalLen: nat, filled: seq<byte>)
    requires Reading(s, t, |s|, endCount, extract, nalLen, filled)
    ensures Delivered(t, nalLen, filled, [])
  {
    FromCodeStarts(s);
    assert |t| <= |s|;
    if extract {
      assert t[..nalLen] == t && t[nalLen..] == [];
    }
  }

  // What read_nal leaves behind: the unit that starts t is in the buffer, the rest of t in the
  // file; or nothing is left.
  ghost predicate Delivered(t: seq<byte>, nalLen: nat, unit: seq<byte>, left: seq<byte>)
  {
    if t == [] then nalLen == 0 && left == []
    else CODE <= t && nalLen == UnitLength(t) && unit == t[..nalLen] && left == t[nalLen..]
  }

  // read_nal, where the buffer is large enough for the unit and the code behind it. It returns
  // the next unit, skipping what lies in front of the first code, and leaves the file at the
  // unit's end.
  method ReadNal(fd: File, buff: array<byte>) returns (nalLen: nat)
    requires fd.pos <= |fd.data|
    requires FromCode(fd.Left()) != [] ==> 4 <= |FromCode(fd.Left())| && Fill(FromCode(fd.Left())) < buff.Length
    modifies fd, buff
    ensures fd.pos <= |fd.data| && nalLen <= buff.Length
    ensures Delivered(old(FromCode(fd.Left())), nalLen, buff[..nalLen], fd.Left())
  {
    AtStart(fd.Left());
    nalLen := Scan(fd, buff, fd.Left(), FromCode(fd.Left()));
  }

  // The loop of read_nal.
  method Scan(fd: File, buff: array<byte>, ghost s: seq<byte>, ghost t: seq<byte>) returns (nalLen: nat)
    requires fd.pos <= |fd.data| && s == fd.Left()
    requires t != [] ==> CODE <= t && Fill(t) < buff.Length
    requires Reading(s, t, 0, 0, false, 0, [])
    modifies fd, buff
    ensures fd.pos <= |fd.data| && nalLen <= buff.Length
    ensures Delivered(t, nalLen, buff[..nalLen], fd.Left())
  {
    ghost var p0, taken, filled := fd.pos, 0, [];
    nalLen := 0;
    var endCount, extract := 0, false;
    while fd.pos < |fd.data|
      invariant fd.pos == p0 + taken <= |fd.data| && nalLen <= buff.Length && (extract ==> nalLen < buff.Length)
      invariant Reading(s, t, taken, endCount, extract, nalLen, filled) && buff[..nalLen] == filled
    {
      var byteRead := fd.data[fd.pos];
      fd.pos := fd.pos + 1;
      nalLen, filled := TakeByte(buff, byteRead, endCount, extract, nalLen, s, t, taken, filled);
      taken := taken + 1;
      endCount := Step(endCount, byteRead);
      if endCount == 4 {
        endCount := 0;
        if extract {
          fd.pos := fd.pos - 4;
          nalLen := nalLen - 4;
          UnitRead(s, t, taken, nalLen, buff[..nalLen]);
          return;
        }
        nalLen := 4;
        extract := true;
      }
    }
    AtEnd(s, t, endCount, extract, nalLen, filled);
    assert fd.Left() == [];
  }

  // A buffer of this size holds every unit of s and the code behind it.
  ghost predicate Holds(size: nat, s: seq<byte>)
    requires s != [] ==> CODE <= s
    decreases |s|
  {
    s != [] ==> Fill(s) < size && (UnitEnds(s); Holds(size, s[UnitLength(s)..]))
  }

  // Repeated calls give the units of the file one by one: together they are the file from the
  // first code accepted on, and one starts at each code accepted and nowhere else.
  method ReadAll(fd: File, buff: array<byte>) returns (us: seq<seq<byte>>)
    requires fd.pos <= |fd.data|
    requires FromCode(fd.Left()) != [] ==> CODE <= FromCode(fd.Left())
    requires Holds(buff.Length, FromCode(fd.Left()))
    modifies fd, buff
    ensures fd.pos == |fd.data|
    ensures us == Units(old(FromCode(fd.Left())))
    ensures Flatten(us) == old(FromCode(fd.Left()))
    ensures forall i :: 0 <= i < |us| ==> CODE <= us[i]
    ensures StartsAtCodes(old(fd.Left()), us)
    decreases |FromCode(fd.Left())|
  {
    ghost var t := FromCode(fd.Left());
    CodesAreStarts(fd.Left());
    var nalLen := ReadNal(fd, buff);
    FirstUnit(t, nalLen, buff[..nalLen], fd.Left(), buff.Length);
    if nalLen == 0 {
      return [];
    }
    var unit := buff[..nalLen];
    var rest := ReadAll(fd, buff);
    us := [unit] + rest;
    UnitsPartition(t);
    UnitsStart(t);
  }

  lemma FirstUnit(t: seq<byte>, nalLen: nat, unit: seq<byte>, left: seq<byte>, size: nat)
    requires Delivered(t, nalLen, unit, left) && (t != [] ==> CODE <= t) && Holds(size, t)
    ensures nalLen == 0 <==> t == []
    ensures t == [] ==> left == [] && Units(t) == []
    ensures t != [] ==> FromCode(left) == left && (left != [] ==> CODE <= left) && |left| < |t|
    ensures t != [] ==> Units(t) == [unit] + Units(left) && Holds(size, left)
  {
    if t != [] {
      UnitEnds(t);
    }
  }

  // ---------------------------------------------------------------- which codes are accepted

  // The matched bytes after s, 4 when a code has just been accepted.
  function Count(s: seq<byte>): (c: nat)
    ensures c <= 4
  {
    if s == [] then 0
    else
      var before := Count(s[..|s| - 1]);
      Step(if before == 4 then 0 else before, s[|s| - 1])
  }

  lemma {:induction false} CountZeros(p: seq<byte>, m: nat)
    requires p == [] || p[|p| - 1] != 0
    ensures Count(p + Zeros(m)) % 4 == m % 4
  {
    if m == 0 {
      assert p + Zeros(0) == p;
    } else {
      CountZeros(p, m - 1);
      var s := p + Zeros(m);
      assert s[..|s| - 1] == p + Zeros(m - 1) && s[|s| - 1] == 0;
      Cycle(m, Count(p + Zeros(m - 1)));
    }
  }

  lemma Cycle(m: nat, c: nat)
    requires m > 0 && c <= 4 && c % 4 == (m - 1) % 4
    ensures m % 4 == (if c == 4 then 1 else if c == 3 then 0 else c + 1)
  {
  }

  lemma Three(c: nat)
    requires c <= 4
    ensures c % 4 == 3 <==> c == 3
  {
  }

  // A code is accepted exactly when the run of zeros in front of its 01 has a length that is 3
  // more than a multiple of 4. After longer runs most codes are missed.
  lemma AcceptedIff(p: seq<byte>, m: nat)
    requires p == [] || p[|p| - 1] != 0
    ensures Count(p + Zeros(m) + [1]) == 4 <==> m % 4 == 3
  {
    CountZeros(p, m);
    var s := p + Zeros(m) + [1];
    assert s[..|s| - 1] == p + Zeros(m) && s[|s| - 1] == 1;
    Three(Count(p + Zeros(m)));
  }

  // A start code behind one more zero, as Annex B allows it, is missed.
  lemma MissedCode()
    ensures CODE == [0, 0, 0, 0, 1][1..] && Count([0, 0, 0, 0, 1]) != 4
    ensures NextCode(0, [0, 0, 0, 0, 1]).Nowhere?
  {
    AcceptedIff([], 4);
    assert [] + Zeros(4) + [1] == [0, 0, 0, 0, 1];
    var s: seq<byte> := [0, 0, 0, 0, 1];
    assert s[1..] == [0, 0, 0, 1] && s[1..][1..] == [0, 0, 1] && s[1..][1..][1..] == [0, 1];
    assert NextCode(0, [1]) == Nowhere;
    assert [0, 1][1..] == [1] && NextCode(3, [0, 1]) == Nowhere;
    assert NextCode(2, [0, 0, 1]) == Nowhere;
    assert NextCode(1, [0, 0, 0, 1]) == Nowhere;
  }

  // The scanner stops at the first place where the count is full.
  lemma {:induction false} NextCodeCounts(q: seq<byte>, s: seq<byte>)
    requires Count(q) < 4
    ensures var r := NextCode(Count(q), s);
      if r.Nowhere? then forall j :: 0 < j <= |s| ==> Count(q + s[..j]) < 4
      else Count(q + s[..r.value]) == 4 && forall j :: 0 < j < r.value ==> Count(q + s[..j]) < 4
    decreases |s|
  {
    if s != [] {
      var q' := q + [s[0]];
      assert q'[..|q|] == q && q + s[..1] == q';
      if Count(q') < 4 {
        NextCodeCounts(q', s[1..]);
        forall j | 1 < j <= |s|
          ensures q + s[..j] == q' + s[1..][..j - 1]
        {
        }
      }
    }
  }

  // Counting starts afresh behind a code that has been accepted.
  lemma {:induction false} CountOn(s: seq<byte>, t: seq<byte>)
    requires Count(s) == 4 && t != []
    ensures Count(s + t) == Count(t)
    decreases |t|
  {
    var init := t[..|t| - 1];
    assert (s + t)[..|s + t| - 1] == s + init;
    if init == [] {
      assert s + init == s;
    } else {
      CountOn(s, init);
    }
  }

  lemma {:induction false} CountAtMost(s: seq<byte>)
    ensures Count(s) <= |s|
    decreases |s|
  {
    if s != [] {
      CountAtMost(s[..|s| - 1]);
    }
  }

  lemma CountCode()
    ensures Count(CODE) == 4 && forall k :: 0 <= k < 4 ==> Count(CODE[..k]) < 4
  {
    AcceptedIff([], 3);
    assert [] + Zeros(3) + [1] == CODE;
    forall k | 0 <= k < 4
      ensures Count(CODE[..k]) < 4
    {
      CountAtMost(CODE[..k]);
    }
  }

  // The scanner finds the first place where the count of s is full.
  lemma FirstFull(s: seq<byte>)
    ensures var r := NextCode(0, s);
      if r.Nowhere? then forall j :: 0 < j <= |s| ==> Count(s[..j]) < 4
      else Count(s[..r.value]) == 4 && forall j :: 0 < j < r.value ==> Count(s[..j]) < 4
  {
    NextCodeCounts([], s);
    forall j | 0 < j <= |s|
      ensures [] + s[..j] == s[..j]
    {
    }
  }

  // Unit number i of us starts at j.
  predicate StartsUnit(us: seq<seq<byte>>, i: nat, j: nat)
  {
    i < |us| && j == |Flatten(us[..i])|
  }

  ghost predicate UnitStarts(us: seq<seq<byte>>, j: nat)
  {
    exists i: nat :: StartsUnit(us, i, j)
  }

  // A unit starts at the front, or where one of the others does.
  lemma UnitStartsCons(u: seq<byte>, us: seq<seq<byte>>, j: nat)
    requires u != []
    ensures UnitStarts([u] + us, j) <==> j == 0 || (j >= |u| && UnitStarts(us, j - |u|))
  {
    var all := [u] + us;
    assert all[..0] == [] && StartsUnit(all, 0, 0);
    forall i: nat | i < |us|
      ensures |Flatten(all[..i + 1])| == |u| + |Flatten(us[..i])|
    {
      assert all[..i + 1] == [u] + us[..i];
      FlattenCons(u, us[..i]);
    }
    if j >= |u| && UnitStarts(us, j - |u|) {
      var i: nat :| StartsUnit(us, i, j - |u|);
      assert StartsUnit(all, i + 1, j);
    }
    if UnitStarts(all, j) && j != 0 {
      var i: nat :| StartsUnit(all, i, j);
      assert i > 0 && |Flatten(all[..(i - 1) + 1])| == |u| + |Flatten(us[..i - 1])|;
      assert StartsUnit(us, i - 1, j - |u|);
    }
  }

  lemma SliceAt(s: seq<byte>, n: nat, j: nat)
    requires n <= j <= |s|
    ensures s[..j] == s[..n] + s[n..j]
  {
  }

  // Behind a code, and behind a unit and the next code, the count goes on as from the start.
  lemma CountBehindCode(t: seq<byte>, j: nat)
    requires CODE <= t && 0 < j && j + 4 <= |t|
    ensures Count(t[..j + 4]) == Count(t[4..][..j])
  {
    CountCode();
    SliceAt(t, 4, j + 4);
    assert t[4..j + 4] == t[4..][..j] && t[..4] == CODE;
    CountOn(CODE, t[4..][..j]);
  }

  lemma CountBehindUnit(t: seq<byte>, n: nat, j: nat)
    requires CODE <= t && NextCode(0, t[4..]) == Here(n) && n < j && j + 4 <= |t| && CODE <= t[n..]
    ensures Count(t[..j + 4]) == Count(t[n..][..j - n + 4])
  {
    var u := t[4..];
    FirstFull(u);
    CountBehindCode(t, j);
    SliceAt(u, n, j);
    CountOn(u[..n], u[n..j]);
    CountBehindCode(t[n..], j - n);
    assert t[n..][4..][..j - n] == u[n..j];
  }

  // Within a unit the count is full at its code only.
  lemma CountInUnit(t: seq<byte>, j: nat)
    requires CODE <= t && j + 4 <= |t| && j < UnitLength(t)
    ensures Count(t[..j + 4]) == 4 <==> j == 0
  {
    if j == 0 {
      CountCode();
      assert t[..4] == CODE;
    } else {
      FirstFull(t[4..]);
      CountBehindCode(t, j);
    }
  }

  lemma CountPastUnit(t: seq<byte>, n: nat, j: nat)
    requires CODE <= t && n == UnitLength(t) && n <= j && j + 4 <= |t| && CODE <= t[n..]
    ensures Count(t[..j + 4]) == Count(t[n..][..j - n + 4])
  {
    if j > n {
      CountBehindUnit(t, n, j);
    } else {
      FirstFull(t[4..]);
      CountBehindCode(t, j);
      CountCode();
      assert t[n..][..4] == CODE;
    }
  }

  // In a file that starts with a code the units start exactly where the count is full.
  lemma {:induction false} StartsWhereFull(t: seq<byte>, j: nat)
    requires CODE <= t && j + 4 <= |t|
    ensures Count(t[..j + 4]) == 4 <==> UnitStarts(Units(t), j)
    decreases |t|
  {
    UnitEnds(t);
    var n := UnitLength(t);
    UnitStartsCons(t[..n], Units(t[n..]), j);
    if j < n {
      CountInUnit(t, j);
    } else {
      StartsWhereFull(t[n..], j - n);
      CountPastUnit(t, n, j);
    }
  }

  // The count of s is full at j exactly if a unit of us starts four bytes before.
  ghost predicate StartsAt(s: seq<byte>, us: seq<seq<byte>>, j: nat)
    requires j <= |s|
  {
    var skipped := |s| - |Flatten(us)|;
    Count(s[..j]) == 4 <==> j >= skipped + 4 && UnitStarts(us, j - 4 - skipped)
  }

  ghost predicate StartsAtCodes(s: seq<byte>, us: seq<seq<byte>>)
  {
    forall j: nat :: j <= |s| ==> StartsAt(s, us, j)
  }

  // Behind the first code of a file, and that is n bytes into it.
  lemma CodesBehind(s: seq<byte>, n: nat, t: seq<byte>, j: nat)
    requires 4 <= n <= j <= |s| && t == s[n - 4..] && CODE <= t && Count(s[..n]) == 4
    ensures Count(s[..j]) == 4 <==> UnitStarts(Units(t), j - n)
  {
    StartsWhereFull(t, j - n);
    if j > n {
      SliceAt(s, n, j);
      assert t[4..][..j - n] == s[n..j];
      CountOn(s[..n], s[n..j]);
      CountBehindCode(t, j - n);
    } else {
      CountCode();
      assert t[..4] == CODE;
    }
  }

  // In any file: the codes accepted are exactly those the units start with.
  lemma CodesAreStarts(s: seq<byte>)
    ensures FromCode(s) != [] ==> CODE <= FromCode(s)
    ensures StartsAtCodes(s, Units(FromCode(s)))
  {
    FromCodeStarts(s);
    FirstFull(s);
    var t := FromCode(s);
    UnitsPartition(t);
    forall j: nat | j <= |s|
      ensures StartsAt(s, Units(t), j)
    {
      if j == 0 {
        assert s[..0] == [];
      } else if t != [] {
        var n := NextCode(0, s).value;
        if j >= n {
          CodesBehind(s, n, t, j);
        }
      }
    }
  }
}
