/**
 * The variable-length code of node identifiers: seven bits a byte, most significant first, with
 * the top bit of every byte but the last set.
 */
module Tid {
  import opened Bytes

  datatype BuildResult = BuildOk | BuildBufferSmall | BuildFailed | BuildUnsupported
  datatype ParseResult = ParseOk | ParseNoData | ParseTooBig

  const EXT := 0x80

  // ----- Specification -----

  /** The groups of a number with the Ext bit on all of them; none for zero. */
  function ExtGroups(t: nat): seq<byte> {
    if t == 0 then [] else ExtGroups(t / 128) + [EXT + t % 128]
  }

  function Code(tid: uint32): seq<byte> {
    ExtGroups(tid / 128) + [tid % 128]
  }

  /** Reading a code with at most `left` more bytes, the bytes before giving `tid`. */
  datatype Parsed = Parsed(result: ParseResult, tid: uint32, used: nat)

  function ParseFrom(s: seq<byte>, tid: uint32, left: nat): (p: Parsed)
    ensures p.used <= |s| && p.used <= left
  {
    if left == 0 then Parsed(ParseTooBig, tid, 0)
    else if s == [] then Parsed(ParseNoData, tid, 0)
    else
      var tid' := (tid * 128 + s[0] % 128) % U32;
      if s[0] < EXT then Parsed(ParseOk, tid', 1)
      else
        var p := ParseFrom(s[1..], tid', left - 1);
        p.(used := p.used + 1)
  }

  function Parse(s: seq<byte>): (p: Parsed)
    ensures p.used <= |s| && p.used <= 5
  {
    ParseFrom(s, 0, 5)
  }

  // ----- The builder and the parser, over buffers and cursors -----

  /** 128 to the i-th power, what a right shift by 7 * i divides by. */
  function Shift(i: nat): (d: int)
    requires i <= 5
    ensures d > 0
  {
    if i == 0 then 1 else if i == 1 then 0x80 else if i == 2 then 0x4000
    else if i == 3 then 0x20_0000 else if i == 4 then 0x1000_0000 else 0x8_0000_0000
  }

  lemma ShiftStep(tid: uint32, i: nat)
    requires i < 5
    ensures tid / Shift(i) / 128 == tid / Shift(i + 1)
    ensures tid / Shift(5) == 0
  {
  }

  /** Consumes the groups that are zero; the last group stays even when it is. */
  method SkipZeroGroups(tid: uint32) returns (i: nat)
    ensures i <= 4 && tid / Shift(i + 1) == 0
    ensures i > 0 ==> tid / Shift(i) > 0
  {
    i := 4;
    ShiftStep(tid, 4);
    while (tid / Shift(i)) % 128 == 0 && i > 0
      invariant 0 <= i <= 4
      invariant tid / Shift(i + 1) == 0
    {
      ShiftStep(tid, i);
      i := i - 1;
    }
    ShiftStep(tid, i);
  }

  method Build(tid: uint32, data: array<byte>, pos: nat, len: nat) returns (r: BuildResult, pos': nat)
    requires pos + len <= data.Length
    modifies data
    ensures r == if |Code(tid)| <= len then BuildOk else BuildBufferSmall
    ensures pos' == if |Code(tid)| <= len then pos + |Code(tid)| else pos + len
    ensures data[pos..pos'] == Code(tid)[..pos' - pos]
    ensures forall j :: 0 <= j < pos || pos' <= j < data.Length ==> data[j] == old(data[j])
  {
    hide Emitted;
    hide Code;
    hide Shift;
    pos' := pos;
    var left := len;
    var i: int := SkipZeroGroups(tid);
    EmittedEnds(tid, i);
    while i >= 0
      invariant -1 <= i <= 4
      invariant i > 0 ==> tid / Shift(i) > 0
      invariant 0 <= left && left + pos' == len + pos
      invariant pos <= pos' && data[pos..pos'] == Emitted(tid, i)
      invariant forall j :: 0 <= j < pos || pos' <= j < data.Length ==> data[j] == old(data[j])
    {
      if left < 1 {
        EmittedPrefix(tid, i);
        return BuildBufferSmall, pos';
      }
      EmittedStep(tid, i);
      data[pos'] := (tid / Shift(i)) % 128;
      if i != 0 {
        data[pos'] := data[pos'] + EXT;
      }
      assert data[pos..pos' + 1] == data[pos..pos'] + [data[pos']];
      i := i - 1;
      left := left - 1;
      pos' := pos' + 1;
    }
    return BuildOk, pos';
  }

  /** What the builder has emitted before it emits group i. */
  ghost function Emitted(tid: uint32, i: int): seq<byte>
    requires -1 <= i <= 4
  {
    if i == -1 then Code(tid) else ExtGroups(tid / Shift(i + 1))
  }

  lemma EmittedEnds(tid: uint32, i: nat)
    requires i <= 4 && tid / Shift(i + 1) == 0
    ensures Emitted(tid, i) == [] && Emitted(tid, -1) == Code(tid)
  {
  }

  lemma EmittedStep(tid: uint32, i: int)
    requires 0 <= i <= 4
    requires i > 0 ==> tid / Shift(i) > 0
    ensures Emitted(tid, i - 1) == Emitted(tid, i) + [(tid / Shift(i)) % 128 + if i != 0 then EXT else 0]
    ensures i > 1 ==> tid / Shift(i - 1) > 0
  {
    ShiftStep(tid, i);
    if i > 1 {
      ShiftStep(tid, i - 1);
    }
  }

  /** While groups are left to emit, what was emitted is a proper prefix of the code. */
  lemma {:induction false} EmittedPrefix(tid: uint32, i: int)
    requires 0 <= i <= 4
    requires i > 0 ==> tid / Shift(i) > 0
    ensures |Emitted(tid, i)| < |Code(tid)|
    ensures Emitted(tid, i) == Code(tid)[..|Emitted(tid, i)|]
    decreases i
  {
    EmittedStep(tid, i);
    if i == 0 {
    } else {
      EmittedPrefix(tid, i - 1);
    }
  }

  method ParseAt(data: array<byte>, pos: nat, len: nat) returns (r: ParseResult, pos': nat, tid: uint32)
    requires pos + len <= data.Length
    ensures var p := Parse(data[pos..pos + len]);
            r == p.result && tid == p.tid && pos' == pos + p.used
  {
    hide ParseFrom;
    tid := 0;
    pos' := pos;
    var left := len;
    ghost var all := Parse(data[pos..pos + len]);
    for i := 5 downto 0
      invariant pos <= pos' && left == pos + len - pos' && pos' - pos == 5 - i
      invariant var p := ParseFrom(data[pos'..pos + len], tid, i);
                all == p.(used := p.used + (pos' - pos))
    {
      ghost var s := data[pos'..pos + len];
      ParseStep(s, tid, i + 1);
      if left < 1 {
        return ParseNoData, pos', tid;
      }
      var b := data[pos'];
      assert s[0] == b && s[1..] == data[pos' + 1..pos + len];
      pos' := pos' + 1;
      left := left - 1;
      tid := (tid * 128 + b % 128) % U32;
      if b < EXT {
        return ParseOk, pos', tid;
      }
    }
    ParseStep(data[pos'..pos + len], tid, 0);
    return ParseTooBig, pos', tid;
  }

  lemma ParseStep(s: seq<byte>, tid: uint32, left: nat)
    ensures ParseFrom(s, tid, left)
            == if left == 0 then Parsed(ParseTooBig, tid, 0)
               else if s == [] then Parsed(ParseNoData, tid, 0)
               else
                 var tid' := (tid * 128 + s[0] % 128) % U32;
                 if s[0] < EXT then Parsed(ParseOk, tid', 1)
                 else
                   var p := ParseFrom(s[1..], tid', left - 1);
                   p.(used := p.used + 1)
  {
  }

  // ----- The code and its parser are inverses -----

  /** The number a sequence of groups appends to a number, without the limit of 32 bits. */
  function Value(acc: nat, s: seq<byte>): nat
    decreases |s|
  {
    if s == [] then acc else Value(acc * 128 + s[0] % 128, s[1..])
  }

  predicate AllExt(s: seq<byte>) {
    forall j :: 0 <= j < |s| ==> s[j] >= EXT
  }

  lemma {:induction false} ExtGroupsSize(t: nat, n: nat)
    requires n <= 4 && t < Shift(n)
    ensures |ExtGroups(t)| <= n && AllExt(ExtGroups(t))
  {
    if t == 0 {
    } else {
      ExtGroupsSize(t / 128, n - 1);
    }
  }

  lemma CodeSize(tid: uint32)
    ensures 1 <= |Code(tid)| <= 5
    ensures forall n: nat :: 1 <= n <= 4 && tid < Shift(n) ==> |Code(tid)| <= n
  {
    ExtGroupsSize(tid / 128, 4);
    forall n: nat | 1 <= n <= 4 && tid < Shift(n)
      ensures |Code(tid)| <= n
    {
      ExtGroupsSize(tid / 128, n - 1);
    }
  }

  lemma ParseExtByte(b: byte, s: seq<byte>, tid: uint32, left: nat)
    requires b >= EXT && left > 0
    ensures var p := ParseFrom(s, (tid * 128 + b % 128) % U32, left - 1);
            ParseFrom([b] + s, tid, left) == p.(used := p.used + 1)
  {
    assert ([b] + s)[1..] == s;
  }

  lemma {:induction false} ParseExtGroups(t: nat, s: seq<byte>, left: nat)
    requires t < U32 && |ExtGroups(t)| <= left
    ensures var p := ParseFrom(s, t, left - |ExtGroups(t)|);
            ParseFrom(ExtGroups(t) + s, 0, left) == p.(used := p.used + |ExtGroups(t)|)
    decreases t
  {
    hide ParseFrom;
    if t == 0 {
      assert ExtGroups(t) + s == s;
    } else {
      var last: byte := EXT + t % 128;
      assert ExtGroups(t) + s == ExtGroups(t / 128) + ([last] + s);
      ParseExtGroups(t / 128, [last] + s, left);
      ParseExtByte(last, s, t / 128, left - |ExtGroups(t / 128)|);
      assert (t / 128 * 128 + last % 128) % U32 == t;
    }
  }

  /** For every 32-bit TID, whatever bytes follow its code. */
  lemma RoundTrip(tid: uint32, rest: seq<byte>)
    ensures Parse(Code(tid) + rest) == Parsed(ParseOk, tid, |Code(tid)|)
  {
    var groups, last: byte := ExtGroups(tid / 128), tid % 128;
    CodeSize(tid);
    assert Code(tid) == groups + [last];
    hide Code;
    hide ParseFrom;
    assert Code(tid) + rest == groups + ([last] + rest);
    ParseExtGroups(tid / 128, [last] + rest, 5);
    hide ExtGroups;
    ParseLastByte(last, rest, tid / 128, 5 - |groups|);
    LastGroup(tid);
  }

  lemma LastGroup(tid: uint32)
    ensures (tid / 128 * 128 + tid % 128 % 128) % U32 == tid
  {
  }

  lemma ParseLastByte(b: byte, s: seq<byte>, tid: uint32, left: nat)
    requires b < EXT && left > 0
    ensures ParseFrom([b] + s, tid, left) == Parsed(ParseOk, (tid * 128 + b % 128) % U32, 1)
  {
  }

  lemma PrefixFree(a: uint32, b: uint32)
    requires Code(a) <= Code(b)
    ensures a == b
  {
    assert Code(b) == Code(a) + Code(b)[|Code(a)|..];
    RoundTrip(a, Code(b)[|Code(a)|..]);
    RoundTrip(b, []);
    assert Code(b) + [] == Code(b);
  }

  lemma WordStep(acc: nat, b: nat)
    ensures (acc * 128 + b) % U32 == (acc % U32 * 128 + b) % U32
  {
    assert acc % U32 * 128 + b == acc * 128 + b - U32 * (acc / U32 * 128);
    MultipleAway(acc * 128 + b, acc / U32 * 128);
  }

  /** An accepted code is Ext bytes and one more; its TID is the value of its groups modulo 2^32. */
  lemma {:induction false} ParsedValue(s: seq<byte>, acc: nat, left: nat)
    requires ParseFrom(s, acc % U32, left).result == ParseOk
    ensures var p := ParseFrom(s, acc % U32, left);
            && 0 < p.used
            && AllExt(s[..p.used - 1]) && s[p.used - 1] < EXT
            && p.tid == Value(acc, s[..p.used]) % U32
    decreases left
  {
    var acc' := acc * 128 + s[0] % 128;
    WordStep(acc, s[0] % 128);
    var p := ParseFrom(s, acc % U32, left);
    assert s[..p.used][1..] == s[1..][..p.used - 1];
    if s[0] >= EXT {
      ParsedValue(s[1..], acc', left - 1);
      assert s[..p.used - 1][1..] == s[1..][..p.used - 2];
    }
  }

  lemma {:induction false} ValueAppend(acc: nat, s: seq<byte>, b: byte)
    ensures Value(acc, s + [b]) == Value(acc, s) * 128 + b % 128
    decreases |s|
  {
    if s == [] {
    } else {
      assert (s + [b])[1..] == s[1..] + [b];
      ValueAppend(acc * 128 + s[0] % 128, s[1..], b);
    }
  }

  lemma {:induction false} ValueBound(s: seq<byte>)
    requires |s| <= 5
    ensures Value(0, s) < Shift(|s|)
    ensures |s| > 0 ==> s[0] % 128 * Shift(|s| - 1) <= Value(0, s) < (s[0] % 128 + 1) * Shift(|s| - 1)
    decreases |s|
  {
    if s == [] {
    } else {
      var front, last := s[..|s| - 1], s[|s| - 1];
      assert s == front + [last];
      ValueAppend(0, front, last);
      ValueBound(front);
    }
  }

  /** Groups with the Ext bit that do not start with a zero group are the code of their value. */
  lemma {:induction false} ExtGroupsOfValue(s: seq<byte>)
    requires AllExt(s)
    requires s != [] ==> s[0] != EXT
    ensures ExtGroups(Value(0, s)) == s
    ensures s != [] ==> Value(0, s) > 0
    decreases |s|
  {
    if s == [] {
    } else {
      var front, last := s[..|s| - 1], s[|s| - 1];
      assert s == front + [last];
      ValueAppend(0, front, last);
      ExtGroupsOfValue(front);
    }
  }

  /** No leading zero group, and no more than 32 bits. */
  predicate Canonical(s: seq<byte>) {
    && (|s| > 1 ==> s[0] != EXT)
    && (|s| == 5 ==> s[0] < EXT + 16)
  }

  lemma CodeIsCanonical(tid: uint32)
    ensures Canonical(Code(tid))
  {
    RoundTrip(tid, []);
    assert Code(tid) + [] == Code(tid);
    CodeSize(tid);
    LeadingGroup(tid / 128);
    ParsedValue(Code(tid), 0, 5);
    ValueBound(Code(tid));
    CodeValue(tid);
  }

  lemma {:induction false} LeadingGroup(t: nat)
    ensures t > 0 ==> |ExtGroups(t)| > 0 && ExtGroups(t)[0] != EXT
    decreases t
  {
    if t == 0 {
    } else {
      LeadingGroup(t / 128);
    }
  }

  lemma {:induction false} ExtGroupsValue(t: nat)
    ensures Value(0, ExtGroups(t)) == t
    decreases t
  {
    if t == 0 {
    } else {
      ExtGroupsValue(t / 128);
      ValueAppend(0, ExtGroups(t / 128), EXT + t % 128);
    }
  }

  lemma CodeValue(tid: uint32)
    ensures Value(0, Code(tid)) == tid
  {
    ExtGroupsValue(tid / 128);
    ValueAppend(0, ExtGroups(tid / 128), tid % 128);
  }

  lemma FitsWord(s: seq<byte>)
    requires 1 <= |s| <= 5 && AllExt(s[..|s| - 1]) && s[|s| - 1] < EXT
    requires Canonical(s)
    ensures Value(0, s) < U32
  {
    ValueBound(s);
    if |s| == 5 {
      assert s[0] % 128 + 1 <= 16;
      assert (s[0] % 128 + 1) * Shift(4) <= 16 * Shift(4);
    }
  }

  /** Bytes with the shape of a code, of their own value when they are canonical. */
  lemma CanonicalIsCode(s: seq<byte>)
    requires 1 <= |s| <= 5 && AllExt(s[..|s| - 1]) && s[|s| - 1] < EXT
    requires Canonical(s)
    ensures Value(0, s) < U32 && Code(Value(0, s)) == s
  {
    hide Value;
    hide ExtGroups;
    hide Code;
    hide AllExt;
    var front, last := s[..|s| - 1], s[|s| - 1];
    assert s == front + [last];
    FitsWord(s);
    assert front != [] ==> front[0] != EXT;
    hide Canonical;
    ValueAppend(0, front, last);
    ExtGroupsOfValue(front);
    CodeOfParts(Value(0, s), Value(0, front), last);
  }

  lemma CodeOfParts(tid: uint32, high: nat, low: byte)
    requires tid == high * 128 + low && low < EXT
    ensures Code(tid) == ExtGroups(high) + [low]
  {
    assert tid / 128 == high && tid % 128 == low;
  }

  lemma NoShorterCode(s: seq<byte>)
    requires 1 <= |s| <= 5
    ensures |Code(Value(0, s) % U32)| <= |s|
  {
    ValueBound(s);
    CodeSize(Value(0, s) % U32);
  }

  /**
   * What the parser accepts: the TID is the value of the groups modulo 2^32, the bytes are the
   * code of the TID if and only if they are canonical, and the code is never longer than them.
   */
  lemma Accepted(s: seq<byte>)
    requires Parse(s).result == ParseOk
    ensures var p := Parse(s);
            && 0 < p.used
            && p.tid == Value(0, s[..p.used]) % U32
            && (s[..p.used] == Code(p.tid) <==> Canonical(s[..p.used]))
            && |Code(p.tid)| <= p.used
  {
    hide ParseFrom;
    hide Value;
    hide Code;
    var p := Parse(s);
    ParsedValue(s, 0, 5);
    var code := s[..p.used];
    assert code[..|code| - 1] == s[..p.used - 1];
    CodeIsCanonical(p.tid);
    NoShorterCode(code);
    if Canonical(code) {
      CanonicalIsCode(code);
    }
  }

  /** A five-byte code above 32 bits is accepted, against the test that expects it to fail. */
  lemma TooLongAccepted(s: seq<byte>)
    requires |s| == 5 && AllExt(s[..4]) && s[4] < EXT
    ensures Parse(s).result == ParseOk && Parse(s).used == 5
    ensures Value(0, s) >= U32 <==> s[0] >= EXT + 16
    ensures Parse([0xcd, 0xd8, 0xe5, 0xa1, 0x7b]).result == ParseOk
  {
    FiveBytes(s);
    FiveBytes([0xcd, 0xd8, 0xe5, 0xa1, 0x7b]);
    ValueBound(s);
  }

  lemma FiveBytes(s: seq<byte>)
    requires |s| == 5 && AllExt(s[..4]) && s[4] < EXT
    ensures Parse(s).result == ParseOk && Parse(s).used == 5
  {
    assert s[0] >= EXT && s[1] >= EXT && s[2] >= EXT && s[3] >= EXT;
    assert s[1..][1..] == s[2..] && s[2..][1..] == s[3..] && s[3..][1..] == s[4..];
    var t1 := (0 * 128 + s[0] % 128) % U32;
    var t2 := (t1 * 128 + s[1] % 128) % U32;
    var t3 := (t2 * 128 + s[2] % 128) % U32;
    var t4 := (t3 * 128 + s[3] % 128) % U32;
    assert ParseFrom(s[4..], t4, 1).used == 1;
    assert ParseFrom(s[3..], t3, 2).used == 2;
    assert ParseFrom(s[2..], t2, 3).used == 3;
    assert ParseFrom(s[1..], t1, 4).used == 4;
  }
}
