/**
 * Layer 2 frames: a control field of one or two bytes, the destination and source TIDs, and a
 * body in plaintext, with a CRC, or encrypted and authenticated. What builder and parser compute.
 */
module Frame {
  import opened Bytes
  import opened L2Crypto
  import Tid

  const PACKET_SIZE := 120
  const EXT := 0x80

  const ALGO_NONE: byte := 0
  const ALGO_CRC16: byte := 1
  const ALGO_CHACHA20_POLY1305_2: byte := 2
  const ALGO_CHACHA20_POLY1305_4: byte := 5

  datatype SecType = SecNone | SecVerify | SecAe

  datatype Packet = Packet(broadcast: bool, dtid: uint32, stid: uint32, secType: SecType, algo: byte,
                           counter: uint16, proto: byte, payload: seq<byte>)

  predicate IsAe(algo: byte) {
    algo == ALGO_CHACHA20_POLY1305_2 || algo == ALGO_CHACHA20_POLY1305_4
  }

  predicate Supported(algo: byte) {
    algo == ALGO_NONE || algo == ALGO_CRC16 || IsAe(algo)
  }

  // ----- Control field -----

  /** Enc2 in bit 6, L3p3 and L3p2 in bits 1 and 0. */
  function Byte2(algo: byte, proto: byte): byte {
    algo / 4 % 2 * 0x40 + proto / 4 % 4
  }

  /** Bcast in bit 6, Enc1 and Enc0 in bits 5 and 4, L3p1 and L3p0 in bits 3 and 2. */
  function Byte1(broadcast: bool, algo: byte, proto: byte): byte {
    (if Byte2(algo, proto) != 0 then EXT else 0) + (if broadcast then 0x40 else 0) + algo % 4 * 0x10 + proto % 4 * 4
  }

  function ControlCode(broadcast: bool, algo: byte, proto: byte): (code: seq<byte>)
    ensures 1 <= |code| <= 2
  {
    if Byte2(algo, proto) == 0 then [Byte1(broadcast, algo, proto)]
    else [Byte1(broadcast, algo, proto), Byte2(algo, proto)]
  }

  datatype ControlResult = ControlOk | ControlUnfinished | ControlNoData

  datatype Control = Control(result: ControlResult, broadcast: bool, algo: byte, proto: byte, used: nat)

  function ParseControl(s: seq<byte>): (r: Control)
    ensures r.used <= |s| && r.used <= 2 && r.algo < 8 && r.proto < 16
  {
    if s == [] then Control(ControlNoData, false, 0, 0, 0)
    else
      var broadcast, algo, proto := s[0] / 0x40 % 2 == 1, s[0] / 0x10 % 4, s[0] / 4 % 4;
      if s[0] < EXT then Control(ControlOk, broadcast, algo, proto, 1)
      else if |s| < 2 then Control(ControlNoData, broadcast, algo, proto, 1)
      else
        var algo' := if s[1] / 0x40 % 2 == 1 then algo + 4 else algo;
        var result := if s[1] < EXT then ControlOk else ControlUnfinished;
        Control(result, broadcast, algo', proto * 4 + s[1] % 4, 2)
  }

  /** The protocol a parser reads: the halves trade places once there is a second control byte. */
  function WireProto(algo: byte, proto: byte): byte {
    if Byte2(algo, proto) == 0 then proto % 4 else proto % 4 * 4 + proto / 4 % 4
  }

  lemma ControlRoundTrip(broadcast: bool, algo: byte, proto: byte, rest: seq<byte>)
    requires algo < 8
    ensures ParseControl(ControlCode(broadcast, algo, proto) + rest)
            == Control(ControlOk, broadcast, algo, WireProto(algo, proto), |ControlCode(broadcast, algo, proto)|)
  {
    var s := ControlCode(broadcast, algo, proto) + rest;
    assert s[0] == Byte1(broadcast, algo, proto);
    Byte1Fields(broadcast, algo, proto);
    if Byte2(algo, proto) != 0 {
      assert s[1] == Byte2(algo, proto);
    }
  }

  /** The fields of a byte laid out as 1 + 1 + 2 + 2 + 2 bits. */
  lemma Fields(ext: int, bcast: int, enc: int, l3p: int, low: int)
    requires 0 <= ext < 2 && 0 <= bcast < 2 && 0 <= enc < 4 && 0 <= l3p < 4 && 0 <= low < 4
    ensures var b := ext * EXT + bcast * 0x40 + enc * 0x10 + l3p * 4 + low;
            && 0 <= b < 0x100 && b % 4 == low && b / 4 % 4 == l3p && b / 0x10 % 4 == enc
            && b / 0x40 % 2 == bcast && (b < EXT <==> ext == 0)
  {
  }

  lemma FieldsOf(b: byte)
    ensures b == (if b < EXT then 0 else EXT) + b / 0x40 % 2 * 0x40 + b / 0x10 % 4 * 0x10 + b / 4 % 4 * 4 + b % 4
  {
    var x, y := b / 4, b / 0x10;
    assert b == x * 4 + b % 4 && x == y * 4 + x % 4 && y == b / 0x40 * 4 + y % 4;
  }

  lemma Byte1Fields(broadcast: bool, algo: byte, proto: byte)
    ensures var b := Byte1(broadcast, algo, proto);
            && b % 4 == 0 && b / 4 % 4 == proto % 4 && b / 0x10 % 4 == algo % 4
            && (b / 0x40 % 2 == 1 <==> broadcast) && (b < EXT <==> Byte2(algo, proto) == 0)
  {
    Fields(if Byte2(algo, proto) != 0 then 1 else 0, if broadcast then 1 else 0, algo % 4, proto % 4, 0);
  }

  /** The 4-bit protocol survives one trip if and only if one byte is enough or its halves are equal. */
  lemma ProtoSurvives(algo: byte, proto: byte)
    requires algo < 8 && proto < 16
    ensures WireProto(algo, proto) == proto <==> (algo < 4 && proto < 4) || proto % 4 == proto / 4
  {
  }

  /** No padding or reserved bits, no empty second byte, and equal protocol halves in a two-byte field. */
  predicate CanonicalControl(s: seq<byte>)
    requires ParseControl(s).result == ControlOk
  {
    && s[0] % 4 == 0
    && (s[0] >= EXT ==> s[1] / 4 % 0x10 == 0 && s[1] != 0 && s[0] / 4 % 4 == s[1] % 4)
  }

  lemma RebuiltControl(s: seq<byte>)
    requires ParseControl(s).result == ControlOk
    ensures var r := ParseControl(s);
            s[..r.used] == ControlCode(r.broadcast, r.algo, r.proto) <==> CanonicalControl(s)
  {
    if s[0] < EXT {
      RebuiltByte(s);
    } else {
      RebuiltBytes(s);
    }
  }

  lemma RebuiltByte(s: seq<byte>)
    requires s != [] && s[0] < EXT
    ensures var r := ParseControl(s);
            s[..1] == ControlCode(r.broadcast, r.algo, r.proto) <==> s[0] % 4 == 0
  {
    var r := ParseControl(s);
    FieldsOf(s[0]);
    assert Byte2(r.algo, r.proto) == 0;
  }

  lemma RebuiltBytes(s: seq<byte>)
    requires |s| >= 2 && s[0] >= EXT && s[1] < EXT
    ensures var r := ParseControl(s);
            s[..2] == ControlCode(r.broadcast, r.algo, r.proto) <==> CanonicalControl(s)
  {
    var r := ParseControl(s);
    assert s[..2] == [s[0], s[1]];
    FieldsOf(s[0]);
    Byte2Parts(s[0] / 4 % 4, s[1], s[0] / 0x10 % 4);
  }

  /** The second byte of the field rebuilt from two parsed bytes. */
  lemma Byte2Parts(l3p: byte, b: byte, enc: byte)
    requires l3p < 4 && b < EXT && enc < 4
    ensures var algo, proto := if b / 0x40 % 2 == 1 then enc + 4 else enc, l3p * 4 + b % 4;
            && algo % 4 == enc && proto % 4 == b % 4
            && Byte2(algo, proto) == b / 0x40 * 0x40 + l3p
            && b == b / 0x40 * 0x40 + b / 4 % 0x10 * 4 + b % 4
  {
    var e := b / 0x40;
    assert e == 0 || e == 1;
    Quotient(e, enc);
    Quotient(l3p, b % 4);
    assert b / 4 / 0x10 == e;
  }

  lemma Quotient(high: int, low: int)
    requires 0 <= low < 4
    ensures (high * 4 + low) / 4 == high && (high * 4 + low) % 4 == low
  {
  }

  // ----- Header -----

  function Header(p: Packet): seq<byte> {
    ControlCode(p.broadcast, p.algo, p.proto)
    + ((if p.broadcast then [] else Tid.Code(p.dtid)) + Tid.Code(p.stid))
  }

  datatype HeaderResult =
    | HeaderMalformed
    | HeaderOk(broadcast: bool, algo: byte, proto: byte, dtid: uint32, stid: uint32, used: nat)

  /** The two TIDs that follow the control field. */
  function ParseTids(s: seq<byte>, broadcast: bool): (r: Option<(uint32, uint32, nat)>)
    ensures r.Some? ==> 0 < r.value.2 <= |s| && r.value.2 <= 10
  {
    if broadcast then
      var src := Tid.Parse(s);
      if src.result != Tid.ParseOk then None
      else
        Tid.Accepted(s);
        Some((0, src.tid, src.used))
    else
      var dst := Tid.Parse(s);
      if dst.result != Tid.ParseOk then None
      else
        var src := Tid.Parse(s[dst.used..]);
        if src.result != Tid.ParseOk then None
        else
          Tid.Accepted(s);
          Some((dst.tid, src.tid, dst.used + src.used))
  }

  function ParseHeader(s: seq<byte>): (r: HeaderResult)
    ensures r.HeaderOk? ==> r.used <= |s| && r.used <= 12 && r.algo < 8
  {
    var control := ParseControl(s);
    if control.result != ControlOk then HeaderMalformed
    else
      var tids := ParseTids(s[control.used..], control.broadcast);
      if tids.None? then HeaderMalformed
      else HeaderOk(control.broadcast, control.algo, control.proto, tids.value.0, tids.value.1,
                    control.used + tids.value.2)
  }

  lemma TidsRoundTrip(dtid: uint32, stid: uint32, broadcast: bool, rest: seq<byte>)
    ensures var code := (if broadcast then [] else Tid.Code(dtid)) + Tid.Code(stid);
            ParseTids(code + rest, broadcast) == Some((if broadcast then 0 else dtid, stid, |code|))
  {
    if broadcast {
      assert [] + Tid.Code(stid) + rest == Tid.Code(stid) + rest;
      Tid.RoundTrip(stid, rest);
    } else {
      var s := Tid.Code(dtid) + Tid.Code(stid) + rest;
      assert s == Tid.Code(dtid) + (Tid.Code(stid) + rest);
      Tid.RoundTrip(dtid, Tid.Code(stid) + rest);
      assert s[|Tid.Code(dtid)|..] == Tid.Code(stid) + rest;
      Tid.RoundTrip(stid, rest);
    }
  }

  lemma HeaderRoundTrip(p: Packet, rest: seq<byte>)
    requires p.algo < 8
    ensures ParseHeader(Header(p) + rest)
            == HeaderOk(p.broadcast, p.algo, WireProto(p.algo, p.proto), if p.broadcast then 0 else p.dtid, p.stid,
                        |Header(p)|)
  {
    var control := ControlCode(p.broadcast, p.algo, p.proto);
    var tids := (if p.broadcast then [] else Tid.Code(p.dtid)) + Tid.Code(p.stid);
    assert Header(p) + rest == control + (tids + rest);
    ControlRoundTrip(p.broadcast, p.algo, p.proto, tids + rest);
    assert (control + (tids + rest))[|control|..] == tids + rest;
    TidsRoundTrip(p.dtid, p.stid, p.broadcast, rest);
  }

  lemma HeaderSize(p: Packet)
    ensures 2 <= |Header(p)| <= 12
  {
    Tid.CodeSize(p.dtid);
    Tid.CodeSize(p.stid);
  }

  // ----- Body -----

  function Body(c: Ciphers, header: seq<byte>, p: Packet): seq<byte>
    requires Supported(p.algo)
  {
    if p.algo == ALGO_NONE then p.payload
    else if p.algo == ALGO_CRC16 then p.payload + BigEndian16(c.Crc(header + p.payload))
    else
      var sealed := BigEndian16(p.counter) + Stream(c, p.payload, p.counter, 1);
      sealed + c.Mac(p.counter, header + sealed)
  }

  function Overhead(algo: byte): nat {
    if algo == ALGO_NONE then 0 else if algo == ALGO_CRC16 then 2 else 2 + TAG_LEN
  }

  datatype BodyResult =
    | BodyNoData
    | BodyTooBig
    | BodyAeFailed
    | BodyUnsupported
    | BodyOk(secType: SecType, counter: uint16, payload: seq<byte>)

  /** What the parser makes of a body; with nonce zero the payload buffer stays as it was cleared. */
  function ParseBody(c: Ciphers, header: seq<byte>, s: seq<byte>, algo: byte, size: nat): BodyResult {
    if algo == ALGO_NONE then
      if |s| > size then BodyTooBig else BodyOk(SecNone, 0, s)
    else if algo == ALGO_CRC16 then ParseCrcBody(c, header, s, size)
    else if IsAe(algo) then ParseSealedBody(c, header, s, size)
    else BodyUnsupported
  }

  function ParseCrcBody(c: Ciphers, header: seq<byte>, s: seq<byte>, size: nat): BodyResult {
    if |s| < 2 then BodyNoData
    else if |s| - 2 > size then BodyTooBig
    else
      var data := s[..|s| - 2];
      if s[|s| - 2..] != BigEndian16(c.Crc(header + data)) then BodyAeFailed
      else BodyOk(SecVerify, 0, data)
  }

  function ParseSealedBody(c: Ciphers, header: seq<byte>, s: seq<byte>, size: nat): BodyResult {
    if |s| < 2 + TAG_LEN then BodyNoData
    else
      var sealed, counter := s[..|s| - TAG_LEN], Word16(s[0], s[1]);
      if s[|s| - TAG_LEN..] != c.Mac(counter, header + sealed) then BodyAeFailed
      else BodyOk(SecAe, counter,
                  if counter == 0 || |sealed| - 2 > size then Zeros(|sealed| - 2)
                  else Stream(c, sealed[2..], counter, 1))
  }

  function SecTypeOf(algo: byte): SecType {
    if algo == ALGO_NONE then SecNone else if algo == ALGO_CRC16 then SecVerify else SecAe
  }

  lemma BodySize(c: Ciphers, header: seq<byte>, p: Packet)
    requires Supported(p.algo)
    ensures |Body(c, header, p)| == |p.payload| + Overhead(p.algo)
  {
  }

  lemma BodyRoundTrip(c: Ciphers, header: seq<byte>, p: Packet, size: nat)
    requires Supported(p.algo) && |p.payload| <= size
    ensures ParseBody(c, header, Body(c, header, p), p.algo, size)
            == BodyOk(SecTypeOf(p.algo), if IsAe(p.algo) then p.counter else 0,
                      if IsAe(p.algo) && p.counter == 0 then Zeros(|p.payload|) else p.payload)
  {
    var s := Body(c, header, p);
    if p.algo == ALGO_CRC16 {
      assert s[..|s| - 2] == p.payload && s[|s| - 2..] == BigEndian16(c.Crc(header + p.payload));
    } else if IsAe(p.algo) {
      var sealed := BigEndian16(p.counter) + Stream(c, p.payload, p.counter, 1);
      assert s[..|s| - TAG_LEN] == sealed && s[|s| - TAG_LEN..] == c.Mac(p.counter, header + sealed);
      assert Word16(s[0], s[1]) == p.counter;
      assert sealed[2..] == Stream(c, p.payload, p.counter, 1);
      StreamInverse(c, p.payload, p.counter, 1);
    }
  }

  /** A body that was accepted, and not with nonce zero, is the one built from what was parsed. */
  lemma RebuiltBody(c: Ciphers, header: seq<byte>, s: seq<byte>, p: Packet, size: nat)
    requires ParseBody(c, header, s, p.algo, size) == BodyOk(p.secType, p.counter, p.payload)
    requires |s| <= size
    requires IsAe(p.algo) ==> p.counter != 0
    ensures Supported(p.algo) && Body(c, header, p) == s
  {
    hide Stream;
    if p.algo == ALGO_CRC16 {
      assert s == s[..|s| - 2] + s[|s| - 2..];
    } else if IsAe(p.algo) {
      var sealed := s[..|s| - TAG_LEN];
      StreamInverse(c, sealed[2..], p.counter, 1);
      FirstBytes(sealed, p.counter);
      assert s == sealed + s[|s| - TAG_LEN..];
    }
  }

  lemma FirstBytes(s: seq<byte>, v: uint16)
    requires |s| >= 2 && v == Word16(s[0], s[1])
    ensures s == BigEndian16(v) + s[2..]
  {
    Word16Exact(s[0], s[1], v);
    assert s == [s[0], s[1]] + s[2..];
  }

  // ----- Frame -----

  function Build(c: Ciphers, p: Packet): seq<byte>
    requires Supported(p.algo)
  {
    Header(p) + Body(c, Header(p), p)
  }

  function Parse(c: Ciphers, s: seq<byte>): Option<Packet> {
    if |s| > PACKET_SIZE || |s| < 2 then None
    else
      var h := ParseHeader(s);
      if h.HeaderMalformed? then None
      else
        var b := ParseBody(c, s[..h.used], s[h.used..], h.algo, PACKET_SIZE);
        if !b.BodyOk? || b.payload == [] then None
        else Some(Packet(h.broadcast, h.dtid, h.stid, b.secType, h.algo, b.counter, h.proto, b.payload))
  }

  /** A packet as it arrives at the other side. */
  function Arrived(p: Packet): Packet {
    p.(dtid := if p.broadcast then 0 else p.dtid,
       secType := SecTypeOf(p.algo),
       counter := if IsAe(p.algo) then p.counter else 0,
       proto := WireProto(p.algo, p.proto),
       payload := if IsAe(p.algo) && p.counter == 0 then Zeros(|p.payload|) else p.payload)
  }

  /** Every frame built from a payload that is not empty is accepted exactly when it is at most 120 bytes long. */
  lemma RoundTrip(c: Ciphers, p: Packet)
    requires Supported(p.algo) && p.payload != []
    ensures Parse(c, Build(c, p)) == if |Build(c, p)| <= PACKET_SIZE then Some(Arrived(p)) else None
  {
    hide Header;
    hide Body;
    hide ParseHeader;
    hide ParseBody;
    hide WireProto;
    var h := Header(p);
    var s := Build(c, p);
    HeaderSize(p);
    BodySize(c, h, p);
    if |s| <= PACKET_SIZE {
      HeaderRoundTrip(p, Body(c, h, p));
      assert s[..|h|] == h && s[|h|..] == Body(c, h, p);
      BodyRoundTrip(c, h, p, PACKET_SIZE);
    }
  }

  /** The control field is canonical, and so are both TIDs. */
  predicate CanonicalHeader(s: seq<byte>)
    requires ParseHeader(s).HeaderOk?
  {
    var control := ParseControl(s);
    && CanonicalControl(s)
    && CanonicalTids(s[control.used..], control.broadcast)
  }

  predicate CanonicalTids(s: seq<byte>, broadcast: bool)
    requires ParseTids(s, broadcast).Some?
  {
    var n := Tid.Parse(s).used;
    && Tid.Canonical(s[..n])
    && (!broadcast ==> Tid.Canonical(s[n..][..Tid.Parse(s[n..]).used]))
  }

  lemma RebuiltTids(s: seq<byte>, broadcast: bool)
    requires ParseTids(s, broadcast).Some?
    ensures var (dtid, stid, used) := ParseTids(s, broadcast).value;
            s[..used] == (if broadcast then [] else Tid.Code(dtid)) + Tid.Code(stid) <==> CanonicalTids(s, broadcast)
  {
    var (dtid, stid, used) := ParseTids(s, broadcast).value;
    Tid.Accepted(s);
    if broadcast {
      assert [] + Tid.Code(stid) == Tid.Code(stid);
    } else {
      RebuiltTwo(s, dtid, stid, Tid.Parse(s).used, used);
    }
  }

  lemma RebuiltTwo(s: seq<byte>, dtid: uint32, stid: uint32, n: nat, used: nat)
    requires Tid.Parse(s) == Tid.Parsed(Tid.ParseOk, dtid, n)
    requires n <= used && Tid.Parse(s[n..]) == Tid.Parsed(Tid.ParseOk, stid, used - n)
    ensures s[..used] == Tid.Code(dtid) + Tid.Code(stid)
            <==> Tid.Canonical(s[..n]) && Tid.Canonical(s[n..][..used - n])
  {
    hide Tid.Parse;
    hide Tid.Code;
    hide Tid.Canonical;
    Tid.Accepted(s);
    Tid.Accepted(s[n..]);
    assert s[..used] == s[..n] + s[n..][..used - n];
    if s[..used] == Tid.Code(dtid) + Tid.Code(stid) {
      assert s == Tid.Code(dtid) + (Tid.Code(stid) + s[used..]);
      Tid.RoundTrip(dtid, Tid.Code(stid) + s[used..]);
      assert s[..n] == Tid.Code(dtid) && s[n..][..used - n] == Tid.Code(stid);
    }
  }

  lemma RebuiltHeader(s: seq<byte>, p: Packet)
    requires var h := ParseHeader(s);
             h.HeaderOk? && h == HeaderOk(p.broadcast, p.algo, p.proto, p.dtid, p.stid, h.used)
    ensures Header(p) == s[..ParseHeader(s).used] <==> CanonicalHeader(s)
  {
    hide ControlCode;
    hide CanonicalControl;
    hide CanonicalTids;
    hide Tid.Code;
    hide ParseControl;
    hide ParseTids;
    var used := ParseHeader(s).used;
    var k := ParseControl(s).used;
    var control := ControlCode(p.broadcast, p.algo, p.proto);
    var tids := (if p.broadcast then [] else Tid.Code(p.dtid)) + Tid.Code(p.stid);
    assert s[..used] == s[..k] + s[k..][..used - k];
    RebuiltControl(s);
    RebuiltTids(s[k..], p.broadcast);
    if Header(p) == s[..used] {
      assert s == control + (tids + s[used..]);
      ControlRoundTrip(p.broadcast, p.algo, p.proto, tids + s[used..]);
      assert s[..k] == control && s[k..][..used - k] == tids;
    }
  }

  lemma BuiltHeader(c: Ciphers, p: Packet)
    requires Supported(p.algo)
    ensures ParseHeader(Build(c, p)).HeaderOk? && ParseHeader(Build(c, p)).used == |Header(p)|
    ensures Build(c, p)[..|Header(p)|] == Header(p)
  {
    hide Body;
    HeaderRoundTrip(p, Body(c, Header(p), p));
  }

  /**
   * An accepted frame (of nonce other than zero, if it has one) is the frame built from the
   * parsed packet if and only if its header is canonical.
   */
  lemma Soundness(c: Ciphers, s: seq<byte>, p: Packet)
    requires Parse(c, s) == Some(p)
    requires IsAe(p.algo) ==> p.counter != 0
    ensures Supported(p.algo)
    ensures Build(c, p) == s <==> CanonicalHeader(s)
  {
    hide ParseHeader;
    hide ParseBody;
    hide Body;
    hide CanonicalHeader;
    hide Header;
    var h := ParseHeader(s);
    RebuiltBody(c, s[..h.used], s[h.used..], p, PACKET_SIZE);
    RebuiltHeader(s, p);
    assert s == s[..h.used] + s[h.used..];
    if Build(c, p) == s {
      BuiltHeader(c, p);
    }
  }

  /** Frames the builder makes are canonical unless they have two control bytes with unequal halves. */
  lemma BuiltIsCanonical(p: Packet, rest: seq<byte>)
    requires p.algo < 8 && p.proto < 16
    requires WireProto(p.algo, p.proto) == p.proto
    ensures ParseHeader(Header(p) + rest).HeaderOk? && CanonicalHeader(Header(p) + rest)
  {
    var s := Header(p) + rest;
    HeaderRoundTrip(p, rest);
    var p' := p.(dtid := if p.broadcast then 0 else p.dtid);
    assert Header(p') == Header(p) == s[..|Header(p)|];
    RebuiltHeader(s, p');
  }
}
