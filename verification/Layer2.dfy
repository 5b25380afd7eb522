/**
 * Sending and receiving frames: builders that write through a cursor into a 140-byte sandbox, and
 * parsers that advance a cursor over the received bytes and fill the shared packet buffer.
 */
module Layer2 {
  import opened Bytes
  import opened L2Crypto
  import opened Frame
  import Tid

  const SANDBOX_SIZE := 140

  class Pbuf {
    var dtid: uint32
    var stid: uint32
    var broadcast: bool
    var secType: SecType
    var algo: byte
    var counter: uint16
    var proto: byte
    const data: array<byte>
    var len: nat
    var knownNeighbor: bool

    constructor ()
      ensures fresh(data) && data.Length == PACKET_SIZE && len == 0
    {
      data := new byte[PACKET_SIZE](_ => 0);
      dtid, stid, broadcast, secType, algo, counter, proto := 0, 0, false, SecNone, ALGO_NONE, 0, 0;
      len, knownNeighbor := 0, false;
    }

    function View(): Packet
      requires len <= data.Length
      reads this, data
    {
      Packet(broadcast, dtid, stid, secType, algo, counter, proto, data[..len])
    }

    method Clear()
      modifies this, data
      ensures len == 0 && !knownNeighbor && data[..] == Zeros(data.Length)
      ensures View() == Packet(false, 0, 0, SecNone, ALGO_NONE, 0, 0, [])
    {
      for i := 0 to data.Length
        invariant forall j :: 0 <= j < i ==> data[j] == 0
      {
        data[i] := 0;
      }
      dtid, stid, broadcast, secType, algo, counter, proto := 0, 0, false, SecNone, ALGO_NONE, 0, 0;
      len, knownNeighbor := 0, false;
    }
  }

  // ----- Builders -----

  method CopyBytes(src: array<byte>, from: nat, dst: array<byte>, to: nat, n: nat)
    requires src != dst && from + n <= src.Length && to + n <= dst.Length
    modifies dst
    ensures dst[to..to + n] == src[from..from + n]
    ensures forall j :: 0 <= j < to || to + n <= j < dst.Length ==> dst[j] == old(dst[j])
  {
    for i := 0 to n
      invariant dst[to..to + i] == src[from..from + i]
      invariant forall j :: 0 <= j < to || to + i <= j < dst.Length ==> dst[j] == old(dst[j])
    {
      dst[to + i] := src[from + i];
      assert dst[to..to + i + 1] == dst[to..to + i] + [dst[to + i]];
    }
  }

  method BuildControl(p: Pbuf, data: array<byte>, pos: nat, len: nat) returns (r: Tid.BuildResult, pos': nat)
    requires pos + len <= data.Length
    modifies data
    ensures var code := ControlCode(p.broadcast, p.algo, p.proto);
            && r == (if |code| <= len then Tid.BuildOk else Tid.BuildBufferSmall)
            && pos' == (if |code| <= len then pos + |code| else pos + len)
            && data[pos..pos'] == code[..pos' - pos]
    ensures forall j :: 0 <= j < pos || pos' <= j < data.Length ==> data[j] == old(data[j])
  {
    var byte1: int := 0;
    var byte2: int := 0;
    pos' := pos;
    if p.broadcast {
      byte1 := byte1 + 0x40;
    }
    byte1 := byte1 + p.algo % 4 * 0x10;
    byte2 := byte2 + p.algo / 4 % 2 * 0x40;
    byte1 := byte1 + p.proto % 4 * 4;
    byte2 := byte2 + p.proto / 4 % 4;
    if byte2 != 0 {
      byte1 := byte1 + 0x80;
    }
    assert byte1 == Byte1(p.broadcast, p.algo, p.proto) && byte2 == Byte2(p.algo, p.proto);
    hide Byte1;
    hide Byte2;
    if len < 1 {
      return Tid.BuildBufferSmall, pos';
    }
    data[pos'] := byte1;
    pos' := pos' + 1;
    if byte2 != 0 {
      if len < 2 {
        return Tid.BuildBufferSmall, pos';
      }
      data[pos'] := byte2;
      pos' := pos' + 1;
    }
    r := Tid.BuildOk;
  }

  /** The header is what the sandbox holds before the cursor; a key is there when the neighbor is known. */
  method BuildData(c: Ciphers, p: Pbuf, sandbox: array<byte>, pos: nat, len: nat, hasKey: bool)
    returns (r: Tid.BuildResult, pos': nat)
    requires p.data != sandbox && p.len <= p.data.Length
    requires pos + len <= sandbox.Length && pos < 0x100
    modifies sandbox
    ensures r == if !Supported(p.algo) then Tid.BuildUnsupported
                 else if p.len + Overhead(p.algo) > len then Tid.BuildBufferSmall
                 else if IsAe(p.algo) && !hasKey then Tid.BuildFailed
                 else Tid.BuildOk
    ensures pos' == if r == Tid.BuildOk then pos + p.len + Overhead(p.algo) else pos
    ensures r == Tid.BuildOk ==> sandbox[pos..pos'] == Body(c, old(sandbox[..pos]), p.View())
    ensures forall j :: 0 <= j < pos || pos' <= j < sandbox.Length ==> sandbox[j] == old(sandbox[j])
  {
    pos' := pos;
    ghost var header := sandbox[..pos];
    if p.algo == ALGO_NONE {
      if p.len > len {
        return Tid.BuildBufferSmall, pos';
      }
      CopyBytes(p.data, 0, sandbox, pos, p.len);
      pos' := pos + p.len;
      assert p.data[0..0 + p.len] == p.data[..p.len];
    } else if p.algo == ALGO_CRC16 {
      if len < 2 {
        return Tid.BuildBufferSmall, pos';
      }
      if p.len + 2 > len {
        return Tid.BuildBufferSmall, pos';
      }
      pos' := AppendCrc(c, p, sandbox, pos, len);
    } else if IsAe(p.algo) {
      if len < 2 + TAG_LEN + p.len {
        return Tid.BuildBufferSmall, pos';
      }
      if !hasKey {
        return Tid.BuildFailed, pos';
      }
      pos' := AppendSealed(c, p, sandbox, pos, len);
    } else {
      return Tid.BuildUnsupported, pos';
    }
    r := Tid.BuildOk;
  }

  method AppendCrc(c: Ciphers, p: Pbuf, sandbox: array<byte>, pos: nat, len: nat) returns (pos': nat)
    requires p.data != sandbox && p.len <= p.data.Length && p.algo == ALGO_CRC16
    requires pos + len <= sandbox.Length && p.len + 2 <= len
    modifies sandbox
    ensures pos' == pos + p.len + 2
    ensures sandbox[pos..pos'] == Body(c, old(sandbox[..pos]), p.View())
    ensures forall j :: 0 <= j < pos || pos' <= j < sandbox.Length ==> sandbox[j] == old(sandbox[j])
  {
    CopyBytes(p.data, 0, sandbox, pos, p.len);
    pos' := pos + p.len;
    assert sandbox[pos..pos'] == p.data[..p.len];
    assert sandbox[..pos'] == old(sandbox[..pos]) + p.data[..p.len];
    var crc := c.Crc(sandbox[..pos']);
    sandbox[pos'] := crc / 0x100;
    sandbox[pos' + 1] := crc % 0x100;
    assert sandbox[pos..pos'] == p.data[..p.len];
    assert sandbox[pos..pos' + 2] == sandbox[pos..pos'] + BigEndian16(crc);
    pos' := pos' + 2;
  }

  method AppendSealed(c: Ciphers, p: Pbuf, sandbox: array<byte>, pos: nat, len: nat) returns (pos': nat)
    requires p.data != sandbox && p.len <= p.data.Length && IsAe(p.algo)
    requires pos + len <= sandbox.Length && 2 + TAG_LEN + p.len <= len
    modifies sandbox
    ensures pos' == pos + p.len + 2 + TAG_LEN
    ensures sandbox[pos..pos'] == Body(c, old(sandbox[..pos]), p.View())
    ensures forall j :: 0 <= j < pos || pos' <= j < sandbox.Length ==> sandbox[j] == old(sandbox[j])
  {
    ghost var header := sandbox[..pos];
    pos' := AppendCipher(c, p, sandbox, pos);
    ghost var sealed := BigEndian16(p.counter) + Stream(c, p.data[..p.len], p.counter, 1);
    assert sandbox[..pos] == header;
    assert sandbox[..pos'] == header + sealed;
    var tag := c.Mac(p.counter, sandbox[..pos']);
    PutBytes(sandbox, pos', tag);
    assert sandbox[pos..pos' + TAG_LEN] == sealed + tag;
    pos' := pos' + TAG_LEN;
  }

  method PutBytes(dst: array<byte>, to: nat, s: seq<byte>)
    requires to + |s| <= dst.Length
    modifies dst
    ensures dst[to..to + |s|] == s
    ensures forall j :: 0 <= j < to || to + |s| <= j < dst.Length ==> dst[j] == old(dst[j])
  {
    for i := 0 to |s|
      invariant dst[to..to + i] == s[..i]
      invariant forall j :: 0 <= j < to || to + i <= j < dst.Length ==> dst[j] == old(dst[j])
    {
      dst[to + i] := s[i];
      assert dst[to..to + i + 1] == dst[to..to + i] + [dst[to + i]];
    }
  }

  /** The nonce, then the payload exclusive-or the keystream. */
  method AppendCipher(c: Ciphers, p: Pbuf, sandbox: array<byte>, pos: nat) returns (pos': nat)
    requires p.data != sandbox && p.len <= p.data.Length
    requires pos + 2 + p.len <= sandbox.Length
    modifies sandbox
    ensures pos' == pos + 2 + p.len
    ensures sandbox[pos..pos'] == BigEndian16(p.counter) + Stream(c, p.data[..p.len], p.counter, 1)
    ensures forall j :: 0 <= j < pos || pos' <= j < sandbox.Length ==> sandbox[j] == old(sandbox[j])
  {
    hide Stream;
    sandbox[pos] := p.counter / 0x100;
    sandbox[pos + 1] := p.counter % 0x100;
    XorStream(c, p.data, 0, sandbox, pos + 2, p.len, p.counter);
    pos' := pos + 2 + p.len;
    assert p.data[0..0 + p.len] == p.data[..p.len];
    assert sandbox[pos..pos + 2] == BigEndian16(p.counter);
    assert sandbox[pos..pos'] == sandbox[pos..pos + 2] + sandbox[pos + 2..pos'];
  }

  // ----- Parsers -----

  method ParseControlAt(p: Pbuf, data: array<byte>, pos: nat, len: nat) returns (r: ControlResult, pos': nat)
    requires pos + len <= data.Length
    requires !p.broadcast
    modifies p`broadcast, p`algo, p`proto
    ensures var code := ParseControl(data[pos..pos + len]);
            && r == code.result && pos' == pos + code.used
            && p.broadcast == code.broadcast && (pos' > pos ==> p.algo == code.algo && p.proto == code.proto)
  {
    pos' := pos;
    if len < 1 {
      return ControlNoData, pos';
    }
    ghost var s := data[pos..pos + len];
    var byte1 := data[pos'];
    assert s[0] == byte1;
    pos' := pos' + 1;
    if byte1 / 0x40 % 2 == 1 {
      p.broadcast := true;
    }
    p.algo := byte1 / 0x10 % 4;
    p.proto := byte1 / 4 % 4;
    if byte1 >= 0x80 {
      if len - 1 < 1 {
        return ControlNoData, pos';
      }
      var byte2 := data[pos'];
      assert s[1] == byte2;
      pos' := pos' + 1;
      if byte2 / 0x40 % 2 == 1 {
        p.algo := p.algo + 4;
      }
      p.proto := p.proto * 4 + byte2 % 4;
      if byte2 >= 0x80 {
        return ControlUnfinished, pos';
      }
    }
    r := ControlOk;
  }

  datatype DataResult = DataOk | DataNoData | DataTooBig | DataAeFailed | DataUnsupported

  predicate Reports(r: DataResult, b: BodyResult) {
    match b
    case BodyOk(_, _, _) => r == DataOk
    case BodyNoData => r == DataNoData
    case BodyTooBig => r == DataTooBig
    case BodyAeFailed => r == DataAeFailed
    case BodyUnsupported => r == DataUnsupported
  }

  /**
   * Parses the body after the header data[..pos] into a cleared packet buffer. An encrypted body
   * that is too long for the buffer is reported with its length, and the buffer stays cleared.
   */
  method ParseData(c: Ciphers, p: Pbuf, data: array<byte>, pos: nat, len: nat) returns (r: DataResult)
    requires p.data != data && pos + len <= data.Length
    requires p.data[..] == Zeros(p.data.Length) && p.len == 0 && p.counter == 0
    modifies p`secType, p`len, p`counter, p.data
    ensures var b := ParseBody(c, data[..pos], data[pos..pos + len], p.algo, p.data.Length);
            && Reports(r, b)
            && (b.BodyOk? ==> p.secType == b.secType && p.counter == b.counter && p.len == |b.payload|)
            && (b.BodyOk? && p.len <= p.data.Length ==> p.data[..p.len] == b.payload)
            && (!b.BodyOk? ==> p.len == 0)
    ensures p.len > p.data.Length ==> p.data[..] == Zeros(p.data.Length)
    ensures p.len <= len
  {
    hide ParseCrcBody;
    hide ParseSealedBody;
    p.secType := SecNone;
    if p.algo == ALGO_NONE {
      if len > p.data.Length {
        return DataTooBig;
      }
      p.len := len;
      CopyBytes(data, pos, p.data, 0, len);
      assert p.data[..len] == p.data[0..0 + len];
    } else if p.algo == ALGO_CRC16 {
      r := ParseCrc(c, p, data, pos, len);
      return;
    } else if IsAe(p.algo) {
      r := ParseSealed(c, p, data, pos, len);
      return;
    } else {
      return DataUnsupported;
    }
    r := DataOk;
  }

  method ParseCrc(c: Ciphers, p: Pbuf, data: array<byte>, pos: nat, len: nat) returns (r: DataResult)
    requires p.data != data && pos + len <= data.Length
    requires p.len == 0 && p.counter == 0
    modifies p`secType, p`len, p.data
    ensures p.len <= p.data.Length && p.len <= len && (r != DataOk ==> p.len == 0)
    ensures var b := ParseCrcBody(c, data[..pos], data[pos..pos + len], p.data.Length);
            && Reports(r, b)
            && (b.BodyOk? ==> b == BodyOk(p.secType, p.counter, p.data[..p.len]))
  {
    if len < 2 {
      return DataNoData;
    }
    if len - 2 > p.data.Length {
      return DataTooBig;
    }
    ghost var s := data[pos..pos + len];
    var crcPacket := Word16(data[pos + len - 2], data[pos + len - 1]);
    assert data[..pos + len - 2] == data[..pos] + s[..len - 2];
    var crcComputed := c.Crc(data[..pos + len - 2]);
    CrcBytes(s[len - 2..], crcPacket, crcComputed);
    if crcPacket != crcComputed {
      return DataAeFailed;
    }
    p.len := len - 2;
    CopyBytes(data, pos, p.data, 0, len - 2);
    assert p.data[..len - 2] == p.data[0..0 + (len - 2)] == s[..len - 2];
    p.secType := SecVerify;
    r := DataOk;
  }

  lemma CrcBytes(s: seq<byte>, packet: uint16, computed: uint16)
    requires |s| == 2 && packet == Word16(s[0], s[1])
    ensures packet == computed <==> s == BigEndian16(computed)
  {
  }

  method ParseSealed(c: Ciphers, p: Pbuf, data: array<byte>, pos: nat, len: nat) returns (r: DataResult)
    requires p.data != data && pos + len <= data.Length
    requires p.data[..] == Zeros(p.data.Length) && p.len == 0 && p.counter == 0
    requires IsAe(p.algo) && p.secType == SecNone
    modifies p`secType, p`len, p`counter, p.data
    ensures var b := ParseSealedBody(c, data[..pos], data[pos..pos + len], p.data.Length);
            && Reports(r, b)
            && (b.BodyOk? ==> p.secType == b.secType && p.counter == b.counter && p.len == |b.payload|)
            && (b.BodyOk? && p.len <= p.data.Length ==> p.data[..p.len] == b.payload)
            && (!b.BodyOk? ==> p.len == 0)
    ensures p.len > p.data.Length ==> p.data[..] == Zeros(p.data.Length)
    ensures p.len <= len
  {
    if len < 2 + TAG_LEN {
      return DataNoData;
    }
    hide ParseSealedBody;
    hide Stream;
    SealedBody(c, data[..pos], data[pos..pos + len], p.data.Length);
    r := Unseal(c, p, data, pos, len);
  }

  method Unseal(c: Ciphers, p: Pbuf, data: array<byte>, pos: nat, len: nat) returns (r: DataResult)
    requires p.data != data && pos + len <= data.Length && 2 + TAG_LEN <= len
    requires p.data[..] == Zeros(p.data.Length) && p.len == 0
    modifies p`secType, p`len, p`counter, p.data
    ensures p.counter == Word16(data[pos], data[pos + 1])
    ensures var s := data[pos..pos + len];
            r == if s[len - TAG_LEN..] == c.Mac(p.counter, data[..pos] + s[..len - TAG_LEN]) then DataOk
                 else DataAeFailed
    ensures r == DataOk ==> p.secType == SecAe && p.len == len - TAG_LEN - 2
    ensures r == DataOk && p.len <= p.data.Length ==>
              p.data[..p.len] == if p.counter == 0 then Zeros(p.len)
                                 else Stream(c, data[pos..pos + len][2..len - TAG_LEN], p.counter, 1)
    ensures r != DataOk ==> p.len == 0
    ensures p.len > p.data.Length ==> p.data[..] == Zeros(p.data.Length)
  {
    hide Stream;
    hide Word16;
    hide Zeros;
    p.counter := Word16(data[pos], data[pos + 1]);
    var authentic := Authenticate(c, data, pos, len, p.counter);
    if !authentic {
      return DataAeFailed;
    }
    p.secType := SecAe;
    p.len := len - 2 - TAG_LEN;
    assert data[pos + 2..pos + 2 + p.len] == data[pos..pos + len][2..len - TAG_LEN];
    FillDecrypted(c, p.data, data, pos + 2, p.len, p.counter);
    r := DataOk;
  }

  lemma SealedBody(c: Ciphers, header: seq<byte>, s: seq<byte>, size: nat)
    requires 2 + TAG_LEN <= |s|
    ensures var n, nonce := |s| - TAG_LEN, Word16(s[0], s[1]);
            ParseSealedBody(c, header, s, size)
            == if s[n..] != c.Mac(nonce, header + s[..n]) then BodyAeFailed
               else BodyOk(SecAe, nonce, if nonce == 0 || n - 2 > size then Zeros(n - 2)
                                         else Stream(c, s[2..n], nonce, 1))
  {
    var n := |s| - TAG_LEN;
    assert s[..n][2..] == s[2..n];
  }

  /** Decryption into a cleared buffer; its result is not looked at. */
  method FillDecrypted(c: Ciphers, dst: array<byte>, src: array<byte>, from: nat, len: nat, nonce: uint16)
    requires src != dst && from + len <= src.Length
    requires dst[..] == Zeros(dst.Length)
    modifies dst
    ensures len <= dst.Length ==>
              dst[..len] == if nonce == 0 then Zeros(len) else Stream(c, src[from..from + len], nonce, 1)
    ensures len > dst.Length ==> dst[..] == old(dst[..])
  {
    hide Stream;
    var ok := Decrypt(c, dst, src, from, len, nonce);
    if !ok {
      assert dst[..] == old(dst[..]);
      assert len <= dst.Length ==> Zeros(dst.Length)[..len] == Zeros(len);
    }
  }

  /** Does the tag at the end of the body authenticate the header and the rest of the body? */
  method Authenticate(c: Ciphers, data: array<byte>, pos: nat, len: nat, nonce: uint16) returns (ok: bool)
    requires pos + len <= data.Length && len >= 2 + TAG_LEN
    ensures var s := data[pos..pos + len];
            ok == (s[len - TAG_LEN..] == c.Mac(nonce, data[..pos] + s[..len - TAG_LEN]))
  {
    var end := pos + len - TAG_LEN;
    assert data[pos..end] == data[pos..pos + len][..len - TAG_LEN];
    assert data[..end] == data[..pos] + data[pos..end];
    assert data[end..end + TAG_LEN] == data[pos..pos + len][len - TAG_LEN..];
    ok := data[end..end + TAG_LEN] == c.Mac(nonce, data[..end]);
  }

  // ----- Sending -----

  /** The MAC of the interface: none, or one that takes a frame or fails to. */
  datatype Mac = NoMac | MacTakes | MacFails

  datatype SendResult = SendOk | SendFailed | SendMalformed | SendUnroutable

  function AlgoOf(secType: SecType): byte {
    match secType
    case SecNone => ALGO_NONE
    case SecVerify => ALGO_CRC16
    case SecAe => ALGO_CHACHA20_POLY1305_2
  }

  /** Routing sets the algorithm of the security type, and the own TID where no source is set. */
  function Routed(p: Packet, tidCurrent: uint32): Packet {
    p.(algo := AlgoOf(p.secType), stid := if p.stid == 0 then tidCurrent else p.stid)
  }

  /** The packet that goes out: routed, with the counter of the neighbor it is for. */
  function Outgoing(p: Packet, tidCurrent: uint32, neighbors: map<uint32, uint16>): Packet {
    Routed(p, tidCurrent).(counter := if p.dtid in neighbors then neighbors[p.dtid] else 0)
  }

  function NextCounter(counter: uint16): uint16 {
    ((counter as int) + 1) % 0x1_0000
  }

  function SendOutcome(p: Packet, tidCurrent: uint32, neighbors: map<uint32, uint16>): SendResult {
    if Routed(p, tidCurrent).stid == 0 then SendUnroutable
    else if (p.dtid == 0 && !p.broadcast) || |p.payload| > PACKET_SIZE then SendMalformed
    else if p.secType == SecAe && p.dtid !in neighbors then SendFailed
    else SendOk
  }

  /** The neighbors after a packet was routed: the counter of a known one counts on, whatever becomes of the packet. */
  function NeighborsAfter(p: Packet, tidCurrent: uint32, neighbors: map<uint32, uint16>): map<uint32, uint16> {
    if SendOutcome(p, tidCurrent, neighbors) != SendUnroutable && p.dtid in neighbors
    then neighbors[p.dtid := NextCounter(neighbors[p.dtid])]
    else neighbors
  }

  /** The parts of the protocol stack that layer 2 uses: own TIDs, neighbors with counters, protocols. */
  class Stack {
    const c: Ciphers
    var tidCurrent: uint32
    var tidLast: uint32
    var neighbors: map<uint32, uint16>
    var handlers: set<byte>
    const pbuf: Pbuf

    constructor (c: Ciphers, tidCurrent: uint32, neighbors: map<uint32, uint16>, handlers: set<byte>)
      ensures fresh(pbuf) && fresh(pbuf.data) && pbuf.data.Length == PACKET_SIZE
      ensures this.c == c && this.tidCurrent == tidCurrent && tidLast == 0
      ensures this.neighbors == neighbors && this.handlers == handlers
    {
      this.c := c;
      this.tidCurrent, tidLast, this.neighbors, this.handlers := tidCurrent, 0, neighbors, handlers;
      pbuf := new Pbuf();
    }

    /**
     * Sends a packet: the MAC, if there is one, gets the frame and one more byte of the sandbox,
     * whatever is there. The sandbox is large enough for every payload that passes the check.
     */
    method Send(p: Pbuf, mac: Mac) returns (r: SendResult, sent: seq<byte>)
      requires p.len <= p.data.Length
      modifies this`neighbors, p`algo, p`stid, p`counter
      ensures var built := SendOutcome(old(p.View()), tidCurrent, old(neighbors));
              && r == (if built == SendOk && mac == MacFails then SendFailed else built)
              && (if built == SendOk && mac != NoMac then
                    var frame := Build(c, Outgoing(old(p.View()), tidCurrent, old(neighbors)));
                    |sent| == |frame| + 1 <= SANDBOX_SIZE && sent[..|frame|] == frame
                  else sent == [])
      ensures neighbors == NeighborsAfter(old(p.View()), tidCurrent, old(neighbors))
    {
      hide Build;
      hide Routed;
      sent := [];
      var routed := Route(p);
      if !routed {
        return SendUnroutable, sent;
      }
      var hasKey := MatchNeighbor(p);
      if !(p.dtid != 0 || p.broadcast) || p.len > PACKET_SIZE {
        return SendMalformed, sent;
      }
      assert p.View() == Outgoing(old(p.View()), tidCurrent, old(neighbors));
      hide Outgoing;
      var frame;
      r, frame := BuildFrame(p, hasKey);
      if r == SendOk && mac != NoMac {
        sent := frame;
        if mac == MacFails {
          r := SendFailed;
        }
      }
    }

    method Route(p: Pbuf) returns (ok: bool)
      requires p.len <= p.data.Length
      modifies p`algo, p`stid
      ensures p.View() == Routed(old(p.View()), tidCurrent)
      ensures ok <==> p.stid != 0
      ensures p.dtid == old(p.dtid) && p.secType == old(p.secType) && p.len == old(p.len)
      ensures p.broadcast == old(p.broadcast) && p.algo == AlgoOf(p.secType)
    {
      p.algo := AlgoOf(p.secType);
      if p.stid == 0 {
        p.stid := tidCurrent;
      }
      ok := p.stid != 0;
    }

    /** The counter of a known neighbor is taken and counts on, whether or not it is needed. */
    method MatchNeighbor(p: Pbuf) returns (hasKey: bool)
      requires p.len <= p.data.Length
      modifies this`neighbors, p`counter
      ensures hasKey == (p.dtid in old(neighbors))
      ensures p.View() == old(p.View()).(counter := if hasKey then old(neighbors)[p.dtid] else 0)
      ensures neighbors == if hasKey then old(neighbors)[p.dtid := NextCounter(old(neighbors)[p.dtid])]
                           else old(neighbors)
    {
      hasKey := false;
      p.counter := 0;
      if p.dtid in neighbors {
        hasKey := true;
        p.counter := neighbors[p.dtid];
        neighbors := neighbors[p.dtid := NextCounter(neighbors[p.dtid])];
      }
    }

    method BuildFrame(p: Pbuf, hasKey: bool) returns (r: SendResult, sent: seq<byte>)
      requires p.len <= p.data.Length && p.len <= PACKET_SIZE
      requires Supported(p.algo)
      ensures r == if IsAe(p.algo) && !hasKey then SendFailed else SendOk
      ensures r == SendOk ==> |sent| == |Build(c, p.View())| + 1 <= SANDBOX_SIZE
      ensures r == SendOk ==> sent[..|sent| - 1] == Build(c, p.View())
    {
      hide Header;
      hide Body;
      var sandbox := new byte[SANDBOX_SIZE];
      var pos := BuildHeader(p, sandbox);
      ghost var header := Header(p.View());
      HeaderSize(p.View());
      BodySize(c, header, p.View());
      assert sandbox[..pos] == header;
      var b, pos' := BuildData(c, p, sandbox, pos, SANDBOX_SIZE - pos, hasKey);
      if b != Tid.BuildOk {
        return SendFailed, [];
      }
      assert sandbox[..pos'] == sandbox[..pos] + sandbox[pos..pos'];
      sent := sandbox[..pos' + 1];
      assert sent[..pos'] == sandbox[..pos'];
      r := SendOk;
    }

    /** No header builder runs out of the sandbox. */
    method BuildHeader(p: Pbuf, sandbox: array<byte>) returns (pos: nat)
      requires p.len <= p.data.Length && p.data != sandbox && sandbox.Length == SANDBOX_SIZE
      modifies sandbox
      ensures pos == |Header(p.View())| <= 12
      ensures sandbox[..pos] == Header(p.View())
    {
      hide ControlCode;
      hide Tid.Code;
      HeaderSize(p.View());
      var r;
      r, pos := BuildControl(p, sandbox, 0, SANDBOX_SIZE);
      ghost var control := pos;
      assert sandbox[0..pos] == sandbox[..pos];
      pos := BuildTids(p, sandbox, pos);
      assert sandbox[..pos] == sandbox[..control] + sandbox[control..pos];
    }

    method BuildTids(p: Pbuf, sandbox: array<byte>, start: nat) returns (pos: nat)
      requires p.data != sandbox && sandbox.Length == SANDBOX_SIZE && start <= 2
      modifies sandbox
      ensures var tids := (if p.broadcast then [] else Tid.Code(p.dtid)) + Tid.Code(p.stid);
              pos == start + |tids| && pos <= sandbox.Length && sandbox[start..pos] == tids
      ensures sandbox[..start] == old(sandbox[..start])
    {
      hide Tid.Code;
      hide Tid.Parse;
      Tid.CodeSize(p.dtid);
      Tid.CodeSize(p.stid);
      var r;
      pos := start;
      if !p.broadcast {
        r, pos := Tid.Build(p.dtid, sandbox, pos, SANDBOX_SIZE - pos);
      }
      ghost var dst := pos;
      assert sandbox[start..dst] == if p.broadcast then [] else Tid.Code(p.dtid);
      r, pos := Tid.Build(p.stid, sandbox, pos, SANDBOX_SIZE - pos);
      assert sandbox[start..pos] == sandbox[start..dst] + sandbox[dst..pos];
    }

    /** Receives the bytes of a frame and the one byte more that the MAC reads. */
    method Receive(data: array<byte>, len: nat) returns (ok: bool)
      requires len <= data.Length && data != pbuf.data && pbuf.data.Length == PACKET_SIZE
      modifies pbuf, pbuf.data
      ensures pbuf.len <= PACKET_SIZE
      ensures var up := Receiver({tidCurrent, tidLast}, handlers);
              var r := Received(c, up, if len == 0 then [] else data[..len - 1]);
              && ok == r.Some?
              && (ok ==> pbuf.View() == r.value && pbuf.knownNeighbor == (pbuf.stid in neighbors))
    {
      hide Frame.Parse;
      pbuf.Clear();
      if len == 0 || len - 1 > PACKET_SIZE || len - 1 < 2 {
        ShortOrLong(c, if len == 0 then [] else data[..len - 1]);
        return false;
      }
      var parsed := ReceiveFrame(data, len - 1);
      if !parsed {
        return false;
      }
      if !pbuf.broadcast {
        if pbuf.dtid == 0 {
          return false;
        }
        if pbuf.dtid != tidCurrent && pbuf.dtid != tidLast {
          return false;
        }
      }
      ok := pbuf.proto in handlers;
    }

    method ReceiveFrame(data: array<byte>, len: nat) returns (ok: bool)
      requires 2 <= len <= PACKET_SIZE && len <= data.Length && data != pbuf.data
      requires pbuf.data.Length == PACKET_SIZE && pbuf.len == 0 && pbuf.data[..] == Zeros(PACKET_SIZE)
      requires pbuf.View() == Packet(false, 0, 0, SecNone, ALGO_NONE, 0, 0, [])
      modifies pbuf, pbuf.data
      ensures pbuf.len <= PACKET_SIZE
      ensures var r := Frame.Parse(c, data[..len]);
              && ok == r.Some?
              && (ok ==> pbuf.View() == r.value && pbuf.knownNeighbor == (pbuf.stid in neighbors))
    {
      hide ParseHeader;
      hide ParseBody;
      ghost var s := data[..len];
      var headerOk, pos := ReceiveHeader(data, len);
      if !headerOk {
        return false;
      }
      pbuf.knownNeighbor := pbuf.stid in neighbors;
      assert data[..pos] == s[..pos] && data[pos..pos + (len - pos)] == s[pos..];
      var r := ParseData(c, pbuf, data, pos, len - pos);
      ok := r == DataOk && pbuf.len != 0;
    }

    method ReceiveHeader(data: array<byte>, len: nat) returns (ok: bool, pos: nat)
      requires len <= data.Length && data != pbuf.data
      requires pbuf.data.Length == PACKET_SIZE
      requires pbuf.len == 0
      requires pbuf.View() == Packet(false, 0, 0, SecNone, ALGO_NONE, 0, 0, [])
      modifies pbuf
      ensures var h := ParseHeader(data[..len]);
              && ok == h.HeaderOk?
              && (ok ==> h == HeaderOk(pbuf.broadcast, pbuf.algo, pbuf.proto, pbuf.dtid, pbuf.stid, pos))
      ensures pbuf.len == 0 && pbuf.counter == 0 && pos <= len
    {
      hide ParseControl;
      hide ParseTids;
      ghost var s := data[..len];
      assert data[0..0 + len] == s;
      ControlWithin(s);
      var control;
      control, pos := ParseControlAt(pbuf, data, 0, len);
      if control != ControlOk {
        return false, 0;
      }
      ghost var used := pos;
      assert data[pos..pos + (len - pos)] == s[used..];
      ok, pos := ReceiveTids(data, pos, len - pos);
    }

    method ReceiveTids(data: array<byte>, start: nat, len: nat) returns (ok: bool, pos: nat)
      requires start + len <= data.Length
      requires pbuf.dtid == 0
      modifies pbuf`dtid, pbuf`stid
      ensures var t := ParseTids(data[start..start + len], pbuf.broadcast);
              && ok == t.Some?
              && (ok ==> t.value == (pbuf.dtid, pbuf.stid, pos - start) && start <= pos <= start + len)
      ensures !ok ==> pos == 0
    {
      hide Tid.Parse;
      ghost var s := data[start..start + len];
      pos := start;
      var r, tid;
      if !pbuf.broadcast {
        r, pos, tid := Tid.ParseAt(data, pos, len);
        pbuf.dtid := tid;
        if r != Tid.ParseOk {
          return false, 0;
        }
      }
      var used := pos - start;
      assert data[pos..pos + (len - used)] == s[used..];
      assert s[0..] == s;
      r, pos, tid := Tid.ParseAt(data, pos, len - used);
      pbuf.stid := tid;
      ok := r == Tid.ParseOk;
      if !ok {
        pos := 0;
      }
    }
  }

  lemma ControlWithin(s: seq<byte>)
    ensures ParseControl(s).used <= |s| && ParseControl(s).used <= 2
    ensures ParseControl(s).result == ControlOk ==> ParseControl(s).used > 0
  {
  }

  // ----- Receiving -----

  /** What decides whether a parsed packet goes up: the own TIDs and the protocols with a handler. */
  datatype Receiver = Receiver(tids: set<uint32>, handlers: set<byte>)

  predicate Routable(r: Receiver, p: Packet) {
    p.broadcast || (p.dtid != 0 && p.dtid in r.tids)
  }

  function Received(c: Ciphers, r: Receiver, s: seq<byte>): Option<Packet> {
    var p := Frame.Parse(c, s);
    if p.Some? && Routable(r, p.value) && p.value.proto in r.handlers then p else None
  }

  lemma ShortOrLong(c: Ciphers, s: seq<byte>)
    requires |s| < 2 || |s| > PACKET_SIZE
    ensures Frame.Parse(c, s) == None
  {
  }

  // ----- From one side to the other -----

  /**
   * For every packet that is sent, with a payload that is not empty, what the receiver makes of the
   * frame: it takes the packet exactly when the frame is at most 120 bytes long, the receiver is
   * addressed and has a handler for the protocol that arrives.
   */
  lemma Delivery(c: Ciphers, p: Packet, tid: uint32, neighbors: map<uint32, uint16>, r: Receiver)
    requires SendOutcome(p, tid, neighbors) == SendOk
    requires p.payload != []
    ensures var q := Outgoing(p, tid, neighbors);
            Received(c, r, Build(c, q))
            == if |Build(c, q)| <= PACKET_SIZE && (p.broadcast || p.dtid in r.tids)
                  && WireProto(q.algo, p.proto) in r.handlers
               then Some(Arrived(q)) else None
  {
    Frame.RoundTrip(c, Outgoing(p, tid, neighbors));
  }

  /**
   * A packet taken by the receiver has the flag, source, security type and payload it was sent
   * with, unless it is encrypted with counter zero; it has the destination unless it is a
   * broadcast, and the protocol unless the halves of a protocol above 3 differ.
   */
  lemma DeliveredIntact(c: Ciphers, p: Packet, tid: uint32, neighbors: map<uint32, uint16>, r: Receiver)
    requires SendOutcome(p, tid, neighbors) == SendOk
    requires p.payload != [] && p.proto < 16
    ensures var q := Outgoing(p, tid, neighbors);
            var got := Received(c, r, Build(c, q));
            got.Some? ==>
              var a := got.value;
              && a.broadcast == p.broadcast && a.stid == q.stid && a.secType == p.secType && a.algo == q.algo
              && (!p.broadcast ==> a.dtid == p.dtid)
              && (a.proto == p.proto <==> p.proto < 4 || p.proto % 4 == p.proto / 4)
              && (a.payload == p.payload <==> p.secType != SecAe || q.counter != 0 || p.payload == Zeros(|p.payload|))
  {
    Delivery(c, p, tid, neighbors, r);
    ProtoSurvives(AlgoOf(p.secType), p.proto);
  }

  /** Both conditions matter: protocol 4 arrives as protocol 1. */
  lemma ProtocolFour(c: Ciphers, r: Receiver)
    requires 1 in r.handlers
    ensures var p := Packet(true, 0, 3, SecNone, 0, 0, 4, [9]);
            && SendOutcome(p, 3, map[]) == SendOk
            && var got := Received(c, r, Build(c, Outgoing(p, 3, map[])));
               got.Some? && got.value.proto == 1
  {
    hide Build;
    hide Received;
    var p := Packet(true, 0, 3, SecNone, 0, 0, 4, [9]);
    SmallFrame(c, Outgoing(p, 3, map[]));
    Delivery(c, p, 3, map[], r);
  }

  /** And a payload that is encrypted with counter zero arrives as zeros. */
  lemma CounterZero(c: Ciphers, r: Receiver)
    requires 1 in r.handlers && 7 in r.tids
    ensures var p := Packet(false, 7, 3, SecAe, 0, 0, 1, [9]);
            && SendOutcome(p, 3, map[7 := 0]) == SendOk
            && var got := Received(c, r, Build(c, Outgoing(p, 3, map[7 := 0])));
               got.Some? && got.value.payload == [0]
  {
    hide Build;
    hide Received;
    var p := Packet(false, 7, 3, SecAe, 0, 0, 1, [9]);
    SmallFrame(c, Outgoing(p, 3, map[7 := 0]));
    Delivery(c, p, 3, map[7 := 0], r);
    assert Zeros(1) == [0];
  }

  lemma SmallFrame(c: Ciphers, p: Packet)
    requires Supported(p.algo) && |p.payload| == 1
    ensures |Build(c, p)| <= PACKET_SIZE
  {
    hide Header;
    hide Body;
    HeaderSize(p);
    BodySize(c, Header(p), p);
  }
}
