/** Neighbor discovery: adverts of a node's own TID, from the sender's packet to the receiver's neighbor table. */
module NbDiscovery {
  import opened Bytes
  import opened L2Crypto
  import opened Frame
  import opened Layer2
  import NeighborTable
  import NeighborRuns

  const PROTOCOL_NBDISCOVERY: byte := 0
  const PACKET_TID_ADV_BASIC: byte := 0

  /** The broadcast that advertises a TID. */
  function AdvPacket(tid: uint32): Packet {
    Packet(true, 0, tid, SecVerify, ALGO_NONE, 0, PROTOCOL_NBDISCOVERY, [PACKET_TID_ADV_BASIC])
  }

  /** The TID a received packet advertises: it must be CRC checked, of the one known type, and nothing more. */
  function AdvOf(p: Packet): Option<uint32> {
    if p.secType == SecVerify && p.payload == [PACKET_TID_ADV_BASIC] then Some(p.stid) else None
  }

  method BuildAdv(p: Pbuf, tid: uint32)
    requires p.data.Length == PACKET_SIZE
    modifies p, p.data
    ensures p.len <= p.data.Length && p.View() == AdvPacket(tid)
  {
    p.Clear();
    p.secType := SecVerify;
    p.broadcast := true;
    p.proto := PROTOCOL_NBDISCOVERY;
    p.data[0] := PACKET_TID_ADV_BASIC;
    p.stid := tid;
    p.len := 1;
    assert p.data[..1] == [PACKET_TID_ADV_BASIC];
  }

  method ReceiveHandler(p: Pbuf, table: NeighborTable.Table) returns (ok: bool)
    requires p.len <= p.data.Length && table.items as object != p.data
    modifies table.items
    ensures table.items[..] == (match AdvOf(p.View())
                                case Some(tid) => NeighborTable.Advertised(old(table.items[..]), tid)
                                case None => old(table.items[..]))
    ensures ok <==> AdvOf(p.View()).Some?
                    && exists i :: 0 <= i < table.items.Length
                                   && (NeighborTable.IsOf(old(table.items[i]), p.stid)
                                       || old(table.items[i]).state == NeighborTable.Empty)
  {
    if p.secType != SecVerify {
      return false;
    }
    if p.len < 1 {
      return false;
    }
    if p.data[0] != PACKET_TID_ADV_BASIC {
      assert p.data[..p.len][0] != PACKET_TID_ADV_BASIC;
      return false;
    }
    if p.len - 1 > 0 {
      return false;
    }
    assert p.data[..p.len] == [PACKET_TID_ADV_BASIC];
    ok := table.ProcessAdvBasic(p.stid);
  }

  lemma AdvertArrives(c: Ciphers, tid: uint32, neighbors: map<uint32, uint16>, r: Receiver)
    requires PROTOCOL_NBDISCOVERY in r.handlers && tid != 0
    ensures SendOutcome(AdvPacket(tid), tid, neighbors) == SendOk
    ensures var got := Received(c, r, Build(c, Outgoing(AdvPacket(tid), tid, neighbors)));
            got.Some? && AdvOf(got.value) == Some(tid)
  {
    hide Build;
    hide Received;
    var q := Outgoing(AdvPacket(tid), tid, neighbors);
    Delivery(c, AdvPacket(tid), tid, neighbors, r);
    FrameSize(c, q);
  }

  lemma FrameSize(c: Ciphers, q: Packet)
    requires Supported(q.algo)
    ensures |Build(c, q)| <= 12 + |q.payload| + Overhead(q.algo)
  {
    HeaderSize(q);
    BodySize(c, Header(q), q);
  }

  predicate HasRoom(items: seq<NeighborTable.Item>) {
    exists i :: 0 <= i < |items| && items[i].state == NeighborTable.Empty
  }

  lemma AdvertisedPresence(items: seq<NeighborTable.Item>, tid: uint32)
    ensures var items' := NeighborTable.Advertised(items, tid);
            NeighborRuns.Present(items', tid) <==>
              NeighborRuns.Present(items, tid) || HasRoom(items)
  {
    var items' := NeighborTable.Advertised(items, tid);
    var i, j := NeighborTable.Find(items, tid, 0), NeighborTable.FirstEmpty(items, 0);
    if i >= 0 {
      assert NeighborTable.IsOf(items[i], tid) && NeighborTable.IsOf(items'[i], tid);
    } else if j >= 0 {
      assert NeighborTable.IsOf(items'[j], tid) && items[j].state == NeighborTable.Empty;
    }
  }

  /**
   * Every advert of a node with a TID is sent, and a receiver that gets its frame with discovery
   * registered inserts or refreshes exactly that TID: it is in the table afterwards unless it was
   * not there before and the table was full, and all other ages stay the same.
   */
  lemma AdvertEndToEnd(c: Ciphers, tid: uint32, neighbors: map<uint32, uint16>, r: Receiver,
                       items: seq<NeighborTable.Item>)
    requires PROTOCOL_NBDISCOVERY in r.handlers
    requires NeighborRuns.Ok(items)
    ensures SendOutcome(AdvPacket(tid), tid, neighbors) == if tid == 0 then SendUnroutable else SendOk
    ensures tid != 0 ==>
              var got := Received(c, r, Build(c, Outgoing(AdvPacket(tid), tid, neighbors)));
              && got.Some? && AdvOf(got.value) == Some(tid)
              && var items' := NeighborTable.Advertised(items, AdvOf(got.value).value);
                 && (NeighborRuns.Present(items', tid) <==> NeighborRuns.Present(items, tid) || HasRoom(items))
                 && NeighborRuns.Abstract(items') == NeighborRuns.Heard(NeighborRuns.Abstract(items), |items|, tid)
  {
    hide Build;
    hide Received;
    hide NeighborTable.Advertised;
    if tid != 0 {
      AdvertArrives(c, tid, neighbors, r);
      NeighborRuns.AdvertRefines(items, tid);
      AdvertisedPresence(items, tid);
    }
  }

  /**
   * Whatever is received: a frame is taken for an advert exactly if behind its header there is one zero byte and the
   * CRC, most significant byte first, of all before it. Then it is the source in the header that is advertised.
   */
  lemma AdvertExactly(c: Ciphers, r: Receiver, s: seq<byte>)
    ensures var got, h := Received(c, r, s), ParseHeader(s);
            got.Some? ==>
              && h.HeaderOk?
              && (AdvOf(got.value).Some?
                  <==> h.algo == 1 && |s| == h.used + 3
                       && var crc := c.crc16(s[..h.used] + [0]); s[h.used..] == [0, crc / 0x100, crc % 0x100])
              && (AdvOf(got.value).Some? ==> AdvOf(got.value) == Some(h.stid))
  {
    hide ParseHeader;
    var h := ParseHeader(s);
    if Received(c, r, s).Some? {
      var body := s[h.used..];
      assert h.algo == 1 ==> ParseBody(c, s[..h.used], body, h.algo, PACKET_SIZE)
                             == ParseCrcBody(c, s[..h.used], body, PACKET_SIZE);
      if h.algo == 1 && |body| == 3 {
        assert body == body[..1] + body[1..];
        var crc := c.crc16(s[..h.used] + [0]);
        var tail := [crc / 0x100, crc % 0x100];
        assert body[..1] == [0] ==> (body[1..] == tail <==> body == [0] + tail);
      }
    }
  }
}
