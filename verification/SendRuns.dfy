/**
 * What goes out on the air: every byte of a frame, which received bytes are taken, and the nonces that the frames
 * to one neighbor carry over any sequence of sends.
 */
module SendRuns {
  import opened Bytes
  import opened ModArith
  import opened L2Crypto
  import opened Frame
  import opened Layer2
  import Tid

  // ----- Exclusive or -----

  lemma {:induction false} XorBitAt(a: nat, b: nat, n: nat, i: nat)
    requires i < n
    ensures XorBits(a, b, n) / Pow2(i) % 2 == if a / Pow2(i) % 2 == b / Pow2(i) % 2 then 0 else 1
    decreases n
  {
    XorBitsStep(a, b, n);
    hide XorBits;
    if i == 0 {
      assert Pow2(0) == 1;
    } else {
      hide Pow2;
      XorBitAt(a / 2, b / 2, n - 1, i - 1);
      HalfFirst(XorBits(a, b, n), i);
      HalfFirst(a, i);
      HalfFirst(b, i);
    }
  }

  lemma HalfFirst(x: nat, i: nat)
    requires i > 0
    ensures x / Pow2(i) == x / 2 / Pow2(i - 1)
  {
    QuotientOfQuotient(x, 2, Pow2(i - 1));
  }

  /** Every bit of an exclusive or is set exactly if one of the two bits is. */
  lemma XorOfBits(a: byte, b: byte, i: nat)
    requires i < 8
    ensures Xor(a, b) / Pow2(i) % 2 == 1 <==> a / Pow2(i) % 2 != b / Pow2(i) % 2
  {
    XorBitAt(a, b, 8, i);
  }

  // ----- The bytes of a frame -----

  function SourceTid(p: Packet, own: uint32): uint32 {
    if p.stid != 0 then p.stid else own
  }

  /** The bytes that the control field of a packet has: flag, algorithm 0, 1 or 2 and the two halves of the protocol. */
  function ControlBytes(p: Packet): seq<byte>
    requires p.proto < 16
  {
    var algo := match p.secType case SecNone => 0 case SecVerify => 0x10 case SecAe => 0x20;
    var first := (if p.broadcast then 0x40 else 0) + algo + p.proto % 4 * 4;
    if p.proto < 4 then [first] else [0x80 + first, p.proto / 4]
  }

  function HeaderBytes(p: Packet, own: uint32): seq<byte>
    requires p.proto < 16
  {
    ControlBytes(p) + (if p.broadcast then [] else Tid.Code(p.dtid)) + Tid.Code(SourceTid(p, own))
  }

  /** A packet is sent exactly if it has a source, a destination, a payload that fits, and a key when it needs one. */
  lemma SentExactly(p: Packet, own: uint32, neighbors: map<uint32, uint16>)
    ensures SendOutcome(p, own, neighbors) == SendOk
            <==> && (p.stid != 0 || own != 0) && (p.dtid != 0 || p.broadcast) && |p.payload| <= 120
                 && (p.secType == SecAe ==> p.dtid in neighbors)
    ensures SendOutcome(p, own, neighbors) == SendUnroutable <==> p.stid == 0 && own == 0
    ensures SendOutcome(p, own, neighbors) == SendFailed
            <==> && (p.stid != 0 || own != 0) && (p.dtid != 0 || p.broadcast) && |p.payload| <= 120
                 && p.secType == SecAe && p.dtid !in neighbors
  {
  }

  lemma HeaderIsBytes(p: Packet, own: uint32, neighbors: map<uint32, uint16>)
    requires p.proto < 16
    ensures Header(Outgoing(p, own, neighbors)) == HeaderBytes(p, own)
  {
    var q := Outgoing(p, own, neighbors);
    assert Byte2(q.algo, q.proto) == p.proto / 4;
    assert ControlCode(q.broadcast, q.algo, q.proto) == ControlBytes(p);
    hide ControlBytes;
    hide ControlCode;
    hide Tid.Code;
    var tids := (if p.broadcast then [] else Tid.Code(p.dtid)) + Tid.Code(SourceTid(p, own));
    assert ControlBytes(p) + tids == HeaderBytes(p, own);
  }

  /** The frame of a plain packet, and of one with a CRC over everything before it. */
  lemma PlainFrame(c: Ciphers, p: Packet, own: uint32, neighbors: map<uint32, uint16>)
    requires p.proto < 16 && p.secType != SecAe
    ensures var h := HeaderBytes(p, own);
            var crc := c.crc16(h + p.payload);
            Build(c, Outgoing(p, own, neighbors))
            == h + p.payload + (if p.secType == SecNone then [] else [crc / 0x100, crc % 0x100])
  {
    HeaderIsBytes(p, own, neighbors);
  }

  /** The nonce that goes with an encrypted packet. */
  function NonceFor(p: Packet, neighbors: map<uint32, uint16>): uint16 {
    if p.dtid in neighbors then neighbors[p.dtid] else 0
  }

  /**
   * The frame of an encrypted packet: the header, the nonce, the payload exclusive-or the keystream from block one on,
   * and four bytes of the tag over all that, keyed by block zero.
   */
  lemma SealedFrame(c: Ciphers, p: Packet, own: uint32, neighbors: map<uint32, uint16>) returns (sealed: seq<byte>)
    requires p.proto < 16 && p.secType == SecAe && |p.payload| <= 120
    ensures var h, n := HeaderBytes(p, own), NonceFor(p, neighbors);
            var covered := h + [n / 0x100, n % 0x100] + sealed;
            Build(c, Outgoing(p, own, neighbors)) == covered + c.poly1305(c.chacha20(n, 0)[..32], covered)[..4]
    ensures |sealed| == |p.payload|
    ensures forall i :: 0 <= i < |sealed| ==>
              sealed[i] == Xor(p.payload[i], c.chacha20(NonceFor(p, neighbors), 1 + i / 64)[i % 64])
  {
    var n, q := NonceFor(p, neighbors), Outgoing(p, own, neighbors);
    sealed := Stream(c, p.payload, n, 1);
    HeaderIsBytes(p, own, neighbors);
    StreamIsXor(c, p.payload, n);
    hide Xor;
    hide HeaderBytes;
    hide Header;
    hide Stream;
    SealedBytes(c, Header(q), q);
  }

  lemma StreamIsXor(c: Ciphers, data: seq<byte>, n: uint16)
    requires |data| <= 120
    ensures forall i :: 0 <= i < |data| ==>
              Stream(c, data, n, 1)[i] == Xor(data[i], c.chacha20(n, 1 + i / 64)[i % 64])
  {
    hide Xor;
    hide Stream;
    forall i | 0 <= i < |data|
      ensures Stream(c, data, n, 1)[i] == Xor(data[i], c.chacha20(n, 1 + i / 64)[i % 64])
    {
      StreamAt(c, data, n, 1, i);
    }
  }

  lemma SealedBytes(c: Ciphers, h: seq<byte>, q: Packet)
    requires q.algo == ALGO_CHACHA20_POLY1305_2
    ensures var covered := h + [q.counter / 0x100, q.counter % 0x100] + Stream(c, q.payload, q.counter, 1);
            h + Body(c, h, q) == covered + c.poly1305(c.chacha20(q.counter, 0)[..32], covered)[..4]
  {
    hide Stream;
    var nonce, sealed := [q.counter / 0x100, q.counter % 0x100], Stream(c, q.payload, q.counter, 1);
    assert h + (nonce + sealed) == h + nonce + sealed;
    assert Body(c, h, q) == nonce + sealed + c.Mac(q.counter, h + (nonce + sealed));
    hide Body;
    var tag := c.Mac(q.counter, h + (nonce + sealed));
    assert h + (nonce + sealed + tag) == h + nonce + sealed + tag;
  }

  // ----- What a receiver takes -----

  /**
   * Whatever follows a header that announces encryption, in a frame that is not too long: it is taken exactly if
   * there is a payload and the last four bytes are those of the tag over all the rest. The payload comes back
   * by exclusive-or, or as zeros where the nonce is zero.
   */
  lemma TakenExactly(c: Ciphers, q: Packet, n: uint16, sealed: seq<byte>, tag: seq<byte>)
    requires IsAe(q.algo) && |tag| == 4
    requires |Header(q) + [n / 0x100, n % 0x100] + sealed + tag| <= 120
    ensures var covered := Header(q) + [n / 0x100, n % 0x100] + sealed;
            var got := Frame.Parse(c, covered + tag);
            && (got.Some? <==> sealed != [] && tag == c.poly1305(c.chacha20(n, 0)[..32], covered)[..4])
            && (got.Some? ==>
                  && got.value.counter == n && got.value.secType == SecAe && |got.value.payload| == |sealed|
                  && forall i :: 0 <= i < |sealed| ==>
                       got.value.payload[i] == if n == 0 then 0 else Xor(sealed[i], c.chacha20(n, 1 + i / 64)[i % 64]))
  {
    hide Header;
    hide Stream;
    hide Xor;
    var h, nonce := Header(q), [n / 0x100, n % 0x100];
    var rest := nonce + sealed + tag;
    assert h + nonce + sealed + tag == h + rest;
    SealedParsed(c, q, rest);
    BodyTaken(c, h, n, sealed, tag);
    hide ParseSealedBody;
    hide Frame.Parse;
    StreamIsXor(c, sealed, n);
  }

  /** The rest of such a frame is the body that is parsed. */
  lemma SealedParsed(c: Ciphers, q: Packet, rest: seq<byte>)
    requires IsAe(q.algo) && |Header(q) + rest| <= PACKET_SIZE
    ensures var b := ParseSealedBody(c, Header(q), rest, PACKET_SIZE);
            Frame.Parse(c, Header(q) + rest)
            == if b.BodyOk? && b.payload != []
               then Some(Packet(q.broadcast, if q.broadcast then 0 else q.dtid, q.stid, b.secType, q.algo, b.counter,
                                WireProto(q.algo, q.proto), b.payload))
               else None
  {
    hide Header;
    hide ParseHeader;
    hide ParseSealedBody;
    hide ParseCrcBody;
    hide WireProto;
    var h := Header(q);
    HeaderSize(q);
    HeaderRoundTrip(q, rest);
    assert (h + rest)[..|h|] == h && (h + rest)[|h|..] == rest;
  }

  lemma BodyTaken(c: Ciphers, h: seq<byte>, n: uint16, sealed: seq<byte>, tag: seq<byte>)
    requires |tag| == 4 && |sealed| <= PACKET_SIZE
    ensures var covered := h + [n / 0x100, n % 0x100] + sealed;
            ParseSealedBody(c, h, [n / 0x100, n % 0x100] + sealed + tag, PACKET_SIZE)
            == if tag == c.poly1305(c.chacha20(n, 0)[..32], covered)[..4]
               then BodyOk(SecAe, n, if n == 0 then Zeros(|sealed|) else Stream(c, sealed, n, 1))
               else BodyAeFailed
  {
    hide Stream;
    var nonce := [n / 0x100, n % 0x100];
    var rest := nonce + sealed + tag;
    assert Word16(rest[0], rest[1]) == n;
    SealedBody(c, h, rest, PACKET_SIZE);
    hide ParseSealedBody;
    assert rest[..|rest| - TAG_LEN] == nonce + sealed && rest[|rest| - TAG_LEN..] == tag;
    assert h + (nonce + sealed) == h + nonce + sealed;
    assert rest[2..|rest| - TAG_LEN] == sealed;
  }

  /** A TID of zero stands for none: having it makes no difference, and a packet for it goes to nobody. */
  lemma ZeroIsNobody(c: Ciphers, r: Receiver, s: seq<byte>)
    ensures Received(c, r, s) == Received(c, Receiver(r.tids + {0}, r.handlers), s)
    ensures Received(c, r, s).Some? && !Received(c, r, s).value.broadcast ==>
              Received(c, r, s).value.dtid != 0 && Received(c, r, s).value.dtid in r.tids
  {
    hide Frame.Parse;
  }

  // ----- Sequences of sends -----

  /** A packet to send, and the own TID at that time. */
  datatype Attempt = Attempt(p: Packet, own: uint32)

  function After(neighbors: map<uint32, uint16>, attempts: seq<Attempt>): map<uint32, uint16>
    decreases |attempts|
  {
    if attempts == [] then neighbors
    else After(NeighborsAfter(attempts[0].p, attempts[0].own, neighbors), attempts[1..])
  }

  /** The frame that the attempt with this number sends, if it sends one. */
  function FrameAt(c: Ciphers, neighbors: map<uint32, uint16>, attempts: seq<Attempt>, i: nat): Option<seq<byte>>
    requires i < |attempts|
  {
    var a, now := attempts[i], After(neighbors, attempts[..i]);
    if SendOutcome(a.p, a.own, now) == SendOk then Some(Build(c, Outgoing(a.p, a.own, now))) else None
  }

  /** How many of the attempts were for a neighbor, and had a source. */
  function Counted(attempts: seq<Attempt>, tid: uint32): nat {
    if attempts == [] then 0
    else
      var a := attempts[0];
      (if a.p.dtid == tid && (a.p.stid != 0 || a.own != 0) then 1 else 0) + Counted(attempts[1..], tid)
  }

  lemma {:induction false} CounterAfter(neighbors: map<uint32, uint16>, attempts: seq<Attempt>, tid: uint32)
    requires tid in neighbors
    ensures tid in After(neighbors, attempts)
    ensures After(neighbors, attempts)[tid] == (neighbors[tid] + Counted(attempts, tid)) % 0x1_0000
    decreases |attempts|
  {
    if attempts == [] {
    } else {
      var next := NeighborsAfter(attempts[0].p, attempts[0].own, neighbors);
      CounterAfter(next, attempts[1..], tid);
    }
  }

  lemma {:induction false} CountedConcat(first: seq<Attempt>, rest: seq<Attempt>, tid: uint32)
    ensures Counted(first + rest, tid) == Counted(first, tid) + Counted(rest, tid)
    decreases |first|
  {
    if first == [] {
      assert first + rest == rest;
    } else {
      assert (first + rest)[1..] == first[1..] + rest;
      CountedConcat(first[1..], rest, tid);
    }
  }

  /** Is this attempt a packet that goes out encrypted to the neighbor? */
  predicate Encrypts(c: Ciphers, neighbors: map<uint32, uint16>, attempts: seq<Attempt>, i: nat, tid: uint32) {
    && i < |attempts| && FrameAt(c, neighbors, attempts, i).Some?
    && attempts[i].p.secType == SecAe && attempts[i].p.dtid == tid && attempts[i].p.proto < 16
  }

  /** The two bytes after the header of such a frame. */
  function NonceBytes(c: Ciphers, neighbors: map<uint32, uint16>, attempts: seq<Attempt>, i: nat, tid: uint32)
    : seq<byte>
    requires Encrypts(c, neighbors, attempts, i, tid)
  {
    var f, h := FrameAt(c, neighbors, attempts, i).value, |HeaderBytes(attempts[i].p, attempts[i].own)|;
    if h + 2 <= |f| then f[h..h + 2] else []
  }

  /** The nonce that belongs to the packet with this number, most significant byte first. */
  function NonceOf(first: uint16, count: nat): seq<byte> {
    var n := (first + count) % 0x1_0000;
    [n / 0x100, n % 0x100]
  }

  /** They count the packets for that neighbor since its counter had its first value, modulo 2^16. */
  lemma NthNonce(c: Ciphers, neighbors: map<uint32, uint16>, attempts: seq<Attempt>, i: nat, tid: uint32)
    requires tid in neighbors && Encrypts(c, neighbors, attempts, i, tid)
    ensures NonceBytes(c, neighbors, attempts, i, tid) == NonceOf(neighbors[tid], Counted(attempts[..i], tid))
  {
    hide SendOutcome;
    hide After;
    hide Counted;
    hide HeaderBytes;
    hide Build;
    hide Outgoing;
    var a, now := attempts[i], After(neighbors, attempts[..i]);
    CounterAfter(neighbors, attempts[..i], tid);
    SentExactly(a.p, a.own, now);
    FrameNonce(c, a.p, a.own, now);
  }

  lemma FrameNonce(c: Ciphers, p: Packet, own: uint32, neighbors: map<uint32, uint16>)
    requires p.proto < 16 && p.secType == SecAe && |p.payload| <= 120
    ensures var f, h := Build(c, Outgoing(p, own, neighbors)), |HeaderBytes(p, own)|;
            var n := NonceFor(p, neighbors);
            h + 2 <= |f| && f[h..h + 2] == [n / 0x100, n % 0x100]
  {
    hide HeaderBytes;
    hide Build;
    hide Outgoing;
    hide NonceFor;
    var sealed := SealedFrame(c, p, own, neighbors);
  }

  /**
   * Over any sequence of sends, two encrypted frames to one neighbor carry the same nonce exactly when the number of
   * packets for it from the first of the two on, and before the second, is a multiple of 65536; so no two of 65536
   * in a row do.
   */
  lemma NonceReuseExactly(c: Ciphers, neighbors: map<uint32, uint16>, attempts: seq<Attempt>, i: nat, j: nat,
                          tid: uint32)
    requires tid in neighbors && i < j
    requires Encrypts(c, neighbors, attempts, i, tid) && Encrypts(c, neighbors, attempts, j, tid)
    ensures NonceBytes(c, neighbors, attempts, i, tid) == NonceBytes(c, neighbors, attempts, j, tid)
            <==> Counted(attempts[i..j], tid) % 0x1_0000 == 0
    ensures Counted(attempts[i..j], tid) > 0
  {
    hide NonceBytes;
    hide FrameAt;
    hide Counted;
    hide NonceOf;
    FirstCounts(c, neighbors, attempts, i, j, tid);
    NthNonce(c, neighbors, attempts, i, tid);
    NthNonce(c, neighbors, attempts, j, tid);
    assert attempts[..j] == attempts[..i] + attempts[i..j];
    CountedConcat(attempts[..i], attempts[i..j], tid);
    SameNonce(neighbors[tid], Counted(attempts[..i], tid), Counted(attempts[i..j], tid));
  }

  lemma FirstCounts(c: Ciphers, neighbors: map<uint32, uint16>, attempts: seq<Attempt>, i: nat, j: nat, tid: uint32)
    requires i < j <= |attempts| && Encrypts(c, neighbors, attempts, i, tid)
    ensures Counted(attempts[i..j], tid) > 0
  {
    hide Build;
    hide After;
    var a, now := attempts[i], After(neighbors, attempts[..i]);
    SentExactly(a.p, a.own, now);
    assert attempts[i..j][0] == a;
  }

  lemma SameNonce(first: uint16, count: nat, k: nat)
    ensures NonceOf(first, count) == NonceOf(first, count + k) <==> k % 0x1_0000 == 0
  {
    hide NonceOf;
    NonceBytesOf(first, count);
    NonceBytesOf(first, count + k);
    SameBytes((first + count) % 0x1_0000, (first + (count + k)) % 0x1_0000);
    SameResidue(first + count, k);
    assert first + (count + k) == first + count + k;
  }

  lemma NonceBytesOf(first: uint16, count: nat)
    ensures var n := (first + count) % 0x1_0000; NonceOf(first, count) == [n / 0x100, n % 0x100]
  {
  }

  lemma SameResidue(a: nat, k: nat)
    ensures a % 0x1_0000 == (a + k) % 0x1_0000 <==> k % 0x1_0000 == 0
  {
  }

  lemma SameBytes(m: uint16, n: uint16)
    ensures [m / 0x100, m % 0x100] == [n / 0x100, n % 0x100] <==> m == n
  {
    var x, y := [m / 0x100, m % 0x100], [n / 0x100, n % 0x100];
    assert x == y ==> x[0] == y[0] && x[1] == y[1];
  }
}
