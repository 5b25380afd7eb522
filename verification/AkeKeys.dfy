/**
 * What a key exchange leaves each side with, over every run, said with the curve and the hash function
 * alone: the ephemeral key, the role, the master key and the TX and RX keys.
 */
module AkeKeys {
  import opened Bytes
  import opened Ake3dh
  import opened AkeRuns
  import opened AkeProgress
  import opened AkeSchedule

  /** The first byte in which two keys differ is smaller in a. */
  ghost predicate Smaller(a: seq<byte>, b: seq<byte>) {
    exists i :: 0 <= i < |a| && i < |b| && a[..i] == b[..i] && a[i] < b[i]
  }

  lemma {:induction false} MemcmpIsLexicographic(a: seq<byte>, b: seq<byte>)
    requires |a| == |b|
    ensures Memcmp(a, b) < 0 <==> Smaller(a, b)
    decreases |a|
  {
    if a == [] {
    } else {
      MemcmpIsLexicographic(a[1..], b[1..]);
      if a[0] < b[0] {
        assert a[..0] == b[..0];
      } else if a[0] == b[0] {
        if Smaller(a[1..], b[1..]) {
          var i :| 0 <= i < |a[1..]| && a[1..][..i] == b[1..][..i] && a[1..][i] < b[1..][i];
          assert a[..i + 1] == [a[0]] + a[1..][..i] && b[..i + 1] == [b[0]] + b[1..][..i];
        }
        if Smaller(a, b) {
          var i :| 0 <= i < |a| && a[..i] == b[..i] && a[i] < b[i];
          assert a[1..][..i - 1] == a[..i][1..] && b[1..][..i - 1] == b[..i][1..];
        }
      } else {
        SmallerHead(a, b);
      }
    }
  }

  lemma SmallerHead(a: seq<byte>, b: seq<byte>)
    requires |a| == |b| && a != []
    ensures Smaller(a, b) ==> a[0] <= b[0]
  {
    if Smaller(a, b) {
      var i :| 0 <= i < |a| && a[..i] == b[..i] && a[i] < b[i];
      if i > 0 {
        assert a[..i][0] == b[..i][0];
      }
    }
  }

  /** The master key, with the two products of an ephemeral and an identity key in the given order. */
  ghost predicate MasterIs(c: Primitives, s: State, sh2: Key, sh3: Key) {
    s.esk.Some? && s.peerEpk.Some? && s.master == Some(c.sha256(c.curve(s.esk.value, s.peerEpk.value) + sh2 + sh3))
  }

  /**
   * Whatever the network does, when a side has keys: they belong to key pairs on the curve, its own and those of its
   * peer; it is Alice unless the ephemeral key of its peer is smaller; its master key hashes the three products, and
   * the TX and RX keys hash the master key with the words "first" and "second". A side that is Bob with an SH3 from
   * before it was has the same product twice.
   */
  lemma KeysOfRun(c: Primitives, y: System, role0: Role, events: seq<Event>, who: Who)
    requires role0 != Bob && Initial(c, y, role0)
    requires Of(Run(c, y, events), who).s.keys.Some?
    ensures var me, peer := Of(Run(c, y, events), who).s, Of(Run(c, y, events), Other(who)).s;
            && me.isk == Of(y, who).s.isk && me.ipk == c.curve(me.isk, c.basepoint)
            && me.esk.Some? && me.epk == Some(c.curve(me.esk.value, c.basepoint))
            && me.peerEpk.Some? && me.peerEpk == peer.epk && me.peerIpk == Some(peer.ipk)
            && me.role == (if Smaller(me.peerEpk.value, me.epk.value) then Bob else Alice)
            && (me.role == Alice ==>
                  MasterIs(c, me, c.curve(me.isk, me.peerEpk.value), c.curve(me.esk.value, me.peerIpk.value)))
            && (me.role == Bob && !Of(Run(c, y, events), who).sh3BeforeRole ==>
                  MasterIs(c, me, c.curve(me.esk.value, me.peerIpk.value), c.curve(me.isk, me.peerEpk.value)))
            && (me.role == Bob && Of(Run(c, y, events), who).sh3BeforeRole ==>
                  MasterIs(c, me, c.curve(me.esk.value, me.peerIpk.value), c.curve(me.esk.value, me.peerIpk.value)))
            && me.master.Some?
            && var first := c.sha256(me.master.value + [0x66, 0x69, 0x72, 0x73, 0x74]);
               var second := c.sha256(me.master.value + [0x73, 0x65, 0x63, 0x6f, 0x6e, 0x64]);
               me.keys == Some(if me.role == Alice then TxRx(first, second) else TxRx(second, first))
  {
    var z := Run(c, y, events);
    var me, peer := Of(z, who).s, Of(z, Other(who)).s;
    RunKeepsInvariant(c, y, role0, events);
    hide Run;
    assert Side(c, Of(z, who), peer, role0);
    RoleIsOrder(me.epk.value, me.peerEpk.value);
  }

  lemma RoleIsOrder(epk: Key, peerEpk: Key)
    ensures RoleOf(epk, peerEpk) == if Smaller(peerEpk, epk) then Bob else Alice
  {
    MemcmpIsLexicographic(peerEpk, epk);
    MemcmpAntisymmetric(epk, peerEpk);
  }

  /**
   * In every run that completes on both sides with different ephemeral keys, both have one master key, the hash of
   * the products of the ephemeral keys, of Alice's identity key with Bob's ephemeral key, and of Alice's ephemeral key
   * with Bob's identity key, when the side that became Bob had no SH3 before.
   */
  lemma CommonMaster(c: Primitives, y: System, role0: Role, events: seq<Event>, alice: Who)
    requires forall a: Key, b: Key :: c.curve(a, c.curve(b, c.basepoint)) == c.curve(b, c.curve(a, c.basepoint))
    requires role0 != Bob && Initial(c, y, role0) && Complete(Run(c, y, events))
    requires var z := Run(c, y, events);
             && z.a.s.epk.Some? && z.b.s.epk.Some?
             && Smaller(Of(z, alice).s.epk.value, Of(z, Other(alice)).s.epk.value)
             && !Of(z, Other(alice)).sh3BeforeRole
    ensures var z := Run(c, y, events);
            var a, b := Of(z, alice).s, Of(z, Other(alice)).s;
            && a.esk.Some?
            && var m := c.sha256(c.curve(a.esk.value, b.epk.value) + c.curve(a.isk, b.epk.value)
                                 + c.curve(a.esk.value, b.ipk));
               var first := c.sha256(m + [0x66, 0x69, 0x72, 0x73, 0x74]);
               var second := c.sha256(m + [0x73, 0x65, 0x63, 0x6f, 0x6e, 0x64]);
               && a.master == b.master == Some(m)
               && a.keys == Some(TxRx(first, second)) && b.keys == Some(TxRx(second, first))
  {
    var z, bob := Run(c, y, events), Other(alice);
    var a, b := Of(z, alice).s, Of(z, bob).s;
    KeysOfRun(c, y, role0, events, alice);
    KeysOfRun(c, y, role0, events, bob);
    hide Run;
    assert Other(bob) == alice;
    MemcmpIsLexicographic(a.epk.value, b.epk.value);
    MemcmpIsLexicographic(b.epk.value, a.epk.value);
    MemcmpAntisymmetric(a.epk.value, b.epk.value);
    assert a.role == Alice && b.role == Bob;
    assert c.curve(b.esk.value, a.epk.value) == c.curve(a.esk.value, b.epk.value);
    assert c.curve(b.esk.value, a.ipk) == c.curve(a.isk, b.epk.value);
    assert c.curve(b.isk, a.epk.value) == c.curve(a.esk.value, b.ipk);
  }

  /**
   * A message is refused exactly if it carries no key of 32 bytes where one belongs or is none of the four kinds, and
   * then it changes nothing.
   */
  lemma RefusedExactly(s: State, m: Message)
    ensures Accept(s, m).1 == HandlerFailed
            <==> m.Unknown? || (m.EpkResponse? && |m.ephemeralPk| != 32)
                 || (m.IpkResponse? && if m.identityPk.Some? then |m.identityPk.value| != 32
                                       else !m.hasEncryptedIdentityPk)
    ensures Accept(s, m).1 == HandlerFailed ==> Accept(s, m).0 == s
    ensures m.EpkResponse? && |m.ephemeralPk| == 32 ==> Accept(s, m).0 == s.(peerEpk := Some(m.ephemeralPk))
    ensures m.IpkResponse? && m.identityPk.Some? && |m.identityPk.value| == 32 ==>
              Accept(s, m).0 == s.(peerIpk := Some(m.identityPk.value))
  {
    match m
    case EpkRequest =>
    case EpkResponse(_) =>
    case IpkRequest =>
    case IpkResponse(_, _) =>
    case Unknown =>
  }
}
