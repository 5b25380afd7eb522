/**
 * Runs of two key exchange sessions over a network that loses, duplicates and reorders messages.
 * A message once sent may be delivered to the other side at any later time, any number of times
 * or never. Sessions step in any order; the random number generator is set.
 */
module AkeRuns {
  import opened Bytes
  import opened Ake3dh

  /** A session, the messages sent to it so far, and whether it had SH3 when its role was determined. */
  datatype Endpoint = Endpoint(s: State, inbox: set<Message>, sh3BeforeRole: bool)

  datatype System = System(a: Endpoint, b: Endpoint)

  datatype Event =
    | TickA(random: Key)
    | TickB(random: Key)
    | DeliverToA(m: Message)
    | DeliverToB(m: Message)

  function Messages(out: seq<Message>): set<Message> {
    set m | m in out
  }

  /** One iteration of the main task on one side. */
  function Tick(c: Primitives, e: Endpoint, random: Key): (r: (Endpoint, set<Message>)) {
    var (s', out) := Step(c, e.s, Some(random));
    (e.(s := AdvanceTimers(s', STEP_INTERVAL_MS),
        sh3BeforeRole := if e.s.sh1.None? && s'.sh1.Some? then e.s.sh3.Some? else e.sh3BeforeRole),
     Messages(out))
  }

  function Deliver(e: Endpoint, m: Message): Endpoint {
    if m in e.inbox then e.(s := Accept(e.s, m).0) else e
  }

  function Next(c: Primitives, y: System, e: Event): System {
    match e
    case TickA(k) =>
      var (a', out) := Tick(c, y.a, k);
      System(a', y.b.(inbox := y.b.inbox + out))
    case TickB(k) =>
      var (b', out) := Tick(c, y.b, k);
      System(y.a.(inbox := y.a.inbox + out), b')
    case DeliverToA(m) => y.(a := Deliver(y.a, m))
    case DeliverToB(m) => y.(b := Deliver(y.b, m))
  }

  function Run(c: Primitives, y: System, events: seq<Event>): System
    decreases |events|
  {
    if events == [] then y else Run(c, Next(c, y, events[0]), events[1..])
  }

  /** Both sides just started, each with an identity key pair of its own. */
  ghost predicate Initial(c: Primitives, y: System, role: Role) {
    && Fresh(c, y.a, role)
    && Fresh(c, y.b, role)
  }

  ghost predicate Fresh(c: Primitives, e: Endpoint, role: Role) {
    && e.s == Started(e.s.isk, c.Pub(e.s.isk), e.s.idGenerated, role)
    && e.inbox == {}
    && !e.sh3BeforeRole
  }

  // ----- The invariant of one side -----

  /** Messages on the way to a side are genuine: they carry the keys of the other side. */
  ghost predicate Genuine(m: Message, peer: State) {
    match m
    case EpkRequest => true
    case IpkRequest => true
    case EpkResponse(pk) => |pk| == 32 && peer.epk == Some(pk)
    case IpkResponse(pk, encrypted) => pk == Some(peer.ipk) && !encrypted
    case Unknown => false
  }

  ghost predicate OwnKeys(c: Primitives, s: State) {
    && s.ipk == c.Pub(s.isk)
    && (s.epk.Some? ==> s.esk.Some? && s.epk.value == c.Pub(s.esk.value))
    && (s.esk.Some? ==> s.idGenerated)
  }

  ghost predicate PeerKeys(me: Endpoint, peer: State) {
    && (forall m :: m in me.inbox ==> Genuine(m, peer))
    && (me.s.peerEpk.Some? ==> peer.epk == me.s.peerEpk)
    && (me.s.peerIpk.Some? ==> me.s.peerIpk.value == peer.ipk)
  }

  /** SH3 as the role of the side requires it. */
  ghost predicate ProperSh3(c: Primitives, s: State)
    requires s.sh3.Some?
  {
    if s.role == Bob then s.peerEpk.Some? && s.sh3.value == c.Mult(s.isk, s.peerEpk.value)
    else s.esk.Some? && s.peerIpk.Some? && s.sh3.value == c.Mult(s.esk.value, s.peerIpk.value)
  }

  /** SH3 as Alice computes it, whatever the role of the side turned out to be. */
  ghost predicate AliceSh3(c: Primitives, s: State)
    requires s.sh3.Some?
  {
    s.esk.Some? && s.peerIpk.Some? && s.sh3.value == c.Mult(s.esk.value, s.peerIpk.value)
  }

  ghost predicate Secrets(c: Primitives, me: Endpoint, role0: Role) {
    var s := me.s;
    && (s.sh1.None? ==>
          && s.role == role0 && s.sh2.None? && !me.sh3BeforeRole
          && (s.sh3.Some? ==> role0 == Alice && AliceSh3(c, s)))
    && (s.sh1.Some? ==>
          && s.epk.Some? && s.esk.Some? && s.peerEpk.Some?
          && s.sh1.value == c.Mult(s.esk.value, s.peerEpk.value)
          && s.role == RoleOf(s.epk.value, s.peerEpk.value)
          && (s.sh3.Some? ==> if me.sh3BeforeRole then AliceSh3(c, s) else ProperSh3(c, s)))
    && (me.sh3BeforeRole ==> s.sh3.Some? && role0 == Alice)
    && (s.sh2.Some? && s.role != Bob ==> s.peerEpk.Some? && s.sh2.value == c.Mult(s.isk, s.peerEpk.value))
    && (s.sh2.Some? && s.role == Bob ==>
          s.esk.Some? && s.peerIpk.Some? && s.sh2.value == c.Mult(s.esk.value, s.peerIpk.value))
  }

  ghost predicate Derived(c: Primitives, s: State) {
    && (s.master.Some? ==> s.sh1.Some? && s.sh2.Some? && s.sh3.Some?
                           && s.master.value == c.Master(s.sh1.value, s.sh2.value, s.sh3.value))
    && (s.keys.Some? ==> s.master.Some? && s.keys.value == TxRxOf(c, s.role, s.master.value))
    && s.result == if s.keys.Some? then ResultOk else ResultNone
  }

  ghost predicate Side(c: Primitives, me: Endpoint, peer: State, role0: Role) {
    && OwnKeys(c, me.s)
    && PeerKeys(me, peer)
    && Secrets(c, me, role0)
    && Derived(c, me.s)
  }

  ghost predicate Invariant(c: Primitives, y: System, role0: Role) {
    Side(c, y.a, y.b.s, role0) && Side(c, y.b, y.a.s, role0)
  }

  /** What a side never changes once it is set. */
  ghost predicate Keeps(s: State, s': State) {
    && s'.isk == s.isk && s'.ipk == s.ipk
    && (s.epk.Some? ==> s'.epk == s.epk)
    && (s.keys.Some? ==> s'.keys == s.keys && s'.result == s.result)
  }

  lemma SharedKeepsSecrets(c: Primitives, me: Endpoint, role0: Role)
    requires role0 != Bob
    requires OwnKeys(c, me.s) && Secrets(c, me, role0)
    requires me.s.epk.Some? && ComputeShared(c, me.s).Some?
    ensures var s' := ComputeShared(c, me.s).value;
            Secrets(c, me.(s := s', sh3BeforeRole := if me.s.sh1.None? then me.s.sh3.Some? && s'.sh1.Some?
                                                      else me.sh3BeforeRole), role0)
  {
  }

  /** A computed secret, and the role with SH1, are the only things that change. */
  lemma SharedChanges(c: Primitives, s: State)
    requires ComputeShared(c, s).Some?
    ensures var s' := ComputeShared(c, s).value;
            && s' == s.(role := s'.role, sh1 := s'.sh1, sh2 := s'.sh2, sh3 := s'.sh3)
            && (s.sh1.Some? ==> s'.sh1 == s.sh1 && s'.role == s.role)
            && (s.sh2.Some? ==> s'.sh2 == s.sh2)
            && (s.sh3.Some? ==> s'.sh3 == s.sh3)
  {
  }

  lemma SharedKeepsKeys(c: Primitives, me: Endpoint, peer: State)
    requires OwnKeys(c, me.s) && PeerKeys(me, peer)
    requires ComputeShared(c, me.s).Some?
    ensures var s' := ComputeShared(c, me.s).value;
            PeerKeys(me.(s := s'), peer) && OwnKeys(c, s')
  {
    hide ComputeShared;
    SharedChanges(c, me.s);
  }

  lemma SharedKeepsDerived(c: Primitives, s: State)
    requires Derived(c, s)
    requires ComputeShared(c, s).Some?
    ensures Derived(c, ComputeShared(c, s).value) && Keeps(s, ComputeShared(c, s).value)
  {
    hide ComputeShared;
    SharedChanges(c, s);
  }

  lemma KeysKeepDerived(c: Primitives, s: State)
    requires Derived(c, s)
    ensures Derived(c, ComputeKeys(c, s)) && Keeps(s, ComputeKeys(c, s))
    ensures SameSecrets(s, ComputeKeys(c, s))
  {
  }

  /** Everything but the master key, the TX and RX keys and the result. */
  ghost predicate SameSecrets(s: State, s': State) {
    s' == s.(master := s'.master, keys := s'.keys, result := s'.result)
  }

  lemma SameSecretsKeep(c: Primitives, me: Endpoint, peer: State, role0: Role, s': State)
    requires OwnKeys(c, me.s) && PeerKeys(me, peer) && Secrets(c, me, role0)
    requires SameSecrets(me.s, s')
    ensures OwnKeys(c, s') && PeerKeys(me.(s := s'), peer) && Secrets(c, me.(s := s'), role0)
  {
  }

  lemma KeysKeepSide(c: Primitives, me: Endpoint, peer: State, role0: Role)
    requires Side(c, me, peer, role0)
    ensures Side(c, me.(s := ComputeKeys(c, me.s)), peer, role0)
    ensures Keeps(me.s, ComputeKeys(c, me.s))
    ensures me.s.sh1 == ComputeKeys(c, me.s).sh1
  {
    hide ComputeKeys;
    hide OwnKeys;
    hide PeerKeys;
    hide Secrets;
    hide Derived;
    KeysKeepDerived(c, me.s);
    SameSecretsKeep(c, me, peer, role0, ComputeKeys(c, me.s));
  }

  lemma OutboundKeepsSide(c: Primitives, me: Endpoint, peer: State, role0: Role)
    requires Side(c, me, peer, role0)
    ensures Side(c, me.(s := Outbound(me.s).0), peer, role0)
    ensures Keeps(me.s, Outbound(me.s).0)
  {
  }

  lemma TimersKeepSide(c: Primitives, me: Endpoint, peer: State, role0: Role)
    requires Side(c, me, peer, role0)
    ensures Side(c, me.(s := AdvanceTimers(me.s, STEP_INTERVAL_MS)), peer, role0)
    ensures Keeps(me.s, AdvanceTimers(me.s, STEP_INTERVAL_MS))
  {
  }

  /** A side after a step, before its timers advance. */
  function Stepped(c: Primitives, me: Endpoint, k: Key): Endpoint {
    var s' := Step(c, me.s, Some(k)).0;
    me.(s := s', sh3BeforeRole := if me.s.sh1.None? && s'.sh1.Some? then me.s.sh3.Some? else me.sh3BeforeRole)
  }

  /** The steps that generate the ID or the ephemeral key pair do nothing else. */
  lemma Generates(c: Primitives, s: State, k: Key)
    requires OwnKeys(c, s)
    requires s.epk.None?
    ensures var s' := Step(c, s, Some(k)).0;
            && OwnKeys(c, s')
            && s' == s.(idGenerated := s'.idGenerated, esk := s'.esk, epk := s'.epk)
            && (s.esk.Some? ==> s'.esk == s.esk)
  {
  }

  lemma GenerateKeepsSide(c: Primitives, me: Endpoint, peer: State, role0: Role, k: Key)
    requires Side(c, me, peer, role0)
    requires me.s.epk.None?
    ensures Side(c, Stepped(c, me, k), peer, role0)
    ensures Keeps(me.s, Stepped(c, me, k).s)
  {
    hide Step;
    Generates(c, me.s, k);
  }

  lemma ComputeKeepsSide(c: Primitives, me: Endpoint, peer: State, role0: Role, k: Key)
    requires role0 != Bob
    requires Side(c, me, peer, role0)
    requires me.s.epk.Some?
    ensures Side(c, Stepped(c, me, k), peer, role0)
    ensures Keeps(me.s, Stepped(c, me, k).s)
  {
    OutboundKeepsSide(c, me, peer, role0);
    var out := me.(s := Outbound(me.s).0);
    assert out.s.sh1 == me.s.sh1 && out.s.sh3 == me.s.sh3 && out.s.epk == me.s.epk;
    assert Stepped(c, me, k).s == Compute(c, out.s);
    KeysKeepSide(c, out, peer, role0);
    if ComputeShared(c, out.s).Some? {
      hide ComputeShared;
      hide Outbound;
      SharedKeepsSecrets(c, out, role0);
      SharedKeepsKeys(c, out, peer);
      SharedKeepsDerived(c, out.s);
      hide OwnKeys;
      hide PeerKeys;
      hide Secrets;
      hide Derived;
    }
  }

  lemma TickKeepsMine(c: Primitives, me: Endpoint, peer: State, role0: Role, k: Key)
    requires role0 != Bob
    requires Side(c, me, peer, role0)
    ensures Side(c, Tick(c, me, k).0, peer, role0)
    ensures Keeps(me.s, Tick(c, me, k).0.s)
  {
    hide Step;
    hide Side;
    if me.s.epk.None? {
      GenerateKeepsSide(c, me, peer, role0, k);
    } else {
      ComputeKeepsSide(c, me, peer, role0, k);
    }
    TimersKeepSide(c, Stepped(c, me, k), peer, role0);
  }

  lemma TickSendsGenuine(c: Primitives, me: Endpoint, peer: State, role0: Role, k: Key)
    requires Side(c, me, peer, role0)
    ensures forall m :: m in Tick(c, me, k).1 ==> Genuine(m, Tick(c, me, k).0.s)
  {
  }

  /** The other side moving on, and sending genuine messages, does not disturb a side. */
  lemma PeerMoveKeepsMine(c: Primitives, me: Endpoint, peer: State, peer': State, out: set<Message>, role0: Role)
    requires Side(c, me, peer, role0)
    requires Keeps(peer, peer')
    requires forall m :: m in out ==> Genuine(m, peer')
    ensures Side(c, me.(inbox := me.inbox + out), peer', role0)
  {
  }

  lemma DeliverKeepsMine(c: Primitives, me: Endpoint, peer: State, role0: Role, m: Message)
    requires Side(c, me, peer, role0)
    ensures Side(c, Deliver(me, m), peer, role0)
    ensures Keeps(me.s, Deliver(me, m).s)
  {
    if m in me.inbox {
      assert Genuine(m, peer);
    }
  }

  lemma NextKeepsInvariant(c: Primitives, y: System, role0: Role, e: Event)
    requires role0 != Bob
    requires Invariant(c, y, role0)
    ensures Invariant(c, Next(c, y, e), role0)
    ensures Keeps(y.a.s, Next(c, y, e).a.s) && Keeps(y.b.s, Next(c, y, e).b.s)
  {
    match e
    case TickA(k) =>
      TickKeepsMine(c, y.a, y.b.s, role0, k);
      TickSendsGenuine(c, y.a, y.b.s, role0, k);
      PeerMoveKeepsMine(c, y.b, y.a.s, Tick(c, y.a, k).0.s, Tick(c, y.a, k).1, role0);
    case TickB(k) =>
      TickKeepsMine(c, y.b, y.a.s, role0, k);
      TickSendsGenuine(c, y.b, y.a.s, role0, k);
      PeerMoveKeepsMine(c, y.a, y.b.s, Tick(c, y.b, k).0.s, Tick(c, y.b, k).1, role0);
    case DeliverToA(m) =>
      DeliverKeepsMine(c, y.a, y.b.s, role0, m);
      PeerMoveKeepsMine(c, y.b, y.a.s, Deliver(y.a, m).s, {}, role0);
      assert y.b.(inbox := y.b.inbox + {}) == y.b;
    case DeliverToB(m) =>
      DeliverKeepsMine(c, y.b, y.a.s, role0, m);
      PeerMoveKeepsMine(c, y.a, y.b.s, Deliver(y.b, m).s, {}, role0);
      assert y.a.(inbox := y.a.inbox + {}) == y.a;
  }

  /** Every reachable state satisfies the invariant; keys and the result, once set, stay the same. */
  lemma {:induction false} RunKeepsInvariant(c: Primitives, y: System, role0: Role, events: seq<Event>)
    requires role0 != Bob
    requires Invariant(c, y, role0)
    ensures Invariant(c, Run(c, y, events), role0)
    ensures Keeps(y.a.s, Run(c, y, events).a.s) && Keeps(y.b.s, Run(c, y, events).b.s)
    decreases |events|
  {
    if events == [] {
    } else {
      NextKeepsInvariant(c, y, role0, events[0]);
      RunKeepsInvariant(c, Next(c, y, events[0]), role0, events[1..]);
    }
  }

  // ----- Key agreement -----

  ghost predicate Complete(y: System) {
    y.a.s.keys.Some? && y.b.s.keys.Some?
  }

  ghost predicate Agree(y: System)
    requires Complete(y)
  {
    && y.a.s.master == y.b.s.master
    && y.a.s.keys.value.tx == y.b.s.keys.value.rx
    && y.b.s.keys.value.tx == y.a.s.keys.value.rx
  }

  /** SHA-256 maps the secrets of a Bob who computed SH3 too early to the right master key anyway. */
  ghost predicate Collision(c: Primitives, s: State)
    requires s.esk.Some? && s.peerIpk.Some? && s.peerEpk.Some? && s.sh1.Some?
  {
    var x := c.Mult(s.esk.value, s.peerIpk.value);
    c.Master(s.sh1.value, x, x) == c.Master(s.sh1.value, x, c.Mult(s.isk, s.peerEpk.value))
  }

  lemma OrderedAgreement(c: Primitives, alice: Endpoint, bob: Endpoint, role0: Role)
    requires c.DiffieHellman()
    requires Side(c, alice, bob.s, role0) && Side(c, bob, alice.s, role0)
    requires alice.s.keys.Some? && bob.s.keys.Some?
    requires alice.s.role == Alice && bob.s.role == Bob
    ensures Agree(System(alice, bob)) <==> !bob.sh3BeforeRole || Collision(c, bob.s)
  {
    var a, b := alice.s, bob.s;
    assert a.sh1.value == b.sh1.value;
    assert a.sh2.value == c.Mult(b.esk.value, b.peerIpk.value) == b.sh2.value;
    assert a.sh3.value == c.Mult(b.isk, b.peerEpk.value);
  }

  /**
   * In every run that completes on both sides with different ephemeral keys, exactly one side is
   * Alice. The master keys agree and the TX key of each side is the RX key of the other if and
   * only if the side that is Bob determined its role before it computed SH3 (or SHA-256 collides).
   */
  lemma KeyAgreement(c: Primitives, y: System, role0: Role, events: seq<Event>)
    requires c.DiffieHellman()
    requires role0 != Bob
    requires Initial(c, y, role0)
    requires Complete(Run(c, y, events))
    requires Run(c, y, events).a.s.epk != Run(c, y, events).b.s.epk
    ensures var z := Run(c, y, events);
            var bob := if z.a.s.role == Bob then z.a else z.b;
            && {z.a.s.role, z.b.s.role} == {Alice, Bob}
            && bob.s.esk.Some? && bob.s.peerIpk.Some? && bob.s.peerEpk.Some? && bob.s.sh1.Some?
            && (Agree(z) <==> !bob.sh3BeforeRole || Collision(c, bob.s))
  {
    RunKeepsInvariant(c, y, role0, events);
    var z := Run(c, y, events);
    MemcmpAntisymmetric(z.a.s.epk.value, z.b.s.epk.value);
    if z.a.s.role == Bob {
      OrderedAgreement(c, z.b, z.a, role0);
    } else {
      OrderedAgreement(c, z.a, z.b, role0);
    }
  }

  /** With no role at the start, as the role type intends, agreement needs no condition on the order. */
  lemma RoleBeforeSecrets(c: Primitives, y: System, events: seq<Event>)
    requires c.DiffieHellman()
    requires Initial(c, y, RoleUnknown)
    requires Complete(Run(c, y, events))
    requires Run(c, y, events).a.s.epk != Run(c, y, events).b.s.epk
    ensures Agree(Run(c, y, events))
  {
    RunKeepsInvariant(c, y, RoleUnknown, events);
    KeyAgreement(c, y, RoleUnknown, events);
  }

  /**
   * With equal ephemeral keys both sides are Alice, and their keys fit exactly when their master
   * keys are equal and SHA-256 takes the TX and the RX input to one key.
   */
  lemma EqualEphemeralKeys(c: Primitives, y: System, role0: Role, events: seq<Event>)
    requires role0 != Bob
    requires Initial(c, y, role0)
    requires Complete(Run(c, y, events))
    requires Run(c, y, events).a.s.epk == Run(c, y, events).b.s.epk
    ensures var z := Run(c, y, events);
            && z.a.s.role == z.b.s.role == Alice
            && z.a.s.master.Some?
            && (Agree(z) <==> z.a.s.master == z.b.s.master
                              && c.First(z.a.s.master.value) == c.Second(z.a.s.master.value))
  {
    RunKeepsInvariant(c, y, role0, events);
    var z := Run(c, y, events);
    MemcmpAntisymmetric(z.a.s.epk.value, z.b.s.epk.value);
  }
}
