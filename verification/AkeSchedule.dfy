/**
 * The runs in which the default role breaks the key exchange: the IPK response reaches the side
 * that will be Bob before the EPK response does, and nothing is lost.
 */
module AkeSchedule {
  import opened Bytes
  import opened Ake3dh
  import opened AkeRuns
  import opened AkeProgress

  /** A side that has its ephemeral key pair and has heard nothing from its peer. */
  ghost predicate Idle(c: Primitives, e: Endpoint, esk: Key) {
    var s := e.s;
    && s.idGenerated && s.esk == Some(esk) && s.epk == Some(c.Pub(esk))
    && s.peerEpk.None? && s.peerIpk.None? && s.role == Alice
    && s.sh1.None? && s.sh2.None? && s.sh3.None? && s.master.None? && s.keys.None?
    && !e.sh3BeforeRole
  }

  ghost predicate BothIdle(c: Primitives, y: System, eskA: Key, eskB: Key) {
    Invariant(c, y, Alice) && Idle(c, y.a, eskA) && Idle(c, y.b, eskB)
  }

  function Other(who: Who): Who {
    if who == A then B else A
  }

  /** Both sides complete, but the given side is Bob and took SH2 for SH3. */
  ghost predicate Broken(z: System, bob: Who) {
    && Complete(z)
    && Of(z, Other(bob)).s.role == Alice && Of(z, bob).s.role == Bob
    && Of(z, bob).sh3BeforeRole
    && Of(z, bob).s.sh2.Some? && Of(z, bob).s.sh2 == Of(z, bob).s.sh3
  }

  lemma RunCons(c: Primitives, y: System, e: Event, rest: seq<Event>)
    ensures Run(c, y, [e] + rest) == Run(c, Next(c, y, e), rest)
  {
    assert ([e] + rest)[1..] == rest;
  }

  lemma {:induction false} RunConcat(c: Primitives, y: System, first: seq<Event>, rest: seq<Event>)
    ensures Run(c, y, first + rest) == Run(c, Run(c, y, first), rest)
    decreases |first|
  {
    hide Next;
    if first == [] {
      assert first + rest == rest;
    } else {
      RunConcat(c, Next(c, y, first[0]), first[1..], rest);
      assert (first + rest)[1..] == first[1..] + rest;
    }
  }

  // ----- The two sides exchanged -----

  function Mirror(y: System): System {
    System(y.b, y.a)
  }

  function MirrorEvent(e: Event): Event {
    match e
    case TickA(k) => TickB(k)
    case TickB(k) => TickA(k)
    case DeliverToA(m) => DeliverToB(m)
    case DeliverToB(m) => DeliverToA(m)
  }

  function MirrorEvents(events: seq<Event>): seq<Event> {
    if events == [] then [] else [MirrorEvent(events[0])] + MirrorEvents(events[1..])
  }

  lemma {:induction false} MirroredRun(c: Primitives, y: System, events: seq<Event>)
    ensures Run(c, Mirror(y), MirrorEvents(events)) == Mirror(Run(c, y, events))
    decreases |events|
  {
    hide Tick;
    hide Deliver;
    if events == [] {
    } else {
      var e := events[0];
      assert Next(c, Mirror(y), MirrorEvent(e)) == Mirror(Next(c, y, e));
      RunCons(c, Mirror(y), MirrorEvent(e), MirrorEvents(events[1..]));
      MirroredRun(c, Next(c, y, e), events[1..]);
    }
  }

  // ----- Nothing is lost -----

  /** What a message sent by an event needs in order to arrive. */
  function Arrivals(c: Primitives, y: System, e: Event): set<Event> {
    match e
    case TickA(k) => set m | m in Tick(c, y.a, k).1 :: DeliverToB(m)
    case TickB(k) => set m | m in Tick(c, y.b, k).1 :: DeliverToA(m)
    case _ => {}
  }

  /** Everything sent in the run is delivered later in it. */
  ghost predicate Delivered(c: Primitives, y: System, events: seq<Event>)
    decreases |events|
  {
    events == []
    || ((forall e :: e in Arrivals(c, y, events[0]) ==> e in events[1..])
        && Delivered(c, Next(c, y, events[0]), events[1..]))
  }

  function EpkAnswer(s: State): Message
    requires s.epk.Some?
  {
    EpkResponse(s.epk.value)
  }

  function IpkAnswer(s: State): Message {
    IpkResponse(Some(s.ipk), false)
  }

  /** Every message the sides ever send, once more to each side. */
  function Flush(z: System): seq<Event>
    requires z.a.s.epk.Some? && z.b.s.epk.Some?
  {
    [DeliverToA(EpkRequest), DeliverToA(IpkRequest), DeliverToA(EpkAnswer(z.b.s)), DeliverToA(IpkAnswer(z.b.s)),
     DeliverToB(EpkRequest), DeliverToB(IpkRequest), DeliverToB(EpkAnswer(z.a.s)), DeliverToB(IpkAnswer(z.a.s))]
  }

  predicate OnlyDeliveries(events: seq<Event>) {
    forall i :: 0 <= i < |events| ==> events[i].DeliverToA? || events[i].DeliverToB?
  }

  lemma {:induction false} DeliveriesSendNothing(c: Primitives, y: System, events: seq<Event>)
    requires OnlyDeliveries(events)
    ensures Delivered(c, y, events)
    decreases |events|
  {
    hide Next;
    if events == [] {
    } else {
      DeliveriesSendNothing(c, Next(c, y, events[0]), events[1..]);
    }
  }

  lemma FlushOnlyDelivers(z: System)
    requires z.a.s.epk.Some? && z.b.s.epk.Some?
    ensures OnlyDeliveries(Flush(z))
  {
  }

  lemma GenuineIsFlushed(y: System, z: System, m: Message)
    requires z.a.s.epk.Some? && z.b.s.epk.Some?
    requires Keeps(y.a.s, z.a.s) && Keeps(y.b.s, z.b.s)
    ensures Genuine(m, y.a.s) ==> DeliverToB(m) in Flush(z)
    ensures Genuine(m, y.b.s) ==> DeliverToA(m) in Flush(z)
  {
    var flush := Flush(z);
    assert DeliverToB(EpkRequest) in flush && DeliverToB(IpkRequest) in flush;
    assert DeliverToA(EpkRequest) in flush && DeliverToA(IpkRequest) in flush;
  }

  lemma ArrivalsFlushed(c: Primitives, y: System, role0: Role, e: Event, z: System)
    requires Invariant(c, y, role0)
    requires z.a.s.epk.Some? && z.b.s.epk.Some?
    requires Keeps(Next(c, y, e).a.s, z.a.s) && Keeps(Next(c, y, e).b.s, z.b.s)
    ensures forall d :: d in Arrivals(c, y, e) ==> d in Flush(z)
  {
    hide Tick;
    hide Flush;
    hide Genuine;
    hide Keeps;
    hide Side;
    var y' := Next(c, y, e);
    forall d | d in Arrivals(c, y, e)
      ensures d in Flush(z)
    {
      match e
      case TickA(k) =>
        TickSendsGenuine(c, y.a, y.b.s, role0, k);
        GenuineIsFlushed(y', z, d.m);
      case TickB(k) =>
        TickSendsGenuine(c, y.b, y.a.s, role0, k);
        GenuineIsFlushed(y', z, d.m);
      case _ =>
    }
  }

  lemma {:induction false} FlushDelivers(c: Primitives, y: System, role0: Role, events: seq<Event>)
    requires role0 != Bob && Invariant(c, y, role0)
    requires var z := Run(c, y, events); z.a.s.epk.Some? && z.b.s.epk.Some?
    ensures Delivered(c, y, events + Flush(Run(c, y, events)))
    decreases |events|
  {
    hide Next;
    hide Arrivals;
    hide Flush;
    var z := Run(c, y, events);
    var all := events + Flush(z);
    if events == [] {
      assert all == Flush(z);
      FlushOnlyDelivers(z);
      DeliveriesSendNothing(c, y, all);
    } else {
      var e, y' := events[0], Next(c, y, events[0]);
      NextKeepsInvariant(c, y, role0, e);
      RunKeepsInvariant(c, y', role0, events[1..]);
      ArrivalsFlushed(c, y, role0, e, z);
      FlushDelivers(c, y', role0, events[1..]);
      assert all[1..] == events[1..] + Flush(z);
    }
  }

  lemma {:induction false} RunKeepsOrder(c: Primitives, y: System, events: seq<Event>)
    requires y.b.s.sh1.Some?
    ensures Run(c, y, events).b.s.sh1.Some?
    ensures Run(c, y, events).b.sh3BeforeRole == y.b.sh3BeforeRole
    decreases |events|
  {
    if events == [] {
    } else {
      NextKeepsOrder(c, y, events[0]);
      RunKeepsOrder(c, Next(c, y, events[0]), events[1..]);
    }
  }

  lemma NextKeepsOrder(c: Primitives, y: System, e: Event)
    requires y.b.s.sh1.Some?
    ensures Next(c, y, e).b.s.sh1.Some? && Next(c, y, e).b.sh3BeforeRole == y.b.sh3BeforeRole
  {
  }

  function Alternate(n: nat): (events: seq<Event>)
    ensures Ticks(events, A) == n && Ticks(events, B) == n
  {
    if n == 0 then [] else
      var rest := Alternate(n - 1);
      assert ([TickB(ZERO_KEY)] + rest)[1..] == rest;
      assert ([TickA(ZERO_KEY), TickB(ZERO_KEY)] + rest)[1..] == [TickB(ZERO_KEY)] + rest;
      [TickA(ZERO_KEY), TickB(ZERO_KEY)] + rest
  }

  /** Both sides have all keys; A has the smaller ephemeral key. */
  ghost predicate Informed(c: Primitives, y: System) {
    && Invariant(c, y, Alice)
    && HasPeerKeys(y.a.s) && HasPeerKeys(y.b.s)
    && y.a.s.epk.Some? && y.b.s.epk.Some?
    && Memcmp(y.a.s.epk.value, y.b.s.epk.value) < 0
  }

  lemma FinishBoth(c: Primitives, y: System, rest: seq<Event>)
    requires Informed(c, y)
    requires y.b.s.sh1.Some? && y.b.sh3BeforeRole
    requires Ticks(rest, A) >= 5 && Ticks(rest, B) >= 5
    ensures Broken(Run(c, y, rest), B)
  {
    hide Run;
    hide Ticks;
    ReachesResult(c, y, Alice, A, rest);
    ReachesResult(c, y, Alice, B, rest);
    RunKeepsInvariant(c, y, Alice, rest);
    RunKeepsOrder(c, y, rest);
    MemcmpAntisymmetric(y.a.s.epk.value, y.b.s.epk.value);
  }

  /** Bob determines his role after he computed SH3; then both sides finish. */
  lemma FromEarlySh3(c: Primitives, y: System) returns (events: seq<Event>)
    requires Informed(c, y)
    requires y.b.s.sh1.None? && y.b.s.sh3.Some?
    ensures Broken(Run(c, y, events), B)
  {
    var e := TickB(ZERO_KEY);
    DeterminesRole(c, y);
    NextKeepsInvariant(c, y, Alice, e);
    TickMakesProgress(c, y, Alice, B, e);
    var rest := Alternate(5);
    FinishBoth(c, Next(c, y, e), rest);
    RunCons(c, y, e, rest);
    events := [e] + rest;
  }

  lemma DeterminesRole(c: Primitives, y: System)
    requires Informed(c, y)
    requires y.b.s.sh1.None? && y.b.s.sh3.Some?
    ensures var y' := Next(c, y, TickB(ZERO_KEY));
            y'.b.s.sh1.Some? && y'.b.sh3BeforeRole && HasPeerKeys(y'.a.s)
  {
  }

  ghost predicate Answered(c: Primitives, y: System, eskA: Key, eskB: Key) {
    && BothIdle(c, y, eskA, eskB)
    && {EpkAnswer(y.b.s), IpkAnswer(y.b.s)} <= y.a.inbox
    && {EpkAnswer(y.a.s), IpkAnswer(y.a.s)} <= y.b.inbox
  }

  /** The IPK response reaches B, which takes a step as Alice; the other responses come after. */
  lemma FromAnswers(c: Primitives, y: System, eskA: Key, eskB: Key) returns (events: seq<Event>)
    requires Answered(c, y, eskA, eskB)
    requires Memcmp(c.Pub(eskA), c.Pub(eskB)) < 0
    ensures Broken(Run(c, y, events), B)
  {
    var y1 := Next(c, y, DeliverToB(IpkAnswer(y.a.s)));
    NextKeepsInvariant(c, y, Alice, DeliverToB(IpkAnswer(y.a.s)));
    EarlySh3(c, y1);
    var y2 := Next(c, y1, TickB(ZERO_KEY));
    NextKeepsInvariant(c, y1, Alice, TickB(ZERO_KEY));
    var rest := FromRemainingAnswers(c, y2);
    RunCons(c, y1, TickB(ZERO_KEY), rest);
    RunCons(c, y, DeliverToB(IpkAnswer(y.a.s)), [TickB(ZERO_KEY)] + rest);
    events := [DeliverToB(IpkAnswer(y.a.s))] + ([TickB(ZERO_KEY)] + rest);
  }

  lemma EarlySh3(c: Primitives, y: System)
    requires y.b.s.idGenerated && y.b.s.esk.Some? && y.b.s.epk.Some? && y.b.s.role == Alice
    requires y.b.s.peerEpk.None? && y.b.s.peerIpk.Some? && y.b.s.sh1.None? && y.b.s.sh3.None?
    ensures var y' := Next(c, y, TickB(ZERO_KEY));
            && y'.b.s.sh1.None? && y'.b.s.sh3.Some?
            && y'.b.s.peerIpk.Some? && y'.b.s.epk == y.b.s.epk && y'.b.s.ipk == y.b.s.ipk
            && y'.b.inbox == y.b.inbox && y'.a.s == y.a.s && y.a.inbox <= y'.a.inbox
  {
  }

  lemma FromRemainingAnswers(c: Primitives, y: System) returns (events: seq<Event>)
    requires Invariant(c, y, Alice)
    requires y.a.s.epk.Some? && y.b.s.epk.Some?
    requires Memcmp(y.a.s.epk.value, y.b.s.epk.value) < 0
    requires {EpkAnswer(y.b.s), IpkAnswer(y.b.s)} <= y.a.inbox
    requires EpkAnswer(y.a.s) in y.b.inbox && y.b.s.peerIpk.Some?
    requires y.b.s.sh1.None? && y.b.s.sh3.Some?
    ensures Broken(Run(c, y, events), B)
  {
    var e1, e2, e3 := DeliverToB(EpkAnswer(y.a.s)), DeliverToA(IpkAnswer(y.b.s)), DeliverToA(EpkAnswer(y.b.s));
    var y1 := Next(c, y, e1);
    NextKeepsInvariant(c, y, Alice, e1);
    var y2 := Next(c, y1, e2);
    NextKeepsInvariant(c, y1, Alice, e2);
    var y3 := Next(c, y2, e3);
    NextKeepsInvariant(c, y2, Alice, e3);
    var rest := FromEarlySh3(c, y3);
    RunCons(c, y2, e3, rest);
    RunCons(c, y1, e2, [e3] + rest);
    RunCons(c, y, e1, [e2] + ([e3] + rest));
    events := [e1] + ([e2] + ([e3] + rest));
  }

  /** A side whose peer asked for both keys answers both in its next step. */
  lemma Answers(c: Primitives, me: Endpoint, esk: Key)
    requires Idle(c, me, esk)
    requires me.s.epkRequested && me.s.ipkRequested
    ensures var (me', out) := Tick(c, me, ZERO_KEY);
            Idle(c, me', esk) && {EpkAnswer(me.s), IpkAnswer(me.s)} <= out
            && me'.s.ipk == me.s.ipk && me'.inbox == me.inbox
  {
    assert EpkAnswer(me.s) in Responses(me.s) && IpkAnswer(me.s) in Responses(me.s);
  }

  lemma FromRequested(c: Primitives, y: System, eskA: Key, eskB: Key) returns (events: seq<Event>)
    requires BothIdle(c, y, eskA, eskB)
    requires y.a.s.epkRequested && y.a.s.ipkRequested && y.b.s.epkRequested && y.b.s.ipkRequested
    requires Memcmp(c.Pub(eskA), c.Pub(eskB)) < 0
    ensures Broken(Run(c, y, events), B)
  {
    var e1, e2 := TickA(ZERO_KEY), TickB(ZERO_KEY);
    Answers(c, y.a, eskA);
    Answers(c, y.b, eskB);
    var y1 := Next(c, y, e1);
    NextKeepsInvariant(c, y, Alice, e1);
    assert y1.b == y.b.(inbox := y1.b.inbox);
    Answers(c, y1.b, eskB);
    var y2 := Next(c, y1, e2);
    NextKeepsInvariant(c, y1, Alice, e2);
    var rest := FromAnswers(c, y2, eskA, eskB);
    RunCons(c, y1, e2, rest);
    RunCons(c, y, e1, [e2] + rest);
    events := [e1] + ([e2] + rest);
  }

  lemma FromRequests(c: Primitives, y: System, eskA: Key, eskB: Key) returns (events: seq<Event>)
    requires BothIdle(c, y, eskA, eskB)
    requires {EpkRequest, IpkRequest} <= y.a.inbox && {EpkRequest, IpkRequest} <= y.b.inbox
    requires Memcmp(c.Pub(eskA), c.Pub(eskB)) < 0
    ensures Broken(Run(c, y, events), B)
  {
    var e1, e2 := DeliverToA(EpkRequest), DeliverToA(IpkRequest);
    var e3, e4 := DeliverToB(EpkRequest), DeliverToB(IpkRequest);
    var y1 := Next(c, y, e1);
    NextKeepsInvariant(c, y, Alice, e1);
    var y2 := Next(c, y1, e2);
    NextKeepsInvariant(c, y1, Alice, e2);
    var y3 := Next(c, y2, e3);
    NextKeepsInvariant(c, y2, Alice, e3);
    var y4 := Next(c, y3, e4);
    NextKeepsInvariant(c, y3, Alice, e4);
    var rest := FromRequested(c, y4, eskA, eskB);
    RunCons(c, y3, e4, rest);
    RunCons(c, y2, e3, [e4] + rest);
    RunCons(c, y1, e2, [e3] + ([e4] + rest));
    RunCons(c, y, e1, [e2] + ([e3] + ([e4] + rest)));
    events := [e1] + ([e2] + ([e3] + ([e4] + rest)));
  }

  /** A side that just got its key pair asks for both keys of its peer in its next step. */
  lemma Asks(c: Primitives, me: Endpoint, esk: Key)
    requires Idle(c, me, esk)
    requires me.s.epkTimer.interval == 0 && me.s.ipkTimer.interval == 0
    ensures var (me', out) := Tick(c, me, ZERO_KEY);
            Idle(c, me', esk) && {EpkRequest, IpkRequest} <= out && me'.inbox == me.inbox
  {
    assert EpkRequest in Requests(me.s) && IpkRequest in Requests(me.s);
  }

  lemma FromKeys(c: Primitives, y: System, eskA: Key, eskB: Key) returns (events: seq<Event>)
    requires BothIdle(c, y, eskA, eskB)
    requires y.a.s.epkTimer.interval == 0 && y.a.s.ipkTimer.interval == 0
    requires y.b.s.epkTimer.interval == 0 && y.b.s.ipkTimer.interval == 0
    requires Memcmp(c.Pub(eskA), c.Pub(eskB)) < 0
    ensures Broken(Run(c, y, events), B)
  {
    var e1, e2 := TickA(ZERO_KEY), TickB(ZERO_KEY);
    Asks(c, y.a, eskA);
    var y1 := Next(c, y, e1);
    NextKeepsInvariant(c, y, Alice, e1);
    Asks(c, y1.b, eskB);
    var y2 := Next(c, y1, e2);
    NextKeepsInvariant(c, y1, Alice, e2);
    var rest := FromRequests(c, y2, eskA, eskB);
    RunCons(c, y1, e2, rest);
    RunCons(c, y, e1, [e2] + rest);
    events := [e1] + ([e2] + rest);
  }

  // ----- From the start -----

  /** A side that just started, whether it has a session ID or not. */
  ghost predicate Starting(c: Primitives, e: Endpoint) {
    && e.s == Started(e.s.isk, c.Pub(e.s.isk), e.s.idGenerated, Alice)
    && !e.sh3BeforeRole
  }

  /** A side has its ephemeral key pair and has not asked for anything. */
  ghost predicate HasKeys(c: Primitives, e: Endpoint, esk: Key) {
    && Idle(c, e, esk)
    && e.s.epkTimer.interval == 0 && e.s.ipkTimer.interval == 0
  }

  /** Generating the ID and the ephemeral key pair sends nothing. */
  lemma StartsUp(c: Primitives, y: System, esk: Key) returns (events: seq<Event>)
    requires Starting(c, y.a)
    ensures HasKeys(c, Run(c, y, events).a, esk)
    ensures Run(c, y, events).b == y.b
  {
    var id: seq<Event> := if y.a.s.idGenerated then [] else [TickA(ZERO_KEY)];
    var y0 := Run(c, y, id);
    StartedWithId(c, y, id);
    var e1, e2 := TickA(esk), TickA(ZERO_KEY);
    GeneratesKeys(c, y0, esk);
    RunConcat(c, y, id, [e1] + [e2]);
    RunCons(c, y0, e1, [e2]);
    RunCons(c, Next(c, y0, e1), e2, []);
    events := id + ([e1] + [e2]);
  }

  lemma StartedWithId(c: Primitives, y: System, id: seq<Event>)
    requires Starting(c, y.a)
    requires id == if y.a.s.idGenerated then [] else [TickA(ZERO_KEY)]
    ensures var y0 := Run(c, y, id);
            && y0.a.s.idGenerated && y0.a.s.esk.None? && y0.a.s.epk.None?
            && y0.a.s.(epkTimer := y.a.s.epkTimer, ipkTimer := y.a.s.ipkTimer)
               == y.a.s.(idGenerated := true)
            && y0.a.s.epkTimer.interval == 0 && y0.a.s.ipkTimer.interval == 0
            && !y0.a.sh3BeforeRole && y0.b == y.b
  {
    if !y.a.s.idGenerated {
      assert id[1..] == [];
      assert Tick(c, y.a, ZERO_KEY).1 == {};
    }
  }

  lemma GeneratesKeys(c: Primitives, y: System, esk: Key)
    requires y.a.s.idGenerated && y.a.s.esk.None? && y.a.s.epk.None? && y.a.s.role == Alice && !y.a.sh3BeforeRole
    requires y.a.s.peerEpk.None? && y.a.s.peerIpk.None? && y.a.s.sh1.None? && y.a.s.sh2.None? && y.a.s.sh3.None?
    requires y.a.s.master.None? && y.a.s.keys.None?
    requires y.a.s.epkTimer.interval == 0 && y.a.s.ipkTimer.interval == 0
    ensures var y' := Next(c, Next(c, y, TickA(esk)), TickA(ZERO_KEY));
            HasKeys(c, y'.a, esk) && y'.b == y.b
  {
    var y1 := Next(c, y, TickA(esk));
    assert Tick(c, y.a, esk).1 == {} && Tick(c, y1.a, ZERO_KEY).1 == {};
  }

  lemma FromStart(c: Primitives, y: System, eskA: Key, eskB: Key) returns (events: seq<Event>)
    requires Initial(c, y, Alice)
    requires Memcmp(c.Pub(eskA), c.Pub(eskB)) < 0
    ensures Broken(Run(c, y, events), B)
    ensures Run(c, y, events).a.s.esk == Some(eskA) && Run(c, y, events).b.s.esk == Some(eskB)
  {
    hide Run;
    var first := StartsUp(c, y, eskA);
    var y1 := Run(c, y, first);
    var mirrored := StartsUp(c, Mirror(y1), eskB);
    MirroredRun(c, Mirror(y1), mirrored);
    var second := MirrorEvents(mirrored);
    var y2 := Run(c, y1, second);
    RunKeepsInvariant(c, y, Alice, first);
    RunKeepsInvariant(c, y1, Alice, second);
    var rest := FromKeys(c, y2, eskA, eskB);
    RunKeepsSecretKeys(c, y2, rest);
    RunConcat(c, y1, second, rest);
    RunConcat(c, y, first, second + rest);
    events := first + (second + rest);
  }

  lemma {:induction false} RunKeepsSecretKeys(c: Primitives, y: System, events: seq<Event>)
    requires y.a.s.esk.Some? && y.b.s.esk.Some?
    ensures Run(c, y, events).a.s.esk == y.a.s.esk && Run(c, y, events).b.s.esk == y.b.s.esk
    decreases |events|
  {
    hide Next;
    if events == [] {
    } else {
      NextKeepsSecretKeys(c, y, events[0]);
      RunKeepsSecretKeys(c, Next(c, y, events[0]), events[1..]);
    }
  }

  lemma NextKeepsSecretKeys(c: Primitives, y: System, e: Event)
    requires y.a.s.esk.Some? && y.b.s.esk.Some?
    ensures Next(c, y, e).a.s.esk == y.a.s.esk && Next(c, y, e).b.s.esk == y.b.s.esk
  {
    hide Step;
    hide Accept;
    match e
    case TickA(k) => StepKeepsSecretKey(c, y.a.s, k);
    case TickB(k) => StepKeepsSecretKey(c, y.b.s, k);
    case DeliverToA(m) => AcceptChanges(y.a.s, m);
    case DeliverToB(m) => AcceptChanges(y.b.s, m);
  }

  lemma StepKeepsSecretKey(c: Primitives, s: State, k: Key)
    requires s.esk.Some?
    ensures Step(c, s, Some(k)).0.esk == s.esk
  {
    hide Compute;
    ComputeKeepsInputs(c, Outbound(s).0);
  }

  /** The side with the greater ephemeral key becomes Bob, whichever it is. */
  lemma FromEitherOrder(c: Primitives, y: System, eskA: Key, eskB: Key) returns (events: seq<Event>)
    requires Initial(c, y, Alice)
    requires c.Pub(eskA) != c.Pub(eskB)
    ensures Broken(Run(c, y, events), if Memcmp(c.Pub(eskA), c.Pub(eskB)) < 0 then B else A)
    ensures Run(c, y, events).a.s.esk == Some(eskA) && Run(c, y, events).b.s.esk == Some(eskB)
  {
    MemcmpAntisymmetric(c.Pub(eskA), c.Pub(eskB));
    if Memcmp(c.Pub(eskA), c.Pub(eskB)) < 0 {
      events := FromStart(c, y, eskA, eskB);
    } else {
      var mirrored := FromStart(c, Mirror(y), eskB, eskA);
      MirroredRun(c, Mirror(y), mirrored);
      events := MirrorEvents(mirrored);
    }
  }

  lemma {:induction false} DeliveriesKeepBroken(c: Primitives, y: System, bob: Who, events: seq<Event>)
    requires Broken(y, bob) && OnlyDeliveries(events)
    ensures Broken(Run(c, y, events), bob)
    ensures Run(c, y, events).a.s.esk == y.a.s.esk && Run(c, y, events).b.s.esk == y.b.s.esk
    decreases |events|
  {
    hide Next;
    hide Broken;
    if events == [] {
    } else {
      DeliveryKeepsBroken(c, y, bob, events[0]);
      DeliveriesKeepBroken(c, Next(c, y, events[0]), bob, events[1..]);
    }
  }

  lemma DeliveryKeepsBroken(c: Primitives, y: System, bob: Who, e: Event)
    requires Broken(y, bob) && (e.DeliverToA? || e.DeliverToB?)
    ensures Broken(Next(c, y, e), bob)
    ensures Next(c, y, e).a.s.esk == y.a.s.esk && Next(c, y, e).b.s.esk == y.b.s.esk
  {
    hide Accept;
    AcceptChanges(y.a.s, e.m);
    AcceptChanges(y.b.s, e.m);
  }

  /**
   * For all identity and ephemeral keys, if the ephemeral keys differ, and whoever starts, there is
   * a run that delivers everything it sends and completes on both sides with a Bob whose SH3 is
   * SH2, and whose keys do not fit unless SHA-256 collides.
   */
  lemma DefaultRoleBreaksRun(c: Primitives, y: System, eskA: Key, eskB: Key) returns (events: seq<Event>)
    requires c.DiffieHellman()
    requires Initial(c, y, Alice)
    requires c.Pub(eskA) != c.Pub(eskB)
    ensures Delivered(c, y, events)
    ensures var z := Run(c, y, events);
            var bob := if Memcmp(c.Pub(eskA), c.Pub(eskB)) < 0 then z.b else z.a;
            && z.a.s.esk == Some(eskA) && z.b.s.esk == Some(eskB)
            && Complete(z) && bob.s.role == Bob && bob.sh3BeforeRole
            && bob.s.sh2.Some? && bob.s.sh2 == bob.s.sh3
            && bob.s.esk.Some? && bob.s.peerIpk.Some? && bob.s.peerEpk.Some? && bob.s.sh1.Some?
            && (Agree(z) <==> Collision(c, bob.s))
  {
    var bob := if Memcmp(c.Pub(eskA), c.Pub(eskB)) < 0 then B else A;
    var main := FromEitherOrder(c, y, eskA, eskB);
    var x := Run(c, y, main);
    RunKeepsInvariant(c, y, Alice, main);
    var flush := Flush(x);
    FlushDelivers(c, y, Alice, main);
    FlushOnlyDelivers(x);
    DeliveriesKeepBroken(c, x, bob, flush);
    events := main + flush;
    RunConcat(c, y, main, flush);
    var z := Run(c, y, events);
    RunKeepsInvariant(c, y, Alice, events);
    hide Run;
    hide Flush;
    OrderedAgreement(c, Of(z, Other(bob)), Of(z, bob), Alice);
    assert Agree(z) <==> Agree(Mirror(z));
  }
}
