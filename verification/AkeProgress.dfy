/** How fast a key exchange session finishes, and how often it asks for the keys of its peer. */
module AkeProgress {
  import opened Bytes
  import opened Ake3dh
  import opened AkeRuns

  // ----- Progress -----

  function One(missing: bool): nat {
    if missing then 1 else 0
  }

  /** How many of the eight things a session sets, one a step, are not set yet. */
  function Missing(s: State): nat {
    One(!s.idGenerated) + One(s.esk.None?) + One(s.epk.None?) + One(s.sh1.None?)
    + One(s.sh2.None?) + One(s.sh3.None?) + One(s.master.None?) + One(s.keys.None?)
  }

  predicate HasPeerKeys(s: State) {
    s.peerEpk.Some? && s.peerIpk.Some?
  }

  /** Once it has both keys of its peer, a session sets exactly one missing thing a step. */
  lemma StepProgress(c: Primitives, me: Endpoint, peer: State, role0: Role, k: Key)
    requires role0 != Bob
    requires Side(c, me, peer, role0)
    requires HasPeerKeys(me.s)
    ensures HasPeerKeys(Tick(c, me, k).0.s)
    ensures Missing(Tick(c, me, k).0.s) == if Missing(me.s) == 0 then 0 else Missing(me.s) - 1
  {
    var s := Outbound(me.s).0;
    assert Missing(s) == Missing(me.s);
    if me.s.epk.Some? {
      var shared := ComputeShared(c, s);
      assert s.sh1.Some? ==> s.role == RoleOf(s.epk.value, s.peerEpk.value);
      if shared.Some? {
        assert Missing(shared.value) == Missing(s) - 1;
      }
    }
  }

  datatype Who = A | B

  function Of(y: System, who: Who): Endpoint {
    if who == A then y.a else y.b
  }

  predicate IsTickOf(e: Event, who: Who) {
    if who == A then e.TickA? else e.TickB?
  }

  function Ticks(events: seq<Event>, who: Who): nat {
    if events == [] then 0 else One(IsTickOf(events[0], who)) + Ticks(events[1..], who)
  }

  /** A received message asks for an answer or gives a peer key, and changes nothing else. */
  lemma AcceptChanges(s: State, m: Message)
    ensures var s' := Accept(s, m).0;
            && s' == s.(epkRequested := s'.epkRequested, ipkRequested := s'.ipkRequested,
                        peerEpk := s'.peerEpk, peerIpk := s'.peerIpk)
            && (s.peerEpk.Some? ==> s'.peerEpk.Some?) && (s.peerIpk.Some? ==> s'.peerIpk.Some?)
  {
    match m
    case EpkRequest =>
    case EpkResponse(_) =>
    case IpkRequest =>
    case IpkResponse(_, _) =>
    case Unknown =>
  }

  lemma AcceptKeepsMissing(s: State, m: Message)
    requires HasPeerKeys(s)
    ensures HasPeerKeys(Accept(s, m).0) && Missing(Accept(s, m).0) == Missing(s)
  {
    hide Accept;
    AcceptChanges(s, m);
  }

  lemma OthersKeepMissing(c: Primitives, y: System, who: Who, e: Event)
    requires HasPeerKeys(Of(y, who).s)
    requires !IsTickOf(e, who)
    ensures HasPeerKeys(Of(Next(c, y, e), who).s)
    ensures Missing(Of(Next(c, y, e), who).s) == Missing(Of(y, who).s)
  {
    hide Step;
    hide Accept;
    hide Missing;
    match e
    case TickA(_) =>
    case TickB(_) =>
    case DeliverToA(m) => if who == A { AcceptKeepsMissing(y.a.s, m); }
    case DeliverToB(m) => if who == B { AcceptKeepsMissing(y.b.s, m); }
  }

  lemma TickMakesProgress(c: Primitives, y: System, role0: Role, who: Who, e: Event)
    requires role0 != Bob
    requires Invariant(c, y, role0)
    requires HasPeerKeys(Of(y, who).s)
    requires IsTickOf(e, who)
    ensures HasPeerKeys(Of(Next(c, y, e), who).s)
    ensures Missing(Of(Next(c, y, e), who).s)
            == if Missing(Of(y, who).s) == 0 then 0 else Missing(Of(y, who).s) - 1
  {
    hide Tick;
    hide Missing;
    StepProgress(c, Of(y, who), if who == A then y.b.s else y.a.s, role0, e.random);
  }

  /**
   * However the network and the other side behave meanwhile, a side that has both keys of its
   * peer finishes with result OK within as many of its own steps as it misses things: five, when
   * its own ephemeral key is there.
   */
  lemma {:induction false} ReachesResult(c: Primitives, y: System, role0: Role, who: Who, events: seq<Event>)
    requires role0 != Bob
    requires Invariant(c, y, role0)
    requires HasPeerKeys(Of(y, who).s)
    requires Ticks(events, who) >= Missing(Of(y, who).s)
    ensures Of(Run(c, y, events), who).s.keys.Some?
    ensures Of(Run(c, y, events), who).s.result == ResultOk
    ensures Of(y, who).s.epk.Some? ==> Missing(Of(y, who).s) <= 5
    decreases |events|
  {
    hide Next;
    if events == [] {
    } else {
      NextKeepsInvariant(c, y, role0, events[0]);
      if IsTickOf(events[0], who) {
        TickMakesProgress(c, y, role0, who, events[0]);
      } else {
        OthersKeepMissing(c, y, who, events[0]);
      }
      ReachesResult(c, Next(c, y, events[0]), role0, who, events[1..]);
    }
  }

  // ----- Request back-off -----

  datatype Kind = Ephemeral | Identity

  function RequestOf(kind: Kind): Message {
    if kind == Ephemeral then EpkRequest else IpkRequest
  }

  function TimerOf(s: State, kind: Kind): Timer {
    if kind == Ephemeral then s.epkTimer else s.ipkTimer
  }

  predicate Unanswered(s: State, kind: Kind) {
    if kind == Ephemeral then s.peerEpk.None? else s.peerIpk.None?
  }

  datatype LocalEvent = LocalTick(random: Key) | LocalReceive(m: Message)

  /** A session with the requests of one kind it has sent, and the time of its last step since the first of them. */
  datatype Log = Log(s: State, sent: nat, elapsed: nat)

  function Observe(c: Primitives, g: Log, kind: Kind, e: LocalEvent): Log {
    match e
    case LocalTick(k) =>
      var (s', out) := Step(c, g.s, Some(k));
      Log(AdvanceTimers(s', STEP_INTERVAL_MS),
          g.sent + multiset(out)[RequestOf(kind)],
          if g.sent == 0 then 0 else g.elapsed + STEP_INTERVAL_MS)
    case LocalReceive(m) => g.(s := Accept(g.s, m).0)
  }

  function ObserveAll(c: Primitives, g: Log, kind: Kind, events: seq<LocalEvent>): Log
    decreases |events|
  {
    if events == [] then g else ObserveAll(c, Observe(c, g, kind, events[0]), kind, events[1..])
  }

  /** The time of the n-th request, counted from the first one: 0, 200, 600, 1400, 3000, 5000, ... */
  function RequestTime(n: nat): nat
    requires n > 0
  {
    if n == 1 then 0 else if n == 2 then 200 else if n == 3 then 600 else if n == 4 then 1400
    else 3000 + 2000 * (n - 5)
  }

  /** A timer whose interval and time fit a number of requests and the time since the first of them. */
  ghost predicate OnTime(t: Timer, sent: nat, elapsed: nat) {
    if sent == 0 then t.interval == 0
    else && t.interval == RequestTime(sent + 1) - RequestTime(sent)
         && t.time - STEP_INTERVAL_MS == elapsed - RequestTime(sent)
         && 0 <= t.time - STEP_INTERVAL_MS < t.interval
         && t.time % STEP_INTERVAL_MS == 0
  }

  predicate Ready(s: State) {
    s.idGenerated && s.esk.Some? && s.epk.Some?
  }

  ghost predicate Paced(g: Log, kind: Kind) {
    && (g.sent > 0 ==> Ready(g.s) && RequestTime(g.sent) <= g.elapsed)
    && (Unanswered(g.s, kind) ==> OnTime(TimerOf(g.s, kind), g.sent, g.elapsed))
  }

  lemma TimerKeepsPace(t: Timer, sent: nat, elapsed: nat)
    requires OnTime(t, sent, elapsed)
    ensures var elapsed' := if sent == 0 then 0 else elapsed + STEP_INTERVAL_MS;
            if Due(t) then OnTime(Advance(AfterRequest(t), STEP_INTERVAL_MS), sent + 1, elapsed')
                           && RequestTime(sent + 1) <= elapsed'
            else sent > 0 && OnTime(Advance(t, STEP_INTERVAL_MS), sent, elapsed')
  {
  }

  ghost predicate SameInputs(s: State, s': State) {
    && s'.epkTimer == s.epkTimer && s'.ipkTimer == s.ipkTimer
    && s'.peerEpk == s.peerEpk && s'.peerIpk == s.peerIpk
    && s'.idGenerated == s.idGenerated && s'.esk == s.esk && s'.epk == s.epk
  }

  lemma ComputeKeepsInputs(c: Primitives, s: State)
    ensures SameInputs(s, Compute(c, s))
  {
    if ComputeShared(c, s).Some? {
      hide ComputeShared;
      hide ComputeKeys;
      SharedChanges(c, s);
    } else {
      hide ComputeShared;
    }
  }

  lemma CountRequests(s: State, kind: Kind)
    ensures multiset(Requests(s) + Responses(s))[RequestOf(kind)]
            == if Unanswered(s, kind) && Due(TimerOf(s, kind)) then 1 else 0
  {
    assert multiset(Requests(s) + Responses(s)) == multiset(Requests(s)) + multiset(Responses(s));
  }

  lemma OutboundTimers(s: State, kind: Kind)
    ensures var (s', out) := Outbound(s);
            var sends := Unanswered(s, kind) && Due(TimerOf(s, kind));
            && out == Requests(s) + Responses(s)
            && TimerOf(s', kind) == (if sends then AfterRequest(TimerOf(s, kind)) else TimerOf(s, kind))
            && Unanswered(s', kind) == Unanswered(s, kind)
            && Ready(s') == Ready(s)
  {
    hide AfterRequest;
    hide Due;
    hide Requests;
    hide Responses;
  }

  lemma OneRequestAStep(c: Primitives, s: State, kind: Kind, k: Key)
    requires Ready(s)
    ensures var (s', out) := Step(c, s, Some(k));
            var sends := Unanswered(s, kind) && Due(TimerOf(s, kind));
            && multiset(out)[RequestOf(kind)] == (if sends then 1 else 0)
            && TimerOf(s', kind) == (if sends then AfterRequest(TimerOf(s, kind)) else TimerOf(s, kind))
            && Unanswered(s', kind) == Unanswered(s, kind)
            && Ready(s')
  {
    hide Compute;
    assert Step(c, s, Some(k)) == (Compute(c, Outbound(s).0), Outbound(s).1);
    hide Step;
    hide Outbound;
    hide AfterRequest;
    hide Due;
    CountRequests(s, kind);
    OutboundTimers(s, kind);
    ComputeKeepsInputs(c, Outbound(s).0);
  }

  lemma StepKeepsPace(c: Primitives, g: Log, kind: Kind, k: Key)
    requires Paced(g, kind) && Ready(g.s)
    ensures Paced(Observe(c, g, kind, LocalTick(k)), kind)
  {
    hide Step;
    hide AfterRequest;
    hide RequestTime;
    hide OnTime;
    hide Due;
    OneRequestAStep(c, g.s, kind, k);
    var t := TimerOf(g.s, kind);
    assert TimerOf(AdvanceTimers(Step(c, g.s, Some(k)).0, STEP_INTERVAL_MS), kind)
           == Advance(TimerOf(Step(c, g.s, Some(k)).0, kind), STEP_INTERVAL_MS);
    hide Advance;
    if Unanswered(g.s, kind) {
      TimerKeepsPace(t, g.sent, g.elapsed);
    }
  }

  /** Before the ephemeral key pair is there a session only waits. */
  lemma GenerationKeepsPace(c: Primitives, g: Log, kind: Kind, k: Key)
    requires Paced(g, kind) && !Ready(g.s)
    ensures Paced(Observe(c, g, kind, LocalTick(k)), kind)
  {
    hide RequestTime;
    hide Outbound;
    hide Compute;
    assert g.sent == 0;
    GenerationIsSilent(c, g.s, k);
  }

  lemma GenerationIsSilent(c: Primitives, s: State, k: Key)
    requires !Ready(s)
    ensures var (s', out) := Step(c, s, Some(k));
            && out == [] && s'.epkTimer == s.epkTimer && s'.ipkTimer == s.ipkTimer
            && s'.peerEpk == s.peerEpk && s'.peerIpk == s.peerIpk
  {
  }

  lemma ReceiptKeepsPace(c: Primitives, g: Log, kind: Kind, m: Message)
    requires Paced(g, kind)
    ensures Paced(Observe(c, g, kind, LocalReceive(m)), kind)
  {
    hide Accept;
    hide RequestTime;
    hide OnTime;
    AcceptChanges(g.s, m);
  }

  lemma ObserveKeepsPace(c: Primitives, g: Log, kind: Kind, e: LocalEvent)
    requires Paced(g, kind)
    ensures Paced(Observe(c, g, kind, e), kind)
  {
    hide Observe;
    hide Paced;
    match e
    case LocalTick(k) =>
      if Ready(g.s) {
        StepKeepsPace(c, g, kind, k);
      } else {
        GenerationKeepsPace(c, g, kind, k);
      }
    case LocalReceive(m) => ReceiptKeepsPace(c, g, kind, m);
  }

  lemma PaceBoundsRequests(g: Log, kind: Kind)
    requires Paced(g, kind)
    ensures g.sent <= 4 + g.elapsed / 2000
    ensures g.sent > 0 && Unanswered(g.s, kind) ==> RequestTime(g.sent) <= g.elapsed < RequestTime(g.sent + 1)
  {
  }

  lemma {:induction false} RunKeepsPace(c: Primitives, g: Log, kind: Kind, events: seq<LocalEvent>)
    requires Paced(g, kind)
    ensures Paced(ObserveAll(c, g, kind, events), kind)
    decreases |events|
  {
    if events == [] {
    } else {
      ObserveKeepsPace(c, g, kind, events[0]);
      RunKeepsPace(c, Observe(c, g, kind, events[0]), kind, events[1..]);
    }
  }

  lemma StartIsPaced(isk: Key, ipk: Key, hasId: bool, kind: Kind)
    ensures Paced(Log(Started(isk, ipk, hasId, Alice), 0, 0), kind)
  {
  }

  /**
   * In every run of a session, T ms after its first request of a kind it has sent at most
   * 4 + T / 2000 of them; while no answer comes it has sent exactly those whose time has come.
   */
  lemma BackOff(c: Primitives, isk: Key, ipk: Key, hasId: bool, kind: Kind, events: seq<LocalEvent>)
    ensures var z := ObserveAll(c, Log(Started(isk, ipk, hasId, Alice), 0, 0), kind, events);
            && z.sent <= 4 + z.elapsed / 2000
            && (z.sent > 0 && Unanswered(z.s, kind) ==> RequestTime(z.sent) <= z.elapsed < RequestTime(z.sent + 1))
  {
    hide ObserveAll;
    hide Paced;
    hide RequestTime;
    hide Started;
    hide Unanswered;
    var g := Log(Started(isk, ipk, hasId, Alice), 0, 0);
    StartIsPaced(isk, ipk, hasId, kind);
    RunKeepsPace(c, g, kind, events);
    PaceBoundsRequests(ObserveAll(c, g, kind, events), kind);
  }
}
