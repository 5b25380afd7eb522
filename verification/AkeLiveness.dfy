/**
 * That both sides finish: from every reachable state, once what the two sides send arrives, both have
 * their keys and the result OK within a fixed number of rounds.
 */
module AkeLiveness {
  import opened Bytes
  import opened Ake3dh
  import opened AkeRuns
  import opened AkeProgress
  import opened AkeSchedule

  // ----- Events as one side sees them -----

  function DeliverTo(who: Who, m: Message): Event {
    if who == A then DeliverToA(m) else DeliverToB(m)
  }

  predicate IsDeliveryTo(e: Event, who: Who) {
    if who == A then e.DeliverToA? else e.DeliverToB?
  }

  lemma NextOf(c: Primitives, y: System, e: Event, who: Who)
    ensures var y', o := Next(c, y, e), Other(who);
            && (IsTickOf(e, who) ==>
                  var (s', out) := Tick(c, Of(y, who), e.random);
                  Of(y', who) == s' && Of(y', o) == Of(y, o).(inbox := Of(y, o).inbox + out))
            && (IsDeliveryTo(e, who) ==> Of(y', who) == Deliver(Of(y, who), e.m) && Of(y', o) == Of(y, o))
    ensures IsTickOf(e, who) || IsTickOf(e, Other(who)) || IsDeliveryTo(e, who) || IsDeliveryTo(e, Other(who))
    ensures Other(Other(who)) == who
  {
    hide Tick;
    hide Deliver;
  }

  lemma SentArrives(c: Primitives, y: System, e: Event, who: Who, m: Message)
    requires IsTickOf(e, who) && m in Tick(c, Of(y, who), e.random).1
    ensures DeliverTo(Other(who), m) in Arrivals(c, y, e)
    ensures m in Of(Next(c, y, e), Other(who)).inbox
  {
    hide Tick;
    NextOf(c, y, e, who);
  }

  /** What a tick does not change: an endpoint keeps its inbox, its key pair, its peer's keys and what was asked. */
  lemma InboxGrows(c: Primitives, y: System, e: Event, who: Who)
    ensures Of(y, who).inbox <= Of(Next(c, y, e), who).inbox
  {
    hide Step;
    hide Accept;
    NextOf(c, y, e, who);
    NextOf(c, y, e, Other(who));
  }

  // ----- One step of one side -----

  predicate Requested(s: State, kind: Kind) {
    if kind == Ephemeral then s.epkRequested else s.ipkRequested
  }

  function AnswerOf(s: State, kind: Kind): Message
    requires s.epk.Some?
  {
    if kind == Ephemeral then EpkAnswer(s) else IpkAnswer(s)
  }

  predicate IsAnswer(m: Message, kind: Kind) {
    if kind == Ephemeral then m.EpkResponse? && |m.ephemeralPk| == 32
    else m.IpkResponse? && m.identityPk.Some? && |m.identityPk.value| == 32
  }

  lemma StepSends(c: Primitives, s: State, kind: Kind, k: Key)
    requires Ready(s)
    ensures Unanswered(s, kind) && Due(TimerOf(s, kind)) ==> RequestOf(kind) in Step(c, s, Some(k)).1
    ensures Requested(s, kind) ==>
              AnswerOf(s, kind) in Step(c, s, Some(k)).1 && IsAnswer(AnswerOf(s, kind), kind)
  {
    hide Compute;
    hide Due;
    var out := Requests(s) + Responses(s);
    assert Step(c, s, Some(k)).1 == out;
    if Unanswered(s, kind) && Due(TimerOf(s, kind)) {
      assert RequestOf(kind) in Requests(s);
    }
    if Requested(s, kind) {
      assert AnswerOf(s, kind) in Responses(s);
    }
  }

  /** The timer of a request that is not due only advances. */
  lemma StepWaits(c: Primitives, s: State, kind: Kind, k: Key)
    requires Ready(s)
    ensures var s' := Step(c, s, Some(k)).0;
            && Ready(s') && Unanswered(s', kind) == Unanswered(s, kind)
            && (Unanswered(s, kind) && !Due(TimerOf(s, kind)) ==> TimerOf(s', kind) == TimerOf(s, kind))
  {
    hide Step;
    hide Due;
    hide AfterRequest;
    OneRequestAStep(c, s, kind, k);
  }

  /** How many of the ID and the two halves of the ephemeral key pair are missing. */
  function Ungenerated(s: State): nat {
    One(!s.idGenerated) + One(s.esk.None?) + One(s.epk.None?)
  }

  lemma StepGenerates(c: Primitives, s: State, k: Key)
    requires !Ready(s)
    ensures Ungenerated(Step(c, s, Some(k)).0) <= Ungenerated(s) - 1
  {
  }

  lemma AcceptTakes(s: State, m: Message, kind: Kind)
    ensures IsAnswer(m, kind) ==> !Unanswered(Accept(s, m).0, kind)
    ensures m == RequestOf(kind) ==> Requested(Accept(s, m).0, kind)
    ensures Requested(s, kind) ==> Requested(Accept(s, m).0, kind)
    ensures !Unanswered(s, kind) ==> !Unanswered(Accept(s, m).0, kind)
  {
    match m
    case EpkRequest =>
    case EpkResponse(_) =>
    case IpkRequest =>
    case IpkResponse(_, _) =>
    case Unknown =>
  }

  // ----- One event -----

  lemma ReadyStays(c: Primitives, y: System, e: Event, who: Who)
    requires Ready(Of(y, who).s)
    ensures Ready(Of(Next(c, y, e), who).s)
  {
    hide Step;
    hide Accept;
    NextOf(c, y, e, who);
    NextOf(c, y, e, Other(who));
    if IsTickOf(e, who) {
      StepWaits(c, Of(y, who).s, Ephemeral, e.random);
    }
    if IsDeliveryTo(e, who) {
      AcceptChanges(Of(y, who).s, e.m);
    }
  }

  lemma AnsweredStays(c: Primitives, y: System, e: Event, who: Who, kind: Kind)
    requires !Unanswered(Of(y, who).s, kind)
    ensures !Unanswered(Of(Next(c, y, e), who).s, kind)
  {
    hide Step;
    hide Accept;
    var s := Of(y, who).s;
    NextOf(c, y, e, who);
    NextOf(c, y, e, Other(who));
    if IsTickOf(e, who) {
      if Ready(s) {
        StepWaits(c, s, kind, e.random);
      } else {
        GenerationIsSilent(c, s, e.random);
      }
    }
    if IsDeliveryTo(e, who) {
      AcceptTakes(s, e.m, kind);
    }
  }

  lemma RequestedStays(c: Primitives, y: System, e: Event, who: Who, kind: Kind)
    requires Requested(Of(y, who).s, kind) && !IsTickOf(e, who)
    ensures Requested(Of(Next(c, y, e), who).s, kind)
  {
    hide Step;
    hide Accept;
    NextOf(c, y, e, who);
    NextOf(c, y, e, Other(who));
    if IsDeliveryTo(e, who) {
      AcceptTakes(Of(y, who).s, e.m, kind);
    }
  }

  lemma DeliveryTakes(c: Primitives, y: System, who: Who, m: Message, kind: Kind)
    requires m in Of(y, who).inbox
    ensures var y' := Next(c, y, DeliverTo(who, m));
            && (IsAnswer(m, kind) ==> !Unanswered(Of(y', who).s, kind))
            && (m == RequestOf(kind) ==> Requested(Of(y', who).s, kind))
  {
    hide Accept;
    NextOf(c, y, DeliverTo(who, m), who);
    AcceptTakes(Of(y, who).s, m, kind);
  }

  // ----- What is on its way arrives -----

  lemma {:induction false} AnsweredForGood(c: Primitives, y: System, events: seq<Event>, who: Who, kind: Kind)
    requires !Unanswered(Of(y, who).s, kind)
    ensures !Unanswered(Of(Run(c, y, events), who).s, kind)
    decreases |events|
  {
    hide Next;
    if events == [] {
    } else {
      AnsweredStays(c, y, events[0], who, kind);
      AnsweredForGood(c, Next(c, y, events[0]), events[1..], who, kind);
    }
  }

  lemma {:induction false} AnswerArrives(c: Primitives, y: System, events: seq<Event>, who: Who, kind: Kind, m: Message)
    requires IsAnswer(m, kind) && m in Of(y, who).inbox && DeliverTo(who, m) in events
    ensures !Unanswered(Of(Run(c, y, events), who).s, kind)
    decreases |events|
  {
    hide Next;
    hide IsAnswer;
    var y' := Next(c, y, events[0]);
    if events[0] == DeliverTo(who, m) {
      DeliveryTakes(c, y, who, m, kind);
      AnsweredForGood(c, y', events[1..], who, kind);
    } else {
      InboxGrows(c, y, events[0], who);
      AnswerArrives(c, y', events[1..], who, kind, m);
    }
  }

  /** A side that was asked answers in its next step, and what it sends arrives. */
  lemma {:induction false} AskedAnswers(c: Primitives, y: System, events: seq<Event>, who: Who, kind: Kind)
    requires Ready(Of(y, Other(who)).s) && Requested(Of(y, Other(who)).s, kind) && Delivered(c, y, events)
    ensures var z := Run(c, y, events);
            && (Requested(Of(z, Other(who)).s, kind) || !Unanswered(Of(z, who).s, kind))
            && (Ticks(events, Other(who)) > 0 ==> !Unanswered(Of(z, who).s, kind))
    decreases |events|
  {
    hide Next;
    hide IsAnswer;
    hide Requested;
    hide Ready;
    hide Unanswered;
    hide Arrivals;
    if events == [] {
    } else {
      var e, y', o := events[0], Next(c, y, events[0]), Other(who);
      if IsTickOf(e, o) {
        StepAnswers(c, y, e, who, kind);
        var m := AnswerOf(Of(y, o).s, kind);
        AnswerArrives(c, y', events[1..], who, kind, m);
      } else {
        RequestedStays(c, y, e, o, kind);
        ReadyStays(c, y, e, o);
        AskedAnswers(c, y', events[1..], who, kind);
      }
    }
  }

  lemma StepAnswers(c: Primitives, y: System, e: Event, who: Who, kind: Kind)
    requires Ready(Of(y, Other(who)).s) && Requested(Of(y, Other(who)).s, kind) && IsTickOf(e, Other(who))
    ensures Of(y, Other(who)).s.epk.Some?
    ensures var m := AnswerOf(Of(y, Other(who)).s, kind);
            IsAnswer(m, kind) && DeliverTo(who, m) in Arrivals(c, y, e) && m in Of(Next(c, y, e), who).inbox
  {
    hide Step;
    hide Next;
    hide Arrivals;
    StepSends(c, Of(y, Other(who)).s, kind, e.random);
    NextOf(c, y, e, who);
    SentArrives(c, y, e, Other(who), AnswerOf(Of(y, Other(who)).s, kind));
  }

  /** A request on its way is received, or answered already when the run ends. */
  lemma {:induction false} RequestArrives(c: Primitives, y: System, events: seq<Event>, who: Who, kind: Kind)
    requires Ready(Of(y, Other(who)).s) && RequestOf(kind) in Of(y, Other(who)).inbox
    requires DeliverTo(Other(who), RequestOf(kind)) in events && Delivered(c, y, events)
    ensures var z := Run(c, y, events);
            Requested(Of(z, Other(who)).s, kind) || !Unanswered(Of(z, who).s, kind)
    decreases |events|
  {
    hide Next;
    hide Requested;
    hide Ready;
    hide Unanswered;
    hide Arrivals;
    var e, y', o := events[0], Next(c, y, events[0]), Other(who);
    ReadyStays(c, y, e, o);
    if e == DeliverTo(o, RequestOf(kind)) {
      DeliveryTakes(c, y, o, RequestOf(kind), kind);
      AskedAnswers(c, y', events[1..], who, kind);
    } else {
      InboxGrows(c, y, e, o);
      RequestArrives(c, y', events[1..], who, kind);
    }
  }

  // ----- Waiting for the next request -----

  /** Both intervals stay below their maximum of 2000 ms. */
  predicate Bounded(s: State) {
    s.epkTimer.interval <= REQUEST_INTERVAL_MAX && s.ipkTimer.interval <= REQUEST_INTERVAL_MAX
  }

  lemma StepBounded(c: Primitives, s: State, k: Key)
    requires Bounded(s)
    ensures Bounded(Step(c, s, Some(k)).0)
  {
    hide Compute;
    ComputeKeepsInputs(c, Outbound(s).0);
  }

  lemma NextBounded(c: Primitives, y: System, e: Event, who: Who)
    requires Bounded(Of(y, who).s)
    ensures Bounded(Of(Next(c, y, e), who).s)
  {
    hide Step;
    hide Accept;
    NextOf(c, y, e, who);
    NextOf(c, y, e, Other(who));
    if IsTickOf(e, who) {
      StepBounded(c, Of(y, who).s, e.random);
    }
    if IsDeliveryTo(e, who) {
      AcceptChanges(Of(y, who).s, e.m);
    }
  }

  lemma {:induction false} RunBounded(c: Primitives, y: System, events: seq<Event>, who: Who)
    requires Bounded(Of(y, who).s)
    ensures Bounded(Of(Run(c, y, events), who).s)
    decreases |events|
  {
    hide Next;
    hide Bounded;
    if events == [] {
    } else {
      NextBounded(c, y, events[0], who);
      RunBounded(c, Next(c, y, events[0]), events[1..], who);
    }
  }

  /** How many steps go by before a request is due. */
  function Wait(t: Timer): nat {
    if t.time >= t.interval then 0 else (t.interval - t.time + STEP_INTERVAL_MS - 1) / STEP_INTERVAL_MS
  }

  lemma WaitGoesDown(t: Timer)
    requires !Due(t) && t.interval <= REQUEST_INTERVAL_MAX
    ensures Wait(t) > 0 && Wait(Advance(t, STEP_INTERVAL_MS)) == Wait(t) - 1
  {
  }

  lemma TickWaits(c: Primitives, y: System, e: Event, who: Who, kind: Kind)
    requires Ready(Of(y, who).s) && Bounded(Of(y, who).s) && Unanswered(Of(y, who).s, kind)
    requires IsTickOf(e, who) && !Due(TimerOf(Of(y, who).s, kind))
    ensures var s, s' := Of(y, who).s, Of(Next(c, y, e), who).s;
            Unanswered(s', kind) && Wait(TimerOf(s, kind)) > 0
            && Wait(TimerOf(s', kind)) == Wait(TimerOf(s, kind)) - 1
  {
    hide Step;
    hide Wait;
    hide Due;
    NextOf(c, y, e, who);
    StepWaits(c, Of(y, who).s, kind, e.random);
    WaitGoesDown(TimerOf(Of(y, who).s, kind));
  }

  lemma OthersWait(c: Primitives, y: System, e: Event, who: Who, kind: Kind)
    requires !IsTickOf(e, who)
    ensures TimerOf(Of(Next(c, y, e), who).s, kind) == TimerOf(Of(y, who).s, kind)
  {
    hide Step;
    hide Accept;
    NextOf(c, y, e, who);
    NextOf(c, y, e, Other(who));
    if IsDeliveryTo(e, who) {
      AcceptChanges(Of(y, who).s, e.m);
    }
  }

  lemma StepAsks(c: Primitives, y: System, e: Event, who: Who, kind: Kind)
    requires Ready(Of(y, who).s) && Unanswered(Of(y, who).s, kind) && IsTickOf(e, who)
    requires Due(TimerOf(Of(y, who).s, kind))
    ensures DeliverTo(Other(who), RequestOf(kind)) in Arrivals(c, y, e)
    ensures RequestOf(kind) in Of(Next(c, y, e), Other(who)).inbox
  {
    hide Step;
    hide Next;
    hide Arrivals;
    hide Due;
    StepSends(c, Of(y, who).s, kind, e.random);
    NextOf(c, y, e, who);
    SentArrives(c, y, e, who, RequestOf(kind));
  }

  /** Over a run that loses nothing a side gets its answer, asks, or comes closer to asking with every step. */
  lemma {:induction false} WaitsOrAsks(c: Primitives, y: System, events: seq<Event>, who: Who, kind: Kind)
    requires Ready(Of(y, who).s) && Ready(Of(y, Other(who)).s) && Bounded(Of(y, who).s)
    requires Delivered(c, y, events)
    ensures var z := Run(c, y, events);
            || !Unanswered(Of(z, who).s, kind) || Requested(Of(z, Other(who)).s, kind)
            || Wait(TimerOf(Of(z, who).s, kind)) + Ticks(events, who) <= Wait(TimerOf(Of(y, who).s, kind))
    decreases |events|
  {
    hide Next;
    hide Requested;
    hide Ready;
    hide Unanswered;
    hide Arrivals;
    hide Wait;
    hide Due;
    hide Bounded;
    if events == [] {
    } else {
      var e, y', s := events[0], Next(c, y, events[0]), Of(y, who).s;
      ReadyStays(c, y, e, who);
      ReadyStays(c, y, e, Other(who));
      NextBounded(c, y, e, who);
      if !Unanswered(s, kind) {
        AnsweredForGood(c, y, events, who, kind);
      } else if !IsTickOf(e, who) {
        OthersWait(c, y, e, who, kind);
        WaitsOrAsks(c, y', events[1..], who, kind);
      } else if Due(TimerOf(s, kind)) {
        StepAsks(c, y, e, who, kind);
        RequestArrives(c, y', events[1..], who, kind);
      } else {
        TickWaits(c, y, e, who, kind);
        WaitsOrAsks(c, y', events[1..], who, kind);
      }
    }
  }

  // ----- Rounds -----

  /** Events in which both sides take a step and everything sent arrives. */
  ghost predicate Round(c: Primitives, y: System, events: seq<Event>) {
    Delivered(c, y, events) && Ticks(events, A) > 0 && Ticks(events, B) > 0
  }

  ghost predicate Rounds(c: Primitives, y: System, rounds: seq<seq<Event>>)
    decreases |rounds|
  {
    rounds == [] || (Round(c, y, rounds[0]) && Rounds(c, Run(c, y, rounds[0]), rounds[1..]))
  }

  function Flat(rounds: seq<seq<Event>>): seq<Event> {
    if rounds == [] then [] else rounds[0] + Flat(rounds[1..])
  }

  /** How far a side is from having a key of its peer: 0 when it has it, 1 when its peer was asked. */
  function Stage(y: System, who: Who, kind: Kind): nat {
    if !Unanswered(Of(y, who).s, kind) then 0
    else if Requested(Of(y, Other(who)).s, kind) then 1
    else 2 + Wait(TimerOf(Of(y, who).s, kind))
  }

  lemma StageBound(y: System, who: Who, kind: Kind)
    requires Bounded(Of(y, who).s)
    ensures Stage(y, who, kind) <= 22
  {
  }

  lemma RoundLowersStage(c: Primitives, y: System, events: seq<Event>, who: Who, kind: Kind)
    requires Ready(y.a.s) && Ready(y.b.s) && Bounded(Of(y, who).s) && Round(c, y, events)
    ensures var z := Run(c, y, events);
            Stage(z, who, kind) <= if Stage(y, who, kind) == 0 then 0 else Stage(y, who, kind) - 1
  {
    hide Wait;
    hide Run;
    hide Delivered;
    hide Ticks;
    hide Requested;
    hide Ready;
    hide Unanswered;
    hide Bounded;
    if !Unanswered(Of(y, who).s, kind) {
      AnsweredForGood(c, y, events, who, kind);
    } else if Requested(Of(y, Other(who)).s, kind) {
      AskedAnswers(c, y, events, who, kind);
    } else {
      WaitsOrAsks(c, y, events, who, kind);
    }
  }

  lemma {:induction false} ReadyForGood(c: Primitives, y: System, events: seq<Event>, who: Who)
    requires Ready(Of(y, who).s)
    ensures Ready(Of(Run(c, y, events), who).s)
    decreases |events|
  {
    hide Next;
    hide Ready;
    if events == [] {
    } else {
      ReadyStays(c, y, events[0], who);
      ReadyForGood(c, Next(c, y, events[0]), events[1..], who);
    }
  }

  lemma {:induction false} RoundsLowerStage(c: Primitives, y: System, rounds: seq<seq<Event>>, who: Who, kind: Kind)
    requires Ready(y.a.s) && Ready(y.b.s) && Bounded(Of(y, who).s) && Rounds(c, y, rounds)
    requires Stage(y, who, kind) <= |rounds|
    ensures Stage(Run(c, y, Flat(rounds)), who, kind) == 0
    decreases |rounds|
  {
    hide Run;
    hide Round;
    hide Stage;
    hide Ready;
    hide Bounded;
    if rounds == [] {
      RunNothing(c, y);
    } else {
      var first := rounds[0];
      var y' := Run(c, y, first);
      RoundLowersStage(c, y, first, who, kind);
      ReadyForGood(c, y, first, A);
      ReadyForGood(c, y, first, B);
      RunBounded(c, y, first, who);
      RoundsLowerStage(c, y', rounds[1..], who, kind);
      RunConcat(c, y, first, Flat(rounds[1..]));
    }
  }

  lemma RunNothing(c: Primitives, y: System)
    ensures Run(c, y, []) == y
  {
  }

  // ----- The ephemeral key pair -----

  lemma NextGenerates(c: Primitives, y: System, e: Event, who: Who)
    ensures Ungenerated(Of(Next(c, y, e), who).s) <= Ungenerated(Of(y, who).s)
    ensures IsTickOf(e, who) && Ungenerated(Of(y, who).s) > 0 ==>
              Ungenerated(Of(Next(c, y, e), who).s) < Ungenerated(Of(y, who).s)
  {
    hide Step;
    hide Accept;
    var s := Of(y, who).s;
    NextOf(c, y, e, who);
    NextOf(c, y, e, Other(who));
    if IsTickOf(e, who) {
      if Ready(s) {
        StepWaits(c, s, Ephemeral, e.random);
      } else {
        StepGenerates(c, s, e.random);
      }
    }
    if IsDeliveryTo(e, who) {
      AcceptChanges(s, e.m);
    }
  }

  lemma {:induction false} RunGenerates(c: Primitives, y: System, events: seq<Event>, who: Who)
    ensures Ungenerated(Of(Run(c, y, events), who).s)
            <= if Ticks(events, who) >= Ungenerated(Of(y, who).s) then 0
               else Ungenerated(Of(y, who).s) - Ticks(events, who)
    decreases |events|
  {
    hide Next;
    hide Ungenerated;
    if events == [] {
    } else {
      NextGenerates(c, y, events[0], who);
      RunGenerates(c, Next(c, y, events[0]), events[1..], who);
    }
  }

  lemma {:induction false} RoundsGenerate(c: Primitives, y: System, rounds: seq<seq<Event>>, who: Who)
    requires Rounds(c, y, rounds) && Ungenerated(Of(y, who).s) <= |rounds|
    ensures Ready(Of(Run(c, y, Flat(rounds)), who).s)
    decreases |rounds|
  {
    hide Run;
    hide Delivered;
    hide Ticks;
    if rounds == [] {
      RunNothing(c, y);
    } else {
      RunGenerates(c, y, rounds[0], who);
      RoundsGenerate(c, Run(c, y, rounds[0]), rounds[1..], who);
      RunConcat(c, y, rounds[0], Flat(rounds[1..]));
    }
  }

  // ----- Both sides finish -----

  lemma {:induction false} RoundsSplit(c: Primitives, y: System, rounds: seq<seq<Event>>, n: nat)
    requires n <= |rounds| && Rounds(c, y, rounds)
    ensures var x := Run(c, y, Flat(rounds[..n]));
            && Rounds(c, y, rounds[..n]) && Rounds(c, x, rounds[n..])
            && Run(c, y, Flat(rounds)) == Run(c, x, Flat(rounds[n..]))
    decreases n
  {
    hide Run;
    hide Round;
    if n == 0 {
      RunNothing(c, y);
      assert rounds[..0] == [] && rounds[0..] == rounds;
    } else {
      var first, rest := rounds[0], rounds[1..];
      RoundsSplit(c, Run(c, y, first), rest, n - 1);
      assert rounds[..n][0] == first && rounds[..n][1..] == rest[..n - 1] && rounds[n..] == rest[n - 1..];
      RunConcat(c, y, first, Flat(rest));
      RunConcat(c, y, first, Flat(rest[..n - 1]));
    }
  }

  lemma {:induction false} TicksConcat(first: seq<Event>, rest: seq<Event>, who: Who)
    ensures Ticks(first + rest, who) == Ticks(first, who) + Ticks(rest, who)
    decreases |first|
  {
    if first == [] {
      assert first + rest == rest;
    } else {
      assert (first + rest)[1..] == first[1..] + rest;
      TicksConcat(first[1..], rest, who);
    }
  }

  lemma {:induction false} TicksOfRounds(c: Primitives, y: System, rounds: seq<seq<Event>>, who: Who)
    requires Rounds(c, y, rounds)
    ensures Ticks(Flat(rounds), who) >= |rounds|
    decreases |rounds|
  {
    hide Run;
    hide Delivered;
    if rounds == [] {
    } else {
      TicksOfRounds(c, Run(c, y, rounds[0]), rounds[1..], who);
      TicksConcat(rounds[0], Flat(rounds[1..]), who);
    }
  }

  lemma StartIsBounded(c: Primitives, y: System, role0: Role)
    requires Initial(c, y, role0)
    ensures Bounded(y.a.s) && Bounded(y.b.s)
    ensures Invariant(c, y, role0)
  {
  }

  /** After three rounds both sides have an ephemeral key pair, and 22 later both keys of their peer. */
  lemma PeerKeysArrive(c: Primitives, y: System, rounds: seq<seq<Event>>, who: Who)
    requires Bounded(y.a.s) && Bounded(y.b.s) && Rounds(c, y, rounds) && |rounds| == 25
    ensures Ready(Of(Run(c, y, Flat(rounds)), who).s) && HasPeerKeys(Of(Run(c, y, Flat(rounds)), who).s)
  {
    hide Run;
    hide Rounds;
    hide Flat;
    hide Stage;
    hide Ready;
    hide Bounded;
    RoundsSplit(c, y, rounds, 3);
    var x := Run(c, y, Flat(rounds[..3]));
    RoundsGenerate(c, y, rounds[..3], A);
    RoundsGenerate(c, y, rounds[..3], B);
    RunBounded(c, y, Flat(rounds[..3]), who);
    StageBound(x, who, Ephemeral);
    StageBound(x, who, Identity);
    RoundsLowerStage(c, x, rounds[3..], who, Ephemeral);
    RoundsLowerStage(c, x, rounds[3..], who, Identity);
    ReadyForGood(c, x, Flat(rounds[3..]), who);
    StageIsKey(Run(c, y, Flat(rounds)), who);
  }

  lemma StageIsKey(y: System, who: Who)
    requires Stage(y, who, Ephemeral) == 0 && Stage(y, who, Identity) == 0
    ensures HasPeerKeys(Of(y, who).s)
  {
  }

  /**
   * From every reachable state, whatever was lost before, both sides have their keys and the result OK
   * after 30 rounds in which each side takes a step and nothing is lost, however long the rounds are,
   * in whatever order things happen in them and whatever older messages arrive as well.
   */
  lemma BothFinish(c: Primitives, y: System, role0: Role, before: seq<Event>, rounds: seq<seq<Event>>)
    requires role0 != Bob && Initial(c, y, role0)
    requires Rounds(c, Run(c, y, before), rounds) && |rounds| >= 30
    ensures var z := Run(c, y, before + Flat(rounds));
            Complete(z) && z.a.s.result == ResultOk && z.b.s.result == ResultOk
  {
    hide Run;
    hide Rounds;
    hide Flat;
    hide Bounded;
    hide Invariant;
    hide Initial;
    StartIsBounded(c, y, role0);
    RunBounded(c, y, before, A);
    RunBounded(c, y, before, B);
    RunKeepsInvariant(c, y, role0, before);
    var x := Run(c, y, before);
    RoundsSplit(c, x, rounds, 25);
    var w := Run(c, x, Flat(rounds[..25]));
    RunKeepsInvariant(c, x, role0, Flat(rounds[..25]));
    FinishesFrom(c, x, role0, rounds, A);
    FinishesFrom(c, x, role0, rounds, B);
    RunConcat(c, y, before, Flat(rounds));
  }

  /** With no role at the start they then have the keys of each other, if their ephemeral keys differ. */
  lemma BothAgree(c: Primitives, y: System, before: seq<Event>, rounds: seq<seq<Event>>)
    requires c.DiffieHellman() && Initial(c, y, RoleUnknown)
    requires Rounds(c, Run(c, y, before), rounds) && |rounds| >= 30
    requires Run(c, y, before + Flat(rounds)).a.s.epk != Run(c, y, before + Flat(rounds)).b.s.epk
    ensures Complete(Run(c, y, before + Flat(rounds))) && Agree(Run(c, y, before + Flat(rounds)))
  {
    hide Run;
    hide Rounds;
    hide Flat;
    BothFinish(c, y, RoleUnknown, before, rounds);
    RoleBeforeSecrets(c, y, before + Flat(rounds));
  }

  lemma FinishesFrom(c: Primitives, y: System, role0: Role, rounds: seq<seq<Event>>, who: Who)
    requires role0 != Bob && Invariant(c, y, role0) && Bounded(y.a.s) && Bounded(y.b.s)
    requires Rounds(c, y, rounds) && |rounds| >= 30
    ensures Of(Run(c, y, Flat(rounds)), who).s.keys.Some?
    ensures Of(Run(c, y, Flat(rounds)), who).s.result == ResultOk
  {
    hide Run;
    hide Rounds;
    hide Flat;
    hide Bounded;
    hide Invariant;
    RoundsSplit(c, y, rounds, 25);
    var w := Run(c, y, Flat(rounds[..25]));
    RunKeepsInvariant(c, y, role0, Flat(rounds[..25]));
    PeerKeysArrive(c, y, rounds[..25], who);
    TicksOfRounds(c, w, rounds[25..], who);
    MissingOfReady(Of(w, who).s);
    ReachesResult(c, w, role0, who, Flat(rounds[25..]));
  }

  lemma MissingOfReady(s: State)
    requires Ready(s)
    ensures Missing(s) <= 5
  {
  }

  // ----- Rounds are possible -----

  /** From every state that the invariant allows there is a round. */
  lemma RoundExists(c: Primitives, y: System, role0: Role) returns (events: seq<Event>)
    requires role0 != Bob && Invariant(c, y, role0)
    ensures Round(c, y, events)
  {
    hide Run;
    hide Invariant;
    hide Delivered;
    hide Flush;
    var ticks := Alternate(3);
    var z := Run(c, y, ticks);
    RunGenerates(c, y, ticks, A);
    RunGenerates(c, y, ticks, B);
    FlushDelivers(c, y, role0, ticks);
    events := ticks + Flush(z);
    TicksConcat(ticks, Flush(z), A);
    TicksConcat(ticks, Flush(z), B);
  }

  /** So there are runs of any number of rounds, from every reachable state. */
  lemma {:induction false} RoundsExist(c: Primitives, y: System, role0: Role, n: nat) returns (rounds: seq<seq<Event>>)
    requires role0 != Bob && Invariant(c, y, role0)
    ensures Rounds(c, y, rounds) && |rounds| == n
    decreases n
  {
    hide Run;
    hide Round;
    hide Invariant;
    if n == 0 {
      rounds := [];
    } else {
      var first := RoundExists(c, y, role0);
      RunKeepsInvariant(c, y, role0, first);
      var rest := RoundsExist(c, Run(c, y, first), role0, n - 1);
      rounds := [first] + rest;
      assert rounds[1..] == rest;
    }
  }
}
