/**
 * Sessions that are stopped when they have their result, in rounds in which nothing is lost: both finish
 * if no side takes more than four steps a round, and with five one of them can be left without its keys.
 */
module AkeBriefRounds {
  import opened Bytes
  import opened Ake3dh
  import opened AkeRuns
  import opened AkeProgress
  import opened AkeSchedule
  import opened AkeLiveness
  import opened AkeStopping

  // ----- A request that arrives is answered -----

  lemma SideKeeps(c: Primitives, y: System, e: Event, who: Who)
    requires !IsTickOf(e, who)
    ensures Of(StopNext(c, y, e), who).s.result == Of(y, who).s.result
    ensures Ready(Of(StopNext(c, y, e), who).s) == Ready(Of(y, who).s)
  {
    hide Step;
    hide Accept;
    NextOf(c, y, e, who);
    NextOf(c, y, e, Other(who));
    if IsDeliveryTo(e, who) {
      AcceptSetsNothing(Of(y, who).s, e.m);
    }
  }

  lemma RequestedKept(c: Primitives, y: System, e: Event, who: Who, kind: Kind)
    requires Requested(Of(y, who).s, kind) && (!IsTickOf(e, who) || !Ready(Of(y, who).s))
    ensures Requested(Of(StopNext(c, y, e), who).s, kind)
    ensures Of(StopNext(c, y, e), who).s.result == Of(y, who).s.result
  {
    hide Step;
    hide Accept;
    NextOf(c, y, e, who);
    if IsTickOf(e, who) {
      GenerationKeepsRest(c, Of(y, who).s, e.random);
    } else {
      RequestedStays(c, y, e, who, kind);
      SideKeeps(c, y, e, who);
    }
  }

  lemma GenerationKeepsRest(c: Primitives, s: State, k: Key)
    requires !Ready(s)
    ensures var (s', out) := Step(c, s, Some(k));
            s' == s.(idGenerated := s'.idGenerated, esk := s'.esk, epk := s'.epk) && out == []
  {
  }

  /** The key of this kind was received, or asked for from a side that is still there. */
  predicate AskedFor(y: System, who: Who, kind: Kind) {
    !Unanswered(Of(y, who).s, kind) || (Requested(Of(y, Other(who)).s, kind) && !Stopped(y, Other(who)))
  }

  lemma {:induction false} AskedIsAnswered(c: Primitives, y: System, role0: Role, events: seq<Event>, who: Who,
                                          kind: Kind)
    requires Sound(c, y, role0) && NothingLostTo(c, y, events, who) && AskedFor(y, who, kind)
    ensures AskedFor(StopRun(c, y, events), who, kind)
    ensures Ready(Of(y, Other(who)).s) && Ticks(events, Other(who)) > 0 ==>
              !Unanswered(Of(StopRun(c, y, events), who).s, kind)
    decreases |events|
  {
    hide Next;
    hide Sound;
    hide Requested;
    hide Unanswered;
    hide Ready;
    hide IsAnswer;
    hide Arrivals;
    var o := Other(who);
    if !Unanswered(Of(y, who).s, kind) {
      HeardForGood(c, y, role0, events, who, kind);
    } else if events == [] {
    } else {
      var e, y' := events[0], StopNext(c, y, events[0]);
      NextKeepsSound(c, y, role0, e);
      SideOfEvent(e, o);
      if IsTickOf(e, o) && Ready(Of(y, o).s) {
        StepAnswers(c, y, e, who, kind);
        var m := AnswerOf(Of(y, o).s, kind);
        DeliverToSide(who, m);
        SentKeyIsHeard(c, y', role0, events[1..], who, kind, m);
      } else {
        RequestedKept(c, y, e, o, kind);
        if !IsTickOf(e, o) {
          SideKeeps(c, y, e, o);
        }
        AskedIsAnswered(c, y', role0, events[1..], who, kind);
      }
    }
  }

  /** A side that misses more things than it takes steps is not stopped. */
  lemma NotYetStopped(c: Primitives, y: System, role0: Role, who: Who)
    requires Sound(c, y, role0) && Missing(Of(y, who).s) > 0
    ensures !Stopped(y, who)
  {
    hide Missing;
    SoundInvariant(c, y, role0);
    if Stopped(y, who) {
      StoppedIsDone(c, y, role0, who);
    }
  }

  lemma {:induction false} RequestIsTaken(c: Primitives, y: System, role0: Role, events: seq<Event>, who: Who,
                                         kind: Kind)
    requires Sound(c, y, role0) && NothingLostTo(c, y, events, who)
    requires RequestOf(kind) in Of(y, Other(who)).inbox && DeliverTo(Other(who), RequestOf(kind)) in events
    requires Ticks(events, Other(who)) < Missing(Of(y, Other(who)).s)
    ensures AskedFor(StopRun(c, y, events), who, kind)
    decreases |events|
  {
    hide Next;
    hide Sound;
    hide Requested;
    hide Unanswered;
    hide Missing;
    hide Arrivals;
    var o, e, y' := Other(who), events[0], StopNext(c, y, events[0]);
    NextKeepsSound(c, y, role0, e);
    NotYetStopped(c, y, role0, o);
    NextSetsOne(c, y, e, o);
    DeliverToSide(o, RequestOf(kind));
    SideOfEvent(e, o);
    if e == DeliverTo(o, RequestOf(kind)) {
      DeliveryTakes(c, y, o, RequestOf(kind), kind);
      SideKeeps(c, y, e, o);
      AskedIsAnswered(c, y', role0, events[1..], who, kind);
    } else {
      InboxGrows(c, y, e, o);
      RequestIsTaken(c, y', role0, events[1..], who, kind);
    }
  }

  // ----- The first requests -----

  /** A side that has sent nothing and computed no secret. */
  ghost predicate Silent(y: System, who: Who) {
    var s := Of(y, who).s;
    && s.epkTimer.interval == 0 && s.ipkTimer.interval == 0
    && s.sh1.None? && s.sh2.None? && s.sh3.None? && s.master.None? && s.keys.None?
    && forall m, kind: Kind :: m in Of(y, Other(who)).inbox ==> !IsAnswer(m, kind)
  }

  ghost predicate Asked(y: System, who: Who) {
    forall kind: Kind :: AskedFor(y, who, kind)
  }

  lemma InitialIsSilent(c: Primitives, y: System, role0: Role, who: Who)
    requires Initial(c, y, role0)
    ensures Silent(y, who)
  {
  }

  lemma SilentStays(c: Primitives, y: System, e: Event, who: Who)
    requires Silent(y, who) && (!IsTickOf(e, who) || !Ready(Of(y, who).s))
    ensures Silent(StopNext(c, y, e), who)
  {
    hide Step;
    hide Accept;
    hide IsAnswer;
    NextOf(c, y, e, who);
    NextOf(c, y, e, Other(who));
    SideOfEvent(e, who);
    if IsTickOf(e, who) {
      GenerationKeepsRest(c, Of(y, who).s, e.random);
    }
    if IsDeliveryTo(e, who) {
      AcceptChanges(Of(y, who).s, e.m);
    }
  }

  /** While a side is silent both sides miss all five things that they compute. */
  lemma SilentMisses(c: Primitives, y: System, role0: Role, who: Who)
    requires Sound(c, y, role0) && Silent(y, who)
    ensures Missing(Of(y, who).s) >= 5 && Missing(Of(y, Other(who)).s) >= 5
  {
    hide Invariant;
    hide IsAnswer;
    var o := Other(who);
    assert !KeySentTo(y, o, Ephemeral) && !KeySentTo(y, o, Identity);
    WithoutKeysNothingDone(c, y, role0, o);
  }

  lemma SilentAsks(c: Primitives, y: System, role0: Role, events: seq<Event>, who: Who)
    requires Sound(c, y, role0) && NothingLostTo(c, y, events, who) && NothingLostTo(c, y, events, Other(who))
    requires Silent(y, who) && Ready(Of(y, who).s) && !Stopped(y, who)
    requires events != [] && IsTickOf(events[0], who)
    requires Ticks(events, Other(who)) < Missing(Of(y, Other(who)).s)
    ensures Asked(StopRun(c, y, events), who)
  {
    hide Next;
    hide Sound;
    hide Ready;
    hide Requested;
    hide Unanswered;
    hide Missing;
    hide Arrivals;
    var o, e, y' := Other(who), events[0], StopNext(c, y, events[0]);
    NextKeepsSound(c, y, role0, e);
    SideOfEvent(e, who);
    SideOfEvent(e, o);
    NextSetsOne(c, y, e, o);
    forall kind: Kind
      ensures AskedFor(StopRun(c, y, events), who, kind)
    {
      if Unanswered(Of(y, who).s, kind) {
        StepAsks(c, y, e, who, kind);
        DeliverToSide(o, RequestOf(kind));
        RequestIsTaken(c, y', role0, events[1..], who, kind);
      } else {
        HeardForGood(c, y, role0, events, who, kind);
      }
    }
  }

  lemma {:induction false} SilentOrAsked(c: Primitives, y: System, role0: Role, events: seq<Event>, who: Who)
    requires Sound(c, y, role0) && NothingLostTo(c, y, events, who) && NothingLostTo(c, y, events, Other(who))
    requires Silent(y, who)
    requires Ticks(events, who) < Missing(Of(y, who).s) && Ticks(events, Other(who)) < Missing(Of(y, Other(who)).s)
    ensures Silent(StopRun(c, y, events), who) || Asked(StopRun(c, y, events), who)
    ensures Ready(Of(y, who).s) && Ticks(events, who) > 0 ==> Asked(StopRun(c, y, events), who)
    decreases |events|
  {
    hide Next;
    hide Sound;
    hide Silent;
    hide Asked;
    hide Ready;
    hide Missing;
    hide Arrivals;
    if events == [] {
    } else {
      var o, e, y' := Other(who), events[0], StopNext(c, y, events[0]);
      NextKeepsSound(c, y, role0, e);
      NotYetStopped(c, y, role0, who);
      if IsTickOf(e, who) && Ready(Of(y, who).s) {
        SilentAsks(c, y, role0, events, who);
      } else {
        SilentStays(c, y, e, who);
        NextSetsOne(c, y, e, who);
        NextSetsOne(c, y, e, o);
        if !IsTickOf(e, who) {
          SideKeeps(c, y, e, who);
        }
        SilentOrAsked(c, y', role0, events[1..], who);
      }
    }
  }

  // ----- Rounds -----

  /** Everything sent arrives, and both sides take a step but at most n. */
  ghost predicate BriefRound(c: Primitives, y: System, events: seq<Event>, n: nat) {
    && NothingLostTo(c, y, events, A) && NothingLostTo(c, y, events, B)
    && 1 <= Ticks(events, A) <= n && 1 <= Ticks(events, B) <= n
  }

  ghost predicate BriefRounds(c: Primitives, y: System, rounds: seq<seq<Event>>, n: nat)
    decreases |rounds|
  {
    rounds == [] || (BriefRound(c, y, rounds[0], n) && BriefRounds(c, StopRun(c, y, rounds[0]), rounds[1..], n))
  }

  ghost predicate InPhase(y: System, who: Who) {
    Silent(y, who) || Asked(y, who)
  }

  lemma RoundKeepsPhase(c: Primitives, y: System, role0: Role, events: seq<Event>, who: Who)
    requires Sound(c, y, role0) && BriefRound(c, y, events, 4) && InPhase(y, who)
    ensures InPhase(StopRun(c, y, events), who)
    ensures Ready(Of(y, who).s) ==> Asked(StopRun(c, y, events), who)
  {
    hide Sound;
    hide Silent;
    hide AskedFor;
    hide Ready;
    hide Missing;
    hide NothingLostTo;
    hide StopRun;
    if Silent(y, who) {
      SilentMisses(c, y, role0, who);
      SilentOrAsked(c, y, role0, events, who);
    } else {
      forall kind: Kind
        ensures AskedFor(StopRun(c, y, events), who, kind)
      {
        AskedIsAnswered(c, y, role0, events, who, kind);
      }
    }
  }

  lemma RoundAnswers(c: Primitives, y: System, role0: Role, events: seq<Event>, who: Who)
    requires Sound(c, y, role0) && BriefRound(c, y, events, 4) && Asked(y, who) && Ready(Of(y, Other(who)).s)
    ensures HasPeerKeys(Of(StopRun(c, y, events), who).s)
  {
    hide Sound;
    hide AskedFor;
    hide Ready;
    hide NothingLostTo;
    hide StopRun;
    AskedIsAnswered(c, y, role0, events, who, Ephemeral);
    AskedIsAnswered(c, y, role0, events, who, Identity);
  }

  lemma RoundGenerates(c: Primitives, y: System, role0: Role, events: seq<Event>, who: Who)
    requires Sound(c, y, role0) && Ticks(events, who) >= 1
    ensures Ungenerated(Of(StopRun(c, y, events), who).s)
            <= if Ungenerated(Of(y, who).s) == 0 then 0 else Ungenerated(Of(y, who).s) - 1
  {
    hide Sound;
    hide Ungenerated;
    hide StopRun;
    hide Run;
    StopRunIsRun(c, y, events);
    HeededTicks(c, y, events, who);
    RunGenerates(c, y, Heeded(c, y, events), who);
    if Stopped(StopRun(c, y, events), who) {
      RunKeepsSound(c, y, role0, events);
      SoundInvariant(c, StopRun(c, y, events), role0);
      StoppedIsDone(c, StopRun(c, y, events), role0, who);
      ReadyGenerated(Of(StopRun(c, y, events), who).s);
    }
  }

  lemma ReadyGenerated(s: State)
    ensures Ready(s) <==> Ungenerated(s) == 0
    ensures Ungenerated(s) <= 3
  {
  }

  // ----- Both sides finish -----

  ghost predicate Finished(y: System, who: Who) {
    Of(y, who).s.result == ResultOk && Of(y, who).s.keys.Some?
  }

  lemma {:induction false} TicksOfBriefRounds(c: Primitives, y: System, rounds: seq<seq<Event>>, n: nat, who: Who)
    requires BriefRounds(c, y, rounds, n)
    ensures Ticks(Flat(rounds), who) >= |rounds|
    decreases |rounds|
  {
    hide StopRun;
    hide NothingLostTo;
    if rounds == [] {
    } else {
      TicksOfBriefRounds(c, StopRun(c, y, rounds[0]), rounds[1..], n, who);
      TicksConcat(rounds[0], Flat(rounds[1..]), who);
    }
  }

  lemma FinishFromKeys(c: Primitives, y: System, role0: Role, rounds: seq<seq<Event>>, who: Who)
    requires Sound(c, y, role0) && BriefRounds(c, y, rounds, 4) && |rounds| >= 5
    requires Ready(Of(y, who).s) && HasPeerKeys(Of(y, who).s)
    ensures Finished(StopRun(c, y, Flat(rounds)), who)
  {
    hide Sound;
    hide BriefRounds;
    hide StopRun;
    TicksOfBriefRounds(c, y, rounds, 4, who);
    MissingOfReady(Of(y, who).s);
    StepsFinish(c, y, role0, Flat(rounds), who);
  }

  /** From this state both sides finish in so many rounds. */
  ghost predicate FinishIn(c: Primitives, y: System, rounds: seq<seq<Event>>) {
    Finished(StopRun(c, y, Flat(rounds)), A) && Finished(StopRun(c, y, Flat(rounds)), B)
  }

  lemma AfterRound(c: Primitives, y: System, role0: Role, rounds: seq<seq<Event>>)
    requires Sound(c, y, role0) && BriefRounds(c, y, rounds, 4) && rounds != []
    ensures Sound(c, StopRun(c, y, rounds[0]), role0)
    ensures StopRun(c, y, Flat(rounds)) == StopRun(c, StopRun(c, y, rounds[0]), Flat(rounds[1..]))
  {
    hide Sound;
    hide StopRun;
    RunKeepsSound(c, y, role0, rounds[0]);
    StopRunConcat(c, y, rounds[0], Flat(rounds[1..]));
  }

  lemma ReadyAfterRound(c: Primitives, y: System, role0: Role, events: seq<Event>, who: Who)
    requires Sound(c, y, role0) && Ticks(events, who) >= 1 && Ready(Of(y, who).s)
    ensures Ready(Of(StopRun(c, y, events), who).s)
  {
    hide Sound;
    hide Ready;
    hide Ungenerated;
    hide StopRun;
    ReadyGenerated(Of(y, who).s);
    RoundGenerates(c, y, role0, events, who);
    ReadyGenerated(Of(StopRun(c, y, events), who).s);
  }

  lemma FinishFromAsked(c: Primitives, y: System, role0: Role, rounds: seq<seq<Event>>)
    requires Sound(c, y, role0) && BriefRounds(c, y, rounds, 4) && |rounds| >= 6
    requires Asked(y, A) && Asked(y, B) && Ready(y.a.s) && Ready(y.b.s)
    ensures FinishIn(c, y, rounds)
  {
    hide Sound;
    hide Asked;
    hide Ready;
    hide StopRun;
    hide NothingLostTo;
    var y' := StopRun(c, y, rounds[0]);
    AfterRound(c, y, role0, rounds);
    RoundAnswers(c, y, role0, rounds[0], A);
    RoundAnswers(c, y, role0, rounds[0], B);
    ReadyAfterRound(c, y, role0, rounds[0], A);
    ReadyAfterRound(c, y, role0, rounds[0], B);
    FinishFromKeys(c, y', role0, rounds[1..], A);
    FinishFromKeys(c, y', role0, rounds[1..], B);
  }

  lemma FinishFromReady(c: Primitives, y: System, role0: Role, rounds: seq<seq<Event>>)
    requires Sound(c, y, role0) && BriefRounds(c, y, rounds, 4) && |rounds| >= 7
    requires InPhase(y, A) && InPhase(y, B) && Ready(y.a.s) && Ready(y.b.s)
    ensures FinishIn(c, y, rounds)
  {
    hide Sound;
    hide Asked;
    hide InPhase;
    hide Ready;
    hide StopRun;
    hide NothingLostTo;
    var y' := StopRun(c, y, rounds[0]);
    AfterRound(c, y, role0, rounds);
    RoundKeepsPhase(c, y, role0, rounds[0], A);
    RoundKeepsPhase(c, y, role0, rounds[0], B);
    ReadyAfterRound(c, y, role0, rounds[0], A);
    ReadyAfterRound(c, y, role0, rounds[0], B);
    FinishFromAsked(c, y', role0, rounds[1..]);
  }

  lemma {:induction false} FinishFromPhases(c: Primitives, y: System, role0: Role, rounds: seq<seq<Event>>, n: nat)
    requires Sound(c, y, role0) && BriefRounds(c, y, rounds, 4) && |rounds| >= n + 7
    requires InPhase(y, A) && InPhase(y, B) && Ungenerated(y.a.s) <= n && Ungenerated(y.b.s) <= n
    ensures FinishIn(c, y, rounds)
    decreases n
  {
    hide Sound;
    hide Asked;
    hide InPhase;
    hide Ready;
    hide Ungenerated;
    hide StopRun;
    hide NothingLostTo;
    ReadyGenerated(y.a.s);
    ReadyGenerated(y.b.s);
    if n == 0 {
      FinishFromReady(c, y, role0, rounds);
    } else {
      AfterRound(c, y, role0, rounds);
      RoundKeepsPhase(c, y, role0, rounds[0], A);
      RoundKeepsPhase(c, y, role0, rounds[0], B);
      RoundGenerates(c, y, role0, rounds[0], A);
      RoundGenerates(c, y, role0, rounds[0], B);
      FinishFromPhases(c, StopRun(c, y, rounds[0]), role0, rounds[1..], n - 1);
    }
  }

  /**
   * Although each side falls silent as soon as it has its result, both have it after ten rounds in which
   * nothing is lost and no side takes more than four steps, whatever the order in the rounds.
   */
  lemma BothFinishInTime(c: Primitives, y: System, role0: Role, rounds: seq<seq<Event>>)
    requires role0 != Bob && Initial(c, y, role0)
    requires BriefRounds(c, y, rounds, 4) && |rounds| >= 10
    ensures var z := StopRun(c, y, Flat(rounds));
            Complete(z) && z.a.s.result == ResultOk && z.b.s.result == ResultOk
  {
    hide BriefRounds;
    hide Initial;
    hide Silent;
    hide Ungenerated;
    hide StopRun;
    hide Sound;
    InitialIsSound(c, y, role0);
    InitialIsSilent(c, y, role0, A);
    InitialIsSilent(c, y, role0, B);
    ReadyGenerated(y.a.s);
    ReadyGenerated(y.b.s);
    FinishFromPhases(c, y, role0, rounds, 3);
  }

  /** And with no role at the start they have the keys of each other, if their ephemeral keys differ. */
  lemma BothAgreeInTime(c: Primitives, y: System, rounds: seq<seq<Event>>)
    requires c.DiffieHellman() && Initial(c, y, RoleUnknown)
    requires BriefRounds(c, y, rounds, 4) && |rounds| >= 10
    requires StopRun(c, y, Flat(rounds)).a.s.epk != StopRun(c, y, Flat(rounds)).b.s.epk
    ensures Complete(StopRun(c, y, Flat(rounds))) && Agree(StopRun(c, y, Flat(rounds)))
  {
    hide BriefRounds;
    hide StopRun;
    hide Run;
    hide Initial;
    BothFinishInTime(c, y, RoleUnknown, rounds);
    StopRunIsRun(c, y, Flat(rounds));
    RoleBeforeSecrets(c, y, Heeded(c, y, Flat(rounds)));
  }

  // ----- Such rounds exist -----

  lemma {:induction false} DeliverAll(ms: set<Message>, who: Who) returns (events: seq<Event>)
    ensures OnlyDeliveries(events) && forall m :: m in ms ==> DeliverTo(who, m) in events
    decreases |ms|
  {
    if ms == {} {
      events := [];
    } else {
      var m :| m in ms;
      var rest := DeliverAll(ms - {m}, who);
      DeliverToSide(who, m);
      events := [DeliverTo(who, m)] + rest;
    }
  }

  lemma {:induction false} DeliveriesLoseNothing(c: Primitives, y: System, events: seq<Event>, to: Who)
    requires OnlyDeliveries(events)
    ensures NothingLostTo(c, y, events, to)
    ensures Ticks(events, to) == 0
    decreases |events|
  {
    hide StopNext;
    if events == [] {
    } else {
      DeliveriesLoseNothing(c, StopNext(c, y, events[0]), events[1..], to);
    }
  }

  /** From every state there is a round in which each side takes one step. */
  lemma BriefRoundExists(c: Primitives, y: System, n: nat) returns (events: seq<Event>)
    requires n >= 1
    ensures BriefRound(c, y, events, n)
  {
    hide Tick;
    var e1, e2 := TickA(ZERO_KEY), TickB(ZERO_KEY);
    var y1 := StopNext(c, y, e1);
    var toB := DeliverAll(Tick(c, y.a, ZERO_KEY).1, B);
    var toA := DeliverAll(Tick(c, y1.b, ZERO_KEY).1, A);
    var last := toB + toA;
    var rest := [e2] + last;
    events := [e1] + rest;
    assert events[1..] == rest && rest[1..] == last;
    hide StopNext;
    forall to: Who
      ensures NothingLostTo(c, y, events, to) && Ticks(events, to) == 1
    {
      DeliveriesLoseNothing(c, StopNext(c, y1, e2), last, to);
      assert NothingLostTo(c, y1, rest, to);
    }
  }

  lemma {:induction false} BriefRoundsExist(c: Primitives, y: System, n: nat, count: nat)
    returns (rounds: seq<seq<Event>>)
    requires n >= 1
    ensures BriefRounds(c, y, rounds, n) && |rounds| == count
    decreases count
  {
    hide BriefRound;
    hide StopRun;
    if count == 0 {
      rounds := [];
    } else {
      var first := BriefRoundExists(c, y, n);
      var rest := BriefRoundsExist(c, StopRun(c, y, first), n, count - 1);
      rounds := [first] + rest;
      assert rounds[1..] == rest;
    }
  }

  // ----- Five steps in a round are too many -----

  /** Events of one side in which it sends nothing. */
  ghost predicate Quiet(c: Primitives, y: System, events: seq<Event>, who: Who)
    decreases |events|
  {
    events == []
    || (SideOf(events[0]) == who && (Stopped(y, who) || Arrivals(c, y, events[0]) == {})
        && Quiet(c, StopNext(c, y, events[0]), events[1..], who))
  }

  lemma QuietEvent(c: Primitives, y: System, e: Event, who: Who)
    requires SideOf(e) == who && (Stopped(y, who) || Arrivals(c, y, e) == {})
    ensures Of(StopNext(c, y, e), Other(who)) == Of(y, Other(who))
    ensures Of(StopNext(c, y, e), who).inbox == Of(y, who).inbox
  {
    hide Step;
    hide Accept;
    NextOf(c, y, e, who);
    SideOfEvent(e, who);
    if IsTickOf(e, who) && !Stopped(y, who) {
      var out := Tick(c, Of(y, who), e.random).1;
      forall m | m in out
        ensures false
      {
        SentArrives(c, y, e, who, m);
      }
      assert Of(y, Other(who)).inbox + out == Of(y, Other(who)).inbox;
    }
  }

  lemma {:induction false} QuietChangesOne(c: Primitives, y: System, events: seq<Event>, who: Who)
    requires Quiet(c, y, events, who)
    ensures Of(StopRun(c, y, events), Other(who)) == Of(y, Other(who))
    ensures Of(StopRun(c, y, events), who).inbox == Of(y, who).inbox
    decreases |events|
  {
    hide StopNext;
    if events == [] {
    } else {
      QuietEvent(c, y, events[0], who);
      QuietChangesOne(c, StopNext(c, y, events[0]), events[1..], who);
    }
  }

  lemma {:induction false} QuietFirst(c: Primitives, y: System, first: seq<Event>, rest: seq<Event>, who: Who, to: Who)
    requires Quiet(c, y, first, who) && NothingLostTo(c, StopRun(c, y, first), rest, to)
    ensures NothingLostTo(c, y, first + rest, to)
    decreases |first|
  {
    hide StopNext;
    if first == [] {
      assert first + rest == rest;
    } else {
      assert (first + rest)[1..] == first[1..] + rest;
      QuietFirst(c, StopNext(c, y, first[0]), first[1..], rest, who, to);
    }
  }

  function TickOf(who: Who, k: Key): Event {
    if who == A then TickA(k) else TickB(k)
  }

  function Steps(who: Who, k: Key, n: nat): (events: seq<Event>)
    ensures |events| == n && (n > 0 ==> events[0] == TickOf(who, k) && events[1..] == Steps(who, k, n - 1))
    ensures Ticks(events, who) == n && Ticks(events, Other(who)) == 0
  {
    if n == 0 then []
    else
      assert ([TickOf(who, k)] + Steps(who, k, n - 1))[1..] == Steps(who, k, n - 1);
      [TickOf(who, k)] + Steps(who, k, n - 1)
  }

  /** A side that has asked for nothing yet and heard no key; its peer has asked it for both keys or for none. */
  ghost predicate Blank(e: Endpoint, asked: bool) {
    && e.s.peerEpk.None? && e.s.peerIpk.None? && e.s.epkTimer.interval == 0 && e.s.ipkTimer.interval == 0
    && e.s.epkRequested == asked && e.s.ipkRequested == asked && e.s.result == ResultNone
  }

  lemma GenerationStep(c: Primitives, s: State, k: Key)
    requires !Ready(s)
    ensures Ungenerated(Step(c, s, Some(k)).0) == Ungenerated(s) - 1
  {
  }

  lemma {:induction false} GeneratesQuietly(c: Primitives, y: System, who: Who, k: Key, n: nat, asked: bool)
    requires Blank(Of(y, who), asked) && Ungenerated(Of(y, who).s) == n
    ensures Quiet(c, y, Steps(who, k, n), who)
    ensures var z := StopRun(c, y, Steps(who, k, n)); Ready(Of(z, who).s) && Blank(Of(z, who), asked)
    decreases n
  {
    hide Step;
    if n == 0 {
      ReadyGenerated(Of(y, who).s);
    } else {
      var e := TickOf(who, k);
      ReadyGenerated(Of(y, who).s);
      GenerationStep(c, Of(y, who).s, k);
      GenerationKeepsRest(c, Of(y, who).s, k);
      NextOf(c, y, e, who);
      hide Ungenerated;
      GeneratesQuietly(c, StopNext(c, y, e), who, k, n - 1, asked);
    }
  }

  lemma ReadyStep(c: Primitives, s: State, k: Key)
    requires Ready(s)
    ensures var (s', out) := Step(c, s, Some(k));
            && out == Requests(s) + Responses(s) && !s'.epkRequested && !s'.ipkRequested
            && s'.peerEpk == s.peerEpk && s'.peerIpk == s.peerIpk && Ready(s')
  {
    hide ComputeKeys;
    var s1 := Outbound(s).0;
    assert Step(c, s, Some(k)).0 == Compute(c, s1);
    ComputeKeepsFlags(c, s1);
    ComputeKeepsInputs(c, s1);
    hide Compute;
  }

  lemma ComputeKeepsFlags(c: Primitives, s: State)
    ensures Compute(c, s).epkRequested == s.epkRequested && Compute(c, s).ipkRequested == s.ipkRequested
  {
    if ComputeShared(c, s).Some? {
      SharedChanges(c, s);
    }
    hide ComputeShared;
  }

  // The run: A asks B before B has its key pair, B asks and answers in one step, and A takes its five last
  // steps before the requests of B arrive.

  lemma QuietLosesNothing(c: Primitives, y: System, events: seq<Event>, who: Who, to: Who)
    requires Quiet(c, y, events, who)
    ensures NothingLostTo(c, y, events, to)
  {
    hide Quiet;
    hide StopRun;
    assert events + [] == events;
    QuietFirst(c, y, events, [], who, to);
  }

  lemma AskStep(c: Primitives, y: System, role0: Role, k: Key)
    requires Sound(c, y, role0) && Blank(y.a, false) && Ready(y.a.s)
    ensures var y' := StopNext(c, y, TickA(k));
            && Arrivals(c, y, TickA(k)) == {DeliverToB(EpkRequest), DeliverToB(IpkRequest)}
            && y'.b == y.b.(inbox := y.b.inbox + {EpkRequest, IpkRequest}) && y'.a.inbox == y.a.inbox
            && Uninformed(y'.a)
  {
    hide Step;
    hide Sound;
    var s := y.a.s;
    ReadyStep(c, s, k);
    assert Requests(s) + Responses(s) == [EpkRequest, IpkRequest];
  }

  /** A side that waits for both keys and was asked for none. */
  ghost predicate Uninformed(e: Endpoint) {
    e.s.peerEpk.None? && e.s.peerIpk.None? && !e.s.epkRequested && !e.s.ipkRequested && Ready(e.s)
  }

  lemma RequestsToB(c: Primitives, y: System)
    requires Blank(y.b, false) && y.b.inbox == {EpkRequest, IpkRequest}
    ensures var events := [DeliverToB(EpkRequest), DeliverToB(IpkRequest)];
            var z := StopRun(c, y, events);
            && Quiet(c, y, events, B) && Blank(z.b, true) && Ungenerated(z.b.s) == Ungenerated(y.b.s)
  {
    var e1, e2 := DeliverToB(EpkRequest), DeliverToB(IpkRequest);
    var y1 := StopNext(c, y, e1);
    var y2 := StopNext(c, y1, e2);
    assert [e1, e2][1..] == [e2] && [e2][1..] == [];
    assert StopRun(c, y2, []) == y2;
    assert StopRun(c, y1, [e2]) == y2;
  }

  /** What the first round leaves: A has asked, and B has its key pair and has been asked. */
  ghost predicate Asymmetric(y: System) {
    && Uninformed(y.a) && y.a.inbox == {}
    && Blank(y.b, true) && Ready(y.b.s) && y.b.inbox == {EpkRequest, IpkRequest}
  }

  lemma FirstRound(c: Primitives, y: System, role0: Role, kA: Key, kB: Key) returns (events: seq<Event>)
    requires role0 != Bob && Initial(c, y, role0)
    ensures BriefRound(c, y, events, 5) && Asymmetric(StopRun(c, y, events))
  {
    InitialIsSound(c, y, role0);
    InitialIsBlank(c, y, role0);
    hide Initial;
    hide Sound;
    hide StopNext;
    hide StopRun;
    hide Arrivals;
    hide Blank;
    hide Uninformed;
    hide Quiet;
    hide NothingLostTo;
    hide Ungenerated;
    var first := Steps(A, kA, Ungenerated(y.a.s));
    GeneratesQuietly(c, y, A, kA, Ungenerated(y.a.s), false);
    QuietChangesOne(c, y, first, A);
    RunKeepsSound(c, y, role0, first);
    var rest := FirstAsk(c, StopRun(c, y, first), role0, kA, kB);
    events := first + rest;
    StopRunConcat(c, y, first, rest);
    forall to: Who
      ensures NothingLostTo(c, y, events, to) && Ticks(events, to) == Ticks(first, to) + Ticks(rest, to)
    {
      QuietFirst(c, y, first, rest, A, to);
      TicksConcat(first, rest, to);
    }
  }

  lemma InitialIsBlank(c: Primitives, y: System, role0: Role)
    requires Initial(c, y, role0)
    ensures Blank(y.a, false) && Blank(y.b, false) && y.a.inbox == {} && y.b.inbox == {}
    ensures 2 <= Ungenerated(y.a.s) <= 3 && 2 <= Ungenerated(y.b.s) <= 3
  {
  }

  lemma FirstAsk(c: Primitives, y: System, role0: Role, kA: Key, kB: Key) returns (events: seq<Event>)
    requires Sound(c, y, role0) && Blank(y.a, false) && Ready(y.a.s) && Blank(y.b, false)
    requires y.a.inbox == {} && y.b.inbox == {}
    ensures forall to: Who :: NothingLostTo(c, y, events, to)
    ensures Ticks(events, A) == 1 && Ticks(events, B) == Ungenerated(y.b.s)
    ensures Asymmetric(StopRun(c, y, events))
  {
    hide Sound;
    hide StopNext;
    hide StopRun;
    hide Arrivals;
    hide Blank;
    hide Ready;
    hide Uninformed;
    hide Quiet;
    hide NothingLostTo;
    hide Ungenerated;
    var e := TickA(kA);
    AskStep(c, y, role0, kA);
    var y1 := StopNext(c, y, e);
    BlankInbox(y.b, y1.b);
    var asks := [DeliverToB(EpkRequest), DeliverToB(IpkRequest)];
    RequestsToB(c, y1);
    QuietChangesOne(c, y1, asks, B);
    var y2 := StopRun(c, y1, asks);
    var last := Steps(B, kB, Ungenerated(y2.b.s));
    GeneratesQuietly(c, y2, B, kB, Ungenerated(y2.b.s), true);
    QuietChangesOne(c, y2, last, B);
    events := [e] + (asks + last);
    LoudFirst(c, y, e, asks, last, B);
  }

  /** An event, and after it those of one side, which deliver what the event sent. */
  lemma LoudFirst(c: Primitives, y: System, e: Event, arrive: seq<Event>, last: seq<Event>, who: Who)
    requires var y1 := StopNext(c, y, e);
             Quiet(c, y1, arrive, who) && Quiet(c, StopRun(c, y1, arrive), last, who)
    requires forall d :: d in Arrivals(c, y, e) ==> d in arrive
    ensures var events := [e] + (arrive + last);
            && StopRun(c, y, events) == StopRun(c, StopRun(c, StopNext(c, y, e), arrive), last)
            && forall to: Who :: NothingLostTo(c, y, events, to)
                 && Ticks(events, to) == One(IsTickOf(e, to)) + Ticks(arrive, to) + Ticks(last, to)
  {
    hide StopNext;
    hide Arrivals;
    hide Quiet;
    var y1, rest := StopNext(c, y, e), arrive + last;
    var events := [e] + rest;
    assert events[1..] == rest && events[0] == e;
    StopRunConcat(c, y1, arrive, last);
    forall to: Who
      ensures NothingLostTo(c, y, events, to)
      ensures Ticks(events, to) == One(IsTickOf(e, to)) + Ticks(arrive, to) + Ticks(last, to)
    {
      QuietLosesNothing(c, StopRun(c, y1, arrive), last, who, to);
      QuietFirst(c, y1, arrive, last, who, to);
      TicksConcat(arrive, last, to);
    }
  }

  lemma BlankInbox(e: Endpoint, e': Endpoint)
    requires Blank(e, false) && e'.s == e.s
    ensures Blank(e', false)
  {
  }

  lemma AnswerStep(c: Primitives, y: System, role0: Role, k: Key)
    requires Sound(c, y, role0) && Asymmetric(y)
    ensures var y' := StopNext(c, y, TickB(k));
            var answers := [EpkAnswer(y.b.s), IpkAnswer(y.b.s)];
            && Arrivals(c, y, TickB(k)) == {DeliverToA(EpkRequest), DeliverToA(IpkRequest),
                                            DeliverToA(answers[0]), DeliverToA(answers[1])}
            && y'.a == y.a.(inbox := {EpkRequest, IpkRequest, answers[0], answers[1]})
            && y'.b.inbox == y.b.inbox
  {
    hide Step;
    hide Sound;
    var s := y.b.s;
    ReadyStep(c, s, k);
    assert Requests(s) + Responses(s) == [EpkRequest, IpkRequest, EpkAnswer(s), IpkAnswer(s)];
  }

  /** A side with all that it needs of its peer, and asked for nothing. */
  ghost predicate Informed(e: Endpoint) {
    HasPeerKeys(e.s) && Ready(e.s) && !e.s.epkRequested && !e.s.ipkRequested
  }

  lemma AnswersToA(c: Primitives, y: System, role0: Role, epk: Key, ipk: Key)
    requires Sound(c, y, role0) && Uninformed(y.a) && {EpkResponse(epk), IpkResponse(Some(ipk), false)} <= y.a.inbox
    ensures var events := [DeliverToA(EpkResponse(epk)), DeliverToA(IpkResponse(Some(ipk), false))];
            Quiet(c, y, events, A) && Informed(StopRun(c, y, events).a)
  {
    var e1, e2 := DeliverToA(EpkResponse(epk)), DeliverToA(IpkResponse(Some(ipk), false));
    assert !Stopped(y, A) by {
      SoundInvariant(c, y, role0);
      if Stopped(y, A) {
        StoppedIsDone(c, y, role0, A);
      }
    }
    hide Sound;
    var y1 := StopNext(c, y, e1);
    assert y1.a == y.a.(s := y.a.s.(peerEpk := Some(epk)));
    var y2 := StopNext(c, y1, e2);
    assert y2.a == y1.a.(s := y1.a.s.(peerIpk := Some(ipk)));
    assert [e1, e2][1..] == [e2] && [e2][1..] == [];
    hide Next;
    assert StopRun(c, y2, []) == y2;
    assert StopRun(c, y1, [e2]) == y2;
    assert Informed(y2.a);
    assert Quiet(c, y2, [], A);
    assert Quiet(c, y1, [e2], A);
  }

  lemma {:induction false} ComputesQuietly(c: Primitives, y: System, k: Key, n: nat)
    requires Informed(y.a)
    ensures Quiet(c, y, Steps(A, k, n), A)
    decreases n
  {
    hide Step;
    if n == 0 {
    } else {
      var e, s := TickA(k), y.a.s;
      ReadyStep(c, s, k);
      assert Requests(s) + Responses(s) == [];
      NextOf(c, y, e, A);
      ComputesQuietly(c, StopNext(c, y, e), k, n - 1);
    }
  }

  lemma LateRequests(c: Primitives, y: System)
    requires Stopped(y, A)
    ensures var late := [DeliverToA(EpkRequest), DeliverToA(IpkRequest)];
            Quiet(c, y, late, A) && StopRun(c, y, late) == y && Ticks(late, A) == 0 && Ticks(late, B) == 0
  {
    var e1, e2 := DeliverToA(EpkRequest), DeliverToA(IpkRequest);
    assert [e1, e2][1..] == [e2] && [e2][1..] == [];
    assert StopRun(c, y, []) == y && StopRun(c, y, [e2]) == y;
  }

  lemma {:induction false} QuietConcat(c: Primitives, y: System, first: seq<Event>, rest: seq<Event>, who: Who)
    requires Quiet(c, y, first, who) && Quiet(c, StopRun(c, y, first), rest, who)
    ensures Quiet(c, y, first + rest, who)
    decreases |first|
  {
    hide StopNext;
    hide Arrivals;
    if first == [] {
      assert first + rest == rest;
    } else {
      assert (first + rest)[1..] == first[1..] + rest;
      QuietConcat(c, StopNext(c, y, first[0]), first[1..], rest, who);
    }
  }

  lemma SecondRound(c: Primitives, y: System, role0: Role, kA: Key, kB: Key) returns (events: seq<Event>)
    requires Sound(c, y, role0) && Asymmetric(y)
    ensures BriefRound(c, y, events, 5)
    ensures var z := StopRun(c, y, events); Stopped(z, A) && z.b.inbox == {EpkRequest, IpkRequest}
  {
    hide StopNext;
    hide StopRun;
    hide Arrivals;
    hide Quiet;
    hide NothingLostTo;
    var e, epk, ipk := TickB(kB), y.b.s.epk.value, y.b.s.ipk;
    AnswerStep(c, y, role0, kB);
    var y1 := StopNext(c, y, e);
    NextKeepsSound(c, y, role0, e);
    assert Uninformed(y1.a) && y1.b.inbox == {EpkRequest, IpkRequest};
    hide Asymmetric;
    hide Uninformed;
    hide Sound;
    hide Missing;
    hide Ready;
    var answers := [DeliverToA(EpkResponse(epk)), DeliverToA(IpkResponse(Some(ipk), false))];
    AnswersToA(c, y1, role0, epk, ipk);
    RunKeepsSound(c, y1, role0, answers);
    QuietChangesOne(c, y1, answers, A);
    var y2 := StopRun(c, y1, answers);
    var five := Steps(A, kA, 5);
    ComputesQuietly(c, y2, kA, 5);
    MissingOfReady(y2.a.s);
    StepsFinish(c, y2, role0, five, A);
    QuietChangesOne(c, y2, five, A);
    var y3 := StopRun(c, y2, five);
    var late := [DeliverToA(EpkRequest), DeliverToA(IpkRequest)];
    LateRequests(c, y3);
    QuietConcat(c, y2, five, late, A);
    StopRunConcat(c, y2, five, late);
    events := SecondRoundIs(c, y, e, answers, five, late);
    DeliveriesLoseNothing(c, y, answers, A);
    DeliveriesLoseNothing(c, y, answers, B);
  }

  lemma SecondRoundIs(c: Primitives, y: System, e: Event, answers: seq<Event>, five: seq<Event>, late: seq<Event>)
    returns (events: seq<Event>)
    requires var y1 := StopNext(c, y, e);
             Quiet(c, y1, answers, A) && Quiet(c, StopRun(c, y1, answers), five + late, A)
    requires forall d :: d in Arrivals(c, y, e) ==> d in answers || d in late
    ensures var y1 := StopNext(c, y, e);
            StopRun(c, y, events) == StopRun(c, StopRun(c, y1, answers), five + late)
    ensures forall to: Who :: NothingLostTo(c, y, events, to)
              && Ticks(events, to) == One(IsTickOf(e, to)) + Ticks(answers, to) + Ticks(five, to) + Ticks(late, to)
  {
    hide StopNext;
    hide StopRun;
    hide Arrivals;
    hide Quiet;
    hide NothingLostTo;
    var y1, arrive := StopNext(c, y, e), answers + (five + late);
    QuietConcat(c, y1, answers, five + late, A);
    StopRunConcat(c, y1, answers, five + late);
    assert arrive + [] == arrive;
    QuietNothing(c, StopRun(c, y1, arrive));
    LoudFirst(c, y, e, arrive, [], A);
    events := [e] + (arrive + []);
    forall to: Who
      ensures Ticks(arrive, to) == Ticks(answers, to) + Ticks(five, to) + Ticks(late, to)
    {
      TicksConcat(answers, five + late, to);
      TicksConcat(five, late, to);
    }
  }

  lemma QuietNothing(c: Primitives, y: System)
    ensures Quiet(c, y, [], A) && StopRun(c, y, []) == y
  {
  }

  /**
   * With five steps a round this fails, for all keys and from every start: there are two rounds in which nothing
   * is lost and after which one side is stopped with its result, while the other never gets one.
   */
  lemma FiveStepsStrand(c: Primitives, y: System, role0: Role, kA: Key, kB: Key) returns (rounds: seq<seq<Event>>)
    requires role0 != Bob && Initial(c, y, role0)
    ensures BriefRounds(c, y, rounds, 5) && |rounds| == 2
    ensures StopRun(c, y, Flat(rounds)).a.s.result == ResultOk
    ensures forall last :: StopRun(c, y, Flat(rounds) + last).b.s.result == ResultNone
  {
    hide BriefRound;
    hide StopRun;
    hide Sound;
    hide Initial;
    hide Asymmetric;
    InitialIsSound(c, y, role0);
    var first := FirstRound(c, y, role0, kA, kB);
    var y1 := StopRun(c, y, first);
    RunKeepsSound(c, y, role0, first);
    var second := SecondRound(c, y1, role0, kA, kB);
    var z := StopRun(c, y1, second);
    RunKeepsSound(c, y1, role0, second);
    rounds := [first, second];
    assert rounds[1..] == [second] && [second][1..] == [];
    assert Flat([second]) == second + Flat([]) == second;
    assert Flat(rounds) == first + second;
    assert BriefRounds(c, z, [], 5) && BriefRounds(c, y1, [second], 5);
    StopRunConcat(c, y, first, second);
    SoundInvariant(c, z, role0);
    StoppedIsDone(c, z, role0, A);
    assert !KeySentTo(z, B, Ephemeral);
    forall last
      ensures StopRun(c, y, Flat(rounds) + last).b.s.result == ResultNone
    {
      StopRunConcat(c, y, Flat(rounds), last);
      if Stopped(StopRun(c, z, last), B) {
        NoMoreIsSent(c, z, role0, last, B);
      }
    }
  }
}
