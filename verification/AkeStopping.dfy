/**
 * Sessions that are stopped as soon as they have their result, which is what the key manager does with
 * them: from then on that side takes no step, sends nothing and hears nothing.
 */
module AkeStopping {
  import opened Bytes
  import opened Ake3dh
  import opened AkeRuns
  import opened AkeProgress
  import opened AkeSchedule
  import opened AkeLiveness

  function SideOf(e: Event): Who {
    if e.TickA? || e.DeliverToA? then A else B
  }

  predicate Stopped(y: System, who: Who) {
    Of(y, who).s.result != ResultNone
  }

  function StopNext(c: Primitives, y: System, e: Event): System {
    if Stopped(y, SideOf(e)) then y else Next(c, y, e)
  }

  function StopRun(c: Primitives, y: System, events: seq<Event>): System
    decreases |events|
  {
    if events == [] then y else StopRun(c, StopNext(c, y, events[0]), events[1..])
  }

  /** The events that find their side still there. */
  function Heeded(c: Primitives, y: System, events: seq<Event>): seq<Event>
    decreases |events|
  {
    if events == [] then []
    else
      var rest := Heeded(c, StopNext(c, y, events[0]), events[1..]);
      if Stopped(y, SideOf(events[0])) then rest else [events[0]] + rest
  }

  /** So all that holds of every run holds here too. */
  lemma {:induction false} StopRunIsRun(c: Primitives, y: System, events: seq<Event>)
    ensures StopRun(c, y, events) == Run(c, y, Heeded(c, y, events))
    decreases |events|
  {
    hide Next;
    if events == [] {
    } else {
      StopRunIsRun(c, StopNext(c, y, events[0]), events[1..]);
      RunCons(c, y, events[0], Heeded(c, StopNext(c, y, events[0]), events[1..]));
    }
  }

  lemma {:induction false} StopRunConcat(c: Primitives, y: System, first: seq<Event>, rest: seq<Event>)
    ensures StopRun(c, y, first + rest) == StopRun(c, StopRun(c, y, first), rest)
    decreases |first|
  {
    hide StopNext;
    if first == [] {
      assert first + rest == rest;
    } else {
      StopRunConcat(c, StopNext(c, y, first[0]), first[1..], rest);
      assert (first + rest)[1..] == first[1..] + rest;
    }
  }

  lemma SideOfEvent(e: Event, who: Who)
    ensures SideOf(e) == who <==> IsTickOf(e, who) || IsDeliveryTo(e, who)
    ensures IsTickOf(e, who) ==> !IsDeliveryTo(e, who)
    ensures SideOf(e) == who || SideOf(e) == Other(who)
    ensures Other(Other(who)) == who
  {
  }

  /** A side that is stopped stays as it is, and the other side gets no more messages. */
  lemma StoppedStays(c: Primitives, y: System, e: Event, who: Who)
    requires Stopped(y, who)
    ensures Of(StopNext(c, y, e), who).s == Of(y, who).s
    ensures Of(StopNext(c, y, e), Other(who)).inbox == Of(y, Other(who)).inbox
  {
    hide Step;
    hide Accept;
    SideOfEvent(e, who);
    NextOf(c, y, e, Other(who));
  }

  lemma {:induction false} StoppedForGood(c: Primitives, y: System, events: seq<Event>, who: Who)
    requires Stopped(y, who)
    ensures Of(StopRun(c, y, events), who).s == Of(y, who).s
    ensures Of(StopRun(c, y, events), Other(who)).inbox == Of(y, Other(who)).inbox
    decreases |events|
  {
    hide StopNext;
    if events == [] {
    } else {
      StoppedStays(c, y, events[0], who);
      StoppedForGood(c, StopNext(c, y, events[0]), events[1..], who);
    }
  }

  lemma {:induction false} HeededTicks(c: Primitives, y: System, events: seq<Event>, who: Who)
    ensures Stopped(StopRun(c, y, events), who) || Ticks(Heeded(c, y, events), who) == Ticks(events, who)
    decreases |events|
  {
    hide Next;
    if events == [] {
    } else {
      var e, y' := events[0], StopNext(c, y, events[0]);
      SideOfEvent(e, who);
      HeededTicks(c, y', events[1..], who);
      if Stopped(y, who) {
        StoppedForGood(c, y, events, who);
      } else {
        var rest := Heeded(c, y', events[1..]);
        assert ([e] + rest)[1..] == rest;
      }
    }
  }

  // ----- What is known of every reachable state -----

  /** A key of the given kind was sent to this side. */
  ghost predicate KeySentTo(y: System, who: Who, kind: Kind) {
    exists m :: m in Of(y, who).inbox && IsAnswer(m, kind)
  }

  ghost predicate HeardWasSent(y: System, who: Who) {
    forall kind: Kind :: Unanswered(Of(y, who).s, kind) || KeySentTo(y, who, kind)
  }

  ghost predicate Sound(c: Primitives, y: System, role0: Role) {
    role0 != Bob && Invariant(c, y, role0) && HeardWasSent(y, A) && HeardWasSent(y, B)
  }

  lemma InitialIsSound(c: Primitives, y: System, role0: Role)
    requires role0 != Bob && Initial(c, y, role0)
    ensures Sound(c, y, role0)
  {
  }

  lemma GenuineGivesKey(s: State, m: Message, peer: State, kind: Kind)
    requires Genuine(m, peer)
    ensures Unanswered(s, kind) && !Unanswered(Accept(s, m).0, kind) ==> IsAnswer(m, kind)
  {
  }

  lemma InboxGenuine(c: Primitives, y: System, role0: Role, who: Who)
    requires Invariant(c, y, role0)
    ensures Side(c, Of(y, who), Of(y, Other(who)).s, role0)
    ensures forall m :: m in Of(y, who).inbox ==> Genuine(m, Of(y, Other(who)).s)
  {
  }

  lemma NextKeepsHeard(c: Primitives, y: System, role0: Role, e: Event, who: Who)
    requires Invariant(c, y, role0) && HeardWasSent(y, who)
    ensures HeardWasSent(Next(c, y, e), who)
  {
    hide Step;
    hide Accept;
    hide Genuine;
    hide Invariant;
    hide IsAnswer;
    var y', s := Next(c, y, e), Of(y, who).s;
    InboxGenuine(c, y, role0, who);
    hide Side;
    InboxGrows(c, y, e, who);
    NextOf(c, y, e, who);
    NextOf(c, y, e, Other(who));
    forall kind: Kind
      ensures Unanswered(Of(y', who).s, kind) || KeySentTo(y', who, kind)
    {
      if KeySentTo(y, who, kind) {
        var m :| m in Of(y, who).inbox && IsAnswer(m, kind);
        assert m in Of(y', who).inbox;
      } else if IsTickOf(e, who) {
        StepKeepsUnanswered(c, s, kind, e.random);
      } else if IsDeliveryTo(e, who) && e.m in Of(y, who).inbox {
        GenuineGivesKey(s, e.m, Of(y, Other(who)).s, kind);
      }
    }
  }

  lemma StepKeepsUnanswered(c: Primitives, s: State, kind: Kind, k: Key)
    ensures Unanswered(AdvanceTimers(Step(c, s, Some(k)).0, STEP_INTERVAL_MS), kind) == Unanswered(s, kind)
  {
    hide Step;
    if Ready(s) {
      StepWaits(c, s, kind, k);
    } else {
      GenerationIsSilent(c, s, k);
    }
  }

  lemma NextKeepsSound(c: Primitives, y: System, role0: Role, e: Event)
    requires Sound(c, y, role0)
    ensures Sound(c, StopNext(c, y, e), role0)
  {
    hide Next;
    hide Invariant;
    hide HeardWasSent;
    NextKeepsInvariant(c, y, role0, e);
    NextKeepsHeard(c, y, role0, e, A);
    NextKeepsHeard(c, y, role0, e, B);
  }

  lemma {:induction false} RunKeepsSound(c: Primitives, y: System, role0: Role, events: seq<Event>)
    requires Sound(c, y, role0)
    ensures Sound(c, StopRun(c, y, events), role0)
    decreases |events|
  {
    hide StopNext;
    hide Sound;
    if events == [] {
    } else {
      NextKeepsSound(c, y, role0, events[0]);
      RunKeepsSound(c, StopNext(c, y, events[0]), role0, events[1..]);
    }
  }

  lemma StoppedIsDone(c: Primitives, y: System, role0: Role, who: Who)
    requires Invariant(c, y, role0) && Stopped(y, who)
    ensures var s := Of(y, who).s;
            s.result == ResultOk && s.keys.Some? && HasPeerKeys(s) && Ready(s) && Missing(s) == 0
  {
  }

  lemma WithoutKeysNothingDone(c: Primitives, y: System, role0: Role, who: Who)
    requires role0 != Bob && Invariant(c, y, role0)
    requires Unanswered(Of(y, who).s, Ephemeral) && Unanswered(Of(y, who).s, Identity)
    ensures Missing(Of(y, who).s) >= 5
  {
  }

  lemma StepSetsOne(c: Primitives, s: State, k: Key)
    ensures Missing(AdvanceTimers(Step(c, s, Some(k)).0, STEP_INTERVAL_MS)) + 1 >= Missing(s)
  {
    hide Missing;
    hide Outbound;
    hide Compute;
    GenerationSetsOne(s, c.Pub(if s.esk.Some? then s.esk.value else k), k);
    OutboundSetsNothing(s);
    ComputeSetsOne(c, Outbound(s).0);
    TimersSetNothing(Step(c, s, Some(k)).0);
  }

  lemma GenerationSetsOne(s: State, pk: Key, k: Key)
    ensures Missing(s.(idGenerated := true)) + 1 >= Missing(s)
    ensures Missing(s.(esk := Some(k))) + 1 >= Missing(s)
    ensures Missing(s.(epk := Some(pk))) + 1 >= Missing(s)
  {
  }

  lemma OutboundSetsNothing(s: State)
    ensures Missing(Outbound(s).0) == Missing(s)
  {
  }

  lemma TimersSetNothing(s: State)
    ensures Missing(AdvanceTimers(s, STEP_INTERVAL_MS)) == Missing(s)
  {
  }

  lemma ComputeSetsOne(c: Primitives, s: State)
    ensures Missing(Compute(c, s)) + 1 >= Missing(s)
  {
    if ComputeShared(c, s).Some? {
      SharedSetsOne(c, s);
    } else {
      hide ComputeShared;
    }
  }

  lemma SharedSetsOne(c: Primitives, s: State)
    requires ComputeShared(c, s).Some?
    ensures Missing(ComputeShared(c, s).value) + 1 >= Missing(s)
  {
    if s.epk.Some? && s.esk.Some? && s.peerEpk.Some? && s.sh1.None? {
      assert Missing(s.(role := RoleOf(s.epk.value, s.peerEpk.value), sh1 := ComputeShared(c, s).value.sh1)) + 1
          >= Missing(s);
    } else if s.sh2.None? && ComputeShared(c, s).value.sh2.Some? {
      assert Missing(s.(sh2 := ComputeShared(c, s).value.sh2)) + 1 >= Missing(s);
    } else {
      assert Missing(s.(sh3 := ComputeShared(c, s).value.sh3)) + 1 >= Missing(s);
    }
  }

  lemma NextSetsOne(c: Primitives, y: System, e: Event, who: Who)
    ensures Missing(Of(StopNext(c, y, e), who).s) + One(IsTickOf(e, who)) >= Missing(Of(y, who).s)
  {
    hide Step;
    hide Accept;
    hide Missing;
    var s := Of(y, who).s;
    NextOf(c, y, e, who);
    NextOf(c, y, e, Other(who));
    SideOfEvent(e, who);
    if IsTickOf(e, who) {
      StepSetsOne(c, s, e.random);
    }
    if IsDeliveryTo(e, who) {
      AcceptSetsNothing(s, e.m);
    }
  }

  lemma AcceptSetsNothing(s: State, m: Message)
    ensures Missing(Accept(s, m).0) == Missing(s) && Ready(Accept(s, m).0) == Ready(s)
    ensures Accept(s, m).0.result == s.result
  {
    hide Accept;
    AcceptChanges(s, m);
  }

  // ----- What is sent to a side arrives -----

  /** Everything that is sent to this side is delivered to it later in the run. */
  ghost predicate NothingLostTo(c: Primitives, y: System, events: seq<Event>, who: Who)
    decreases |events|
  {
    events == []
    || ((!Stopped(y, SideOf(events[0])) ==>
           forall d :: d in Arrivals(c, y, events[0]) && IsDeliveryTo(d, who) ==> d in events[1..])
        && NothingLostTo(c, StopNext(c, y, events[0]), events[1..], who))
  }

  lemma DeliverToSide(who: Who, m: Message)
    ensures IsDeliveryTo(DeliverTo(who, m), who) && DeliverTo(who, m).m == m
    ensures forall e :: IsDeliveryTo(e, who) && e.m == m ==> e == DeliverTo(who, m)
  {
  }

  lemma HeardForGood(c: Primitives, y: System, role0: Role, events: seq<Event>, who: Who, kind: Kind)
    requires Sound(c, y, role0) && !Unanswered(Of(y, who).s, kind)
    ensures !Unanswered(Of(StopRun(c, y, events), who).s, kind)
  {
    hide Run;
    StopRunIsRun(c, y, events);
    AnsweredForGood(c, y, Heeded(c, y, events), who, kind);
  }

  lemma {:induction false} SentKeyIsHeard(c: Primitives, y: System, role0: Role, events: seq<Event>, who: Who,
                                          kind: Kind, m: Message)
    requires Sound(c, y, role0)
    requires IsAnswer(m, kind) && m in Of(y, who).inbox && DeliverTo(who, m) in events
    ensures !Unanswered(Of(StopRun(c, y, events), who).s, kind)
    decreases |events|
  {
    hide Next;
    hide IsAnswer;
    hide Sound;
    var e, y' := events[0], StopNext(c, y, events[0]);
    NextKeepsSound(c, y, role0, e);
    if Stopped(y, who) {
      assert Invariant(c, y, role0) by {
        SoundInvariant(c, y, role0);
      }
      StoppedIsDone(c, y, role0, who);
      StoppedForGood(c, y, events, who);
    } else if e == DeliverTo(who, m) {
      SideOfEvent(e, who);
      DeliverToSide(who, m);
      DeliveryTakes(c, y, who, m, kind);
      HeardForGood(c, y', role0, events[1..], who, kind);
    } else {
      InboxGrows(c, y, e, who);
      SentKeyIsHeard(c, y', role0, events[1..], who, kind, m);
    }
  }

  lemma SoundInvariant(c: Primitives, y: System, role0: Role)
    requires Sound(c, y, role0)
    ensures Invariant(c, y, role0) && role0 != Bob
  {
  }

  // ----- The other side of one that is stopped -----

  /** The answers on their way to this side are among the events to come. */
  ghost predicate OnTheWay(y: System, who: Who, kind: Kind, events: seq<Event>) {
    forall m :: m in Of(y, who).inbox && IsAnswer(m, kind) ==> DeliverTo(who, m) in events
  }

  lemma {:induction false} SentKeysAreHeard(c: Primitives, y: System, role0: Role, events: seq<Event>, who: Who,
                                           kind: Kind)
    requires Sound(c, y, role0) && NothingLostTo(c, y, events, who)
    requires !Unanswered(Of(y, who).s, kind) || OnTheWay(y, who, kind, events)
    ensures var z := StopRun(c, y, events);
            KeySentTo(z, who, kind) <==> !Unanswered(Of(z, who).s, kind)
    decreases |events|
  {
    hide Next;
    hide IsAnswer;
    hide Invariant;
    hide Arrivals;
    if events == [] {
      HeardIsSent(c, y, role0, who, kind);
    } else {
      var e, y' := events[0], StopNext(c, y, events[0]);
      NextKeepsSound(c, y, role0, e);
      hide Sound;
      AfterEvent(c, y, role0, events, who, kind);
      SentKeysAreHeard(c, y', role0, events[1..], who, kind);
    }
  }

  lemma HeardIsSent(c: Primitives, y: System, role0: Role, who: Who, kind: Kind)
    requires Sound(c, y, role0)
    ensures !Unanswered(Of(y, who).s, kind) ==> KeySentTo(y, who, kind)
  {
    hide Invariant;
  }

  lemma NewInInbox(c: Primitives, y: System, e: Event, who: Who, m: Message)
    requires m in Of(StopNext(c, y, e), who).inbox
    ensures m in Of(y, who).inbox || (!Stopped(y, SideOf(e)) && DeliverTo(who, m) in Arrivals(c, y, e))
  {
    hide Step;
    hide Accept;
    NextOf(c, y, e, who);
    NextOf(c, y, e, Other(who));
  }

  lemma AfterEvent(c: Primitives, y: System, role0: Role, events: seq<Event>, who: Who, kind: Kind)
    requires Sound(c, y, role0) && NothingLostTo(c, y, events, who) && events != []
    requires !Unanswered(Of(y, who).s, kind) || OnTheWay(y, who, kind, events)
    ensures var y' := StopNext(c, y, events[0]);
            !Unanswered(Of(y', who).s, kind) || OnTheWay(y', who, kind, events[1..])
  {
    hide Next;
    hide IsAnswer;
    hide Sound;
    hide Arrivals;
    var e, y' := events[0], StopNext(c, y, events[0]);
    if Stopped(y, who) {
      SoundInvariant(c, y, role0);
      StoppedIsDone(c, y, role0, who);
      StoppedStays(c, y, e, who);
    } else if !Unanswered(Of(y, who).s, kind) {
      AnsweredStays(c, y, e, who, kind);
    } else if exists m :: m in Of(y, who).inbox && IsAnswer(m, kind) && e == DeliverTo(who, m) {
      var m :| m in Of(y, who).inbox && IsAnswer(m, kind) && e == DeliverTo(who, m);
      DeliverToSide(who, m);
      SideOfEvent(e, who);
      DeliveryTakes(c, y, who, m, kind);
    } else {
      forall m | m in Of(y', who).inbox && IsAnswer(m, kind)
        ensures DeliverTo(who, m) in events[1..]
      {
        NewInInbox(c, y, e, who, m);
        DeliverToSide(who, m);
      }
    }
  }

  lemma StepsFinish(c: Primitives, y: System, role0: Role, events: seq<Event>, who: Who)
    requires Sound(c, y, role0) && HasPeerKeys(Of(y, who).s) && Ticks(events, who) >= Missing(Of(y, who).s)
    ensures Of(StopRun(c, y, events), who).s.result == ResultOk && Of(StopRun(c, y, events), who).s.keys.Some?
  {
    hide Run;
    hide StopRun;
    hide Missing;
    hide Sound;
    hide Invariant;
    SoundInvariant(c, y, role0);
    StopRunIsRun(c, y, events);
    HeededTicks(c, y, events, who);
    if Stopped(StopRun(c, y, events), who) {
      RunKeepsSound(c, y, role0, events);
      SoundInvariant(c, StopRun(c, y, events), role0);
      StoppedIsDone(c, StopRun(c, y, events), role0, who);
    } else {
      ReachesResult(c, y, role0, who, Heeded(c, y, events));
    }
  }

  lemma MissingAtMost(s: State)
    ensures Missing(s) <= 8
  {
  }

  /**
   * If everything sent to a side arrives and the other side has been stopped, then the side finishes, as
   * soon as it takes eight steps more and whatever else happens, exactly if the other side sent it both
   * its keys before that.
   */
  lemma OtherFinishesExactly(c: Primitives, y: System, role0: Role, events: seq<Event>, last: seq<Event>, who: Who)
    requires role0 != Bob && Initial(c, y, role0) && NothingLostTo(c, y, events, who)
    requires Stopped(StopRun(c, y, events), Other(who)) && Ticks(last, who) >= 8
    ensures Of(StopRun(c, y, events + last), who).s.result == ResultOk
            <==> forall kind: Kind :: KeySentTo(StopRun(c, y, events), who, kind)
  {
    hide StopRun;
    hide Missing;
    hide Sound;
    hide IsAnswer;
    hide Invariant;
    hide NothingLostTo;
    var z := StopRun(c, y, events);
    var z' := StopRun(c, z, last);
    InitialIsSound(c, y, role0);
    RunKeepsSound(c, y, role0, events);
    RunKeepsSound(c, z, role0, last);
    StopRunConcat(c, y, events, last);
    forall kind: Kind
      ensures KeySentTo(z, who, kind) <==> !Unanswered(Of(z, who).s, kind)
    {
      NothingYet(c, y, role0, who, kind, events);
      SentKeysAreHeard(c, y, role0, events, who, kind);
    }
    assert HasPeerKeys(Of(z, who).s) <==> !Unanswered(Of(z, who).s, Ephemeral) && !Unanswered(Of(z, who).s, Identity);
    assert (forall kind: Kind :: KeySentTo(z, who, kind))
        <==> KeySentTo(z, who, Ephemeral) && KeySentTo(z, who, Identity);
    if HasPeerKeys(Of(z, who).s) {
      MissingAtMost(Of(z, who).s);
      StepsFinish(c, z, role0, last, who);
    } else if Of(z', who).s.result == ResultOk {
      NoMoreIsSent(c, z, role0, last, who);
    }
  }

  lemma NothingYet(c: Primitives, y: System, role0: Role, who: Who, kind: Kind, events: seq<Event>)
    requires Initial(c, y, role0)
    ensures OnTheWay(y, who, kind, events)
  {
  }

  /** After one side is stopped, what the other is not sent yet it never gets. */
  lemma NoMoreIsSent(c: Primitives, y: System, role0: Role, events: seq<Event>, who: Who)
    requires Sound(c, y, role0) && Stopped(y, Other(who)) && Stopped(StopRun(c, y, events), who)
    ensures forall kind: Kind :: KeySentTo(y, who, kind)
  {
    hide StopRun;
    hide Sound;
    hide IsAnswer;
    var z := StopRun(c, y, events);
    RunKeepsSound(c, y, role0, events);
    SoundInvariant(c, z, role0);
    StoppedIsDone(c, z, role0, who);
    StoppedForGood(c, y, events, Other(who));
    assert Other(Other(who)) == who;
    forall kind: Kind
      ensures KeySentTo(y, who, kind)
    {
      HeardIsSent(c, z, role0, who, kind);
      var m :| m in Of(z, who).inbox && IsAnswer(m, kind);
      assert m in Of(y, who).inbox;
    }
  }
}
