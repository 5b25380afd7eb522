/** All runs of the key manager: who owns which key exchange, how long sessions live, which one is newest. */
module KeyManagerRuns {
  import opened Bytes
  import opened Ake3dh
  import opened KeyManager

  datatype Event =
    | Iterate
    | ManageTid(tid: uint32)
    | Unmatched(tid: uint32)
    | Result(slot: nat, ok: bool, keys: TxRx)

  function Next(k: Tables, e: Event): (r: Tables)
    ensures |r.sessions| == |k.sessions| && |r.used| == |k.used|
  {
    match e
    case Iterate => Iterated(k)
    case ManageTid(tid) => WithManaged(k, tid)
    case Unmatched(tid) => WithRemote(k, tid)
    case Result(slot, ok, keys) => WithResult(k, slot, ok, keys)
  }

  function Run(k: Tables, events: seq<Event>): (r: Tables)
    ensures |r.sessions| == |k.sessions| && |r.used| == |k.used|
    decreases |events|
  {
    if events == [] then k else Run(Next(k, events[0]), events[1..])
  }

  function Initial(tableSize: nat, poolSize: nat): Tables {
    Tables(seq(tableSize, _ => ZERO), seq(poolSize, _ => false))
  }

  // ----- Ownership of key exchange slots -----

  /**
   * Every session in INITIAL_AKE holds a used slot, no two hold the same, and every used slot is
   * held: the slot pointer is a bijection from these sessions to the used slots.
   */
  ghost predicate Owned(k: Tables) {
    && (forall i {:trigger k.sessions[i]} :: 0 <= i < |k.sessions| && k.sessions[i].phase == InitialAke ==>
          var slot := k.sessions[i].slot; slot.Some? && slot.value < |k.used| && k.used[slot.value])
    && (forall i, j {:trigger k.sessions[i], k.sessions[j]} ::
          (0 <= i < j < |k.sessions| && k.sessions[i].phase == k.sessions[j].phase == InitialAke)
          ==> k.sessions[i].slot != k.sessions[j].slot)
    && (forall slot :: 0 <= slot < |k.used| && k.used[slot] ==>
          exists i :: 0 <= i < |k.sessions| && Holds(k.sessions[i], slot))
  }

  /** One session takes a free slot, gives its slot back, or does neither. */
  ghost predicate SlotStep(k: Tables, k': Tables, i: nat)
    requires i < |k.sessions|
  {
    && |k'.sessions| == |k.sessions| && |k'.used| == |k.used|
    && k'.sessions == k.sessions[i := k'.sessions[i]]
    && var s, s' := k.sessions[i], k'.sessions[i];
       if s'.phase == InitialAke && s.phase != InitialAke then
         s'.slot.Some? && s'.slot.value < |k.used| && !k.used[s'.slot.value] && k'.used == k.used[s'.slot.value := true]
       else if s'.phase != InitialAke && s.phase == InitialAke && s.slot.Some? && s.slot.value < |k.used| then
         k'.used == k.used[s.slot.value := false]
       else
         k'.used == k.used && (s'.phase == InitialAke ==> s'.slot == s.slot)
  }

  lemma SlotStepKeepsOwned(k: Tables, k': Tables, i: nat)
    requires i < |k.sessions| && Owned(k) && SlotStep(k, k', i)
    ensures Owned(k')
  {
    forall slot | 0 <= slot < |k'.used| && k'.used[slot]
      ensures exists j :: 0 <= j < |k'.sessions| && Holds(k'.sessions[j], slot)
    {
      if k.used[slot] {
        var j :| 0 <= j < |k.sessions| && Holds(k.sessions[j], slot);
        assert Holds(k'.sessions[j], slot);
      } else {
        assert Holds(k'.sessions[i], slot);
      }
    }
  }

  lemma VisitKeepsOwned(k: Tables, i: nat)
    requires i < |k.sessions| && Owned(k)
    ensures Owned(Visit(k, i))
  {
    hide Owned;
    SlotStepKeepsOwned(k, Visit(k, i), i);
  }

  lemma {:induction false} VisitsKeepOwned(k: Tables, n: nat)
    requires n <= |k.sessions| && Owned(k)
    ensures Owned(VisitUpTo(k, n))
  {
    hide Owned;
    hide Visit;
    if n == 0 {
    } else {
      VisitsKeepOwned(k, n - 1);
      VisitKeepsOwned(VisitUpTo(k, n - 1), n - 1);
    }
  }

  lemma NextKeepsOwned(k: Tables, e: Event)
    requires Owned(k)
    ensures Owned(Next(k, e))
  {
    hide Owned;
    match e
    case Iterate => VisitsKeepOwned(k, |k.sessions|);
    case ManageTid(tid) =>
      var i := FirstEmpty(k.sessions, 0);
      if i >= 0 { SlotStepKeepsOwned(k, Next(k, e), i); }
    case Unmatched(tid) =>
      var i := FirstEmpty(k.sessions, 0);
      if i >= 0 { SlotStepKeepsOwned(k, Next(k, e), i); }
    case Result(slot, ok, keys) =>
      var i := Owner(k.sessions, slot);
      if i >= 0 { SlotStepKeepsOwned(k, Next(k, e), i); }
  }

  /** In every reachable state the slot pointer is a bijection: no slot leaks, and every result finds its one owner. */
  lemma {:induction false} OwnershipInvariant(k: Tables, events: seq<Event>)
    requires Owned(k)
    ensures Owned(Run(k, events))
    decreases |events|
  {
    if events == [] {
    } else {
      NextKeepsOwned(k, events[0]);
      OwnershipInvariant(Next(k, events[0]), events[1..]);
    }
  }

  lemma ResultFindsOwner(tableSize: nat, poolSize: nat, events: seq<Event>, slot: nat)
    requires slot < poolSize
    ensures var k := Run(Initial(tableSize, poolSize), events);
            && (k.used[slot] <==> Owner(k.sessions, slot) >= 0)
            && (forall i :: 0 <= i < |k.sessions| && Holds(k.sessions[i], slot) ==> i == Owner(k.sessions, slot))
  {
    OwnershipInvariant(Initial(tableSize, poolSize), events);
    var k := Run(Initial(tableSize, poolSize), events);
    if k.used[slot] {
      var i :| 0 <= i < |k.sessions| && Holds(k.sessions[i], slot);
    }
  }

  /**
   * A reachable state with a stale pointer: of two sessions, the second finishes its key exchange
   * and the first gets the same slot, so its messages go to the peer of the second.
   */
  lemma StaleHolderReachable(a: uint32, b: uint32, keys: TxRx)
    requires a != b
    ensures var k := Run(Initial(2, 4), [ManageTid(a), Unmatched(b), Result(3, true, keys), Iterate]);
            && Owner(k.sessions, 3) == 0 && k.sessions[0].peerTid == a
            && SendTarget(k.sessions, 3) == 1 && k.sessions[1].peerTid == b
  {
    var k2 := Tables([SetPhase(ZERO.(peerTid := a), New),
                      SetPhase(ZERO.(peerTid := b), InitialAke).(slot := Some(3))], [false, false, false, true]);
    TwoSessions(a, b);
    SlotReused(k2, keys);
    var events := [ManageTid(a), Unmatched(b), Result(3, true, keys), Iterate];
    assert events[1..][1..] == [Result(3, true, keys), Iterate];
    assert Run(Next(Initial(2, 4), ManageTid(a)), events[1..]) == Run(k2, events[1..][1..]);
  }

  /** Managing one neighbor and hearing from another: the second has a slot, the first waits for its turn. */
  lemma TwoSessions(a: uint32, b: uint32)
    ensures Next(Next(Initial(2, 4), ManageTid(a)), Unmatched(b))
            == Tables([SetPhase(ZERO.(peerTid := a), New),
                       SetPhase(ZERO.(peerTid := b), InitialAke).(slot := Some(3))], [false, false, false, true])
  {
    var k0 := Initial(2, 4);
    var k1 := Next(k0, ManageTid(a));
    assert FirstEmpty(k0.sessions, 0) == 0;
    assert k1.sessions == [SetPhase(ZERO.(peerTid := a), New), ZERO];
    assert FirstEmpty(k1.sessions, 0) == 1 && LastFree(k1.used, 4) == 3;
  }

  /** The slot given back by the second session goes to the first, and the second keeps its pointer. */
  lemma SlotReused(k2: Tables, keys: TxRx)
    requires |k2.sessions| == 2 && k2.used == [false, false, false, true]
    requires k2.sessions[0].phase == New && k2.sessions[0].timeout > 0
    requires k2.sessions[1].phase == InitialAke && k2.sessions[1].slot == Some(3)
    ensures var k := Run(k2, [Result(3, true, keys), Iterate]);
            && Owner(k.sessions, 3) == 0 && k.sessions[0].peerTid == k2.sessions[0].peerTid
            && SendTarget(k.sessions, 3) == 1 && k.sessions[1].peerTid == k2.sessions[1].peerTid
  {
    var k3 := Next(k2, Result(3, true, keys));
    assert Owner(k2.sessions, 3) == 1;
    assert k3.sessions[0] == k2.sessions[0] && k3.used == [false, false, false, false];
    var v := VisitUpTo(k3, 1);
    assert LastFree(k3.used, 4) == 3 && v == Visit(VisitUpTo(k3, 0), 0);
    var k4 := Next(k3, Iterate);
    assert k4 == Visit(v, 1);
    assert Holds(k4.sessions[0], 3) && !Holds(k4.sessions[1], 3) && k4.sessions[1].slot == Some(3);
    var events := [Result(3, true, keys), Iterate];
    assert Run(k3, events[1..]) == k4;
  }

  // ----- Lifetime -----

  /** What the timeouts of a session in each phase can be. */
  ghost predicate Timely(s: Record) {
    && s.timeout % STEP_MS == 0
    && match s.phase
       case Empty => s == ZERO
       case New => s.timeout == TIMEOUT_MS
       case InitialAke => s.akeTime + s.timeout == TIMEOUT_INITIAL_AKE_MS
       case Authenticated => s.timeout == TIMEOUT_MS
       case Managed => s.timeout <= TIMEOUT_MANAGED_MS
       case Authorized => false
       case NotAuthorized => false
       case _ => s.timeout <= TIMEOUT_MS
  }

  ghost predicate AllTimely(k: Tables) {
    forall i :: 0 <= i < |k.sessions| ==> Timely(k.sessions[i])
  }

  /** The most iterations a session can take from here until its record is empty again. */
  function Rank(s: Record): nat {
    match s.phase
    case Empty => 0
    case Old => s.timeout / STEP_MS + 1
    case Managed => s.timeout / STEP_MS + 101
    case Authenticated => 6101
    case InitialAke => s.timeout / STEP_MS + 6101
    case New => 6301
    case _ => s.timeout / STEP_MS + 51
  }

  const MAX_LIFETIME := 6301

  function Visited(s: Record, slot: int): Record {
    AfterTime(AfterLoopStep(AfterTimeout(s), slot))
  }

  lemma VisitLowersRank(s: Record, slot: int)
    requires Timely(s)
    ensures Timely(Visited(s, slot))
    ensures s.phase == Empty ==> Visited(s, slot) == s
    ensures s.phase != Empty ==> Rank(Visited(s, slot)) < Rank(s) <= MAX_LIFETIME
  {
  }

  lemma {:induction false} VisitsVisit(k: Tables, n: nat, i: nat) returns (slot: int)
    requires i < n <= |k.sessions|
    ensures VisitUpTo(k, n).sessions[i] == Visited(k.sessions[i], slot)
  {
    if i < n - 1 {
      slot := VisitsVisit(k, n - 1, i);
    } else {
      VisitsSkip(k, n - 1, i);
      var v := VisitUpTo(k, n - 1);
      var s := AfterTimeout(v.sessions[i]);
      var used := if FreesSlot(v.sessions[i]) && v.sessions[i].slot.Some? && v.sessions[i].slot.value < |v.used|
                  then v.used[v.sessions[i].slot.value := false] else v.used;
      slot := if s.phase == New then LastFree(used, |used|) else -1;
    }
  }

  lemma {:induction false} VisitsSkip(k: Tables, n: nat, i: nat)
    requires n <= i < |k.sessions|
    ensures VisitUpTo(k, n).sessions[i] == k.sessions[i]
  {
    hide AfterTimeout;
    hide AfterLoopStep;
    hide AfterTime;
    hide LastFree;
    if n == 0 {
    } else {
      VisitsSkip(k, n - 1, i);
    }
  }

  /** What one step does to one session. */
  lemma StepEffect(k: Tables, e: Event, i: nat)
    requires i < |k.sessions| && AllTimely(k)
    ensures var s, s' := k.sessions[i], Next(k, e).sessions[i];
            && Timely(s') && Rank(s') <= MAX_LIFETIME
            && (s.phase != Empty ==> Rank(s') <= Rank(s) - (if e.Iterate? then 1 else 0))
  {
    match e
    case Iterate =>
      var slot := VisitsVisit(k, |k.sessions|, i);
      VisitLowersRank(k.sessions[i], slot);
    case ManageTid(_) =>
    case Unmatched(_) =>
    case Result(_, _, _) =>
  }

  lemma StepKeepsTimely(k: Tables, e: Event)
    requires AllTimely(k)
    ensures AllTimely(Next(k, e))
  {
    forall i | 0 <= i < |k.sessions|
      ensures Timely(Next(k, e).sessions[i])
    {
      StepEffect(k, e, i);
    }
  }

  lemma {:induction false} TimelyInvariant(k: Tables, events: seq<Event>)
    requires AllTimely(k)
    ensures AllTimely(Run(k, events))
    decreases |events|
  {
    if events == [] {
    } else {
      StepKeepsTimely(k, events[0]);
      TimelyInvariant(Next(k, events[0]), events[1..]);
    }
  }

  function Iterations(events: seq<Event>): nat {
    if events == [] then 0 else (if events[0].Iterate? then 1 else 0) + Iterations(events[1..])
  }

  /**
   * Whatever messages and results come in between, a session record is all zeros again within as
   * many iterations as its rank, which is never more than 6301.
   */
  lemma {:induction false} BoundedLifetime(k: Tables, events: seq<Event>, i: nat) returns (j: nat)
    requires i < |k.sessions| && AllTimely(k)
    requires Iterations(events) >= Rank(k.sessions[i])
    ensures j <= |events| && Run(k, events[..j]).sessions[i] == ZERO
    ensures Rank(k.sessions[i]) <= MAX_LIFETIME
    decreases |events|
  {
    if k.sessions[i].phase == Empty {
      j := 0;
    } else {
      StepEffect(k, events[0], i);
      StepKeepsTimely(k, events[0]);
      j := BoundedLifetime(Next(k, events[0]), events[1..], i);
      assert events[..j + 1][1..] == events[1..][..j];
      j := j + 1;
    }
  }

  // ----- Where the messages of a key exchange go -----

  /** The state after the first n events of a run from the empty tables. */
  function After(tableSize: nat, poolSize: nat, events: seq<Event>, n: nat): (k: Tables)
    requires n <= |events|
    ensures |k.sessions| == tableSize && |k.used| == poolSize
  {
    Run(Initial(tableSize, poolSize), events[..n])
  }

  /** After n events a session ran its key exchange in a slot, and its record has not been cleared since. */
  ghost predicate RanIn(tableSize: nat, poolSize: nat, events: seq<Event>, i: nat, slot: nat, n: nat)
    requires i < tableSize && n <= |events|
  {
    && Holds(After(tableSize, poolSize, events, n).sessions[i], slot)
    && (forall m :: n <= m <= |events| ==> After(tableSize, poolSize, events, m).sessions[i].phase != Empty)
  }

  /** The session ran its own key exchange in the slot, and its record has not been cleared since. */
  ghost predicate Ran(tableSize: nat, poolSize: nat, events: seq<Event>, i: nat, slot: nat)
    requires i < tableSize
  {
    exists n :: 0 <= n <= |events| && RanIn(tableSize, poolSize, events, i, slot, n)
  }

  /** A record has no pointer until its key exchange starts. */
  ghost predicate NoPointerYet(s: Record) {
    s.phase in {Empty, New} ==> s.slot.None?
  }

  /** What one step does to one pointer: only a starting key exchange sets it, only clearing the record drops it. */
  lemma PointerStep(k: Tables, e: Event, i: nat)
    requires i < |k.sessions| && AllTimely(k) && NoPointerYet(k.sessions[i])
    ensures var s, s' := k.sessions[i], Next(k, e).sessions[i];
            && NoPointerYet(s')
            && (s'.slot == s.slot || (s'.slot.Some? && s'.phase == InitialAke) || s'.phase == Empty)
            && (s.slot.Some? && s'.phase != Empty ==> s'.slot == s.slot && s'.peerTid == s.peerTid)
  {
    match e
    case Iterate =>
      var slot := VisitsVisit(k, |k.sessions|, i);
      VisitKeepsPointer(k.sessions[i], slot);
    case ManageTid(_) =>
    case Unmatched(_) =>
    case Result(_, _, _) =>
  }

  lemma VisitKeepsPointer(s: Record, slot: int)
    requires Timely(s) && NoPointerYet(s)
    ensures var s' := Visited(s, slot);
            && NoPointerYet(s')
            && (s'.slot == s.slot || (s'.slot.Some? && s'.phase == InitialAke) || s'.phase == Empty)
            && (s.slot.Some? && s'.phase != Empty ==> s'.slot == s.slot && s'.peerTid == s.peerTid)
  {
  }

  lemma {:induction false} RunSnoc(k: Tables, events: seq<Event>, e: Event)
    ensures Run(k, events + [e]) == Next(Run(k, events), e)
    decreases |events|
  {
    hide Next;
    if events == [] {
      assert (events + [e])[1..] == [];
    } else {
      RunSnoc(Next(k, events[0]), events[1..], e);
      assert (events + [e])[1..] == events[1..] + [e];
    }
  }

  lemma AfterEvent(tableSize: nat, poolSize: nat, events: seq<Event>, n: nat)
    requires n < |events|
    ensures After(tableSize, poolSize, events, n + 1) == Next(After(tableSize, poolSize, events, n), events[n])
    ensures AllTimely(After(tableSize, poolSize, events, n))
  {
    assert events[..n + 1] == events[..n] + [events[n]];
    RunSnoc(Initial(tableSize, poolSize), events[..n], events[n]);
    TimelyInvariant(Initial(tableSize, poolSize), events[..n]);
  }

  lemma {:induction false} NoPointerInvariant(tableSize: nat, poolSize: nat, events: seq<Event>, n: nat, i: nat)
    requires n <= |events| && i < tableSize
    ensures NoPointerYet(After(tableSize, poolSize, events, n).sessions[i])
  {
    hide Next;
    hide AllTimely;
    if n == 0 {
    } else {
      NoPointerInvariant(tableSize, poolSize, events, n - 1, i);
      AfterEvent(tableSize, poolSize, events, n - 1);
      PointerStep(After(tableSize, poolSize, events, n - 1), events[n - 1], i);
    }
  }

  /** A pointer and a peer stay as they were when the key exchange ran, until the record is cleared. */
  lemma {:induction false} PointerStays(tableSize: nat, poolSize: nat, events: seq<Event>, i: nat, slot: nat,
                                        n: nat, m: nat)
    requires i < tableSize && n <= m <= |events| && RanIn(tableSize, poolSize, events, i, slot, n)
    ensures After(tableSize, poolSize, events, m).sessions[i].slot == Some(slot)
    ensures After(tableSize, poolSize, events, m).sessions[i].peerTid
            == After(tableSize, poolSize, events, n).sessions[i].peerTid
    decreases m
  {
    hide Next;
    hide After;
    hide AllTimely;
    if m == n {
    } else {
      PointerStays(tableSize, poolSize, events, i, slot, n, m - 1);
      AfterEvent(tableSize, poolSize, events, m - 1);
      NoPointerInvariant(tableSize, poolSize, events, m - 1, i);
      PointerStep(After(tableSize, poolSize, events, m - 1), events[m - 1], i);
    }
  }

  /** Every pointer goes back to a key exchange of the same session. */
  lemma {:induction false} PointerWasHeld(tableSize: nat, poolSize: nat, events: seq<Event>, i: nat, slot: nat, m: nat)
      returns (n: nat)
    requires i < tableSize && m <= |events|
    requires After(tableSize, poolSize, events, m).sessions[i].slot == Some(slot)
    ensures n <= m && Holds(After(tableSize, poolSize, events, n).sessions[i], slot)
    ensures forall l :: n <= l <= m ==> After(tableSize, poolSize, events, l).sessions[i].phase != Empty
    decreases m
  {
    hide Next;
    hide AllTimely;
    NoPointerInvariant(tableSize, poolSize, events, m, i);
    if Holds(After(tableSize, poolSize, events, m).sessions[i], slot) {
      n := m;
    } else {
      assert m > 0;
      AfterEvent(tableSize, poolSize, events, m - 1);
      NoPointerInvariant(tableSize, poolSize, events, m - 1, i);
      PointerStep(After(tableSize, poolSize, events, m - 1), events[m - 1], i);
      n := PointerWasHeld(tableSize, poolSize, events, i, slot, m - 1);
    }
  }

  /**
   * In every run a session points at a slot exactly when it ran its own key exchange there and its
   * record has not been cleared since; it is still for the same peer.
   */
  lemma PointsIffRan(tableSize: nat, poolSize: nat, events: seq<Event>, i: nat, slot: nat)
    requires i < tableSize
    ensures var s := Run(Initial(tableSize, poolSize), events).sessions[i];
            && (s.slot == Some(slot) <==> Ran(tableSize, poolSize, events, i, slot))
            && (forall n :: 0 <= n <= |events| && RanIn(tableSize, poolSize, events, i, slot, n) ==>
                  s.peerTid == After(tableSize, poolSize, events, n).sessions[i].peerTid)
  {
    hide Run;
    hide After;
    hide RanIn;
    AfterAll(tableSize, poolSize, events);
    if After(tableSize, poolSize, events, |events|).sessions[i].slot == Some(slot) {
      RanFromPointer(tableSize, poolSize, events, i, slot);
    }
    forall n | 0 <= n <= |events| && RanIn(tableSize, poolSize, events, i, slot, n)
      ensures After(tableSize, poolSize, events, |events|).sessions[i].slot == Some(slot)
      ensures After(tableSize, poolSize, events, |events|).sessions[i].peerTid
              == After(tableSize, poolSize, events, n).sessions[i].peerTid
    {
      PointerStays(tableSize, poolSize, events, i, slot, n, |events|);
    }
  }

  lemma AfterAll(tableSize: nat, poolSize: nat, events: seq<Event>)
    ensures After(tableSize, poolSize, events, |events|) == Run(Initial(tableSize, poolSize), events)
  {
    assert events[..|events|] == events;
  }

  lemma RanFromPointer(tableSize: nat, poolSize: nat, events: seq<Event>, i: nat, slot: nat)
    requires i < tableSize && After(tableSize, poolSize, events, |events|).sessions[i].slot == Some(slot)
    ensures Ran(tableSize, poolSize, events, i, slot)
  {
    hide After;
    hide Holds;
    var n := PointerWasHeld(tableSize, poolSize, events, i, slot, |events|);
    assert RanIn(tableSize, poolSize, events, i, slot, n);
  }

  /** The peer that a message of the key exchange in a slot is sent to. */
  function SentTo(sessions: seq<Record>, slot: nat): Option<uint32> {
    var i := SendTarget(sessions, slot);
    if i < 0 then None else Some(sessions[i].peerTid)
  }

  /** The session ran in the slot and so did no session after it in the table. */
  ghost predicate LastInTable(tableSize: nat, poolSize: nat, events: seq<Event>, j: nat, slot: nat)
    requires j < tableSize
  {
    && Ran(tableSize, poolSize, events, j, slot)
    && (forall m :: j < m < tableSize ==> !Ran(tableSize, poolSize, events, m, slot))
  }

  lemma LastIsTarget(tableSize: nat, poolSize: nat, events: seq<Event>, j: nat, slot: nat)
    requires j < tableSize
    ensures LastInTable(tableSize, poolSize, events, j, slot)
            <==> SendTarget(Run(Initial(tableSize, poolSize), events).sessions, slot) == j
  {
    hide Run;
    hide Ran;
    var sessions := Run(Initial(tableSize, poolSize), events).sessions;
    forall m: nat | m < tableSize
      ensures sessions[m].slot == Some(slot) <==> Ran(tableSize, poolSize, events, m, slot)
    {
      PointsIffRan(tableSize, poolSize, events, m, slot);
    }
    TargetIsLast(sessions, j, slot);
  }

  lemma TargetIsLast(sessions: seq<Record>, j: nat, slot: nat)
    requires j < |sessions|
    ensures SendTarget(sessions, slot) == j
            <==> sessions[j].slot == Some(slot)
                 && forall m :: j < m < |sessions| ==> sessions[m].slot != Some(slot)
  {
  }

  /**
   * In every run a message of a key exchange goes to the peer of the session that owns it, unless
   * a session later in the table ran its own key exchange in that slot before, for another peer,
   * has not been cleared since, and is the last such session. It is done with its key exchange then.
   */
  lemma SentToOwnersPeer(tableSize: nat, poolSize: nat, events: seq<Event>, slot: nat)
    requires slot < poolSize && Run(Initial(tableSize, poolSize), events).used[slot]
    ensures var k := Run(Initial(tableSize, poolSize), events);
            var i := Owner(k.sessions, slot);
            && i >= 0
            && (SentTo(k.sessions, slot) != Some(k.sessions[i].peerTid)
                <==> exists j :: i < j < tableSize && LastInTable(tableSize, poolSize, events, j, slot)
                                 && k.sessions[j].peerTid != k.sessions[i].peerTid)
            && (forall j :: 0 <= j < tableSize && j != i && k.sessions[j].slot == Some(slot) ==>
                  k.sessions[j].phase in {Authenticated, NotAuthenticated, Managed, Expired, Old})
  {
    hide Run;
    hide LastInTable;
    ResultFindsOwner(tableSize, poolSize, events, slot);
    var k := Run(Initial(tableSize, poolSize), events);
    var i, t := Owner(k.sessions, slot), SendTarget(k.sessions, slot);
    assert i <= t;
    forall j: nat | j < tableSize
      ensures LastInTable(tableSize, poolSize, events, j, slot) <==> t == j
      ensures Timely(k.sessions[j]) && NoPointerYet(k.sessions[j])
    {
      LastIsTarget(tableSize, poolSize, events, j, slot);
      TimelyInvariant(Initial(tableSize, poolSize), events);
      assert events[..|events|] == events;
      NoPointerInvariant(tableSize, poolSize, events, |events|, j);
    }
  }

  // ----- Managed sessions and their keys -----

  /**
   * A run with its history: iterations so far, the iteration in which each session last became
   * MANAGED, and the keys of the last OK result since each record was taken.
   */
  datatype History = History(k: Tables, now: nat, entered: seq<nat>, granted: seq<Option<TxRx>>)

  function GrantedAfter(h: History, e: Event, i: nat): Option<TxRx>
    requires i < |h.k.sessions| == |h.granted|
  {
    if e.Result? && e.ok && Owner(h.k.sessions, e.slot) == i then Some(e.keys)
    else if h.k.sessions[i].phase == Empty then None
    else h.granted[i]
  }

  function Observe(h: History, e: Event): (r: History)
    requires |h.k.sessions| == |h.entered| == |h.granted|
    ensures |r.k.sessions| == |r.entered| == |r.granted| == |h.k.sessions|
  {
    var k' := Next(h.k, e);
    var n := |h.k.sessions|;
    History(k', if e.Iterate? then h.now + 1 else h.now,
            seq(n, i requires 0 <= i < n =>
              if k'.sessions[i].phase == Managed && h.k.sessions[i].phase != Managed then h.now else h.entered[i]),
            seq(n, i requires 0 <= i < n => GrantedAfter(h, e, i)))
  }

  function ObserveAll(h: History, events: seq<Event>): (r: History)
    requires |h.k.sessions| == |h.entered| == |h.granted|
    ensures |r.k.sessions| == |r.entered| == |r.granted| == |h.k.sessions|
    ensures r.k == Run(h.k, events)
    decreases |events|
  {
    if events == [] then h else ObserveAll(Observe(h, events[0]), events[1..])
  }

  /** The keys of a session come from its OK result, and its time left from the iteration in which it became MANAGED. */
  ghost predicate Accounted(s: Record, now: nat, entered: nat, granted: Option<TxRx>) {
    && (s.phase in {Authenticated, Managed, Expired} ==> granted == Some(TxRx(s.txKey, s.rxKey)))
    && (s.phase == Managed ==> entered < now && s.timeout == TIMEOUT_MANAGED_MS - STEP_MS * (now - entered))
  }

  ghost predicate AllAccounted(h: History) {
    && |h.k.sessions| == |h.entered| == |h.granted|
    && AllTimely(h.k)
    && forall i :: 0 <= i < |h.k.sessions| ==> Accounted(h.k.sessions[i], h.now, h.entered[i], h.granted[i])
  }

  lemma VisitKeepsAccounted(s: Record, slot: int, now: nat, entered: nat, granted: Option<TxRx>)
    requires Timely(s) && Accounted(s, now, entered, granted)
    ensures var s' := Visited(s, slot);
            Accounted(s', now + 1, if s'.phase == Managed && s.phase != Managed then now else entered,
                      if s.phase == Empty then None else granted)
  {
  }

  lemma ObserveKeepsAccounted(h: History, e: Event)
    requires AllAccounted(h)
    ensures AllAccounted(Observe(h, e))
  {
    StepKeepsTimely(h.k, e);
    var h' := Observe(h, e);
    forall i | 0 <= i < |h.k.sessions|
      ensures Accounted(h'.k.sessions[i], h'.now, h'.entered[i], h'.granted[i])
    {
      StepKeepsAccounted(h, e, i);
    }
  }

  lemma StepKeepsAccounted(h: History, e: Event, i: nat)
    requires AllAccounted(h) && i < |h.k.sessions|
    ensures var h' := Observe(h, e);
            Accounted(h'.k.sessions[i], h'.now, h'.entered[i], h'.granted[i])
  {
    match e
    case Iterate =>
      var slot := VisitsVisit(h.k, |h.k.sessions|, i);
      VisitKeepsAccounted(h.k.sessions[i], slot, h.now, h.entered[i], h.granted[i]);
    case ManageTid(_) =>
    case Unmatched(_) =>
    case Result(_, _, _) =>
  }

  lemma {:induction false} AccountedInvariant(h: History, events: seq<Event>)
    requires AllAccounted(h)
    ensures AllAccounted(ObserveAll(h, events))
    decreases |events|
  {
    if events == [] {
    } else {
      ObserveKeepsAccounted(h, events[0]);
      AccountedInvariant(Observe(h, events[0]), events[1..]);
    }
  }

  predicate RecentlyManaged(h: History, j: nat, tid: uint32)
    requires j < |h.k.sessions| == |h.entered|
  {
    h.k.sessions[j].peerTid == tid && h.k.sessions[j].phase == Managed && h.now - h.entered[j] < 6000
  }

  function Start(tableSize: nat, poolSize: nat): History {
    History(Initial(tableSize, poolSize), 0, seq(tableSize, _ => 0), seq(tableSize, _ => None))
  }

  /**
   * In every run, what the session lookup returns for a peer is a session that became MANAGED less
   * than 6000 iterations ago, no other session of the peer later; its keys are those of its OK
   * result. It returns nothing only if no session of the peer became MANAGED so recently.
   */
  lemma NewestSession(tableSize: nat, poolSize: nat, events: seq<Event>, tid: uint32, best: int)
    requires IsBest(Run(Initial(tableSize, poolSize), events).sessions, tid, best)
    ensures var h := ObserveAll(Start(tableSize, poolSize), events);
            && (best >= 0 ==>
                  && h.k.sessions[best].peerTid == tid
                  && h.now - h.entered[best] < 6000
                  && h.granted[best] == Some(TxRx(h.k.sessions[best].txKey, h.k.sessions[best].rxKey)))
            && (forall j :: 0 <= j < tableSize && RecentlyManaged(h, j, tid) ==>
                  best >= 0 && h.entered[j] <= h.entered[best])
  {
    var h := ObserveAll(Start(tableSize, poolSize), events);
    AccountedInvariant(Start(tableSize, poolSize), events);
    forall j | 0 <= j < tableSize && RecentlyManaged(h, j, tid)
      ensures best >= 0 && h.entered[j] <= h.entered[best]
    {
      assert Usable(h.k.sessions[j], tid);
    }
  }
}
