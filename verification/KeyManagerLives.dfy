/**
 * The life of a key manager session in iterations: what its record holds at every age, from the event that it
 * started with, and from that exactly when the session lookup finds something.
 */
module KeyManagerLives {
  import opened Bytes
  import opened Ake3dh
  import opened KeyManager
  import opened KeyManagerRuns

  /** What a session last went through, and for how many iterations it has been since. */
  datatype Life =
    | Unused
    | Waiting(tid: uint32)
    | Exchanging(tid: uint32, slot: nat, age: nat)
    | Refused(tid: uint32, last: Option<nat>, akeTime: nat, age: nat)
    | Granted(tid: uint32, slot: nat, akeTime: nat, keys: TxRx, age: nat)

  predicate Possible(life: Life) {
    match life
    case Exchanging(_, _, age) => age <= 200
    case Refused(_, _, _, age) => age <= 100
    case Granted(_, _, _, _, age) => age <= 6100
    case _ => true
  }

  /**
   * A key exchange may take 200 iterations. After a failure the session is not authenticated for 50 of them and old
   * for 50. After success it is authenticated until the next iteration, managed up to number 6000, expired for 50
   * and old for 50. Then it is cleared.
   */
  function RecordOf(life: Life): Record
    requires Possible(life)
  {
    match life
    case Unused => Record(0, None, 0, Empty, 0, ZERO_KEY, ZERO_KEY)
    case Waiting(tid) => Record(tid, None, 0, New, 5000, ZERO_KEY, ZERO_KEY)
    case Exchanging(tid, slot, age) =>
      Record(tid, Some(slot), 100 * age, InitialAke, 20000 - 100 * age, ZERO_KEY, ZERO_KEY)
    case Refused(tid, last, akeTime, age) =>
      if age <= 50 then Record(tid, last, akeTime, NotAuthenticated, 5000 - 100 * age, ZERO_KEY, ZERO_KEY)
      else Record(tid, last, akeTime, Old, 10000 - 100 * age, ZERO_KEY, ZERO_KEY)
    case Granted(tid, slot, akeTime, keys, age) =>
      if age == 0 then Record(tid, Some(slot), akeTime, Authenticated, 5000, keys.tx, keys.rx)
      else if age <= 6000 then Record(tid, Some(slot), akeTime, Managed, 600000 - 100 * age, keys.tx, keys.rx)
      else if age <= 6050 then Record(tid, Some(slot), akeTime, Expired, 605000 - 100 * age, keys.tx, keys.rx)
      else Record(tid, Some(slot), akeTime, Old, 610000 - 100 * age, keys.tx, keys.rx)
  }

  /** The pool as the session finds it when its turn comes in an iteration. */
  function PoolAtTurn(k: Tables, i: nat): seq<bool>
    requires i < |k.sessions|
  {
    VisitUpTo(k, i).used
  }

  function LifeAfter(life: Life, k: Tables, e: Event, i: nat): (r: Life)
    requires i < |k.sessions| && Possible(life)
    ensures Possible(r)
  {
    match life
    case Unused =>
      if FirstEmpty(k.sessions, 0) != i then Unused
      else if e.ManageTid? then Waiting(e.tid)
      else if !e.Unmatched? then Unused
      else if false in k.used then Exchanging(e.tid, LastSlot(k.used), 0)
      else Refused(e.tid, None, 0, 0)
    case Waiting(tid) =>
      if !e.Iterate? then life
      else if false in PoolAtTurn(k, i) then Exchanging(tid, LastSlot(PoolAtTurn(k, i)), 1)
      else Refused(tid, None, 0, 1)
    case Exchanging(tid, slot, age) =>
      if e.Iterate? then if age < 200 then Exchanging(tid, slot, age + 1) else Refused(tid, Some(slot), 20000, 1)
      else if e.Result? && e.slot == slot then
        if e.ok then Granted(tid, slot, 100 * age, e.keys, 0) else Refused(tid, Some(slot), 100 * age, 0)
      else life
    case Refused(tid, last, akeTime, age) =>
      if !e.Iterate? then life else if age < 100 then Refused(tid, last, akeTime, age + 1) else Unused
    case Granted(tid, slot, akeTime, keys, age) =>
      if !e.Iterate? then life else if age < 6100 then Granted(tid, slot, akeTime, keys, age + 1) else Unused
  }

  /** The last free slot of a pool that has one. */
  function LastSlot(used: seq<bool>): (r: nat)
    requires false in used
    ensures r < |used| && !used[r] && forall j :: r < j < |used| ==> used[j]
  {
    if !used[|used| - 1] then |used| - 1 else
      assert used == used[..|used| - 1] + [used[|used| - 1]];
      LastSlot(used[..|used| - 1])
  }

  lemma LastIsFree(used: seq<bool>)
    ensures LastFree(used, |used|) == if false in used then LastSlot(used) else -1
  {
  }

  lemma {:induction false} TurnOf(k: Tables, n: nat, i: nat)
    requires i < n <= |k.sessions|
    ensures var pool := PoolAtTurn(k, i);
            VisitUpTo(k, n).sessions[i]
            == Visited(k.sessions[i], if AfterTimeout(k.sessions[i]).phase == New && !FreesSlot(k.sessions[i])
                                      then LastFree(pool, |pool|) else -1)
    decreases n
  {
    if i < n - 1 {
      TurnOf(k, n - 1, i);
    } else {
      VisitsSkip(k, n - 1, i);
    }
  }

  lemma VisitAges(life: Life, k: Tables, i: nat)
    requires i < |k.sessions| && Possible(life) && k.sessions[i] == RecordOf(life)
    ensures Iterated(k).sessions[i] == RecordOf(LifeAfter(life, k, Iterate, i))
  {
    TurnOf(k, |k.sessions|, i);
    LastIsFree(PoolAtTurn(k, i));
    hide VisitUpTo;
    hide LastSlot;
    hide LastFree;
    hide FirstEmpty;
    hide PoolAtTurn;
    match life
    case Unused =>
    case Waiting(_) =>
    case Exchanging(_, _, _) => VisitExchanging(life);
    case Refused(_, _, _, _) => VisitRefused(life);
    case Granted(_, _, _, _, _) => VisitGranted(life);
  }

  lemma VisitExchanging(life: Life)
    requires life.Exchanging? && Possible(life)
    ensures AfterTimeout(RecordOf(life)).phase != New
    ensures Visited(RecordOf(life), -1)
            == RecordOf(if life.age < 200 then Exchanging(life.tid, life.slot, life.age + 1)
                        else Refused(life.tid, Some(life.slot), 20000, 1))
  {
  }

  lemma VisitRefused(life: Life)
    requires life.Refused? && Possible(life)
    ensures AfterTimeout(RecordOf(life)).phase != New
    ensures Visited(RecordOf(life), -1)
            == RecordOf(if life.age < 100 then Refused(life.tid, life.last, life.akeTime, life.age + 1) else Unused)
  {
  }

  lemma VisitGranted(life: Life)
    requires life.Granted? && Possible(life)
    ensures AfterTimeout(RecordOf(life)).phase != New
    ensures Visited(RecordOf(life), -1)
            == RecordOf(if life.age < 6100 then Granted(life.tid, life.slot, life.akeTime, life.keys, life.age + 1)
                        else Unused)
  {
  }

  lemma NextLives(life: Life, k: Tables, e: Event, i: nat)
    requires i < |k.sessions| && Owned(k) && Possible(life) && k.sessions[i] == RecordOf(life)
    ensures Next(k, e).sessions[i] == RecordOf(LifeAfter(life, k, e, i))
  {
    match e
    case Iterate => VisitAges(life, k, i);
    case ManageTid(tid) => ManageLives(life, k, tid, i);
    case Unmatched(tid) => UnmatchedLives(life, k, tid, i);
    case Result(slot, ok, keys) => ResultLives(life, k, slot, ok, keys, i);
  }

  lemma ManageLives(life: Life, k: Tables, tid: uint32, i: nat)
    requires i < |k.sessions| && Possible(life) && k.sessions[i] == RecordOf(life)
    ensures WithManaged(k, tid).sessions[i] == RecordOf(LifeAfter(life, k, ManageTid(tid), i))
  {
    hide LastSlot;
    hide PoolAtTurn;
  }

  lemma UnmatchedLives(life: Life, k: Tables, tid: uint32, i: nat)
    requires i < |k.sessions| && Possible(life) && k.sessions[i] == RecordOf(life)
    ensures WithRemote(k, tid).sessions[i] == RecordOf(LifeAfter(life, k, Unmatched(tid), i))
  {
    LastIsFree(k.used);
    hide LastSlot;
    hide LastFree;
    hide PoolAtTurn;
  }

  lemma ResultLives(life: Life, k: Tables, slot: nat, ok: bool, keys: TxRx, i: nat)
    requires i < |k.sessions| && Owned(k) && Possible(life) && k.sessions[i] == RecordOf(life)
    ensures WithResult(k, slot, ok, keys).sessions[i] == RecordOf(LifeAfter(life, k, Result(slot, ok, keys), i))
  {
    OwnerIsHolder(k, slot, i);
    hide Owned;
    hide Owner;
    hide FirstEmpty;
    hide LastSlot;
    hide PoolAtTurn;
  }

  lemma OwnerIsHolder(k: Tables, slot: nat, i: nat)
    requires Owned(k) && i < |k.sessions|
    ensures Owner(k.sessions, slot) == i <==> Holds(k.sessions[i], slot)
  {
  }

  // ----- Over all runs -----

  function StateAfter(tableSize: nat, poolSize: nat, events: seq<Event>): (r: Tables)
    ensures |r.sessions| == tableSize && |r.used| == poolSize
  {
    Run(Initial(tableSize, poolSize), events)
  }

  /** The life of a session after a run from the empty tables. */
  function LifeIn(tableSize: nat, poolSize: nat, events: seq<Event>, i: nat): (r: Life)
    requires i < tableSize
    ensures Possible(r)
    decreases |events|, tableSize
  {
    if events == [] then Unused
    else
      var before := events[..|events| - 1];
      LifeAfter(LifeIn(tableSize, poolSize, before, i), StateAfter(tableSize, poolSize, before), events[|events| - 1],
                i)
  }

  lemma LifeSnoc(tableSize: nat, poolSize: nat, events: seq<Event>, e: Event, i: nat)
    requires i < tableSize
    ensures LifeIn(tableSize, poolSize, events + [e], i)
            == LifeAfter(LifeIn(tableSize, poolSize, events, i), StateAfter(tableSize, poolSize, events), e, i)
  {
    assert (events + [e])[..|events|] == events;
  }

  /** In every run, every record is the one of the session's life. */
  lemma {:induction false} RecordOfLife(tableSize: nat, poolSize: nat, events: seq<Event>, i: nat)
    requires i < tableSize
    ensures StateAfter(tableSize, poolSize, events).sessions[i] == RecordOf(LifeIn(tableSize, poolSize, events, i))
    decreases |events|
  {
    hide Next;
    hide LifeAfter;
    hide RecordOf;
    if events == [] {
      assert RecordOf(Unused) == ZERO by {
        UnusedIsZero();
      }
    } else {
      var n := |events| - 1;
      var before, e := events[..n], events[n];
      assert events == before + [e];
      RecordOfLife(tableSize, poolSize, before, i);
      OwnershipInvariant(Initial(tableSize, poolSize), before);
      hide Owned;
      hide Run;
      RunSnoc(Initial(tableSize, poolSize), before, e);
      NextLives(LifeIn(tableSize, poolSize, before, i), StateAfter(tableSize, poolSize, before), e, i);
    }
  }

  lemma UnusedIsZero()
    ensures RecordOf(Unused) == ZERO
  {
  }

  /** The event with this number is an OK result, with these keys, of the key exchange of a session with the peer. */
  ghost predicate OkFor(tableSize: nat, poolSize: nat, events: seq<Event>, m: nat, i: nat, tid: uint32, keys: TxRx)
    requires i < tableSize
  {
    && m < |events| && events[m].Result? && events[m].ok && events[m].keys == keys
    && var s := StateAfter(tableSize, poolSize, events[..m]).sessions[i];
       s.phase == InitialAke && s.slot == Some(events[m].slot) && s.peerTid == tid
  }

  /** How many iterations there were after the event with this number. */
  function Since(events: seq<Event>, m: nat): nat
    requires m < |events|
  {
    Iterations(events[m + 1..])
  }

  lemma {:induction false} IterationsSnoc(events: seq<Event>, e: Event)
    ensures Iterations(events + [e]) == Iterations(events) + (if e.Iterate? then 1 else 0)
    decreases |events|
  {
    if events == [] {
      assert (events + [e])[1..] == [];
    } else {
      assert (events + [e])[1..] == events[1..] + [e];
      IterationsSnoc(events[1..], e);
    }
  }

  lemma SinceSnoc(events: seq<Event>, e: Event, m: nat)
    requires m < |events|
    ensures Since(events + [e], m) == Since(events, m) + (if e.Iterate? then 1 else 0)
  {
    assert (events + [e])[m + 1..] == events[m + 1..] + [e];
    IterationsSnoc(events[m + 1..], e);
  }

  /** A session that was granted keys had an OK result with these keys, and is as old as that. */
  lemma {:induction false} GrantHadResult(tableSize: nat, poolSize: nat, events: seq<Event>, i: nat) returns (m: nat)
    requires i < tableSize && LifeIn(tableSize, poolSize, events, i).Granted?
    ensures var life := LifeIn(tableSize, poolSize, events, i);
            OkFor(tableSize, poolSize, events, m, i, life.tid, life.keys) && Since(events, m) == life.age
    decreases |events|
  {
    hide RecordOf;
    hide FirstEmpty;
    hide LastSlot;
    hide Run;
    var n := |events| - 1;
    var before, e := events[..n], events[n];
    assert events == before + [e];
    var life, past := LifeIn(tableSize, poolSize, events, i), LifeIn(tableSize, poolSize, before, i);
    if past.Granted? {
      m := GrantHadResult(tableSize, poolSize, before, i);
      SinceSnoc(before, e, m);
      assert events[..m] == before[..m];
    } else {
      m := n;
      assert events[n + 1..] == [];
      RecordOfLife(tableSize, poolSize, before, i);
      ExchangingRecord(past);
    }
  }

  lemma ExchangingRecord(life: Life)
    requires Possible(life)
    ensures RecordOf(life).phase == InitialAke <==> life.Exchanging?
    ensures life.Exchanging? ==> RecordOf(life).slot == Some(life.slot) && RecordOf(life).peerTid == life.tid
  {
  }

  /** After an OK result a session has been granted its keys for as many iterations as have passed. */
  lemma {:induction false} ResultIsGrant(tableSize: nat, poolSize: nat, events: seq<Event>, m: nat, i: nat,
                                         tid: uint32, keys: TxRx)
    requires i < tableSize && OkFor(tableSize, poolSize, events, m, i, tid, keys) && Since(events, m) <= 6100
    ensures var life := LifeIn(tableSize, poolSize, events, i);
            life.Granted? && life.tid == tid && life.keys == keys && life.age == Since(events, m)
    decreases |events|
  {
    hide RecordOf;
    hide FirstEmpty;
    hide LastSlot;
    hide Run;
    var n := |events| - 1;
    var before, e := events[..n], events[n];
    assert events == before + [e];
    if m < n {
      SinceSnoc(before, e, m);
      assert events[..m] == before[..m];
      ResultIsGrant(tableSize, poolSize, before, m, i, tid, keys);
    } else {
      assert events[n + 1..] == [];
      RecordOfLife(tableSize, poolSize, before, i);
      ExchangingRecord(LifeIn(tableSize, poolSize, before, i));
    }
  }

  /** The iterations after an OK result in which its session can be looked up. */
  ghost predicate Fresh(tableSize: nat, poolSize: nat, events: seq<Event>, m: nat, i: nat, tid: uint32, keys: TxRx)
    requires i < tableSize
  {
    m < |events| && OkFor(tableSize, poolSize, events, m, i, tid, keys) && 1 <= Since(events, m) < 6000
  }

  /**
   * In every run the record of a session is one that the lookup takes for a peer exactly if the session had an
   * OK result for that peer at least one and less than 6000 iterations ago. It holds the keys of that result, and
   * its timeout counts down from it.
   */
  lemma ManagedExactly(tableSize: nat, poolSize: nat, events: seq<Event>, i: nat, tid: uint32)
    requires i < tableSize
    ensures var s := StateAfter(tableSize, poolSize, events).sessions[i];
            && (s.phase == Managed && s.peerTid == tid && s.timeout > 0
                <==> exists m, keys :: Fresh(tableSize, poolSize, events, m, i, tid, keys))
            && (forall m, keys :: Fresh(tableSize, poolSize, events, m, i, tid, keys) ==>
                  s.txKey == keys.tx && s.rxKey == keys.rx && s.timeout == 600000 - 100 * Since(events, m))
  {
    hide Run;
    hide LifeIn;
    var s := StateAfter(tableSize, poolSize, events).sessions[i];
    var life := LifeIn(tableSize, poolSize, events, i);
    RecordOfLife(tableSize, poolSize, events, i);
    if s.phase == Managed && s.peerTid == tid && s.timeout > 0 {
      assert life.Granted? && 1 <= life.age < 6000;
      var m := GrantHadResult(tableSize, poolSize, events, i);
      assert Fresh(tableSize, poolSize, events, m, i, tid, life.keys);
    }
    forall m, keys | Fresh(tableSize, poolSize, events, m, i, tid, keys)
      ensures s.phase == Managed && s.peerTid == tid && s.timeout == 600000 - 100 * Since(events, m)
      ensures s.txKey == keys.tx && s.rxKey == keys.rx
    {
      ResultIsGrant(tableSize, poolSize, events, m, i, tid, keys);
    }
  }

  /** The session holds the keys of its result, and no such result for the peer is more recent. */
  ghost predicate Latest(tableSize: nat, poolSize: nat, events: seq<Event>, tid: uint32, best: nat, m: nat, keys: TxRx)
    requires best < tableSize && m < |events|
  {
    && StateAfter(tableSize, poolSize, events).sessions[best].txKey == keys.tx
    && StateAfter(tableSize, poolSize, events).sessions[best].rxKey == keys.rx
    && forall i: nat, m', keys' :: i < tableSize && Fresh(tableSize, poolSize, events, m', i, tid, keys') ==>
         Since(events, m) <= Since(events, m')
  }

  /**
   * So the lookup for a peer finds a session exactly if some session had such a result. It gives the keys of
   * the latest one.
   */
  lemma FoundExactly(tableSize: nat, poolSize: nat, events: seq<Event>, tid: uint32, best: int)
    requires IsBest(StateAfter(tableSize, poolSize, events).sessions, tid, best)
    ensures best >= 0
            <==> exists i: nat, m, keys :: i < tableSize && Fresh(tableSize, poolSize, events, m, i, tid, keys)
    ensures best >= 0 ==>
              exists m, keys :: Fresh(tableSize, poolSize, events, m, best, tid, keys)
                && Latest(tableSize, poolSize, events, tid, best, m, keys)
  {
    hide Run;
    hide OkFor;
    hide Since;
    forall i: nat | i < tableSize
      ensures Usable(StateAfter(tableSize, poolSize, events).sessions[i], tid)
              <==> exists m, keys :: Fresh(tableSize, poolSize, events, m, i, tid, keys)
    {
      ManagedExactly(tableSize, poolSize, events, i, tid);
    }
    forall m, keys, i: nat | i < tableSize && Fresh(tableSize, poolSize, events, m, i, tid, keys)
      ensures best >= 0
    {
      assert Usable(StateAfter(tableSize, poolSize, events).sessions[i], tid);
    }
    if best >= 0 {
      LatestFound(tableSize, poolSize, events, tid, best);
    }
  }

  lemma LatestFound(tableSize: nat, poolSize: nat, events: seq<Event>, tid: uint32, best: nat)
    requires IsBest(StateAfter(tableSize, poolSize, events).sessions, tid, best) && best < tableSize
    ensures exists m, keys :: Fresh(tableSize, poolSize, events, m, best, tid, keys)
              && Latest(tableSize, poolSize, events, tid, best, m, keys)
  {
    hide Run;
    hide OkFor;
    hide Since;
    var s := StateAfter(tableSize, poolSize, events).sessions[best];
    assert Usable(s, tid);
    ManagedExactly(tableSize, poolSize, events, best, tid);
    var m, keys :| Fresh(tableSize, poolSize, events, m, best, tid, keys);
    forall i: nat, m', keys' | i < tableSize && Fresh(tableSize, poolSize, events, m', i, tid, keys')
      ensures Since(events, m) <= Since(events, m')
    {
      ManagedExactly(tableSize, poolSize, events, i, tid);
      assert Usable(StateAfter(tableSize, poolSize, events).sessions[i], tid);
    }
    assert Latest(tableSize, poolSize, events, tid, best, m, keys);
  }
}
