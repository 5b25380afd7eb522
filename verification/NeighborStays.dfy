/**
 * When a neighbor goes to the key manager: in the first iteration after it entered the table and every 6000 iterations
 * from then on, as long as it stays.
 */
module NeighborStays {
  import opened Bytes
  import opened NeighborTable
  import opened NeighborRuns

  /** How many iterations a neighbor has been in the table. */
  datatype Stay = Absent | Staying(visits: nat)

  function StayAfter(stay: Stay, m: Ages, capacity: nat, e: Event, tid: uint32): Stay {
    match e
    case Advert(heard) => if heard == tid && tid !in m && |m| < capacity then Staying(0) else stay
    case Iterate =>
      if stay == Absent || tid !in m || m[tid] >= 300 then Absent else Staying(stay.visits + 1)
  }

  function StayIn(m: Ages, capacity: nat, stay: Stay, events: seq<Event>, tid: uint32): Stay
    decreases |events|
  {
    if events == [] then stay
    else
      StayIn(AbstractNext(m, capacity, events[0]), capacity, StayAfter(stay, m, capacity, events[0], tid), events[1..],
             tid)
  }

  /** The timeout of an item after so many iterations: it counts down from 600 s, and starts again at 0. */
  ghost predicate StayFits(x: Item, visits: nat) {
    if visits == 0 then x.state == New && x.timeout == 5000
    else x.state == Valid && x.timeout == 600000 - 100 * ((visits - 1) % 6000 + 1)
  }

  ghost predicate StaysFit(items: seq<Item>, stay: Stay, tid: uint32) {
    && (Present(items, tid) <==> stay != Absent)
    && forall i :: 0 <= i < |items| && IsOf(items[i], tid) ==> stay != Absent && StayFits(items[i], stay.visits)
  }

  /** An item goes to the key manager exactly when its number of iterations is a multiple of 6000. */
  lemma GoesExactly(x: Item, visits: nat)
    requires StayFits(x, visits)
    ensures GoesToKeyManager(x) <==> x.unreachable < 30000 && visits % 6000 == 0
  {
    if visits > 0 {
      assert (visits - 1) % 6000 == 5999 <==> visits % 6000 == 0;
    }
  }

  lemma VisitFits(x: Item, visits: nat)
    requires StayFits(x, visits) && x.unreachable < 30000
    ensures StayFits(Visited(x), visits + 1)
  {
    if visits > 0 {
      assert visits % 6000 == if (visits - 1) % 6000 == 5999 then 0 else (visits - 1) % 6000 + 1;
    }
  }

  lemma ItemGrows(x: Item, tid: uint32)
    requires ItemOk(x)
    ensures IsOf(Visited(x), tid) <==> IsOf(x, tid) && AgeOf(x) < 300
    ensures x.state != Empty ==> (AgeOf(x) < 300 <==> x.unreachable < 30000)
  {
  }

  lemma IterationFits(items: seq<Item>, stay: Stay, tid: uint32)
    requires Ok(items) && StaysFit(items, stay, tid)
    ensures StaysFit(Iterated(items), StayAfter(stay, Abstract(items), |items|, Iterate, tid), tid)
  {
    hide Abstract;
    hide StayFits;
    hide Visited;
    hide IsOf;
    hide AgeOf;
    var items', stay' := Iterated(items), StayAfter(stay, Abstract(items), |items|, Iterate, tid);
    AgeInMap(items, tid);
    forall i | 0 <= i < |items|
      ensures IsOf(items'[i], tid) ==> IsOf(items[i], tid) && stay' != Absent && StayFits(items'[i], stay'.visits)
      ensures IsOf(items[i], tid) && stay' != Absent ==> IsOf(items'[i], tid)
    {
      ItemGrows(items[i], tid);
      if IsOf(items'[i], tid) {
        UsedIsNotEmpty(items[i], tid);
        VisitFits(items[i], stay.visits);
      }
    }
    hide Ok;
  }

  lemma UsedIsNotEmpty(x: Item, tid: uint32)
    ensures IsOf(x, tid) ==> x.state != Empty
  {
  }

  lemma AgeInMap(items: seq<Item>, tid: uint32)
    requires Ok(items)
    ensures tid in Abstract(items) <==> Present(items, tid)
    ensures forall i :: 0 <= i < |items| && IsOf(items[i], tid) ==>
              tid in Abstract(items) && Abstract(items)[tid] == AgeOf(items[i])
  {
    hide Abstract;
    AbstractKeys(items);
  }

  lemma AdvertFits(items: seq<Item>, stay: Stay, heard: uint32, tid: uint32)
    requires Ok(items) && StaysFit(items, stay, tid)
    ensures StaysFit(Advertised(items, heard), StayAfter(stay, Abstract(items), |items|, Advert(heard), tid), tid)
  {
    hide Abstract;
    hide AgeOf;
    AgeInMap(items, heard);
    AbstractSize(items);
    hide Ok;
    var i, j := Find(items, heard, 0), FirstEmpty(items, 0);
    if i >= 0 {
      assert Present(items, heard);
      RefreshFits(items, stay, i, tid);
    } else if j >= 0 {
      InsertFits(items, stay, j, heard, tid);
    }
  }

  lemma RefreshFits(items: seq<Item>, stay: Stay, i: nat, tid: uint32)
    requires StaysFit(items, stay, tid) && i < |items|
    ensures StaysFit(items[i := items[i].(unreachable := 0)], stay, tid)
  {
    var items' := items[i := items[i].(unreachable := 0)];
    assert forall k :: 0 <= k < |items| ==> (IsOf(items'[k], tid) <==> IsOf(items[k], tid));
  }

  lemma InsertFits(items: seq<Item>, stay: Stay, j: nat, heard: uint32, tid: uint32)
    requires StaysFit(items, stay, tid) && j < |items| && items[j].state == Empty
    requires forall k :: 0 <= k < |items| ==> !IsOf(items[k], heard)
    ensures StaysFit(items[j := SetState(items[j].(tid := heard, unreachable := 0), New)],
                     if heard == tid then Staying(0) else stay, tid)
  {
    var items' := items[j := SetState(items[j].(tid := heard, unreachable := 0), New)];
    assert IsOf(items'[j], heard);
    if tid != heard {
      assert forall k :: 0 <= k < |items| ==> (IsOf(items'[k], tid) <==> IsOf(items[k], tid));
    }
  }

  lemma {:induction false} RunFits(items: seq<Item>, stay: Stay, events: seq<Event>, tid: uint32)
    requires Ok(items) && StaysFit(items, stay, tid)
    ensures StaysFit(Run(items, events), StayIn(Abstract(items), |items|, stay, events, tid), tid)
    decreases |events|
  {
    hide Abstract;
    hide Ok;
    hide StaysFit;
    hide StayAfter;
    if events == [] {
    } else {
      match events[0] {
        case Advert(heard) => AdvertFits(items, stay, heard, tid);
        case Iterate => IterationFits(items, stay, tid);
      }
      NextRefines(items, events[0]);
      hide Next;
      hide AbstractNext;
      RunFits(Next(items, events[0]), StayAfter(stay, Abstract(items), |items|, events[0], tid), events[1..], tid);
    }
  }

  /**
   * In every run from the empty table the next iteration hands a TID to the key manager exactly if the TID is there,
   * was heard less than 300 iterations ago, and has been there for a multiple of 6000 iterations, zero included.
   */
  lemma HandedOverExactly(size: nat, events: seq<Event>, tid: uint32)
    ensures var items := Run(seq(size, _ => ZERO), events);
            var stay := StayIn(map[], size, Absent, events, tid);
            var age := LastHeard(map[], size, Never, events, tid);
            && (stay != Absent <==> age != Never && age.n <= 300)
            && ((exists i :: 0 <= i < size && items[i].tid == tid && GoesToKeyManager(items[i]))
                <==> stay != Absent && age.n < 300 && stay.visits % 6000 == 0)
  {
    hide Abstract;
    hide GoesToKeyManager;
    var start := seq(size, _ => ZERO);
    var items := Run(start, events);
    var stay, age := StayIn(map[], size, Absent, events, tid), LastHeard(map[], size, Never, events, tid);
    StartIsOk(size);
    RunFits(start, Absent, events, tid);
    RunRefines(start, events);
    PresentWhileHeard(map[], size, Never, events, tid);
    AbstractKeys(items);
    hide Run;
    forall i | 0 <= i < size
      ensures items[i].tid == tid && GoesToKeyManager(items[i])
              ==> IsOf(items[i], tid) && age.n < 300 && stay.visits % 6000 == 0
      ensures IsOf(items[i], tid) && age.n < 300 && stay.visits % 6000 == 0 ==> GoesToKeyManager(items[i])
    {
      OnlyUsedGo(items[i]);
      if IsOf(items[i], tid) {
        GoesExactly(items[i], stay.visits);
      }
    }
  }

  lemma OnlyUsedGo(x: Item)
    ensures GoesToKeyManager(x) ==> x.state != Empty
  {
  }
}
