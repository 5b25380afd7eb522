/** The neighbor table refines a map from each neighbor to the iterations since it was last heard. */
module NeighborRuns {
  import opened Bytes
  import opened NeighborTable

  const MAX_AGE := 300
  const REACHABLE_AGE := 20

  // ----- The abstract table -----

  type Ages = map<uint32, nat>

  function Heard(m: Ages, capacity: nat, tid: uint32): Ages {
    if tid in m || |m| < capacity then m[tid := 0] else m
  }

  function Aged(m: Ages): Ages {
    map tid | tid in m && m[tid] < MAX_AGE :: m[tid] + 1
  }

  // ----- The table invariant -----

  /** In any reachable state an item is zero, valid, or new and not yet visited by the task. */
  ghost predicate ItemOk(x: Item) {
    match x.state
    case Empty => x == ZERO
    case New => x.timeout == TIMEOUT_NEW && x.unreachable == 0
    case Valid => x.timeout % STEP_MS == 0 && x.unreachable % STEP_MS == 0 && x.unreachable <= UNREACHABLE_MAX
    case _ => false
  }

  ghost predicate Ok(items: seq<Item>) {
    && (forall i :: 0 <= i < |items| ==> ItemOk(items[i]))
    && (forall i, j :: 0 <= i < j < |items| && items[i].state != Empty && items[j].state != Empty ==>
          items[i].tid != items[j].tid)
  }

  function AgeOf(x: Item): nat {
    x.unreachable / STEP_MS
  }

  /** The abstract table that items stand for. */
  function Abstract(items: seq<Item>): Ages {
    if items == [] then map[]
    else
      var n := |items| - 1;
      var m := Abstract(items[..n]);
      if items[n].state == Empty then m else m[items[n].tid := AgeOf(items[n])]
  }

  lemma {:induction false} AbstractKeys(items: seq<Item>)
    requires Ok(items)
    ensures forall tid :: tid in Abstract(items) <==> exists i :: 0 <= i < |items| && IsOf(items[i], tid)
    ensures forall i :: 0 <= i < |items| && items[i].state != Empty ==>
              items[i].tid in Abstract(items) && Abstract(items)[items[i].tid] == AgeOf(items[i])
  {
    if items == [] {
    } else {
      var n := |items| - 1;
      var front := items[..n];
      AbstractKeys(front);
      forall tid | tid in Abstract(items)
        ensures exists i :: 0 <= i < |items| && IsOf(items[i], tid)
      {
        if tid in Abstract(front) {
          var i :| 0 <= i < |front| && IsOf(front[i], tid);
          assert IsOf(items[i], tid);
        } else {
          assert IsOf(items[n], tid);
        }
      }
      forall i | 0 <= i < |items| && items[i].state != Empty
        ensures items[i].tid in Abstract(items) && Abstract(items)[items[i].tid] == AgeOf(items[i])
      {
        if i < n {
          assert items[i] == front[i];
        }
      }
    }
  }

  /** As many entries as items in use: the abstract table is full when the concrete one is. */
  lemma {:induction false} AbstractSize(items: seq<Item>)
    requires Ok(items)
    ensures |Abstract(items)| <= |items|
    ensures |Abstract(items)| == |items| <==> FirstEmpty(items, 0) == -1
  {
    if items == [] {
    } else {
      var n := |items| - 1;
      AbstractSize(items[..n]);
      LastEntry(items, n);
      FirstEmptyOfPrefix(items, n);
      hide FirstEmpty;
      hide Ok;
      hide Abstract;
    }
  }

  /** The last item adds an entry of its own if it is in use. */
  lemma LastEntry(items: seq<Item>, n: nat)
    requires Ok(items) && |items| == n + 1
    ensures |Abstract(items)| == |Abstract(items[..n])| + if items[n].state == Empty then 0 else 1
  {
    var front := items[..n];
    AbstractKeys(front);
    if items[n].state != Empty {
      assert forall i :: 0 <= i < n ==> !IsOf(front[i], items[n].tid);
      assert items[n].tid !in Abstract(front);
    }
  }

  lemma FirstEmptyOfPrefix(items: seq<Item>, n: nat)
    requires |items| == n + 1
    ensures FirstEmpty(items, 0) == -1 <==> FirstEmpty(items[..n], 0) == -1 && items[n].state != Empty
  {
    var r, r' := FirstEmpty(items, 0), FirstEmpty(items[..n], 0);
    if r' >= 0 {
      assert items[r'].state == Empty;
    } else {
      assert forall j :: 0 <= j < n ==> items[..n][j].state != Empty;
    }
  }

  /** Two maps that are determined by the same items are equal. */
  lemma AbstractIs(items: seq<Item>, m: Ages)
    requires Ok(items)
    requires forall tid :: tid in m ==> exists i :: 0 <= i < |items| && IsOf(items[i], tid)
    requires forall i :: 0 <= i < |items| && items[i].state != Empty ==>
               items[i].tid in m && m[items[i].tid] == AgeOf(items[i])
    ensures Abstract(items) == m
  {
    AbstractKeys(items);
    forall tid | tid in m
      ensures tid in Abstract(items) && Abstract(items)[tid] == m[tid]
    {
      var i :| 0 <= i < |items| && IsOf(items[i], tid);
    }
    forall tid | tid in Abstract(items)
      ensures tid in m
    {
      var i :| 0 <= i < |items| && IsOf(items[i], tid);
    }
  }

  // ----- Refinement -----

  lemma VisitItem(x: Item)
    requires ItemOk(x)
    ensures ItemOk(Visited(x)) && Visited(x).state in {Empty, Valid}
    ensures Visited(x).state != Empty <==> x.state != Empty && AgeOf(x) < MAX_AGE
    ensures Visited(x).state != Empty ==> Visited(x).tid == x.tid && AgeOf(Visited(x)) == AgeOf(x) + 1
    ensures Reachable(Visited(x)) <==> x.state != Empty && AgeOf(x) + 1 < REACHABLE_AGE
  {
  }

  /** What an iteration does to one item. */
  ghost predicate GrowsOlder(x: Item, x': Item) {
    && ItemOk(x') && x'.state in {Empty, Valid}
    && (x'.state != Empty <==> x.state != Empty && AgeOf(x) < MAX_AGE)
    && (x'.state != Empty ==> x'.tid == x.tid && AgeOf(x') == AgeOf(x) + 1)
  }

  lemma IterationAges(items: seq<Item>)
    requires Ok(items)
    ensures forall i :: 0 <= i < |items| ==> GrowsOlder(items[i], Iterated(items)[i])
  {
    forall i | 0 <= i < |items|
      ensures GrowsOlder(items[i], Iterated(items)[i])
    {
      VisitItem(items[i]);
    }
  }

  lemma AgedIsAbstract(items: seq<Item>, items': seq<Item>)
    requires Ok(items) && |items'| == |items|
    requires forall i :: 0 <= i < |items| ==> GrowsOlder(items[i], items'[i])
    ensures Ok(items') && Abstract(items') == Aged(Abstract(items))
  {
    hide AgeOf;
    hide Abstract;
    AbstractKeys(items);
    var m := Aged(Abstract(items));
    forall tid | tid in m
      ensures exists i :: 0 <= i < |items'| && IsOf(items'[i], tid)
    {
      var i :| 0 <= i < |items| && IsOf(items[i], tid);
      assert IsOf(items'[i], tid);
    }
    AbstractIs(items', m);
  }

  /** One iteration ages every entry, drops those heard 300 iterations ago, and leaves items EMPTY or VALID. */
  lemma IterationRefines(items: seq<Item>)
    requires Ok(items)
    ensures Ok(Iterated(items))
    ensures Abstract(Iterated(items)) == Aged(Abstract(items))
    ensures forall i :: 0 <= i < |items| ==> Iterated(items)[i].state in {Empty, Valid}
  {
    hide Ok;
    hide Iterated;
    hide Abstract;
    hide Aged;
    IterationAges(items);
    AgedIsAbstract(items, Iterated(items));
  }

  /** Setting the item of a TID, or an empty item for a TID that is not there. */
  lemma SetItem(items: seq<Item>, k: nat, x: Item)
    requires Ok(items) && k < |items|
    requires ItemOk(x) && x.state != Empty
    requires forall i :: 0 <= i < |items| && i != k ==> !IsOf(items[i], x.tid)
    requires items[k].state == Empty || items[k].tid == x.tid
    ensures Ok(items[k := x])
    ensures Abstract(items[k := x]) == Abstract(items)[x.tid := AgeOf(x)]
  {
    var items' := items[k := x];
    var m := Abstract(items)[x.tid := AgeOf(x)];
    AbstractKeys(items);
    forall t | t in m
      ensures exists j :: 0 <= j < |items'| && IsOf(items'[j], t)
    {
      if t == x.tid {
        assert IsOf(items'[k], t);
      } else {
        var j :| 0 <= j < |items| && IsOf(items[j], t);
        assert IsOf(items'[j], t);
      }
    }
    AbstractIs(items', m);
  }

  /** An advert makes its TID zero iterations old, unless the TID is new and the table full. */
  lemma AdvertRefines(items: seq<Item>, tid: uint32)
    requires Ok(items)
    ensures Ok(Advertised(items, tid))
    ensures Abstract(Advertised(items, tid)) == Heard(Abstract(items), |items|, tid)
  {
    hide Abstract;
    AbstractKeys(items);
    AbstractSize(items);
    var i := Find(items, tid, 0);
    if i >= 0 {
      assert IsOf(items[i], tid);
      RefreshItem(items, i);
    } else if FirstEmpty(items, 0) >= 0 {
      InsertItem(items, FirstEmpty(items, 0), tid);
    }
  }

  lemma RefreshItem(items: seq<Item>, i: nat)
    requires Ok(items) && i < |items| && items[i].state != Empty
    ensures Ok(items[i := items[i].(unreachable := 0)])
    ensures Abstract(items[i := items[i].(unreachable := 0)]) == Abstract(items)[items[i].tid := 0]
  {
    hide Abstract;
    SetItem(items, i, items[i].(unreachable := 0));
  }

  lemma InsertItem(items: seq<Item>, k: nat, tid: uint32)
    requires Ok(items) && k < |items| && items[k].state == Empty
    requires forall i :: 0 <= i < |items| ==> !IsOf(items[i], tid)
    ensures var items' := items[k := SetState(items[k].(tid := tid, unreachable := 0), New)];
            Ok(items') && Abstract(items') == Abstract(items)[tid := 0]
  {
    hide Abstract;
    SetItem(items, k, SetState(items[k].(tid := tid, unreachable := 0), New));
  }

  // ----- Runs -----

  datatype Event = Advert(tid: uint32) | Iterate

  function Next(items: seq<Item>, e: Event): (r: seq<Item>)
    ensures |r| == |items|
  {
    match e
    case Advert(tid) => Advertised(items, tid)
    case Iterate => Iterated(items)
  }

  function Run(items: seq<Item>, events: seq<Event>): (r: seq<Item>)
    ensures |r| == |items|
    decreases |events|
  {
    if events == [] then items else Run(Next(items, events[0]), events[1..])
  }

  function AbstractNext(m: Ages, capacity: nat, e: Event): Ages {
    match e
    case Advert(tid) => Heard(m, capacity, tid)
    case Iterate => Aged(m)
  }

  function AbstractRun(m: Ages, capacity: nat, events: seq<Event>): Ages
    decreases |events|
  {
    if events == [] then m else AbstractRun(AbstractNext(m, capacity, events[0]), capacity, events[1..])
  }

  lemma NextRefines(items: seq<Item>, e: Event)
    requires Ok(items)
    ensures Ok(Next(items, e)) && Abstract(Next(items, e)) == AbstractNext(Abstract(items), |items|, e)
  {
    match e
    case Advert(tid) => AdvertRefines(items, tid);
    case Iterate => IterationRefines(items);
  }

  lemma {:induction false} RunRefines(items: seq<Item>, events: seq<Event>)
    requires Ok(items)
    ensures Ok(Run(items, events))
    ensures Abstract(Run(items, events)) == AbstractRun(Abstract(items), |items|, events)
    decreases |events|
  {
    if events == [] {
    } else {
      NextRefines(items, events[0]);
      RunRefines(Next(items, events[0]), events[1..]);
    }
  }

  /** The iterations since the last advert of a TID that the table took, in a run of the abstract table. */
  datatype Age = Never | Iterations(n: nat)

  function LastHeard(m: Ages, capacity: nat, age: Age, events: seq<Event>, tid: uint32): Age
    decreases |events|
  {
    if events == [] then age
    else
      var e := events[0];
      var age' :=
        if e.Iterate? then (if age == Never then Never else Iterations(age.n + 1))
        else if e.tid == tid && (tid in m || |m| < capacity) then Iterations(0)
        else age;
      LastHeard(AbstractNext(m, capacity, e), capacity, age', events[1..], tid)
  }

  ghost predicate InStep(m: Ages, age: Age, tid: uint32) {
    && (tid in m <==> age != Never && age.n <= MAX_AGE)
    && (tid in m ==> m[tid] == age.n)
  }

  lemma {:induction false} PresentWhileHeard(m: Ages, capacity: nat, age: Age, events: seq<Event>, tid: uint32)
    requires InStep(m, age, tid)
    ensures InStep(AbstractRun(m, capacity, events), LastHeard(m, capacity, age, events, tid), tid)
    decreases |events|
  {
    if events == [] {
    } else {
      var e := events[0];
      var age' :=
        if e.Iterate? then (if age == Never then Never else Iterations(age.n + 1))
        else if e.tid == tid && (tid in m || |m| < capacity) then Iterations(0)
        else age;
      PresentWhileHeard(AbstractNext(m, capacity, e), capacity, age', events[1..], tid);
    }
  }

  lemma StartIsOk(size: nat)
    ensures Ok(seq(size, _ => ZERO)) && Abstract(seq(size, _ => ZERO)) == map[]
  {
    AbstractIs(seq(size, _ => ZERO), map[]);
  }

  lemma {:induction false} LastStep(items: seq<Item>, events: seq<Event>)
    requires events != []
    ensures Run(items, events) == Next(Run(items, events[..|events| - 1]), events[|events| - 1])
    decreases |events|
  {
    if |events| <= 1 {
    } else {
      assert events[1..][..|events| - 2] == events[..|events| - 1][1..];
      LastStep(Next(items, events[0]), events[1..]);
    }
  }

  predicate Present(items: seq<Item>, tid: uint32) {
    exists i :: 0 <= i < |items| && IsOf(items[i], tid)
  }

  predicate ReportedReachable(items: seq<Item>, tid: uint32) {
    exists i :: 0 <= i < |items| && IsOf(items[i], tid) && Reachable(items[i])
  }

  /** How many events there are up to and including the last iteration. */
  function LastIteration(events: seq<Event>): (n: nat)
    ensures n <= |events|
    decreases |events|
  {
    if events == [] then 0
    else if events[|events| - 1] == Iterate then |events|
    else LastIteration(events[..|events| - 1])
  }

  predicate HasValid(items: seq<Item>, tid: uint32) {
    exists i :: 0 <= i < |items| && IsOf(items[i], tid) && items[i].state == Valid
  }

  lemma AdvertKeepsValid(items: seq<Item>, heard: uint32, tid: uint32)
    requires Ok(items)
    ensures HasValid(Advertised(items, heard), tid) <==> HasValid(items, tid)
  {
    var items' := Advertised(items, heard);
    if HasValid(items, tid) {
      var i :| 0 <= i < |items| && IsOf(items[i], tid) && items[i].state == Valid;
      assert IsOf(items'[i], tid) && items'[i].state == Valid;
    }
    if HasValid(items', tid) {
      var i :| 0 <= i < |items| && IsOf(items'[i], tid) && items'[i].state == Valid;
      assert IsOf(items[i], tid) && items[i].state == Valid;
    }
  }

  lemma IterationValidates(items: seq<Item>, tid: uint32)
    requires forall i :: 0 <= i < |items| ==> items[i].state in {Empty, Valid}
    ensures HasValid(items, tid) <==> Present(items, tid)
  {
    if Present(items, tid) {
      var i :| 0 <= i < |items| && IsOf(items[i], tid);
    }
  }

  /** The valid items are those that were there when the last iteration ended. */
  lemma {:induction false} ValidSinceIteration(size: nat, events: seq<Event>, tid: uint32)
    ensures var start := seq(size, _ => ZERO);
            HasValid(Run(start, events), tid) <==> Present(Run(start, events[..LastIteration(events)]), tid)
    decreases |events|
  {
    hide Ok;
    var start := seq(size, _ => ZERO);
    StartIsOk(size);
    if events == [] {
    } else {
      var front := events[..|events| - 1];
      RunRefines(start, front);
      LastStep(start, events);
      match events[|events| - 1]
      case Iterate =>
        assert events[..|events|] == events;
        IterationRefines(Run(start, front));
        IterationValidates(Run(start, events), tid);
      case Advert(heard) =>
        assert events[..LastIteration(events)] == front[..LastIteration(front)];
        ValidSinceIteration(size, front, tid);
        AdvertKeepsValid(Run(start, front), heard, tid);
    }
  }

  lemma ReachableByAge(items: seq<Item>, tid: uint32)
    requires Ok(items)
    ensures ReportedReachable(items, tid)
            <==> HasValid(items, tid) && tid in Abstract(items) && Abstract(items)[tid] < REACHABLE_AGE
  {
    hide Abstract;
    AbstractKeys(items);
    if HasValid(items, tid) && tid in Abstract(items) && Abstract(items)[tid] < REACHABLE_AGE {
      var i :| 0 <= i < |items| && IsOf(items[i], tid) && items[i].state == Valid;
      assert Reachable(items[i]);
    }
    if ReportedReachable(items, tid) {
      var i :| 0 <= i < |items| && IsOf(items[i], tid) && Reachable(items[i]);
    }
  }

  /**
   * In every run from the empty table no TID is there twice, and a TID is there exactly while the
   * last advert of it that the table took is at most 300 iterations old. It is reported reachable
   * exactly while that age is under 20, if it was there when the last iteration ended.
   */
  lemma TableFollowsAdverts(size: nat, events: seq<Event>, tid: uint32)
    ensures var start := seq(size, _ => ZERO);
            var items := Run(start, events);
            var age := LastHeard(map[], size, Never, events, tid);
            && Ok(items)
            && (Present(items, tid) <==> age != Never && age.n <= MAX_AGE)
            && (ReportedReachable(items, tid)
                <==> age != Never && age.n < REACHABLE_AGE
                     && Present(Run(start, events[..LastIteration(events)]), tid))
  {
    hide Abstract;
    hide Ok;
    var start := seq(size, _ => ZERO);
    StartIsOk(size);
    RunRefines(start, events);
    PresentWhileHeard(map[], size, Never, events, tid);
    var items := Run(start, events);
    AbstractKeys(items);
    ValidSinceIteration(size, events, tid);
    ReachableByAge(items, tid);
  }

  /** After an iteration every item is EMPTY or VALID, so a TID that is there and young enough is reachable. */
  lemma ReachableAfterIteration(size: nat, events: seq<Event>, tid: uint32)
    requires events != [] && events[|events| - 1] == Iterate
    ensures var items := Run(seq(size, _ => ZERO), events);
            var age := LastHeard(map[], size, Never, events, tid);
            && (forall i :: 0 <= i < size ==> items[i].state in {Empty, Valid})
            && (ReportedReachable(items, tid) <==> age != Never && age.n < REACHABLE_AGE)
  {
    hide Ok;
    hide Abstract;
    var start := seq(size, _ => ZERO);
    StartIsOk(size);
    RunRefines(start, events[..|events| - 1]);
    LastStep(start, events);
    IterationRefines(Run(start, events[..|events| - 1]));
    TableFollowsAdverts(size, events, tid);
    assert events[..LastIteration(events)] == events;
  }
}
