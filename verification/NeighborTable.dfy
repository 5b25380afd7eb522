/** The neighbor table: a fixed array of items that adverts fill and refresh, and the task ages every 100 ms. */
module NeighborTable {
  import opened Bytes

  const STEP_MS := 100
  const UNREACHABLE_THRESHOLD := 2000
  const UNREACHABLE_MAX := 30000
  const TIMEOUT_NEW := 5000
  const TIMEOUT_VALID := 600000
  const TIMEOUT_GUARD := 30000
  const TIMEOUT_OLD := 0xffff_ffff

  datatype ItemState = Empty | Valid | New | Guard | Old

  datatype Item = Item(state: ItemState, timeout: uint32, unreachable: nat, tid: uint32)

  const ZERO: Item := Item(Empty, 0, 0, 0)

  // ----- Specification of the operations -----

  function SetState(x: Item, state: ItemState): Item {
    match state
    case Empty => x.(state := Empty)
    case New => x.(state := New, timeout := TIMEOUT_NEW)
    case Valid => x.(state := Valid, timeout := TIMEOUT_VALID)
    case Guard => x.(state := Guard, timeout := TIMEOUT_GUARD)
    case Old => x.(state := Old, timeout := TIMEOUT_OLD)
  }

  function AfterUnreachableCheck(x: Item): Item {
    if x.unreachable >= UNREACHABLE_MAX && x.state in {New, Valid, Guard} then SetState(x, Old) else x
  }

  function AfterTimeoutCheck(x: Item): Item {
    if x.timeout != 0 then x
    else match x.state
      case New => SetState(x, Guard)
      case Valid => SetState(x, New)
      case Guard => SetState(x, Old)
      case _ => x
  }

  function AfterLoopStep(x: Item): Item {
    match x.state
    case New => SetState(x, Valid)
    case Old => ZERO
    case _ => x
  }

  function AfterTime(x: Item): Item {
    if x.state == Empty then x
    else x.(timeout := if x.timeout >= STEP_MS then x.timeout - STEP_MS else 0, unreachable := x.unreachable + STEP_MS)
  }

  function Visited(x: Item): Item {
    AfterTime(AfterLoopStep(AfterTimeoutCheck(AfterUnreachableCheck(x))))
  }

  function VisitedUpTo(items: seq<Item>, n: nat): (r: seq<Item>)
    requires n <= |items|
    ensures |r| == |items|
  {
    seq(|items|, i requires 0 <= i < |items| => if i < n then Visited(items[i]) else items[i])
  }

  function Iterated(items: seq<Item>): (r: seq<Item>)
    ensures |r| == |items|
  {
    VisitedUpTo(items, |items|)
  }

  predicate IsOf(x: Item, tid: uint32) {
    x.state != Empty && x.tid == tid
  }

  function Find(items: seq<Item>, tid: uint32, from: nat): (r: int)
    requires from <= |items|
    ensures r == -1 || from <= r < |items|
    ensures r >= 0 ==> IsOf(items[r], tid) && forall j :: from <= j < r ==> !IsOf(items[j], tid)
    ensures r == -1 ==> forall j :: from <= j < |items| ==> !IsOf(items[j], tid)
    decreases |items| - from
  {
    if from == |items| then -1 else if IsOf(items[from], tid) then from else Find(items, tid, from + 1)
  }

  function FirstEmpty(items: seq<Item>, from: nat): (r: int)
    requires from <= |items|
    ensures r == -1 || from <= r < |items|
    ensures r >= 0 ==> items[r].state == Empty && forall j :: from <= j < r ==> items[j].state != Empty
    ensures r == -1 ==> forall j :: from <= j < |items| ==> items[j].state != Empty
    decreases |items| - from
  {
    if from == |items| then -1 else if items[from].state == Empty then from else FirstEmpty(items, from + 1)
  }

  /** A neighbor advertises its TID: it is refreshed if it is known, and inserted if there is room. */
  function Advertised(items: seq<Item>, tid: uint32): (r: seq<Item>)
    ensures |r| == |items|
  {
    var i := Find(items, tid, 0);
    if i >= 0 then items[i := items[i].(unreachable := 0)]
    else
      var j := FirstEmpty(items, 0);
      if j < 0 then items
      else items[j := SetState(items[j].(tid := tid, unreachable := 0), New)]
  }

  predicate Reachable(x: Item) {
    x.state == Valid && x.unreachable < UNREACHABLE_THRESHOLD
  }

  // ----- The table, updated in place -----

  class Table {
    const items: array<Item>

    constructor (size: nat)
      ensures fresh(items) && items[..] == seq(size, _ => ZERO)
    {
      items := new Item[size](_ => ZERO);
    }

    method CheckUnreachableTime(i: nat)
      requires i < items.Length
      modifies items
      ensures items[..] == old(items[..])[i := AfterUnreachableCheck(old(items[i]))]
    {
      if items[i].unreachable >= UNREACHABLE_MAX {
        match items[i].state {
          case Empty =>
          case Old =>
          case _ => items[i] := SetState(items[i], Old);
        }
      }
    }

    method CheckStateTimeout(i: nat)
      requires i < items.Length
      modifies items
      ensures items[..] == old(items[..])[i := AfterTimeoutCheck(old(items[i]))]
    {
      if items[i].timeout == 0 {
        match items[i].state {
          case Empty =>
          case New => items[i] := SetState(items[i], Guard);
          case Valid => items[i] := SetState(items[i], New);
          case Guard => items[i] := SetState(items[i], Old);
          case Old =>
        }
      }
    }

    /** A new neighbor becomes valid and goes to the key manager; an old one is removed. */
    method LoopStep(i: nat) returns (manage: bool)
      requires i < items.Length
      modifies items
      ensures items[..] == old(items[..])[i := AfterLoopStep(old(items[i]))]
      ensures manage == old(items[i]).state.New?
    {
      manage := false;
      match items[i].state {
        case New =>
          items[i] := SetState(items[i], Valid);
          manage := true;
        case Old =>
          items[i] := ZERO;
          items[i] := SetState(items[i], Empty);
        case _ =>
      }
    }

    method AdjustTimeouts(i: nat)
      requires i < items.Length
      modifies items
      ensures items[..] == old(items[..])[i := AfterTime(old(items[i]))]
    {
      if items[i].state != Empty {
        if items[i].timeout >= STEP_MS {
          items[i] := items[i].(timeout := items[i].timeout - STEP_MS);
        } else {
          items[i] := items[i].(timeout := 0);
        }
        items[i] := items[i].(unreachable := items[i].unreachable + STEP_MS);
      }
    }

    method Iterate() returns (managed: seq<uint32>)
      modifies items
      ensures items[..] == Iterated(old(items[..]))
      ensures forall tid :: tid in managed <==>
                exists i :: 0 <= i < items.Length && old(items[i]).tid == tid && GoesToKeyManager(old(items[i]))
    {
      managed := [];
      for i := 0 to items.Length
        invariant items[..] == VisitedUpTo(old(items[..]), i)
        invariant forall tid :: tid in managed <==>
                    exists j :: 0 <= j < i && old(items[j]).tid == tid && GoesToKeyManager(old(items[j]))
      {
        assert items[i] == old(items[i]);
        CheckUnreachableTime(i);
        CheckStateTimeout(i);
        var manage := LoopStep(i);
        if manage {
          managed := managed + [items[i].tid];
        }
        AdjustTimeouts(i);
        assert items[..] == VisitedUpTo(old(items[..]), i)[i := Visited(old(items[i]))];
      }
    }

    method FindItem(tid: uint32) returns (i: int)
      ensures i == Find(items[..], tid, 0)
    {
      for j := 0 to items.Length
        invariant Find(items[..], tid, 0) == Find(items[..], tid, j)
      {
        if items[j].state != Empty && items[j].tid == tid {
          return j;
        }
      }
      i := -1;
    }

    method AllocateItem() returns (i: int)
      ensures i == FirstEmpty(items[..], 0)
    {
      for j := 0 to items.Length
        invariant FirstEmpty(items[..], 0) == FirstEmpty(items[..], j)
      {
        if items[j].state == Empty {
          return j;
        }
      }
      i := -1;
    }

    /** Fails only when the TID is not there and the table is full. */
    method ProcessAdvBasic(tid: uint32) returns (ok: bool)
      modifies items
      ensures items[..] == Advertised(old(items[..]), tid)
      ensures ok <==> exists i :: 0 <= i < items.Length && (IsOf(old(items[i]), tid) || old(items[i]).state == Empty)
    {
      var i := FindItem(tid);
      if i >= 0 {
        items[i] := items[i].(unreachable := 0);
        return true;
      }
      i := AllocateItem();
      if i < 0 {
        return false;
      }
      items[i] := items[i].(tid := tid);
      items[i] := items[i].(unreachable := 0);
      items[i] := SetState(items[i], New);
      ok := true;
    }
  }

  /** Whether an iteration hands the TID of an item to the key manager. */
  predicate GoesToKeyManager(x: Item) {
    AfterTimeoutCheck(AfterUnreachableCheck(x)).state == New
  }
}
