/**
 * The layer 2 key manager: a table of timed sessions, each of which may hold a slot of the pool of
 * key exchange sessions. An iteration of the task, a received message and a callback are one step each.
 */
module KeyManager {
  import opened Bytes
  import opened Ake3dh

  const STEP_MS := 100
  const TIMEOUT_MS := 5000
  const TIMEOUT_INITIAL_AKE_MS := 20000
  const TIMEOUT_MANAGED_MS := 600000

  datatype Phase = Empty | New | InitialAke | Authenticated | NotAuthenticated | Authorized | NotAuthorized
                 | Managed | Expired | Old

  /** A session record; `slot` is the pointer to a slot of the key exchange pool. */
  datatype Record = Record(peerTid: uint32, slot: Option<nat>, akeTime: nat, phase: Phase, timeout: nat,
                           txKey: Key, rxKey: Key)

  const ZERO: Record := Record(0, None, 0, Empty, 0, ZERO_KEY, ZERO_KEY)

  /** The session table, and which slots of the key exchange pool are used. */
  datatype Tables = Tables(sessions: seq<Record>, used: seq<bool>)

  // ----- Specification -----

  function SetPhase(s: Record, phase: Phase): Record {
    match phase
    case Empty => s.(phase := Empty)
    case InitialAke => s.(phase := phase, akeTime := 0, timeout := TIMEOUT_INITIAL_AKE_MS)
    case Managed => s.(phase := phase, timeout := TIMEOUT_MANAGED_MS)
    case _ => s.(phase := phase, timeout := TIMEOUT_MS)
  }

  /** The last index in s[..n] where something holds, -1 if there is none: what a scan without a break finds. */
  function LastFree(used: seq<bool>, n: nat): (r: int)
    requires n <= |used|
    ensures -1 <= r < n
    ensures r >= 0 ==> !used[r]
    ensures forall j :: r < j < n ==> used[j]
  {
    if n == 0 then -1 else if !used[n - 1] then n - 1 else LastFree(used, n - 1)
  }

  function FirstEmpty(sessions: seq<Record>, from: nat): (r: int)
    requires from <= |sessions|
    ensures r == -1 || from <= r < |sessions|
    ensures r >= 0 ==> sessions[r].phase == Empty && forall j :: from <= j < r ==> sessions[j].phase != Empty
    ensures r == -1 ==> forall j :: from <= j < |sessions| ==> sessions[j].phase != Empty
    decreases |sessions| - from
  {
    if from == |sessions| then -1 else if sessions[from].phase == Empty then from else FirstEmpty(sessions, from + 1)
  }

  predicate Holds(s: Record, slot: nat) {
    s.phase == InitialAke && s.slot == Some(slot)
  }

  /** The session a result is for: the last one in INITIAL_AKE that holds the slot. */
  function Owner(sessions: seq<Record>, slot: nat): (r: int)
    ensures -1 <= r < |sessions|
    ensures r >= 0 ==> Holds(sessions[r], slot)
    ensures forall j :: r < j < |sessions| ==> !Holds(sessions[j], slot)
  {
    if sessions == [] then -1
    else if Holds(sessions[|sessions| - 1], slot) then |sessions| - 1
    else Owner(sessions[..|sessions| - 1], slot)
  }

  /** The session a message is sent for: the last one that has the slot, in whatever phase it is. */
  function SendTarget(sessions: seq<Record>, slot: nat): (r: int)
    ensures -1 <= r < |sessions|
    ensures r >= 0 ==> sessions[r].slot == Some(slot)
    ensures forall j :: r < j < |sessions| ==> sessions[j].slot != Some(slot)
  {
    if sessions == [] then -1
    else if sessions[|sessions| - 1].slot == Some(slot) then |sessions| - 1
    else SendTarget(sessions[..|sessions| - 1], slot)
  }

  /** A timeout that has run out moves a session on. */
  function AfterTimeout(s: Record): Record {
    if s.timeout != 0 then s
    else match s.phase
      case Empty => s
      case New => SetPhase(s, Old)
      case InitialAke => SetPhase(s, NotAuthenticated)
      case Managed => SetPhase(s, Expired)
      case Old => ZERO
      case _ => SetPhase(s, Old)
  }

  /** Whether the timeout of a session gives its key exchange slot back. */
  predicate FreesSlot(s: Record) {
    s.timeout == 0 && s.phase == InitialAke
  }

  function AfterLoopStep(s: Record, slot: int): Record {
    match s.phase
    case New => if slot < 0 then SetPhase(s, NotAuthenticated) else SetPhase(s.(slot := Some(slot)), InitialAke)
    case Authenticated => SetPhase(s, Managed)
    case _ => s
  }

  function AfterTime(s: Record): Record {
    if s.phase == Empty then s
    else
      var s' := s.(timeout := if s.timeout >= STEP_MS then s.timeout - STEP_MS else 0);
      if s.phase == InitialAke then s'.(akeTime := s'.akeTime + STEP_MS) else s'
  }

  /** What the task does with one session in one iteration. */
  function Visit(k: Tables, i: nat): (r: Tables)
    requires i < |k.sessions|
    ensures |r.sessions| == |k.sessions| && |r.used| == |k.used|
  {
    var s := k.sessions[i];
    var used := if FreesSlot(s) && s.slot.Some? && s.slot.value < |k.used| then k.used[s.slot.value := false]
                else k.used;
    var s1 := AfterTimeout(s);
    var slot := if s1.phase == New then LastFree(used, |used|) else -1;
    Tables(k.sessions[i := AfterTime(AfterLoopStep(s1, slot))], if slot < 0 then used else used[slot := true])
  }

  function VisitUpTo(k: Tables, n: nat): (r: Tables)
    requires n <= |k.sessions|
    ensures |r.sessions| == |k.sessions| && |r.used| == |k.used|
  {
    if n == 0 then k else Visit(VisitUpTo(k, n - 1), n - 1)
  }

  function Iterated(k: Tables): Tables {
    VisitUpTo(k, |k.sessions|)
  }

  /** A neighbor to manage, if a session is free. */
  function WithManaged(k: Tables, tid: uint32): Tables {
    var i := FirstEmpty(k.sessions, 0);
    if i < 0 then k
    else k.(sessions := k.sessions[i := SetPhase(ZERO.(peerTid := tid), New)])
  }

  /** A key exchange message of a peer that matches no key exchange session, if a session is free. */
  function WithRemote(k: Tables, tid: uint32): Tables {
    var i := FirstEmpty(k.sessions, 0);
    if i < 0 then k
    else
      var s := SetPhase(k.sessions[i].(peerTid := tid), InitialAke);
      var slot := LastFree(k.used, |k.used|);
      if slot < 0 then k.(sessions := k.sessions[i := SetPhase(s, NotAuthenticated)])
      else Tables(k.sessions[i := s.(slot := Some(slot))], k.used[slot := true])
  }

  /** The key exchange in a slot ends, with its keys when the result is OK. */
  function WithResult(k: Tables, slot: nat, ok: bool, keys: TxRx): Tables {
    var i := Owner(k.sessions, slot);
    if i < 0 then k
    else
      var s := k.sessions[i];
      var s' := if ok then SetPhase(s.(txKey := keys.tx, rxKey := keys.rx), Authenticated)
                else SetPhase(s, NotAuthenticated);
      Tables(k.sessions[i := s'], if slot < |k.used| then k.used[slot := false] else k.used)
  }

  // ----- The tables, updated in place -----

  class Manager {
    const table: array<Record>
    const used: array<bool>

    constructor (tableSize: nat, poolSize: nat)
      requires tableSize > 0 && poolSize > 0
      ensures fresh(table) && fresh(used)
      ensures View() == Tables(seq(tableSize, _ => ZERO), seq(poolSize, _ => false))
    {
      table := new Record[tableSize](_ => ZERO);
      used := new bool[poolSize](_ => false);
    }

    function View(): Tables
      reads table, used
    {
      Tables(table[..], used[..])
    }

    method AllocateSession() returns (i: int)
      ensures i == FirstEmpty(table[..], 0)
    {
      for j := 0 to table.Length
        invariant FirstEmpty(table[..], 0) == FirstEmpty(table[..], j)
      {
        if table[j].phase == Empty {
          return j;
        }
      }
      i := -1;
    }

    method StartAke() returns (slot: int)
      modifies used
      ensures slot == LastFree(old(used[..]), used.Length)
      ensures used[..] == if slot < 0 then old(used[..]) else old(used[..])[slot := true]
    {
      slot := -1;
      for j := 0 to used.Length
        invariant slot == LastFree(used[..], j)
      {
        if !used[j] {
          slot := j;
        }
      }
      if slot >= 0 {
        used[slot] := true;
      }
    }

    method StopAke(slot: Option<nat>)
      modifies used
      ensures used[..] == if slot.Some? && slot.value < used.Length then old(used[..])[slot.value := false]
                          else old(used[..])
    {
      if slot.Some? && slot.value < used.Length {
        used[slot.value] := false;
      }
    }

    method CheckTimeout(i: nat)
      requires i < table.Length && table as object != used
      modifies table, used
      ensures table[..] == old(table[..])[i := AfterTimeout(old(table[i]))]
      ensures var s := old(table[i]);
              used[..] == if FreesSlot(s) && s.slot.Some? && s.slot.value < used.Length
                          then old(used[..])[s.slot.value := false] else old(used[..])
    {
      if table[i].timeout == 0 {
        match table[i].phase {
          case Empty =>
          case New => table[i] := SetPhase(table[i], Old);
          case InitialAke =>
            StopAke(table[i].slot);
            table[i] := SetPhase(table[i], NotAuthenticated);
          case Managed => table[i] := SetPhase(table[i], Expired);
          case Old => table[i] := ZERO;
          case _ => table[i] := SetPhase(table[i], Old);
        }
      }
    }

    method LoopStep(i: nat)
      requires i < table.Length && table as object != used
      modifies table, used
      ensures var slot := if old(table[i]).phase == New then LastFree(old(used[..]), used.Length) else -1;
              && table[..] == old(table[..])[i := AfterLoopStep(old(table[i]), slot)]
              && used[..] == if slot < 0 then old(used[..]) else old(used[..])[slot := true]
    {
      match table[i].phase {
        case New =>
          var slot := StartAke();
          if slot < 0 {
            table[i] := SetPhase(table[i], NotAuthenticated);
          } else {
            table[i] := table[i].(slot := Some(slot));
            table[i] := SetPhase(table[i], InitialAke);
          }
        case Authenticated =>
          table[i] := SetPhase(table[i], Managed);
        case _ =>
      }
    }

    method AdjustTimes(i: nat)
      requires i < table.Length
      modifies table
      ensures table[..] == old(table[..])[i := AfterTime(old(table[i]))]
    {
      if table[i].phase != Empty {
        if table[i].timeout >= STEP_MS {
          table[i] := table[i].(timeout := table[i].timeout - STEP_MS);
        } else {
          table[i] := table[i].(timeout := 0);
        }
      }
      if table[i].phase == InitialAke {
        table[i] := table[i].(akeTime := table[i].akeTime + STEP_MS);
      }
    }

    method Iterate()
      requires table as object != used
      modifies table, used
      ensures View() == Iterated(old(View()))
    {
      hide Visit;
      for i := 0 to table.Length
        invariant View() == VisitUpTo(old(View()), i)
      {
        VisitOne(i);
      }
    }

    method VisitOne(i: nat)
      requires i < table.Length && table as object != used
      modifies table, used
      ensures View() == Visit(old(View()), i)
    {
      CheckTimeout(i);
      LoopStep(i);
      AdjustTimes(i);
    }

    method Manage(tid: uint32) returns (ok: bool)
      modifies table
      ensures View() == WithManaged(old(View()), tid)
      ensures ok <==> exists i :: 0 <= i < table.Length && old(table[i]).phase == Empty
    {
      var i := AllocateSession();
      if i < 0 {
        return false;
      }
      table[i] := ZERO;
      table[i] := table[i].(peerTid := tid);
      table[i] := SetPhase(table[i], New);
      ok := true;
    }

    method ReceiveUnmatched(tid: uint32) returns (ok: bool)
      requires table as object != used
      modifies table, used
      ensures View() == WithRemote(old(View()), tid)
    {
      var i := AllocateSession();
      if i < 0 {
        return false;
      }
      table[i] := table[i].(peerTid := tid);
      table[i] := SetPhase(table[i], InitialAke);
      var slot := StartAke();
      if slot < 0 {
        table[i] := SetPhase(table[i], NotAuthenticated);
        return false;
      }
      table[i] := table[i].(slot := Some(slot));
      ok := true;
    }

    method ResultCallback(slot: nat, result: AkeResult, keys: TxRx) returns (ok: bool)
      requires table as object != used && result != ResultNone
      modifies table, used
      ensures View() == WithResult(old(View()), slot, result == ResultOk, keys)
    {
      var i := -1;
      for j := 0 to table.Length
        invariant -1 <= i < j
        invariant i >= 0 ==> Holds(table[i], slot)
        invariant forall m :: i < m < j ==> !Holds(table[m], slot)
      {
        if table[j].slot == Some(slot) && table[j].phase == InitialAke {
          i := j;
        }
      }
      if i < 0 {
        return false;
      }
      if result == ResultOk {
        table[i] := table[i].(txKey := keys.tx, rxKey := keys.rx);
        table[i] := SetPhase(table[i], Authenticated);
      }
      if result == ResultFailed {
        table[i] := SetPhase(table[i], NotAuthenticated);
      }
      StopAke(Some(slot));
      ok := true;
    }

    method FindSendTarget(slot: nat) returns (i: int)
      ensures i == SendTarget(table[..], slot)
    {
      i := -1;
      for j := 0 to table.Length
        invariant -1 <= i < j
        invariant i >= 0 ==> table[i].slot == Some(slot)
        invariant forall m :: i < m < j ==> table[m].slot != Some(slot)
      {
        if table[j].slot == Some(slot) {
          i := j;
        }
      }
    }

    /** The managed session of a peer with the most time left, if any time is left. */
    method FindSession(tid: uint32) returns (best: int)
      ensures IsBest(table[..], tid, best)
    {
      best := -1;
      var timeLeft := 0;
      for j := 0 to table.Length
        invariant best == -1 || 0 <= best < j
        invariant timeLeft == if best < 0 then 0 else table[best].timeout
        invariant best >= 0 ==> Usable(table[best], tid)
        invariant forall m :: 0 <= m < j && Usable(table[m], tid) ==> best >= 0 && table[m].timeout <= timeLeft
      {
        if table[j].peerTid == tid && table[j].phase == Managed && table[j].timeout > timeLeft {
          best := j;
          timeLeft := table[j].timeout;
        }
      }
    }
  }

  predicate Usable(s: Record, tid: uint32) {
    s.peerTid == tid && s.phase == Managed && s.timeout > 0
  }

  /** A usable session with the most time left, or -1 when no session is usable. */
  ghost predicate IsBest(sessions: seq<Record>, tid: uint32, best: int) {
    && (best == -1 || (0 <= best < |sessions| && Usable(sessions[best], tid)))
    && (forall j :: 0 <= j < |sessions| && Usable(sessions[j], tid) ==>
          best >= 0 && sessions[j].timeout <= sessions[best].timeout)
  }
}
