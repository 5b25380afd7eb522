/**
 * One session of the three-way Diffie-Hellman key exchange, stepped every 100 ms by the main
 * task and updated by the receive handler.
 *
 * The C structure pairs each key with a flag that says whether the key is there. The two are
 * always written together, so each pair is one Option here.
 */
module Ake3dh {
  import opened Bytes

  const STEP_INTERVAL_MS := 100
  const REQUEST_INITIAL_INTERVAL := 200
  const REQUEST_INTERVAL_MULTIPLIER := 2
  const REQUEST_INTERVAL_MAX := 2000

  /** A 256-bit key. */
  type Key = s: seq<byte> | |s| == 32 witness seq(32, _ => 0)

  const ZERO_KEY: Key := [0, 0, 0, 0, 0, 0, 0, 0, 0, 0, 0, 0, 0, 0, 0, 0,
                          0, 0, 0, 0, 0, 0, 0, 0, 0, 0, 0, 0, 0, 0, 0, 0]

  const FIRST: seq<byte> := [0x66, 0x69, 0x72, 0x73, 0x74]
  const SECOND: seq<byte> := [0x73, 0x65, 0x63, 0x6f, 0x6e, 0x64]

  /** Curve25519 scalar multiplication, its base point and SHA-256, left uninterpreted. */
  datatype Primitives = Primitives(curve: (Key, Key) -> Key, basepoint: Key, sha256: seq<byte> -> Key)
  {
    function Mult(sk: Key, pk: Key): Key {
      curve(sk, pk)
    }

    function Pub(sk: Key): Key {
      Mult(sk, basepoint)
    }

    /** The one law of the curve the protocol relies on. */
    ghost predicate DiffieHellman() {
      forall a: Key, b: Key :: Mult(a, Pub(b)) == Mult(b, Pub(a))
    }

    function Master(sh1: Key, sh2: Key, sh3: Key): Key {
      sha256(sh1 + sh2 + sh3)
    }

    function First(master: Key): Key {
      sha256(master + FIRST)
    }

    function Second(master: Key): Key {
      sha256(master + SECOND)
    }
  }

  datatype Role = RoleUnknown | Alice | Bob

  datatype AkeResult = ResultNone | ResultOk | ResultFailed

  /** Message contents; a response carries whatever number of bytes its sender put in it. */
  datatype Message =
    | EpkRequest
    | EpkResponse(ephemeralPk: seq<byte>)
    | IpkRequest
    | IpkResponse(identityPk: Option<seq<byte>>, hasEncryptedIdentityPk: bool)
    | Unknown

  datatype HandlerResult = HandlerOk | HandlerFailed

  /** The retry timer of one kind of request. */
  datatype Timer = Timer(interval: uint32, time: uint32)

  datatype TxRx = TxRx(tx: Key, rx: Key)

  /** The value of a session record. */
  datatype State = State(
    idGenerated: bool,
    isk: Key, ipk: Key, esk: Option<Key>, epk: Option<Key>,
    epkRequested: bool, ipkRequested: bool,
    epkTimer: Timer, ipkTimer: Timer,
    peerEpk: Option<Key>, peerIpk: Option<Key>,
    role: Role,
    sh1: Option<Key>, sh2: Option<Key>, sh3: Option<Key>,
    master: Option<Key>, keys: Option<TxRx>,
    result: AkeResult)

  // ----- What one session does in one step -----

  /** A request goes out when the time since the last one has reached the interval. */
  predicate Due(t: Timer) {
    t.time >= t.interval
  }

  function AfterRequest(t: Timer): Timer {
    var next := if t.interval == 0 then REQUEST_INITIAL_INTERVAL
                else t.interval * REQUEST_INTERVAL_MULTIPLIER % U32;
    Timer(if next > REQUEST_INTERVAL_MAX then REQUEST_INTERVAL_MAX else next, 0)
  }

  function Advance(t: Timer, ms: uint32): Timer {
    t.(time := (t.time + ms) % U32)
  }

  function RoleOf(epk: Key, peerEpk: Key): Role {
    if Memcmp(epk, peerEpk) <= 0 then Alice else Bob
  }

  function TxRxOf(c: Primitives, role: Role, master: Key): TxRx {
    if role == Alice then TxRx(c.First(master), c.Second(master))
    else TxRx(c.Second(master), c.First(master))
  }

  predicate EpkRequestDue(s: State) {
    s.peerEpk.None? && Due(s.epkTimer)
  }

  predicate IpkRequestDue(s: State) {
    s.peerIpk.None? && Due(s.ipkTimer)
  }

  function Requests(s: State): seq<Message> {
    (if EpkRequestDue(s) then [EpkRequest] else []) + (if IpkRequestDue(s) then [IpkRequest] else [])
  }

  function Responses(s: State): seq<Message> {
    (if s.epkRequested && s.epk.Some? then [EpkResponse(s.epk.value)] else [])
    + (if s.ipkRequested then [IpkResponse(Some(s.ipk), false)] else [])
  }

  /** The outbound part of a step: due requests and pending responses, which do not end the step. */
  function Outbound(s: State): (r: (State, seq<Message>)) {
    (s.(epkTimer := if EpkRequestDue(s) then AfterRequest(s.epkTimer) else s.epkTimer,
        ipkTimer := if IpkRequestDue(s) then AfterRequest(s.ipkTimer) else s.ipkTimer,
        epkRequested := s.epkRequested && s.epk.None?,
        ipkRequested := false),
     Requests(s) + Responses(s))
  }

  /** The first shared secret that can be computed now, in the order of the source. */
  function ComputeShared(c: Primitives, s: State): Option<State> {
    if s.epk.Some? && s.esk.Some? && s.peerEpk.Some? && s.sh1.None? then
      Some(s.(role := RoleOf(s.epk.value, s.peerEpk.value), sh1 := Some(c.Mult(s.esk.value, s.peerEpk.value))))
    else if s.role == Alice && s.peerEpk.Some? && s.sh2.None? then
      Some(s.(sh2 := Some(c.Mult(s.isk, s.peerEpk.value))))
    else if s.role == Bob && s.esk.Some? && s.peerIpk.Some? && s.sh2.None? then
      Some(s.(sh2 := Some(c.Mult(s.esk.value, s.peerIpk.value))))
    else if s.role == Alice && s.esk.Some? && s.peerIpk.Some? && s.sh3.None? then
      Some(s.(sh3 := Some(c.Mult(s.esk.value, s.peerIpk.value))))
    else if s.role == Bob && s.peerEpk.Some? && s.sh3.None? then
      Some(s.(sh3 := Some(c.Mult(s.isk, s.peerEpk.value))))
    else None
  }

  /** The master key from the three secrets, then the TX and RX keys from the master key. */
  function ComputeKeys(c: Primitives, s: State): State {
    if s.role != RoleUnknown && s.sh1.Some? && s.sh2.Some? && s.sh3.Some? && s.master.None? then
      s.(master := Some(c.Master(s.sh1.value, s.sh2.value, s.sh3.value)))
    else if s.master.Some? && s.keys.None? then
      s.(keys := Some(TxRxOf(c, s.role, s.master.value)),
         result := if s.result == ResultNone then ResultOk else s.result)
    else s
  }

  /** The computation part of a step: at most one computation. */
  function Compute(c: Primitives, s: State): State {
    var shared := ComputeShared(c, s);
    if shared.Some? then shared.value else ComputeKeys(c, s)
  }

  /** The key a step reads from the random number generator, if one is set. */
  type Random = Option<Key>

  function Step(c: Primitives, s: State, rnd: Random): (r: (State, seq<Message>)) {
    if !s.idGenerated && rnd.Some? then
      (s.(idGenerated := true), [])
    else if s.esk.None? && rnd.Some? then
      (s.(esk := rnd), [])
    else if s.epk.None? && s.esk.Some? then
      (s.(epk := Some(c.Pub(s.esk.value))), [])
    else
      var (s', out) := Outbound(s);
      (Compute(c, s'), out)
  }

  function AdvanceTimers(s: State, ms: uint32): State {
    s.(epkTimer := Advance(s.epkTimer, ms), ipkTimer := Advance(s.ipkTimer, ms))
  }

  /** What a session makes of a received message. */
  function Accept(s: State, m: Message): (r: (State, HandlerResult)) {
    match m
    case EpkRequest => (s.(epkRequested := true), HandlerOk)
    case EpkResponse(pk) =>
      if |pk| != 32 then (s, HandlerFailed)
      else (s.(peerEpk := Some(pk)), HandlerOk)
    case IpkRequest => (s.(ipkRequested := true), HandlerOk)
    case IpkResponse(Some(pk), _) =>
      if |pk| != 32 then (s, HandlerFailed)
      else (s.(peerIpk := Some(pk)), HandlerOk)
    case IpkResponse(None, true) =>
      // The encrypted key is not decrypted: the stored one, zero at first, counts as received.
      (s.(peerIpk := if s.peerIpk.None? then Some(ZERO_KEY) else s.peerIpk), HandlerOk)
    case IpkResponse(None, false) => (s, HandlerFailed)
    case Unknown => (s, HandlerFailed)
  }

  /** A session started by this side (no ID yet) or by a message that carries an ID. */
  function Started(isk: Key, ipk: Key, hasId: bool, role: Role): State {
    State(hasId, isk, ipk, None, None, false, false, Timer(0, 0), Timer(0, 0), None, None, role,
          None, None, None, None, None, ResultNone)
  }

  // ----- A session record, updated in place -----

  class Session {
    var idGenerated: bool
    var isk: Key
    var ipk: Key
    var esk: Option<Key>
    var epk: Option<Key>
    var epkRequested: bool
    var ipkRequested: bool
    var epkTimer: Timer
    var ipkTimer: Timer
    var peerEpk: Option<Key>
    var peerIpk: Option<Key>
    var role: Role
    var sh1: Option<Key>
    var sh2: Option<Key>
    var sh3: Option<Key>
    var master: Option<Key>
    var keys: Option<TxRx>
    var result: AkeResult

    function View(): State
      reads this
    {
      State(idGenerated, isk, ipk, esk, epk, epkRequested, ipkRequested, epkTimer, ipkTimer,
            peerEpk, peerIpk, role, sh1, sh2, sh3, master, keys, result)
    }

    /** The source makes every side Alice until its role is determined. */
    constructor (isk: Key, ipk: Key, hasId: bool)
      ensures View() == Started(isk, ipk, hasId, Alice)
    {
      idGenerated := hasId;
      this.isk, this.ipk, esk, epk, epkRequested, ipkRequested := isk, ipk, None, None, false, false;
      epkTimer, ipkTimer, peerEpk, peerIpk := Timer(0, 0), Timer(0, 0), None, None;
      role, sh1, sh2, sh3, master, keys, result := Alice, None, None, None, None, None, ResultNone;
    }

    method SessionStep(c: Primitives, rnd: Random) returns (sent: seq<Message>)
      modifies this
      ensures (View(), sent) == Step(c, old(View()), rnd)
    {
      sent := [];
      if !idGenerated && rnd.Some? {
        idGenerated := true;
        return;
      }
      if esk.None? && rnd.Some? {
        esk := rnd;
        return;
      }
      if epk.None? && esk.Some? {
        epk := Some(c.Mult(esk.value, c.basepoint));
        return;
      }
      sent := SendPending();
      ComputeNext(c);
    }

    method SendRequests() returns (sent: seq<Message>)
      modifies `epkTimer, `ipkTimer
      ensures epkTimer == Outbound(old(View())).0.epkTimer
      ensures ipkTimer == Outbound(old(View())).0.ipkTimer
      ensures sent == Requests(old(View()))
    {
      sent := [];
      if peerEpk.None? && epkTimer.time >= epkTimer.interval {
        sent := sent + [EpkRequest];
        epkTimer := AfterRequest(epkTimer);
      }
      if peerIpk.None? && ipkTimer.time >= ipkTimer.interval {
        sent := sent + [IpkRequest];
        ipkTimer := AfterRequest(ipkTimer);
      }
    }

    method SendPending() returns (sent: seq<Message>)
      modifies this
      ensures (View(), sent) == Outbound(old(View()))
    {
      var requests := SendRequests();
      var responses := [];
      if epkRequested && epk.Some? {
        responses := responses + [EpkResponse(epk.value)];
        epkRequested := false;
      }
      if ipkRequested {
        responses := responses + [IpkResponse(Some(ipk), false)];
        ipkRequested := false;
      }
      assert responses == Responses(old(View()));
      sent := requests + responses;
    }

    method DetermineRole()
      requires epk.Some? && peerEpk.Some?
      modifies `role
      ensures role == RoleOf(epk.value, peerEpk.value)
    {
      var res := Memcmp(epk.value, peerEpk.value);
      if res == 0 {
        role := Alice;
      } else if res < 0 {
        role := Alice;
      } else {
        role := Bob;
      }
    }

    method ComputeNextShared(c: Primitives) returns (done: bool)
      modifies this
      ensures done == ComputeShared(c, old(View())).Some?
      ensures View() == if done then ComputeShared(c, old(View())).value else old(View())
    {
      if epk.Some? && esk.Some? && peerEpk.Some? && sh1.None? {
        DetermineRole();
        sh1 := Some(c.Mult(esk.value, peerEpk.value));
        return true;
      }
      if role == Alice && peerEpk.Some? && sh2.None? {
        sh2 := Some(c.Mult(isk, peerEpk.value));
        return true;
      }
      if role == Bob && esk.Some? && peerIpk.Some? && sh2.None? {
        sh2 := Some(c.Mult(esk.value, peerIpk.value));
        return true;
      }
      if role == Alice && esk.Some? && peerIpk.Some? && sh3.None? {
        sh3 := Some(c.Mult(esk.value, peerIpk.value));
        return true;
      }
      if role == Bob && peerEpk.Some? && sh3.None? {
        sh3 := Some(c.Mult(isk, peerEpk.value));
        return true;
      }
      done := false;
    }

    method ComputeNext(c: Primitives)
      modifies this
      ensures View() == Compute(c, old(View()))
    {
      var done := ComputeNextShared(c);
      if done {
        return;
      }
      if role != RoleUnknown && sh1.Some? && sh2.Some? && sh3.Some? && master.None? {
        master := Some(c.Master(sh1.value, sh2.value, sh3.value));
        return;
      }
      if master.Some? && keys.None? {
        DeriveTxRx(c);
        if result == ResultNone {
          result := ResultOk;
        }
      }
    }

    method DeriveTxRx(c: Primitives)
      requires master.Some?
      modifies `keys
      ensures keys == Some(TxRxOf(c, role, master.value))
    {
      var first := c.First(master.value);
      var second := c.Second(master.value);
      if role == Alice {
        keys := Some(TxRx(first, second));
      } else {
        keys := Some(TxRx(second, first));
      }
    }

    method AdvanceBy(ms: uint32)
      modifies this
      ensures View() == AdvanceTimers(old(View()), ms)
    {
      epkTimer := epkTimer.(time := (epkTimer.time + ms) % U32);
      ipkTimer := ipkTimer.(time := (ipkTimer.time + ms) % U32);
    }

    method Receive(m: Message) returns (r: HandlerResult)
      modifies this
      ensures (View(), r) == Accept(old(View()), m)
    {
      match m {
        case EpkRequest =>
          epkRequested := true;
        case EpkResponse(pk) =>
          if |pk| != 32 {
            return HandlerFailed;
          }
          peerEpk := Some(pk);
        case IpkRequest =>
          ipkRequested := true;
        case IpkResponse(identity, encrypted) =>
          if identity.Some? {
            if |identity.value| != 32 {
              return HandlerFailed;
            }
            peerIpk := Some(identity.value);
          } else if !encrypted {
            return HandlerFailed;
          } else if peerIpk.None? {
            peerIpk := Some(ZERO_KEY);
          }
        case Unknown =>
          return HandlerFailed;
      }
      r := HandlerOk;
    }
  }
}
