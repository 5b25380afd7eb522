/**
 * Primitives that satisfy the one law the protocol relies on and that have no collision in the way:
 * with them the keys really do not fit where the general theorems leave collisions open.
 */
module AkeExample {
  import opened Bytes
  import opened Ake3dh
  import opened AkeRuns
  import opened AkeSchedule

  function Sum(a: Key, b: Key): Key {
    seq(32, i requires 0 <= i < 32 => (a[i] as int + b[i] as int) % 0x100)
  }

  function LastKey(s: seq<byte>): Key {
    if |s| >= 32 then s[|s| - 32..] else ZERO_KEY
  }

  /** A group that satisfies the law of the curve, and a hash that keeps the last 32 bytes. */
  function SumPrimitives(): Primitives {
    Primitives(Sum, ZERO_KEY, LastKey)
  }

  lemma SumLaws()
    ensures SumPrimitives().DiffieHellman()
    ensures forall k: Key :: SumPrimitives().Pub(k) == k
    ensures forall m: Key :: SumPrimitives().First(m) != SumPrimitives().Second(m)
  {
    var c := SumPrimitives();
    forall k: Key
      ensures c.Pub(k) == k
    {
      assert Sum(k, ZERO_KEY) == k;
    }
    forall a: Key, b: Key
      ensures c.Mult(a, c.Pub(b)) == c.Mult(b, c.Pub(a))
    {
      assert c.Mult(a, c.Pub(b)) == Sum(a, b) == Sum(b, a);
    }
    forall m: Key
      ensures c.First(m) != c.Second(m)
    {
      assert (m + FIRST)[36] == 0x74 && (m + SECOND)[37] == 0x64;
      assert c.First(m)[31] == 0x74 && c.Second(m)[31] == 0x64;
    }
  }

  /** The law of the curve alone does not make the keys fit when the ephemeral keys are equal. */
  lemma EqualKeysDisagree(y: System, role0: Role, events: seq<Event>)
    requires role0 != Bob
    requires Initial(SumPrimitives(), y, role0)
    requires Complete(Run(SumPrimitives(), y, events))
    requires Run(SumPrimitives(), y, events).a.s.epk == Run(SumPrimitives(), y, events).b.s.epk
    ensures !Agree(Run(SumPrimitives(), y, events))
  {
    hide SumPrimitives;
    SumLaws();
    EqualEphemeralKeys(SumPrimitives(), y, role0, events);
  }

  const ONE_KEY: Key := [1] + Zeros(31)

  lemma NoCollision(s: State)
    requires s.isk == ZERO_KEY && s.esk == Some(ONE_KEY) && s.sh1.Some?
    requires s.peerEpk == Some(ZERO_KEY) && s.peerIpk == Some(ZERO_KEY)
    ensures !Collision(SumPrimitives(), s)
  {
    var sh1: seq<byte> := s.sh1.value;
    var x: seq<byte>, y: seq<byte> := Sum(ONE_KEY, ZERO_KEY), Sum(ZERO_KEY, ZERO_KEY);
    assert x[0] == 1 && y[0] == 0;
    assert (sh1 + x + x)[64..] == x && (sh1 + x + y)[64..] == y;
  }

  lemma ExampleKeys()
    ensures SumPrimitives().DiffieHellman()
    ensures SumPrimitives().Pub(ZERO_KEY) == ZERO_KEY && SumPrimitives().Pub(ONE_KEY) == ONE_KEY
    ensures Memcmp(ZERO_KEY, ONE_KEY) < 0 && ZERO_KEY != ONE_KEY
  {
    SumLaws();
  }

  function ExampleStart(): System {
    var e := Endpoint(Started(ZERO_KEY, ZERO_KEY, true, Alice), {}, false);
    System(e, e)
  }

  lemma ExampleInitial()
    ensures Initial(SumPrimitives(), ExampleStart(), Alice)
    ensures ExampleStart().a.s.ipk == ExampleStart().b.s.isk == ZERO_KEY
  {
    ExampleKeys();
  }

  /** Nor does it with the default role: a complete run that loses nothing ends with keys that do not fit. */
  lemma DefaultRoleDisagrees() returns (c: Primitives, y: System, events: seq<Event>)
    ensures c.DiffieHellman() && Initial(c, y, Alice)
    ensures Delivered(c, y, events) && Complete(Run(c, y, events))
    ensures Run(c, y, events).a.s.epk != Run(c, y, events).b.s.epk
    ensures !Agree(Run(c, y, events))
  {
    hide SumPrimitives;
    hide Memcmp;
    hide Run;
    hide Delivered;
    hide ExampleStart;
    hide Initial;
    hide Collision;
    hide ZERO_KEY;
    hide ONE_KEY;
    c, y := SumPrimitives(), ExampleStart();
    ExampleKeys();
    ExampleInitial();
    events := DefaultRoleBreaksRun(c, y, ZERO_KEY, ONE_KEY);
    ExampleInvariant(c, y, events);
    NoCollision(Run(c, y, events).b.s);
  }

  lemma ExampleInvariant(c: Primitives, y: System, events: seq<Event>)
    requires Initial(c, y, Alice)
    ensures Invariant(c, Run(c, y, events), Alice)
    ensures Keeps(y.a.s, Run(c, y, events).a.s) && Keeps(y.b.s, Run(c, y, events).b.s)
  {
    RunKeepsInvariant(c, y, Alice, events);
  }
}
