/**
 * Which scans for an image come to an end. The offsets of a scan are the multiples of a power of 2,
 * the lowest one bit of the step, below 2^32.
 */
module ImageScan {
  import opened Bytes
  import opened ModArith
  import opened FieldInverse
  import opened TinyElf
  import opened Chainloader

  // ----- The offsets -----

  /** The number of the lowest one bit. */
  function LowBit(step: nat): nat
    requires step > 0
  {
    if step % 2 == 1 then 0 else 1 + LowBit(step / 2)
  }

  /** The distance of neighboring offsets that a scan goes through. */
  function Stride(step: uint32): (s: nat)
    ensures s > 0
  {
    if step == 0 then U32 else Pow2(LowBit(step))
  }

  lemma {:induction false} OddPart(step: nat) returns (m: nat)
    requires step > 0
    ensures step == Pow2(LowBit(step)) * m && m % 2 == 1
  {
    if step % 2 == 1 {
      m := step;
    } else {
      m := OddPart(step / 2);
      assert Pow2(LowBit(step)) * m == 2 * (Pow2(LowBit(step / 2)) * m);
    }
  }

  lemma {:induction false} LowBitBelow(step: nat, n: nat)
    requires 0 < step < Pow2(n)
    ensures LowBit(step) < n
  {
    if step % 2 == 1 {
    } else {
      LowBitBelow(step / 2, n - 1);
    }
  }

  lemma StrideDivides(step: uint32) returns (w: nat)
    ensures w > 0 && Stride(step) * w == U32
    ensures step > 0 ==> exists i: nat :: w == Pow2(i)
  {
    if step == 0 {
      w := 1;
    } else {
      Pow2Of32();
      LowBitBelow(step, 32);
      w := Pow2(32 - LowBit(step));
      Pow2Add(LowBit(step), 32 - LowBit(step));
    }
  }

  /** An odd number has an inverse modulo every power of 2. */
  lemma {:induction false} OddInverse(m: nat, i: nat) returns (n: nat, a: nat)
    requires m % 2 == 1
    ensures n * m == a * Pow2(i) + 1
  {
    if i == 0 {
      n, a := 1, m - 1;
    } else {
      n, a := OddInverse(m, i - 1);
      var w := Pow2(i - 1);
      if a % 2 == 0 {
        a := a / 2;
      } else {
        assert (n + w) * m == n * m + w * m;
        TwoHalves(a + m, w);
        assert a * w + w * m == (a + m) * w;
        n, a := n + w, (a + m) / 2;
      }
    }
  }

  lemma TwoHalves(a: nat, w: nat)
    requires a % 2 == 0
    ensures a * w == a / 2 * (2 * w)
  {
  }

  lemma MultipleOf(r: int, g: nat, b: int)
    requires g > 0 && r == g * b
    ensures r % g == 0
  {
    DivisionUnique(r, g, b, 0);
  }

  lemma OffsetsAreMultiples(step: uint32, k: nat)
    ensures Offset(step, k) % Stride(step) == 0
  {
    var w := StrideDivides(step);
    if step > 0 {
      var g := Stride(step);
      var m := OddPart(step);
      var b := k * step / U32;
      assert Offset(step, k) == k * step - b * U32;
      CommonStride(g, m, w, k, b);
      MultipleOf(Offset(step, k), g, k * m - b * w);
    } else {
      assert k * 0 == 0;
    }
  }

  lemma CommonStride(g: nat, m: nat, w: nat, k: nat, b: nat)
    ensures k * (g * m) - b * (g * w) == g * (k * m - b * w)
  {
    assert k * (g * m) == g * (k * m) && b * (g * w) == g * (b * w);
  }

  lemma MultiplesAreOffsets(step: uint32, o: uint32) returns (k: nat)
    requires o % Stride(step) == 0
    ensures Offset(step, k) == o
  {
    var w := StrideDivides(step);
    if o == 0 {
      k := 0;
    } else {
      assert step > 0;
      var g, j := Stride(step), o / Stride(step);
      var m := OddPart(step);
      var i: nat :| w == Pow2(i);
      assert o == g * j;
      var n, a := OddInverse(m, i);
      k := n * j;
      StridesTimes(n, j, g, m, a, w);
      DivisionUnique(k * step, U32, j * a, o);
    }
  }

  lemma StridesTimes(n: nat, j: nat, g: nat, m: nat, a: nat, w: nat)
    requires n * m == a * w + 1
    ensures n * j * (g * m) == j * a * (g * w) + g * j
  {
    var p := g * j;
    assert n * j * (g * m) == p * (n * m);
    assert p * (a * w + 1) == p * (a * w) + p;
    assert p * (a * w) == j * a * (g * w);
  }

  lemma LastMultiple(step: uint32, o: uint32)
    requires o % Stride(step) == 0
    ensures o <= U32 - Stride(step) && (U32 - Stride(step)) % Stride(step) == 0 && U32 - Stride(step) >= 0
  {
    var w := StrideDivides(step);
    var g, j := Stride(step), o / Stride(step);
    assert o == g * j && g * w == U32;
    if j >= w {
      StepsGrow(w, j, g);
      assert false;
    }
    StepsGrow(j, w - 1, g);
    assert g * (w - 1) == U32 - g;
    MultipleOf(U32 - g, g, w - 1);
  }

  // ----- Which scans end -----

  predicate ElfAtOffset(mem: Memory, start: uint32, o: uint32) {
    Parsed(ReaderAt(mem, (start + o) % U32)).Some?
  }

  /** There is no ELF header at any offset the scan goes through. */
  ghost predicate NoElfReached(mem: Memory, start: uint32, step: uint32) {
    forall o: uint32 :: o % Stride(step) == 0 ==> !ElfAtOffset(mem, start, o)
  }

  ghost predicate AllGoOn(mem: Memory, start: uint32, size: uint32, step: uint32) {
    forall k: nat :: GoesOn(mem, start, size, step, k)
  }

  lemma EndlessGoesOn(mem: Memory, start: uint32, size: uint32, step: uint32)
    ensures Scanned(mem, start, size, step, 0) == Endless <==> AllGoOn(mem, start, size, step)
  {
    hide Parsed;
    hide Offset;
    hide Scanned;
    ScanIsFirst(mem, start, size, step, 0);
    match Scanned(mem, start, size, step, 0)
    case ElfFound(n) => assert !GoesOn(mem, start, size, step, n);
    case NothingFound =>
      var n: nat :| Offset(step, n) >= size && GoesOnUpTo(mem, start, size, step, n);
      assert !GoesOn(mem, start, size, step, n);
    case Endless =>
  }

  lemma GoingOnMisses(mem: Memory, start: uint32, size: uint32, step: uint32)
    requires AllGoOn(mem, start, size, step)
    ensures size + Stride(step) > U32 && NoElfReached(mem, start, step)
  {
    hide Parsed;
    hide Offset;
    hide Stride;
    LastMultiple(step, 0);
    var k := MultiplesAreOffsets(step, U32 - Stride(step));
    assert GoesOn(mem, start, size, step, k);
    forall o: uint32 | o % Stride(step) == 0
      ensures !ElfAtOffset(mem, start, o)
    {
      var j := MultiplesAreOffsets(step, o);
      assert GoesOn(mem, start, size, step, j);
    }
  }

  lemma MissingGoesOn(mem: Memory, start: uint32, size: uint32, step: uint32)
    requires size + Stride(step) > U32 && NoElfReached(mem, start, step)
    ensures AllGoOn(mem, start, size, step)
  {
    hide Parsed;
    hide Offset;
    hide Stride;
    forall k: nat
      ensures GoesOn(mem, start, size, step, k)
    {
      OffsetsAreMultiples(step, k);
      LastMultiple(step, Offset(step, k));
      assert !ElfAtOffset(mem, start, Offset(step, k));
    }
  }

  /**
   * A scan never ends exactly when the last multiple of its stride below 2^32 is still below the size
   * and there is no ELF header at any of these multiples.
   */
  lemma EndlessExactly(mem: Memory, start: uint32, size: uint32, step: uint32)
    ensures Scanned(mem, start, size, step, 0) == Endless
            <==> size + Stride(step) > U32 && NoElfReached(mem, start, step)
  {
    hide Scanned;
    hide Stride;
    hide AllGoOn;
    hide NoElfReached;
    EndlessGoesOn(mem, start, size, step);
    if AllGoOn(mem, start, size, step) {
      GoingOnMisses(mem, start, size, step);
    }
    if size + Stride(step) > U32 && NoElfReached(mem, start, step) {
      MissingGoesOn(mem, start, size, step);
    }
  }

  /** Memory that holds nothing but zeros. */
  function Blank(): Memory {
    (_: uint32) => 0
  }

  lemma NoElfInBlank(start: uint32, o: uint32)
    ensures !ElfAtOffset(Blank(), start, o)
  {
    hide ParsedIdent;
    hide ParsedAddresses;
    hide ParsedSizes;
  }

  /** In blank memory a scan never ends exactly when its offsets do not reach the size. */
  lemma BlankScan(start: uint32, size: uint32, step: uint32)
    ensures Scanned(Blank(), start, size, step, 0)
            == if size + Stride(step) > U32 then Endless else NothingFound
  {
    hide Stride;
    hide ElfAtOffset;
    EndlessExactly(Blank(), start, size, step);
    forall o: uint32
      ensures !ElfAtOffset(Blank(), start, o)
    {
      NoElfInBlank(start, o);
    }
    ScanIsFirst(Blank(), start, size, step, 0);
    BlankFindsNothing(start, size, step);
  }

  lemma BlankFindsNothing(start: uint32, size: uint32, step: uint32)
    ensures !Scanned(Blank(), start, size, step, 0).ElfFound?
  {
    ScanIsFirst(Blank(), start, size, step, 0);
    var r := Scanned(Blank(), start, size, step, 0);
    hide Parsed;
    if r.ElfFound? {
      NoElfInBlank(start, Offset(step, r.k));
    }
  }

  /** A scan ends on every memory exactly when its offsets reach the size; without a step, when the size is zero. */
  lemma EndsOnEveryMemory(start: uint32, size: uint32, step: uint32)
    ensures (forall mem: Memory :: Scanned(mem, start, size, step, 0) != Endless) <==> size + Stride(step) <= U32
  {
    hide Stride;
    hide Scanned;
    BlankScan(start, size, step);
    if size + Stride(step) <= U32 {
      forall mem: Memory
        ensures Scanned(mem, start, size, step, 0) != Endless
      {
        EndlessExactly(mem, start, size, step);
      }
    }
  }

  const DEFAULT_SIZE: uint32 := 0x40000
  const DEFAULT_STEP: uint32 := 0x1000

  /** The default configuration ends, as every scan does whose size and step do not overflow together. */
  lemma DefaultEnds(mem: Memory, start: uint32)
    ensures Scanned(mem, start, DEFAULT_SIZE, DEFAULT_STEP, 0) != Endless
  {
    hide Scanned;
    ScanWithoutWrap(mem, start, DEFAULT_SIZE, DEFAULT_STEP);
  }
}
