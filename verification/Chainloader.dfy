/**
 * The service that finds an ELF image in memory, checks its Ed25519 signature and starts it, over a
 * 32-bit address space in which every address can be read.
 */
module Chainloader {
  import opened Bytes
  import opened TinyElf
  import opened ElfImages

  type Memory = uint32 -> byte

  /** BLAKE2s with a 32-byte digest, and the check of a signature of a message with a public key. */
  datatype Crypto = Crypto(blake2s: seq<byte> -> seq<byte>, verify: (seq<byte>, seq<byte>, seq<byte>) -> bool)

  /** ".sign.ed25519" */
  const SIGNATURE_NAME: seq<byte> := [0x2e, 0x73, 0x69, 0x67, 0x6e, 0x2e, 0x65, 0x64, 0x32, 0x35, 0x35, 0x31, 0x39]

  const SIGNATURE_SIZE := 64
  const NULL: uint32 := 0

  /** What parsing leaves in a fresh header when there is no ELF magic. */
  const NOT_ELF := NO_HEADER.(data := DATA_BIG)

  function ReaderAt(mem: Memory, base: uint32): Reader {
    (pos: uint32) => Some(mem((base + pos) % U32))
  }

  function NoReader(): Reader {
    (pos: uint32) => None
  }

  function Slice(mem: Memory, addr: uint32, n: nat): (s: seq<byte>)
    ensures |s| == n
  {
    seq(n, i requires 0 <= i < n => mem((addr + i) % U32))
  }

  /** A word in the byte order of the processor. */
  function Word(mem: Memory, addr: uint32): uint32 {
    Load32(ReaderAt(mem, addr), 1, 0)
  }

  // ----- Finding an image -----

  /** The 32-bit offset of a scan after k steps. */
  function Offset(step: uint32, k: nat): uint32 {
    k * step % U32
  }

  predicate ElfAt(mem: Memory, start: uint32, step: uint32, k: nat) {
    Parsed(ReaderAt(mem, (start + Offset(step, k)) % U32)).Some?
  }

  /** The number of steps to the image; a scan without end goes through the same offsets again. */
  datatype Scan = ElfFound(k: nat) | NothingFound | Endless

  /** The scan from the k-th offset on: it ends at an ELF header or at an offset past the size. */
  function Scanned(mem: Memory, start: uint32, size: uint32, step: uint32, k: nat): Scan
    decreases U32 - k, step
  {
    if k >= U32 then Endless
    else if Offset(step, k) >= size then NothingFound
    else if ElfAt(mem, start, step, k) then ElfFound(k)
    else Scanned(mem, start, size, step, k + 1)
  }

  // ----- What is hashed and checked -----

  /** The size that the header gives an image whose section table comes last, in 32 bits. */
  function ImageSize(h: Header): uint32 {
    (h.shoff + h.shentsize * h.shnum) % U32
  }

  function HashInput(mem: Memory, base: uint32, h: Header, offset: uint32, size: uint32): seq<byte> {
    Slice(mem, base, offset) + Zeros(64)
    + Slice(mem, (base + offset + size) % U32, (ImageSize(h) - offset - size) % U32)
  }

  predicate Signed(mem: Memory, crypto: Crypto, base: uint32, h: Header, key: seq<byte>) {
    match FindFrom(ReaderAt(mem, base), h, SIGNATURE_NAME, 0)
    case None => false
    case Some(s) =>
      crypto.verify(Slice(mem, (base + s.offset) % U32, SIGNATURE_SIZE), key,
                    crypto.blake2s(HashInput(mem, base, h, s.offset, s.size)))
  }

  // ----- Where to start -----

  predicate StartsAt(mem: Memory, base: uint32, h: Header, i: uint32) {
    Word(mem, (SegmentAt(ReaderAt(mem, base), h, i, 0).paddr + 4) % U32) == h.entry
  }

  /** The address of the last segment among the first n whose second word is the entry point. */
  function VectorTable(mem: Memory, base: uint32, h: Header, n: uint32): Option<uint32> {
    if n == 0 then None
    else if StartsAt(mem, base, h, n - 1) then Some(SegmentAt(ReaderAt(mem, base), h, n - 1, 0).paddr)
    else VectorTable(mem, base, h, n - 1)
  }

  lemma {:induction false} VectorTableIsLast(mem: Memory, base: uint32, h: Header, n: uint32)
    ensures match VectorTable(mem, base, h, n)
            case Some(a) =>
              (exists i: uint32 ::
                 && i < n && StartsAt(mem, base, h, i) && a == SegmentAt(ReaderAt(mem, base), h, i, 0).paddr
                 && (forall j: uint32 :: i < j < n ==> !StartsAt(mem, base, h, j)))
            case None => (forall i: uint32 :: i < n ==> !StartsAt(mem, base, h, i))
  {
    hide SegmentAt;
    hide StartsAt;
    if n == 0 {
    } else if !StartsAt(mem, base, h, n - 1) {
      VectorTableIsLast(mem, base, h, n - 1);
    }
  }

  lemma StaleFlags(read: Reader, h: Header, i: uint32, a: uint32, b: uint32)
    ensures SegmentAt(read, h, i, a).paddr == SegmentAt(read, h, i, b).paddr
  {
  }

  datatype BootResult = BootFailed | Jumped(entry: uint32, stack: uint32, vectors: uint32)

  /** What booting does with an image: nothing without one, or without a vector table. */
  function Booted(mem: Memory, base: uint32, h: Header): BootResult {
    if base == NULL then BootFailed
    else match VectorTable(mem, base, h, h.phnum)
      case None => BootFailed
      case Some(a) => Jumped(h.entry, Word(mem, a), a)
  }

  // ----- The service -----

  class ChainLoader {
    const mem: Memory
    const crypto: Crypto
    const elf: Elf
    var membuf: uint32
    var memsize: uint32
    var vectorTable: uint32

    constructor (mem: Memory, crypto: Crypto)
      ensures this.mem == mem && this.crypto == crypto && fresh(elf)
      ensures membuf == NULL && memsize == 0 && vectorTable == 0 && elf.header == NO_HEADER
    {
      this.mem := mem;
      this.crypto := crypto;
      membuf := NULL;
      memsize := 0;
      vectorTable := 0;
      elf := new Elf(NoReader());
    }

    /** The reader reads relative to where the image is. */
    ghost predicate Loaded()
      reads this, elf
    {
      elf.read == ReaderAt(mem, membuf)
    }

    method Init()
      modifies this, elf
      ensures membuf == NULL && memsize == 0 && vectorTable == 0 && elf.header == NO_HEADER
    {
      membuf := NULL;
      memsize := 0;
      vectorTable := 0;
      elf.Init(NoReader());
    }

    method SetElf(buf: uint32, size: uint32) returns (ok: bool)
      modifies this`membuf, this`memsize, elf
      ensures Loaded()
      ensures match Parsed(ReaderAt(mem, buf))
              case Some(h) => ok && membuf == buf && memsize == size && elf.header == h
              case None => !ok && membuf == NULL && memsize == 0 && elf.header == NOT_ELF
    {
      hide Parsed;
      membuf := buf;
      memsize := size;
      elf.Init(ReaderAt(mem, membuf));
      ok := elf.Parse();
      if !ok {
        membuf := NULL;
        memsize := 0;
        elf.read := ReaderAt(mem, membuf);
      }
    }

    /** The scan, with offsets that wrap around; one without end never returns. */
    method FindElf(start: uint32, size: uint32, step: uint32) returns (ok: bool)
      requires Scanned(mem, start, size, step, 0) != Endless
      modifies this`membuf, this`memsize, elf
      ensures match Scanned(mem, start, size, step, 0)
              case ElfFound(k) =>
                && ok && Loaded() && membuf == (start + Offset(step, k)) % U32 && memsize == size - Offset(step, k)
                && Parsed(ReaderAt(mem, membuf)) == Some(elf.header)
              case _ =>
                && !ok && membuf == (if size == 0 then old(membuf) else NULL)
                && elf.header == (if size == 0 then old(elf.header) else NOT_ELF)
    {
      hide Parsed;
      hide Offset;
      var offset: uint32 := 0;
      ghost var k: nat := 0;
      OffsetStep(step, 0);
      while offset < size
        invariant offset == Offset(step, k) && (size == 0 ==> k == 0) && k <= U32
        invariant Scanned(mem, start, size, step, 0) == Scanned(mem, start, size, step, k)
        invariant membuf == (if k == 0 then old(membuf) else NULL)
        invariant elf.header == (if k == 0 then old(elf.header) else NOT_ELF)
        decreases U32 - k
      {
        ok := SetElf((start + offset) % U32, size - offset);
        if ok {
          return;
        }
        OffsetStep(step, k);
        offset := (offset + step) % U32;
        k := k + 1;
      }
      ok := false;
    }

    method FindSignature() returns (ok: bool, addr: uint32, size: uint32)
      modifies elf`cursor
      ensures match FindFrom(elf.read, elf.header, SIGNATURE_NAME, 0)
              case None => !ok
              case Some(s) => ok && addr == (membuf + s.offset) % U32 && size == s.size
    {
      hide FindFrom;
      addr, size := 0, 0;
      var s: Section;
      ok, s := elf.FindByName(SIGNATURE_NAME);
      if ok {
        addr := (membuf + s.offset) % U32;
        size := s.size;
      }
    }

    /** The digest of the image with the excluded range replaced by 64 zeros. */
    method ElfB2s(exclude: uint32, excludeSize: uint32) returns (digest: seq<byte>)
      ensures digest == crypto.blake2s(HashInput(mem, membuf, elf.header, (exclude - membuf) % U32, excludeSize))
    {
      hide Slice;
      hide Zeros;
      var elfSize := (elf.header.shoff + elf.header.shentsize * elf.header.shnum) % U32;
      var state := Slice(mem, membuf, (exclude - membuf) % U32);
      state := state + Zeros(32);
      state := state + Zeros(32);
      AddressesAgree(membuf, exclude, excludeSize);
      SizesAgree(elfSize, exclude - membuf, excludeSize);
      state := state + Slice(mem, (exclude + excludeSize) % U32, (elfSize - (exclude - membuf) - excludeSize) % U32);
      TwoBlocks(Slice(mem, membuf, (exclude - membuf) % U32));
      digest := crypto.blake2s(state);
    }

    method CheckSignature(key: seq<byte>) returns (ok: bool)
      requires Loaded()
      modifies elf`cursor
      ensures ok == Signed(mem, crypto, membuf, elf.header, key)
    {
      hide FindFrom;
      hide HashInput;
      var found, addr, size := FindSignature();
      if !found {
        return false;
      }
      var digest := ElfB2s(addr, size);
      ghost var s := FindFrom(elf.read, elf.header, SIGNATURE_NAME, 0).value;
      OffsetOf(membuf, s.offset);
      ok := crypto.verify(Slice(mem, addr, SIGNATURE_SIZE), key, digest);
    }

    /** The last match of the scan stays. */
    method FindVectorTable() returns (ok: bool)
      requires Loaded()
      modifies this`vectorTable, elf`cursor
      ensures match VectorTable(mem, membuf, elf.header, elf.header.phnum)
              case None => !ok && vectorTable == old(vectorTable)
              case Some(a) => ok && vectorTable == a
    {
      hide SegmentAt;
      hide Load32;
      ok := false;
      var i: uint32 := 0;
      var got, s := elf.PhdrGet(i, NO_SEGMENT);
      while got
        invariant i <= elf.header.phnum && (got <==> i < elf.header.phnum)
        invariant got ==> exists f: uint32 :: s == SegmentAt(elf.read, elf.header, i, f)
        invariant match VectorTable(mem, membuf, elf.header, i)
                  case None => !ok && vectorTable == old(vectorTable)
                  case Some(a) => ok && vectorTable == a
        decreases elf.header.phnum - i
      {
        ghost var f: uint32 :| s == SegmentAt(elf.read, elf.header, i, f);
        StaleFlags(elf.read, elf.header, i, f, 0);
        if elf.header.entry == Word(mem, (s.paddr + 4) % U32) {
          vectorTable := s.paddr;
          ok := true;
        }
        i := i + 1;
        got, s := elf.PhdrGet(i, s);
      }
    }

    method Boot() returns (r: BootResult)
      requires Loaded()
      modifies this`vectorTable, elf`cursor
      ensures r == Booted(mem, membuf, elf.header)
    {
      hide VectorTable;
      hide Load32;
      if membuf == NULL {
        return BootFailed;
      }
      var ok := FindVectorTable();
      if !ok {
        return BootFailed;
      }
      r := Jumped(elf.header.entry, Word(mem, vectorTable), vectorTable);
    }
  }

  lemma TwoBlocks(s: seq<byte>)
    ensures s + Zeros(32) + Zeros(32) == s + Zeros(64)
  {
  }

  lemma OffsetOf(base: uint32, offset: uint32)
    ensures ((base + offset) % U32 - base) % U32 == offset
  {
  }

  lemma AddressesAgree(base: uint32, addr: uint32, size: uint32)
    ensures (base + (addr - base) % U32 + size) % U32 == (addr + size) % U32
  {
  }

  lemma SizesAgree(n: uint32, offset: int, size: uint32)
    requires -U32 < offset < U32
    ensures (n - offset % U32 - size) % U32 == (n - offset - size) % U32
  {
  }

  // ----- The scan -----

  lemma ResidueOf(a: int, b: int)
    ensures (a % U32 + b) % U32 == (a + b) % U32
  {
    assert a % U32 + b == a + b - U32 * (a / U32);
    MultipleAway(a + b, a / U32);
  }

  lemma OffsetStep(step: uint32, k: nat)
    ensures Offset(step, 0) == 0 && (Offset(step, k) + step) % U32 == Offset(step, k + 1)
  {
    ResidueOf(k * step, step);
    assert (k + 1) * step == k * step + step;
  }

  /** After 2^32 steps the offsets come again. */
  lemma OffsetsRepeat(step: uint32, k: nat)
    ensures Offset(step, k) == Offset(step, k % U32)
  {
    var j := k / U32;
    assert (k % U32) * step == k * step - U32 * (j * step) by {
      assert k % U32 == k - U32 * j;
      TimesDifference(k, U32 * j, step);
      assert U32 * j * step == U32 * (j * step);
    }
    MultipleAway(k * step, j * step);
  }

  lemma TimesDifference(a: int, b: int, c: int)
    ensures (a - b) * c == a * c - b * c
  {
  }

  /** The scan goes on past the k-th offset. */
  predicate GoesOn(mem: Memory, start: uint32, size: uint32, step: uint32, k: nat) {
    Offset(step, k) < size && !ElfAt(mem, start, step, k)
  }

  ghost predicate GoesOnUpTo(mem: Memory, start: uint32, size: uint32, step: uint32, n: nat) {
    forall j: nat :: j < n ==> GoesOn(mem, start, size, step, j)
  }

  /**
   * The scan finds the first offset with an ELF header, fails at the first offset past the size, and
   * never ends exactly when no offset at all is either.
   */
  lemma {:induction false} ScanIsFirst(mem: Memory, start: uint32, size: uint32, step: uint32, k: nat)
    requires GoesOnUpTo(mem, start, size, step, k)
    ensures match Scanned(mem, start, size, step, k)
            case ElfFound(n) =>
              Offset(step, n) < size && ElfAt(mem, start, step, n) && GoesOnUpTo(mem, start, size, step, n)
            case NothingFound =>
              (exists n: nat :: Offset(step, n) >= size && GoesOnUpTo(mem, start, size, step, n))
            case Endless => (forall j: nat :: GoesOn(mem, start, size, step, j))
    decreases U32 - k
  {
    hide Parsed;
    hide Offset;
    if k >= U32 {
      forall j: nat
        ensures GoesOn(mem, start, size, step, j)
      {
        OffsetsRepeat(step, j);
        assert GoesOn(mem, start, size, step, j % U32);
      }
    } else if GoesOn(mem, start, size, step, k) {
      ScanIsFirst(mem, start, size, step, k + 1);
    }
  }

  lemma OffsetIs(step: uint32, n: nat)
    requires n * step < U32
    ensures Offset(step, n) == n * step
  {
  }

  lemma StepsGrow(k: nat, j: nat, step: nat)
    ensures k <= j ==> k * step <= j * step
  {
  }

  /** How many steps reach the size. */
  lemma StepsToSize(size: uint32, step: uint32) returns (m: nat)
    requires step > 0 && size + step <= U32
    ensures size <= m * step < U32 && m < U32 && forall j: nat :: j < m ==> j * step < size
  {
    m := (size + step - 1) / step;
    var r := (size + step - 1) % step;
    assert size + step - 1 == m * step + r;
    StepsGrow(1, step, m);
    forall j: nat | j < m
      ensures j * step < size
    {
      StepsGrow(j, m - 1, step);
      assert (m - 1) * step == m * step - step;
    }
  }

  /**
   * A scan whose offset cannot wrap around ends; it finds the first image at a multiple of the step
   * below the size, and fails only if there is none.
   */
  lemma ScanWithoutWrap(mem: Memory, start: uint32, size: uint32, step: uint32)
    requires step > 0 && size + step <= U32
    ensures match Scanned(mem, start, size, step, 0)
            case ElfFound(n) =>
              n * step < size && ElfAt(mem, start, step, n) && (forall j: nat :: j < n ==> !ElfAt(mem, start, step, j))
            case NothingFound => (forall j: nat :: j * step < size ==> !ElfAt(mem, start, step, j))
            case Endless => false
  {
    hide Parsed;
    hide ElfAt;
    hide Offset;
    var m := StepsToSize(size, step);
    OffsetIs(step, m);
    ScanIsFirst(mem, start, size, step, 0);
    assert !GoesOn(mem, start, size, step, m);
    match Scanned(mem, start, size, step, 0)
    case Endless =>
    case ElfFound(n) =>
      assert n < m;
      forall j: nat | j < n
        ensures !ElfAt(mem, start, step, j)
      {
        assert GoesOn(mem, start, size, step, j);
      }
    case NothingFound =>
      var n: nat :| Offset(step, n) >= size && GoesOnUpTo(mem, start, size, step, n);
      forall j: nat | j * step < size
        ensures !ElfAt(mem, start, step, j)
      {
        OffsetIs(step, j);
        StepsGrow(n, j, step);
        if n <= j {
          OffsetIs(step, n);
        }
        assert GoesOn(mem, start, size, step, j);
      }
  }

  // ----- What the signature covers -----

  /** The file with the bytes of one section replaced by zeros: what the signing script hashes. */
  function Zeroed(f: seq<byte>, offset: nat, size: nat): (z: seq<byte>)
    requires offset + size <= |f|
    ensures |z| == |f|
  {
    f[..offset] + Zeros(size) + f[offset + size..]
  }

  ghost predicate FileAt(mem: Memory, base: uint32, f: seq<byte>) {
    |f| < U32 && Slice(mem, base, |f|) == f
  }

  lemma ByteOfFile(mem: Memory, base: uint32, f: seq<byte>, k: nat)
    requires FileAt(mem, base, f) && k < |f|
    ensures mem((base + k) % U32) == f[k]
  {
    assert Slice(mem, base, |f|)[k] == f[k];
  }

  lemma ByteOfSlice(mem: Memory, addr: uint32, n: nat, k: nat)
    requires k < n
    ensures Slice(mem, addr, n)[k] == mem((addr + k) % U32)
  {
  }

  lemma SliceOfFile(mem: Memory, base: uint32, f: seq<byte>, from: nat, n: nat)
    requires FileAt(mem, base, f) && from + n <= |f|
    ensures Slice(mem, (base + from) % U32, n) == f[from..from + n]
  {
    hide FileAt;
    hide Slice;
    var a, b := Slice(mem, (base + from) % U32, n), f[from..from + n];
    forall i | 0 <= i < n
      ensures a[i] == b[i]
    {
      ByteOfSlice(mem, (base + from) % U32, n, i);
      ByteOfFile(mem, base, f, from + i);
    }
  }

  lemma HashedParts(mem: Memory, base: uint32, h: Header, f: seq<byte>, offset: uint32, size: uint32)
    requires FileAt(mem, base, f) && |f| == h.shoff + h.shentsize * h.shnum && offset + size <= |f|
    ensures HashInput(mem, base, h, offset, size) == f[..offset] + Zeros(64) + f[offset + size..]
  {
    SlicedParts(mem, base, h, f, offset, size);
    hide HashInput;
    hide Slice;
    hide Zeros;
    SliceOfFile(mem, base, f, 0, offset);
    SliceOfFile(mem, base, f, offset + size, |f| - offset - size);
  }

  /**
   * For a section within an image that ends with its section table, what the check hashes is the
   * file with the section zeroed exactly when the section has 64 bytes.
   */
  lemma Coverage(mem: Memory, base: uint32, h: Header, f: seq<byte>, offset: uint32, size: uint32)
    requires FileAt(mem, base, f) && |f| == h.shoff + h.shentsize * h.shnum && offset + size <= |f|
    ensures HashInput(mem, base, h, offset, size) == Zeroed(f, offset, size) <==> size == SIGNATURE_SIZE
  {
    HashedParts(mem, base, h, f, offset, size);
    hide HashInput;
    assert |f[..offset] + Zeros(64) + f[offset + size..]| == |f| - size + 64;
  }

  lemma SlicedParts(mem: Memory, base: uint32, h: Header, f: seq<byte>, offset: uint32, size: uint32)
    requires |f| < U32 && |f| == h.shoff + h.shentsize * h.shnum && offset + size <= |f|
    ensures HashInput(mem, base, h, offset, size)
            == Slice(mem, base, offset) + Zeros(64) + Slice(mem, (base + (offset + size)) % U32, |f| - offset - size)
  {
    hide Slice;
    hide Zeros;
    SizeIs(h, |f|, offset, size);
    hide ImageSize;
    assert base + offset + size == base + (offset + size);
  }

  lemma SizeIs(h: Header, n: nat, offset: uint32, size: uint32)
    requires n < U32 && n == h.shoff + h.shentsize * h.shnum && offset + size <= n
    ensures (ImageSize(h) - offset - size) % U32 == n - offset - size
  {
  }

  /** For a 64-byte section, the whole file is covered exactly when the section table ends it. */
  lemma CoverageOfFile(mem: Memory, base: uint32, h: Header, f: seq<byte>, offset: uint32)
    requires FileAt(mem, base, f) && h.shoff + h.shentsize * h.shnum < U32
    requires offset + SIGNATURE_SIZE <= h.shoff + h.shentsize * h.shnum && offset + SIGNATURE_SIZE <= |f|
    ensures HashInput(mem, base, h, offset, SIGNATURE_SIZE) == Zeroed(f, offset, SIGNATURE_SIZE)
            <==> |f| == h.shoff + h.shentsize * h.shnum
  {
    if |f| == h.shoff + h.shentsize * h.shnum {
      Coverage(mem, base, h, f, offset, SIGNATURE_SIZE);
    }
    assert |HashInput(mem, base, h, offset, SIGNATURE_SIZE)| == h.shoff + h.shentsize * h.shnum;
  }

  /**
   * The check of a well-formed image with a 64-byte signature section that ends with its section
   * table is the verification of that section's bytes against the image as the signing script
   * hashes it.
   */
  lemma CheckedAsSigned(mem: Memory, crypto: Crypto, base: uint32, h: Header, f: seq<byte>,
                        sections: seq<Section>, names: seq<seq<byte>>, i: nat, key: seq<byte>)
    requires FileAt(mem, base, f) && |f| == h.shoff + h.shentsize * h.shnum
    requires IsImage(ReaderAt(mem, base), h, sections, names) && FirstIndex(names, SIGNATURE_NAME, i)
    requires sections[i].size == SIGNATURE_SIZE && sections[i].offset + SIGNATURE_SIZE <= |f|
    ensures Parsed(ReaderAt(mem, base)) == Some(h)
    ensures var s := sections[i];
            Signed(mem, crypto, base, h, key)
            <==> crypto.verify(f[s.offset..s.offset + SIGNATURE_SIZE], key,
                               crypto.blake2s(Zeroed(f, s.offset, SIGNATURE_SIZE)))
  {
    var read := ReaderAt(mem, base);
    ImageRecovered(read, h, sections, names);
    FindFirst(read, h, sections, names, SIGNATURE_NAME, i);
    hide IsImage;
    hide Parsed;
    SignedBySection(mem, crypto, base, h, f, sections[i], key);
  }

  lemma SignedBySection(mem: Memory, crypto: Crypto, base: uint32, h: Header, f: seq<byte>, s: Section, key: seq<byte>)
    requires FileAt(mem, base, f) && |f| == h.shoff + h.shentsize * h.shnum
    requires s.size == SIGNATURE_SIZE && s.offset + SIGNATURE_SIZE <= |f|
    requires FindFrom(ReaderAt(mem, base), h, SIGNATURE_NAME, 0) == Some(s)
    ensures Signed(mem, crypto, base, h, key)
            <==> crypto.verify(f[s.offset..s.offset + SIGNATURE_SIZE], key,
                               crypto.blake2s(Zeroed(f, s.offset, SIGNATURE_SIZE)))
  {
    hide FindFrom;
    hide HashInput;
    hide Zeroed;
    hide Slice;
    Coverage(mem, base, h, f, s.offset, SIGNATURE_SIZE);
    SliceOfFile(mem, base, f, s.offset, SIGNATURE_SIZE);
  }
}
