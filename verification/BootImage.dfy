/**
 * What the bootloader starts, said in bytes of memory: where the first image is, what its signature is checked
 * against, and with which entry point, stack pointer and vector table it runs.
 */
module BootImage {
  import opened Bytes
  import opened TinyElf
  import opened ElfImages
  import opened Chainloader
  import opened Bootloader

  /** The four bytes of a number, least significant first, from an address on. */
  predicate LittleAt(mem: Memory, addr: uint32, v: uint32) {
    && mem(addr) == v % 0x100 && mem((addr + 1) % U32) == v / 0x100 % 0x100
    && mem((addr + 2) % U32) == v / 0x1_0000 % 0x100 && mem((addr + 3) % U32) == v / 0x100_0000
  }

  lemma WordIsLittle(mem: Memory, addr: uint32, v: uint32)
    ensures Word(mem, addr) == v <==> LittleAt(mem, addr, v)
  {
    var read := ReaderAt(mem, addr);
    var b0, b1, b2, b3 := mem(addr), mem((addr + 1) % U32), mem((addr + 2) % U32), mem((addr + 3) % U32);
    assert Byte(read, 0) == b0 && Byte(read, 1) == b1 && Byte(read, 2) == b2 && Byte(read, 3) == b3;
    assert Load32(read, 1, 0) == Number32(1, b0, b1, b2, b3);
    Word32Exact(b3, b2, b1, b0, v);
  }

  /** 0x7f, "E", "L", "F" from an address on. */
  predicate MagicAt(mem: Memory, addr: uint32) {
    && mem(addr) == 0x7f && mem((addr + 1) % U32) == 0x45
    && mem((addr + 2) % U32) == 0x4c && mem((addr + 3) % U32) == 0x46
  }

  lemma ElfIsMagic(mem: Memory, addr: uint32)
    ensures Parsed(ReaderAt(mem, addr)).Some? <==> MagicAt(mem, addr)
  {
    hide ParsedIdent;
    hide ParsedAddresses;
    hide ParsedSizes;
    var read := ReaderAt(mem, addr);
    var b0, b1, b2, b3 := mem(addr), mem((addr + 1) % U32), mem((addr + 2) % U32), mem((addr + 3) % U32);
    assert Byte(read, 0) == b0 && Byte(read, 1) == b1 && Byte(read, 2) == b2 && Byte(read, 3) == b3;
    assert Load32(read, DATA_BIG, 0) == Number32(DATA_BIG, b0, b1, b2, b3);
    Word32Exact(b0, b1, b2, b3, MAGIC);
    var bytes := BigEndian32(MAGIC);
    assert bytes == [0x7f, 0x45, 0x4c, 0x46];
    assert [b0, b1, b2, b3] == bytes <==> b0 == 0x7f && b1 == 0x45 && b2 == 0x4c && b3 == 0x46;
  }

  // ----- The first image -----

  function Address(g: Config, k: nat): uint32 {
    (g.start + k * g.step) % U32
  }

  /** After k steps the scan is at the first image: it was within the size all the time and at no image before. */
  ghost predicate FirstImageAt(g: Config, mem: Memory, k: nat) {
    && MagicAt(mem, Address(g, k))
    && (forall j: nat :: j <= k ==> j * g.step % U32 < g.size)
    && (forall j: nat :: j < k ==> !MagicAt(mem, Address(g, j)))
  }

  lemma AddressOf(g: Config, k: nat)
    ensures ImageAddress(g, k) == Address(g, k)
  {
    ResidueOf(k * g.step, g.start);
  }

  lemma ElfAtIsMagic(g: Config, mem: Memory, k: nat)
    ensures ElfAt(mem, g.start, g.step, k) <==> MagicAt(mem, Address(g, k))
  {
    hide Parsed;
    hide MagicAt;
    AddressOf(g, k);
    ElfIsMagic(mem, Address(g, k));
  }

  lemma FoundFirst(g: Config, mem: Memory, k: nat)
    ensures Found(g, mem) == ElfFound(k) <==> FirstImageAt(g, mem, k)
  {
    hide Parsed;
    hide Scanned;
    hide MagicAt;
    hide Address;
    hide ElfAt;
    ScanIsFirst(mem, g.start, g.size, g.step, 0);
    forall j: nat
      ensures GoesOn(mem, g.start, g.size, g.step, j) <==> j * g.step % U32 < g.size && !MagicAt(mem, Address(g, j))
    {
      ElfAtIsMagic(g, mem, j);
    }
    if FirstImageAt(g, mem, k) {
      FirstIsFound(g, mem, k);
    }
    match Found(g, mem)
    case ElfFound(n) =>
      ElfAtIsMagic(g, mem, n);
      FirstWithin(g, mem, n);
    case _ =>
  }

  lemma FirstWithin(g: Config, mem: Memory, n: nat)
    requires GoesOnUpTo(mem, g.start, g.size, g.step, n) && n * g.step % U32 < g.size
    ensures forall j: nat :: j <= n ==> j * g.step % U32 < g.size
  {
    hide ElfAt;
    forall j: nat | j <= n
      ensures j * g.step % U32 < g.size
    {
      if j < n {
        assert GoesOn(mem, g.start, g.size, g.step, j);
      }
    }
  }

  lemma FirstIsFound(g: Config, mem: Memory, k: nat)
    requires FirstImageAt(g, mem, k)
    ensures Found(g, mem) == ElfFound(k)
  {
    hide Parsed;
    hide Scanned;
    hide MagicAt;
    hide Address;
    hide ElfAt;
    ScanIsFirst(mem, g.start, g.size, g.step, 0);
    ElfAtIsMagic(g, mem, k);
    assert !GoesOn(mem, g.start, g.size, g.step, k);
    if Found(g, mem).ElfFound? {
      ElfAtIsMagic(g, mem, Found(g, mem).k);
    }
  }

  // ----- The vector table -----

  /** Where a program header says that its segment is. */
  function SegmentAddress(mem: Memory, base: uint32, h: Header, i: uint32): uint32 {
    SegmentAt(ReaderAt(mem, base), h, i, 0).paddr
  }

  /** The second word of the segment is the entry point, and no later segment starts like that. */
  ghost predicate LastStart(mem: Memory, base: uint32, h: Header, i: uint32) {
    && i < h.phnum
    && LittleAt(mem, (SegmentAddress(mem, base, h, i) + 4) % U32, h.entry)
    && forall j: uint32 :: i < j < h.phnum ==>
         !LittleAt(mem, (SegmentAddress(mem, base, h, j) + 4) % U32, h.entry)
  }

  /** Booting jumps to the entry point, with the first word of the last such segment for its stack, or fails. */
  ghost predicate RunsWith(mem: Memory, base: uint32, h: Header, entry: uint32, stack: uint32, vectors: uint32) {
    && base != 0 && entry == h.entry && LittleAt(mem, vectors, stack)
    && exists i: uint32 :: LastStart(mem, base, h, i) && vectors == SegmentAddress(mem, base, h, i)
  }

  lemma StartIsLittle(mem: Memory, base: uint32, h: Header, i: uint32)
    ensures StartsAt(mem, base, h, i) <==> LittleAt(mem, (SegmentAddress(mem, base, h, i) + 4) % U32, h.entry)
  {
    hide SegmentAt;
    hide LittleAt;
    hide Word;
    WordIsLittle(mem, (SegmentAddress(mem, base, h, i) + 4) % U32, h.entry);
  }

  lemma LastIsUnique(mem: Memory, base: uint32, h: Header, i: uint32, j: uint32)
    requires LastStart(mem, base, h, i) && LastStart(mem, base, h, j)
    ensures i == j
  {
    hide LittleAt;
    hide SegmentAddress;
  }

  lemma VectorTableExactly(mem: Memory, base: uint32, h: Header, a: uint32)
    ensures VectorTable(mem, base, h, h.phnum) == Some(a)
            <==> exists i: uint32 :: LastStart(mem, base, h, i) && a == SegmentAddress(mem, base, h, i)
  {
    hide LittleAt;
    hide SegmentAt;
    hide StartsAt;
    hide VectorTable;
    VectorTableIsLast(mem, base, h, h.phnum);
    forall i: uint32
      ensures StartsAt(mem, base, h, i) <==> LittleAt(mem, (SegmentAddress(mem, base, h, i) + 4) % U32, h.entry)
    {
      StartIsLittle(mem, base, h, i);
    }
    match VectorTable(mem, base, h, h.phnum)
    case None =>
    case Some(v) =>
      var i: uint32 :| && i < h.phnum && StartsAt(mem, base, h, i) && v == SegmentAddress(mem, base, h, i)
                       && forall j: uint32 :: i < j < h.phnum ==> !StartsAt(mem, base, h, j);
      assert LastStart(mem, base, h, i);
      forall j: uint32 | LastStart(mem, base, h, j)
        ensures j == i
      {
        LastIsUnique(mem, base, h, i, j);
      }
  }

  lemma BootedExactly(mem: Memory, base: uint32, h: Header, entry: uint32, stack: uint32, vectors: uint32)
    ensures Booted(mem, base, h) == Jumped(entry, stack, vectors) <==> RunsWith(mem, base, h, entry, stack, vectors)
  {
    hide LittleAt;
    hide LastStart;
    hide SegmentAddress;
    hide VectorTable;
    hide Word;
    VectorTableExactly(mem, base, h, vectors);
    WordIsLittle(mem, vectors, stack);
  }

  // ----- What runs -----

  /**
   * From the fourth step on, an application runs exactly when the first image in memory carries a signature that the
   * key accepts, and then with the entry point, stack pointer and vector table that the bytes of memory give.
   */
  lemma ApplicationExactly(g: Config, mem: Memory, crypto: Crypto, n: nat, entry: uint32, stack: uint32,
                           vectors: uint32)
    requires n > 3
    ensures After(g, mem, crypto, n) == Application(entry, stack, vectors)
            <==> exists k: nat ::
                   && FirstImageAt(g, mem, k) && |g.key| == 32
                   && var base := Address(g, k);
                      && Signed(mem, crypto, base, HeaderAt(mem, base), g.key)
                      && RunsWith(mem, base, HeaderAt(mem, base), entry, stack, vectors)
  {
    hide Parsed;
    hide Signed;
    hide Booted;
    hide Scanned;
    hide HeaderAt;
    hide Address;
    hide FirstImageAt;
    hide RunsWith;
    hide After;
    OnlyVerifiedBoots(g, mem, crypto, n);
    BootsExactlyWhenAccepted(g, mem, crypto, n);
    forall k: nat
      ensures Found(g, mem) == ElfFound(k) <==> FirstImageAt(g, mem, k)
      ensures ImageAddress(g, k) == Address(g, k)
      ensures var base := Address(g, k);
              Booted(mem, base, HeaderAt(mem, base)) == Jumped(entry, stack, vectors)
              <==> RunsWith(mem, base, HeaderAt(mem, base), entry, stack, vectors)
    {
      FoundFirst(g, mem, k);
      AddressOf(g, k);
      BootedExactly(mem, Address(g, k), HeaderAt(mem, Address(g, k)), entry, stack, vectors);
    }
  }

  // ----- A signed file in memory -----

  ghost predicate HasSegment(read: Reader, h: Header, i: uint32, s: Segment) {
    && Readable(read, h.phoff + h.phentsize * i, SEGMENT_SIZE)
    && SegmentLayout(read, h, h.phoff + h.phentsize * i, s)
  }

  ghost predicate HasSegments(read: Reader, h: Header, segments: seq<Segment>) {
    |segments| == h.phnum && forall i: uint32 :: i < h.phnum ==> HasSegment(read, h, i, segments[i])
  }

  lemma SegmentAddresses(mem: Memory, base: uint32, h: Header, segments: seq<Segment>, i: uint32)
    requires h.cls == CLASS_ELF32 && HasSegments(ReaderAt(mem, base), h, segments) && i < h.phnum
    ensures SegmentAddress(mem, base, h, i) == segments[i].paddr
  {
    hide SegmentAt;
    hide SegmentLayout;
    hide Readable;
    var read := ReaderAt(mem, base);
    assert HasSegment(read, h, i, segments[i]);
    InRange(h.phoff + h.phentsize * i, SEGMENT_SIZE, read);
    SegmentExact(read, h, i, segments[i], 0);
  }

  /** The vector table of a file in memory: where its last segment is whose second word is the entry point. */
  ghost predicate VectorsOf(mem: Memory, h: Header, segments: seq<Segment>, vectors: uint32) {
    exists i :: && 0 <= i < |segments| && vectors == segments[i].paddr
                && LittleAt(mem, (segments[i].paddr + 4) % U32, h.entry)
                && forall j :: i < j < |segments| ==> !LittleAt(mem, (segments[j].paddr + 4) % U32, h.entry)
  }

  lemma VectorsOfFile(mem: Memory, base: uint32, h: Header, segments: seq<Segment>, vectors: uint32)
    requires h.cls == CLASS_ELF32 && HasSegments(ReaderAt(mem, base), h, segments)
    ensures (exists i: uint32 :: LastStart(mem, base, h, i) && vectors == SegmentAddress(mem, base, h, i))
            <==> VectorsOf(mem, h, segments, vectors)
  {
    hide LittleAt;
    hide SegmentAddress;
    hide HasSegment;
    assert |segments| == h.phnum;
    forall i: uint32 | i < h.phnum
      ensures SegmentAddress(mem, base, h, i) == segments[i].paddr
    {
      SegmentAddresses(mem, base, h, segments, i);
    }
    if VectorsOf(mem, h, segments, vectors) {
      var i :| && 0 <= i < |segments| && vectors == segments[i].paddr
               && LittleAt(mem, (segments[i].paddr + 4) % U32, h.entry)
               && forall j :: i < j < |segments| ==> !LittleAt(mem, (segments[j].paddr + 4) % U32, h.entry);
      assert LastStart(mem, base, h, i);
    }
  }

  /**
   * When the first image in memory is a file with a 64-byte signature section, it is started exactly if these bytes
   * are a signature of the digest of the file with them zeroed; with its own entry point, the stack pointer at
   * the start of its vector table, and the vector table found in its program headers.
   */
  lemma FileRunsExactly(g: Config, mem: Memory, crypto: Crypto, n: nat, k: nat, h: Header, f: seq<byte>,
                        sections: seq<Section>, names: seq<seq<byte>>, i: nat, segments: seq<Segment>,
                        entry: uint32, stack: uint32, vectors: uint32)
    requires n > 3 && FirstImageAt(g, mem, k)
    requires FileAt(mem, Address(g, k), f) && |f| == h.shoff + h.shentsize * h.shnum
    requires IsImage(ReaderAt(mem, Address(g, k)), h, sections, names) && FirstIndex(names, SIGNATURE_NAME, i)
    requires |sections| == |names| && sections[i].size == 64 && sections[i].offset + 64 <= |f|
    requires HasSegments(ReaderAt(mem, Address(g, k)), h, segments)
    ensures var o := sections[i].offset;
            After(g, mem, crypto, n) == Application(entry, stack, vectors)
            <==> && |g.key| == 32 && Address(g, k) != 0
                 && crypto.verify(f[o..o + 64], g.key, crypto.blake2s(f[..o] + Zeros(64) + f[o + 64..]))
                 && entry == h.entry && LittleAt(mem, vectors, stack) && VectorsOf(mem, h, segments, vectors)
  {
    var base := Address(g, k);
    ApplicationExactly(g, mem, crypto, n, entry, stack, vectors);
    assert h.cls == CLASS_ELF32;
    CheckedAsSigned(mem, crypto, base, h, f, sections, names, i, g.key);
    hide IsImage;
    hide HasSegments;
    hide Parsed;
    hide Signed;
    hide FileAt;
    hide FirstImageAt;
    hide After;
    hide LittleAt;
    hide LastStart;
    hide VectorsOf;
    hide Address;
    VectorsOfFile(mem, base, h, segments, vectors);
    assert HeaderAt(mem, base) == h;
    forall j: nat | FirstImageAt(g, mem, j)
      ensures j == k
    {
      FoundFirst(g, mem, j);
      FoundFirst(g, mem, k);
    }
  }
}
