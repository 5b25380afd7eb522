/**
 * What a signature binds: two images whose checks take the same digest are the same everywhere but in
 * their signature sections, or BLAKE2s collides.
 */
module SignedContent {
  import opened Bytes
  import opened TinyElf
  import opened ElfImages
  import opened Chainloader

  /** A file by itself: nothing can be read past its end. */
  function FileReader(f: seq<byte>): Reader {
    (pos: uint32) => if pos < |f| then Some(f[pos]) else None
  }

  ghost predicate SameBytes(read: Reader, read': Reader, pos: nat, n: nat) {
    forall p: uint32 :: pos <= p < pos + n && read(p).Some? ==> read'(p) == read(p)
  }

  /** Two ranges share no byte. */
  predicate Disjoint(a: nat, n: nat, b: nat, m: nat) {
    a + n <= b || b + m <= a
  }

  /**
   * The 64 bytes at an offset share no byte with the ELF header, a section header or the name of a
   * section, as TIS ELF Specification 1.2 requires of the sections of a file.
   */
  ghost predicate Apart(h: Header, sections: seq<Section>, names: seq<seq<byte>>, offset: nat) {
    && |sections| == |names| == h.shnum && h.shstrndx < h.shnum
    && Disjoint(0, HEADER_SIZE, offset, SIGNATURE_SIZE)
    && (forall i: uint32 :: i < h.shnum ==>
          Disjoint(h.shoff + h.shentsize * i, SECTION_SIZE, offset, SIGNATURE_SIZE))
    && (forall i: uint32 :: i < h.shnum ==>
          Disjoint(sections[h.shstrndx].offset + sections[i].name, |names[i]| + 1, offset, SIGNATURE_SIZE))
  }

  /** A signed image, complete in itself, whose section table comes last. */
  ghost predicate SignedImage(f: seq<byte>, h: Header, sections: seq<Section>, names: seq<seq<byte>>, i: nat) {
    && |f| < U32 && |f| == h.shoff + h.shentsize * h.shnum
    && IsImage(FileReader(f), h, sections, names) && FirstIndex(names, SIGNATURE_NAME, i)
    && sections[i].size == SIGNATURE_SIZE && sections[i].offset + SIGNATURE_SIZE <= |f|
    && Apart(h, sections, names, sections[i].offset)
  }

  // ----- The same layout in other bytes -----

  lemma HoldsElsewhere(read: Reader, read': Reader, pos: nat, bs: seq<byte>)
    requires Holds(read, pos, bs) && SameBytes(read, read', pos, |bs|)
    ensures Holds(read', pos, bs)
  {
    forall i | 0 <= i < |bs|
      ensures read'(pos + i) == Some(bs[i])
    {
      assert read(pos + i) == Some(bs[i]);
    }
  }

  lemma HoldsWithin(read: Reader, read': Reader, from: nat, n: nat, pos: nat, bs: seq<byte>)
    requires SameBytes(read, read', from, n) && from <= pos && pos + |bs| <= from + n && Holds(read, pos, bs)
    ensures Holds(read', pos, bs)
  {
    HoldsElsewhere(read, read', pos, bs);
  }

  lemma Encoded16Size(data: byte, v: uint16)
    ensures |Encoded16(data, v)| == 2
  {
  }

  lemma Holds16Within(read: Reader, read': Reader, h: Header, from: nat, n: nat, pos: nat, v: uint16)
    requires SameBytes(read, read', from, n) && from <= pos && pos + 2 <= from + n && Holds16(read, h, pos, v)
    ensures Holds16(read', h, pos, v)
  {
    Encoded16Size(h.data, v);
    HoldsWithin(read, read', from, n, pos, Encoded16(h.data, v));
  }

  lemma Holds32Within(read: Reader, read': Reader, h: Header, from: nat, n: nat, pos: nat, v: uint32)
    requires SameBytes(read, read', from, n) && from <= pos && pos + 4 <= from + n && Holds32(read, h, pos, v)
    ensures Holds32(read', h, pos, v)
  {
    EncodedSize(h.data, v);
    HoldsWithin(read, read', from, n, pos, Encoded32(h.data, v));
  }

  lemma HeaderElsewhere(read: Reader, read': Reader, h: Header)
    requires HeaderLayout(read, h) && SameBytes(read, read', 0, HEADER_SIZE)
    ensures HeaderLayout(read', h)
  {
    hide Holds;
    hide Holds16;
    hide Holds32;
    hide SameBytes;
    hide Encoded32;
    EncodedSize(DATA_BIG, MAGIC);
    HoldsWithin(read, read', 0, HEADER_SIZE, 0, Encoded32(DATA_BIG, MAGIC));
    HoldsWithin(read, read', 0, HEADER_SIZE, 4, [h.cls, h.data, h.version, h.osabi, h.abiversion]);
    Holds16Within(read, read', h, 0, HEADER_SIZE, 16, h.typ);
    Holds16Within(read, read', h, 0, HEADER_SIZE, 18, h.machine);
    Holds32Within(read, read', h, 0, HEADER_SIZE, 20, h.version2);
    Holds32Within(read, read', h, 0, HEADER_SIZE, 24, h.entry);
    Holds32Within(read, read', h, 0, HEADER_SIZE, 28, h.phoff);
    Holds32Within(read, read', h, 0, HEADER_SIZE, 32, h.shoff);
    Holds32Within(read, read', h, 0, HEADER_SIZE, 36, h.flags);
    Holds16Within(read, read', h, 0, HEADER_SIZE, 40, h.ehsize);
    Holds16Within(read, read', h, 0, HEADER_SIZE, 42, h.phentsize);
    Holds16Within(read, read', h, 0, HEADER_SIZE, 44, h.phnum);
    Holds16Within(read, read', h, 0, HEADER_SIZE, 46, h.shentsize);
    Holds16Within(read, read', h, 0, HEADER_SIZE, 48, h.shnum);
    Holds16Within(read, read', h, 0, HEADER_SIZE, 50, h.shstrndx);
  }

  lemma SectionElsewhere(read: Reader, read': Reader, h: Header, pos: nat, s: Section)
    requires SectionLayout(read, h, pos, s) && SameBytes(read, read', pos, SECTION_SIZE)
    ensures SectionLayout(read', h, pos, s)
  {
    hide Holds32;
    hide SameBytes;
    Holds32Within(read, read', h, pos, SECTION_SIZE, pos, s.name);
    Holds32Within(read, read', h, pos, SECTION_SIZE, pos + 4, s.typ);
    Holds32Within(read, read', h, pos, SECTION_SIZE, pos + 8, s.flags);
    Holds32Within(read, read', h, pos, SECTION_SIZE, pos + 12, s.addr);
    Holds32Within(read, read', h, pos, SECTION_SIZE, pos + 16, s.offset);
    Holds32Within(read, read', h, pos, SECTION_SIZE, pos + 20, s.size);
    Holds32Within(read, read', h, pos, SECTION_SIZE, pos + 24, s.link);
    Holds32Within(read, read', h, pos, SECTION_SIZE, pos + 28, s.info);
    Holds32Within(read, read', h, pos, SECTION_SIZE, pos + 32, s.align);
    Holds32Within(read, read', h, pos, SECTION_SIZE, pos + 36, s.entsize);
  }

  /** The bytes that make an image one, and that nothing else depends on, are the same. */
  ghost predicate SameFrame(read: Reader, read': Reader, h: Header, sections: seq<Section>, names: seq<seq<byte>>) {
    && |sections| == |names| == h.shnum && h.shstrndx < h.shnum
    && SameBytes(read, read', 0, HEADER_SIZE)
    && (forall i: uint32 :: i < h.shnum ==> SameBytes(read, read', h.shoff + h.shentsize * i, SECTION_SIZE))
    && (forall i: uint32 :: i < h.shnum ==>
          SameBytes(read, read', sections[h.shstrndx].offset + sections[i].name, |names[i]| + 1))
  }

  lemma ReadableElsewhere(read: Reader, read': Reader, pos: nat, n: nat)
    requires Readable(read, pos, n) && SameBytes(read, read', pos, n)
    ensures Readable(read', pos, n)
  {
  }

  lemma ImageElsewhere(read: Reader, read': Reader, h: Header, sections: seq<Section>, names: seq<seq<byte>>)
    requires IsImage(read, h, sections, names) && SameFrame(read, read', h, sections, names)
    ensures IsImage(read', h, sections, names)
  {
    hide HeaderLayout;
    hide SectionLayout;
    hide Readable;
    hide SameBytes;
    hide Holds;
    HeaderElsewhere(read, read', h);
    ReadableElsewhere(read, read', 0, HEADER_SIZE);
    forall i: uint32 | i < h.shnum
      ensures HasSection(read', h, i, sections[i])
    {
      assert HasSection(read, h, i, sections[i]);
      SectionElsewhere(read, read', h, h.shoff + h.shentsize * i, sections[i]);
      ReadableElsewhere(read, read', h.shoff + h.shentsize * i, SECTION_SIZE);
    }
    forall i: uint32 | i < h.shnum
      ensures HasName(read', sections[h.shstrndx], sections[i], names[i])
    {
      assert HasName(read, sections[h.shstrndx], sections[i], names[i]);
      HoldsElsewhere(read, read', sections[h.shstrndx].offset + sections[i].name, names[i] + [0]);
    }
  }

  // ----- An image in memory -----

  lemma FileInMemory(mem: Memory, base: uint32, f: seq<byte>, pos: nat, n: nat)
    requires FileAt(mem, base, f)
    ensures SameBytes(FileReader(f), ReaderAt(mem, base), pos, n)
  {
    forall p: uint32 | p < |f|
      ensures ReaderAt(mem, base)(p) == Some(f[p])
    {
      ByteOfFile(mem, base, f, p);
    }
  }

  /** A signed image is checked in memory as it was signed. */
  lemma SignedImageChecked(mem: Memory, crypto: Crypto, base: uint32, f: seq<byte>, h: Header,
                           sections: seq<Section>, names: seq<seq<byte>>, i: nat, key: seq<byte>)
    requires SignedImage(f, h, sections, names, i) && FileAt(mem, base, f)
    ensures Parsed(ReaderAt(mem, base)) == Some(h)
    ensures var s := sections[i];
            Signed(mem, crypto, base, h, key)
            <==> crypto.verify(f[s.offset..s.offset + SIGNATURE_SIZE], key,
                               crypto.blake2s(Zeroed(f, s.offset, SIGNATURE_SIZE)))
  {
    hide IsImage;
    hide SameBytes;
    hide FileAt;
    hide Parsed;
    hide Signed;
    hide Zeroed;
    FileInMemory(mem, base, f, 0, HEADER_SIZE);
    forall j: uint32 | j < h.shnum
      ensures SameBytes(FileReader(f), ReaderAt(mem, base), h.shoff + h.shentsize * j, SECTION_SIZE)
      ensures SameBytes(FileReader(f), ReaderAt(mem, base),
                        sections[h.shstrndx].offset + sections[j].name, |names[j]| + 1)
    {
      FileInMemory(mem, base, f, h.shoff + h.shentsize * j, SECTION_SIZE);
      FileInMemory(mem, base, f, sections[h.shstrndx].offset + sections[j].name, |names[j]| + 1);
    }
    ImageElsewhere(FileReader(f), ReaderAt(mem, base), h, sections, names);
    CheckedAsSigned(mem, crypto, base, h, f, sections, names, i, key);
  }

  // ----- The image that is hashed -----

  lemma ZeroedElsewhere(f: seq<byte>, offset: nat, pos: nat, n: nat)
    requires offset + SIGNATURE_SIZE <= |f| && Disjoint(pos, n, offset, SIGNATURE_SIZE)
    ensures SameBytes(FileReader(f), FileReader(Zeroed(f, offset, SIGNATURE_SIZE)), pos, n)
  {
  }

  /** Zeroing the signature leaves the layout of an image as it is. */
  lemma ZeroedIsImage(f: seq<byte>, h: Header, sections: seq<Section>, names: seq<seq<byte>>, i: nat)
    requires SignedImage(f, h, sections, names, i)
    ensures IsImage(FileReader(Zeroed(f, sections[i].offset, SIGNATURE_SIZE)), h, sections, names)
  {
    hide IsImage;
    hide SameBytes;
    hide Zeroed;
    hide Disjoint;
    var o := sections[i].offset;
    var read, read' := FileReader(f), FileReader(Zeroed(f, o, SIGNATURE_SIZE));
    ZeroedElsewhere(f, o, 0, HEADER_SIZE);
    forall j: uint32 | j < h.shnum
      ensures SameBytes(read, read', h.shoff + h.shentsize * j, SECTION_SIZE)
      ensures SameBytes(read, read', sections[h.shstrndx].offset + sections[j].name, |names[j]| + 1)
    {
      ZeroedElsewhere(f, o, h.shoff + h.shentsize * j, SECTION_SIZE);
      ZeroedElsewhere(f, o, sections[h.shstrndx].offset + sections[j].name, |names[j]| + 1);
    }
    ImageElsewhere(read, read', h, sections, names);
  }

  lemma NotShorter(read: Reader, pos: nat, a: seq<byte>, b: seq<byte>)
    requires StringAt(read, pos, a) && StringAt(read, pos, b)
    ensures |a| >= |b|
  {
    if |a| < |b| {
      HeldByte(read, pos, b + [0], |a|);
      assert (b + [0])[|a|] == b[|a|] && b[|a|] in b;
      HeldByte(read, pos, a + [0], |a|);
    }
  }

  lemma HeldByte(read: Reader, pos: nat, bs: seq<byte>, k: nat)
    requires Holds(read, pos, bs) && k < |bs|
    ensures read(pos + k) == Some(bs[k])
  {
  }

  lemma OneString(read: Reader, pos: nat, a: seq<byte>, b: seq<byte>)
    requires StringAt(read, pos, a) && StringAt(read, pos, b)
    ensures a == b
  {
    NotShorter(read, pos, a, b);
    NotShorter(read, pos, b, a);
    var x, y := a + [0], b + [0];
    forall i | 0 <= i < |a|
      ensures a[i] == b[i]
    {
      assert read(pos + i) == Some(x[i]) == Some(y[i]);
    }
  }

  /** What can be read determines the header, the section headers and the names of an image. */
  lemma OneImage(read: Reader, h: Header, sections: seq<Section>, names: seq<seq<byte>>,
                 h': Header, sections': seq<Section>, names': seq<seq<byte>>)
    requires IsImage(read, h, sections, names) && IsImage(read, h', sections', names')
    ensures h == h' && sections == sections' && names == names'
  {
    hide HeaderLayout;
    hide SectionAt;
    hide Parsed;
    hide HasSection;
    hide Readable;
    hide StringAt;
    ImageRecovered(read, h, sections, names);
    ImageRecovered(read, h', sections', names');
    assert |sections| == |sections'|;
    forall i: nat | i < |sections|
      ensures sections[i] == sections'[i]
    {
      assert SectionAt(read, h, i) == sections[i];
    }
    forall i: nat | i < |names|
      ensures names[i] == names'[i]
    {
      NameHeld(read, h, sections, names, i);
      NameHeld(read, h', sections', names', i);
      OneString(read, sections[h.shstrndx].offset + sections[i].name, names[i], names'[i]);
    }
  }

  /** Two files of one length that differ in the 64 bytes at an offset at most. */
  ghost predicate SameOutside(f: seq<byte>, f': seq<byte>, offset: nat) {
    && |f| == |f'|
    && forall k :: 0 <= k < |f| && !(offset <= k < offset + SIGNATURE_SIZE) ==> f[k] == f'[k]
  }

  lemma SameZeroed(f: seq<byte>, f': seq<byte>, offset: nat)
    requires offset + SIGNATURE_SIZE <= |f| && offset + SIGNATURE_SIZE <= |f'|
    requires Zeroed(f, offset, SIGNATURE_SIZE) == Zeroed(f', offset, SIGNATURE_SIZE)
    ensures SameOutside(f, f', offset)
  {
    var z, z' := Zeroed(f, offset, SIGNATURE_SIZE), Zeroed(f', offset, SIGNATURE_SIZE);
    forall k | 0 <= k < |f| && !(offset <= k < offset + SIGNATURE_SIZE)
      ensures f[k] == f'[k]
    {
      assert z[k] == f[k] && z'[k] == f'[k];
    }
  }

  /** The image that is hashed says where the signature was: one such image comes from one file but for that. */
  lemma HashedImageBinds(f: seq<byte>, h: Header, sections: seq<Section>, names: seq<seq<byte>>, i: nat,
                         f': seq<byte>, h': Header, sections': seq<Section>, names': seq<seq<byte>>, i': nat)
    requires SignedImage(f, h, sections, names, i) && SignedImage(f', h', sections', names', i')
    requires Zeroed(f, sections[i].offset, SIGNATURE_SIZE) == Zeroed(f', sections'[i'].offset, SIGNATURE_SIZE)
    ensures h == h' && sections == sections' && names == names' && i == i'
    ensures SameOutside(f, f', sections[i].offset)
  {
    assert |sections| == |names| && |sections'| == |names'|;
    hide IsImage;
    hide Zeroed;
    hide Apart;
    hide SameOutside;
    ZeroedIsImage(f, h, sections, names, i);
    ZeroedIsImage(f', h', sections', names', i');
    OneImage(FileReader(Zeroed(f, sections[i].offset, SIGNATURE_SIZE)), h, sections, names, h', sections', names');
    SameZeroed(f, f', sections[i].offset);
  }

  lemma ZeroedSame(f: seq<byte>, f': seq<byte>, offset: nat)
    requires offset + SIGNATURE_SIZE <= |f| && SameOutside(f, f', offset)
    ensures Zeroed(f, offset, SIGNATURE_SIZE) == Zeroed(f', offset, SIGNATURE_SIZE)
  {
    assert f[..offset] == f'[..offset];
    assert f[offset + SIGNATURE_SIZE..] == f'[offset + SIGNATURE_SIZE..];
  }

  /**
   * Two signed images whose checks take one digest have the same header, sections and names and the same
   * bytes but for the signature exactly when BLAKE2s was given the same input: otherwise what it was
   * given is a collision.
   */
  lemma DigestBinds(crypto: Crypto, f: seq<byte>, h: Header, sections: seq<Section>, names: seq<seq<byte>>, i: nat,
                    f': seq<byte>, h': Header, sections': seq<Section>, names': seq<seq<byte>>, i': nat)
    requires SignedImage(f, h, sections, names, i) && SignedImage(f', h', sections', names', i')
    ensures var z, z' := Zeroed(f, sections[i].offset, SIGNATURE_SIZE),
                         Zeroed(f', sections'[i'].offset, SIGNATURE_SIZE);
            crypto.blake2s(z) == crypto.blake2s(z') ==>
              var same := && h == h' && sections == sections' && names == names' && i == i'
                          && SameOutside(f, f', sections[i].offset);
              same <==> !(z != z' && crypto.blake2s(z) == crypto.blake2s(z'))
  {
    assert |sections| == |names| && |sections'| == |names'|;
    hide IsImage;
    hide Zeroed;
    hide Apart;
    hide SameOutside;
    if Zeroed(f, sections[i].offset, SIGNATURE_SIZE) == Zeroed(f', sections'[i'].offset, SIGNATURE_SIZE) {
      HashedImageBinds(f, h, sections, names, i, f', h', sections', names', i');
    }
    if sections == sections' && i == i' && SameOutside(f, f', sections[i].offset) {
      ZeroedSame(f, f', sections[i].offset);
    }
  }
}
