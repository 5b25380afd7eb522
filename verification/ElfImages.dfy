/**
 * Well-formed ELF32 images, as the tables of the TIS ELF Specification 1.2 lay them out, and what
 * the reader recovers from them.
 */
module ElfImages {
  import opened Bytes
  import opened TinyElf

  const HEADER_SIZE := 52
  const SECTION_SIZE := 40
  const SEGMENT_SIZE := 32

  function Reversed(s: seq<byte>): (r: seq<byte>)
    ensures |r| == |s| && forall i :: 0 <= i < |s| ==> r[i] == s[|s| - 1 - i]
  {
    if s == [] then [] else Reversed(s[1..]) + [s[0]]
  }

  function Encoded16(data: byte, v: uint16): seq<byte> {
    if data == DATA_BIG then BigEndian16(v) else Reversed(BigEndian16(v))
  }

  function Encoded32(data: byte, v: uint32): seq<byte> {
    if data == DATA_BIG then BigEndian32(v) else Reversed(BigEndian32(v))
  }

  ghost predicate Holds(read: Reader, pos: nat, bs: seq<byte>) {
    pos + |bs| < U32 && forall i :: 0 <= i < |bs| ==> read(pos + i) == Some(bs[i])
  }

  ghost predicate Readable(read: Reader, pos: nat, n: nat) {
    pos + n < U32 && forall i: uint32 :: pos <= i < pos + n ==> read(i).Some?
  }

  ghost predicate Holds16(read: Reader, h: Header, pos: nat, v: uint16) {
    Holds(read, pos, Encoded16(h.data, v))
  }

  ghost predicate Holds32(read: Reader, h: Header, pos: nat, v: uint32) {
    Holds(read, pos, Encoded32(h.data, v))
  }

  ghost predicate IdentLayout(read: Reader, h: Header) {
    && Holds(read, 0, Encoded32(DATA_BIG, MAGIC))
    && Holds(read, 4, [h.cls, h.data, h.version, h.osabi, h.abiversion])
  }

  ghost predicate AddressLayout(read: Reader, h: Header) {
    && Holds16(read, h, 16, h.typ) && Holds16(read, h, 18, h.machine) && Holds32(read, h, 20, h.version2)
    && Holds32(read, h, 24, h.entry) && Holds32(read, h, 28, h.phoff) && Holds32(read, h, 32, h.shoff)
    && Holds32(read, h, 36, h.flags)
  }

  ghost predicate SizeLayout(read: Reader, h: Header) {
    && Holds16(read, h, 40, h.ehsize) && Holds16(read, h, 42, h.phentsize) && Holds16(read, h, 44, h.phnum)
    && Holds16(read, h, 46, h.shentsize) && Holds16(read, h, 48, h.shnum) && Holds16(read, h, 50, h.shstrndx)
  }

  /** The ELF header: the identification, then fixed offsets. */
  ghost predicate HeaderLayout(read: Reader, h: Header) {
    IdentLayout(read, h) && AddressLayout(read, h) && SizeLayout(read, h)
  }

  ghost predicate SectionLayout(read: Reader, h: Header, pos: nat, s: Section) {
    && Holds32(read, h, pos, s.name) && Holds32(read, h, pos + 4, s.typ) && Holds32(read, h, pos + 8, s.flags)
    && Holds32(read, h, pos + 12, s.addr) && Holds32(read, h, pos + 16, s.offset) && Holds32(read, h, pos + 20, s.size)
    && Holds32(read, h, pos + 24, s.link) && Holds32(read, h, pos + 28, s.info) && Holds32(read, h, pos + 32, s.align)
    && Holds32(read, h, pos + 36, s.entsize)
  }

  ghost predicate SegmentLayout(read: Reader, h: Header, pos: nat, s: Segment) {
    && Holds32(read, h, pos, s.typ) && Holds32(read, h, pos + 4, s.offset) && Holds32(read, h, pos + 8, s.vaddr)
    && Holds32(read, h, pos + 12, s.paddr) && Holds32(read, h, pos + 16, s.filesz)
    && Holds32(read, h, pos + 20, s.memsz) && Holds32(read, h, pos + 24, s.flags) && Holds32(read, h, pos + 28, s.align)
  }

  // ----- One field -----

  lemma Numbers16(data: byte, b0: byte, b1: byte, v: uint16)
    ensures Number16(data, b0, b1) == v <==> [b0, b1] == Encoded16(data, v)
  {
    Word16Exact(b0, b1, v);
    Word16Exact(b1, b0, v);
    var r := Reversed(BigEndian16(v));
    assert r == [r[0], r[1]];
  }

  lemma Numbers32(data: byte, b0: byte, b1: byte, b2: byte, b3: byte, v: uint32)
    ensures Number32(data, b0, b1, b2, b3) == v <==> [b0, b1, b2, b3] == Encoded32(data, v)
  {
    Word32Exact(b0, b1, b2, b3, v);
    Word32Exact(b3, b2, b1, b0, v);
    assert Number32(data, b0, b1, b2, b3)
           == if data == DATA_BIG then Word32(b0, b1, b2, b3) else Word32(b3, b2, b1, b0);
    hide Number32;
    hide Word32;
    hide BigEndian32;
    hide Reversed;
    var e := BigEndian32(v);
    var r := Reversed(e);
    assert r == [e[3], e[2], e[1], e[0]];
    assert e == [e[0], e[1], e[2], e[3]];
    assert [b3, b2, b1, b0] == e ==> b3 == e[0] && b2 == e[1] && b1 == e[2] && b0 == e[3];
    assert [b0, b1, b2, b3] == r ==> b0 == r[0] && b1 == r[1] && b2 == r[2] && b3 == r[3];
  }

  lemma AfterReadable(read: Reader, pos: uint32)
    ensures Readable(read, pos, 2) ==> After2(read, pos) == pos + 2
    ensures Readable(read, pos, 4) ==> After4(read, pos) == pos + 4
  {
  }

  /** Loading gives exactly the number whose bytes are there. */
  lemma Load16Exact(read: Reader, data: byte, pos: uint32, v: uint16)
    requires Readable(read, pos, 2)
    ensures After2(read, pos) == pos + 2
    ensures Load16(read, data, pos) == v <==> Holds(read, pos, Encoded16(data, v))
  {
    var b0, b1 := Byte(read, pos), Byte(read, pos + 1);
    Numbers16(data, b0, b1, v);
    assert read(pos) == Some(b0) && read(pos + 1) == Some(b1);
    var e := Encoded16(data, v);
    if Holds(read, pos, e) {
      assert read(pos + 0) == Some(e[0]) && read(pos + 1) == Some(e[1]);
    }
  }

  lemma Load32Exact(read: Reader, data: byte, pos: uint32, v: uint32)
    requires Readable(read, pos, 4)
    ensures After4(read, pos) == pos + 4
    ensures Load32(read, data, pos) == v <==> Holds(read, pos, Encoded32(data, v))
  {
    hide Number32;
    hide Encoded32;
    hide Reversed;
    AfterReadable(read, pos);
    var b0, b1, b2, b3 := Byte(read, pos), Byte(read, pos + 1), Byte(read, pos + 2), Byte(read, pos + 3);
    Numbers32(data, b0, b1, b2, b3, v);
    EncodedSize(data, v);
    assert read(pos) == Some(b0) && read(pos + 1) == Some(b1) && read(pos + 2) == Some(b2) && read(pos + 3) == Some(b3);
    var e := Encoded32(data, v);
    if Holds(read, pos, e) {
      assert read(pos + 0) == Some(e[0]) && read(pos + 1) == Some(e[1]);
      assert read(pos + 2) == Some(e[2]) && read(pos + 3) == Some(e[3]);
      assert e == [b0, b1, b2, b3];
    }
  }

  lemma EncodedSize(data: byte, v: uint32)
    ensures |Encoded32(data, v)| == 4
  {
  }

  lemma Load16In(read: Reader, data: byte, start: nat, n: nat, pos: uint32, v: uint16)
    requires Readable(read, start, n) && start <= pos && pos + 2 <= start + n
    ensures After2(read, pos) == pos + 2
    ensures Load16(read, data, pos) == v <==> Holds(read, pos, Encoded16(data, v))
  {
    hide Load16;
    hide Holds;
    Load16Exact(read, data, pos, v);
  }

  lemma Load32In(read: Reader, data: byte, start: nat, n: nat, pos: uint32, v: uint32)
    requires Readable(read, start, n) && start <= pos && pos + 4 <= start + n
    ensures After4(read, pos) == pos + 4
    ensures Load32(read, data, pos) == v <==> Holds(read, pos, Encoded32(data, v))
  {
    hide Load32;
    hide Holds;
    Load32Exact(read, data, pos, v);
  }

  lemma ReadablePart(read: Reader, pos: nat, n: nat, k: nat, m: nat)
    requires Readable(read, pos, n) && k + m <= n
    ensures Readable(read, pos + k, m)
  {
  }

  // ----- The header -----

  lemma IdentExact(read: Reader, h: Header)
    requires Readable(read, 0, 16)
    ensures Load32(read, DATA_BIG, 0) == MAGIC && ParsedIdent(read).0 == NO_HEADER.(cls := h.cls, data := h.data,
              version := h.version, osabi := h.osabi, abiversion := h.abiversion)
            <==> IdentLayout(read, h)
    ensures ParsedIdent(read).1 == 16
  {
    hide Load32;
    Load32Exact(read, DATA_BIG, 0, MAGIC);
    var e := [h.cls, h.data, h.version, h.osabi, h.abiversion];
    if Holds(read, 4, e) {
      assert read(4 + 0) == Some(e[0]) && read(4 + 1) == Some(e[1]) && read(4 + 2) == Some(e[2]);
      assert read(4 + 3) == Some(e[3]) && read(4 + 4) == Some(e[4]);
    }
  }

  lemma AddressesExact(read: Reader, h: Header, before: Header)
    requires Readable(read, 16, 24) && h.cls == CLASS_ELF32 && before.cls == h.cls && before.data == h.data
    ensures ParsedAddresses(read, before, 16).0 == before.(typ := h.typ, machine := h.machine, version2 := h.version2,
              entry := h.entry, phoff := h.phoff, shoff := h.shoff, flags := h.flags)
            <==> AddressLayout(read, h)
    ensures ParsedAddresses(read, before, 16).1 == 40
  {
    hide Load16;
    hide Load32;
    hide Holds;
    hide After2;
    hide After4;
    hide Encoded16;
    hide Encoded32;
    hide Readable;
    Load16In(read, h.data, 16, 24, 16, h.typ);
    Load16In(read, h.data, 16, 24, 18, h.machine);
    Load32In(read, h.data, 16, 24, 20, h.version2);
    Load32In(read, h.data, 16, 24, 24, h.entry);
    Load32In(read, h.data, 16, 24, 28, h.phoff);
    Load32In(read, h.data, 16, 24, 32, h.shoff);
    Load32In(read, h.data, 16, 24, 36, h.flags);
  }

  lemma SizesExact(read: Reader, h: Header, before: Header)
    requires Readable(read, 40, 12) && before.data == h.data
    ensures ParsedSizes(read, before, 40).0 == before.(ehsize := h.ehsize, phentsize := h.phentsize, phnum := h.phnum,
              shentsize := h.shentsize, shnum := h.shnum, shstrndx := h.shstrndx)
            <==> SizeLayout(read, h)
  {
    hide Load16;
    hide Holds;
    hide After2;
    hide Encoded16;
    hide Readable;
    Load16In(read, h.data, 40, 12, 40, h.ehsize);
    Load16In(read, h.data, 40, 12, 42, h.phentsize);
    Load16In(read, h.data, 40, 12, 44, h.phnum);
    Load16In(read, h.data, 40, 12, 46, h.shentsize);
    Load16In(read, h.data, 40, 12, 48, h.shnum);
    Load16In(read, h.data, 40, 12, 50, h.shstrndx);
  }

  /** Parsing gives an ELF32 header exactly when its encoding is there, in the byte order it names. */
  lemma HeaderExact(read: Reader, h: Header)
    requires Readable(read, 0, HEADER_SIZE) && h.cls == CLASS_ELF32
    ensures Parsed(read) == Some(h) <==> HeaderLayout(read, h)
  {
    hide Load32;
    hide ParsedIdent;
    hide ParsedAddresses;
    hide ParsedSizes;
    hide IdentLayout;
    hide AddressLayout;
    hide SizeLayout;
    ReadablePart(read, 0, HEADER_SIZE, 0, 16);
    ReadablePart(read, 0, HEADER_SIZE, 16, 24);
    ReadablePart(read, 0, HEADER_SIZE, 40, 12);
    hide Readable;
    IdentExact(read, h);
    KeptByIdent(read);
    KeptByAddresses(read, ParsedIdent(read).0, 16);
    var before := ParsedIdent(read).0;
    if before.cls == h.cls && before.data == h.data {
      AddressesExact(read, h, before);
      var next := ParsedAddresses(read, before, 16).0;
      SizesExact(read, h, next);
      KeptBySizes(read, next, 40);
      var last := ParsedSizes(read, next, 40).0;
      assert Load32(read, DATA_BIG, 0) == MAGIC ==> Parsed(read) == Some(last);
      GroupsAgree(h, before, next, last);
    } else {
      var (next, q) := ParsedAddresses(read, before, 16);
      KeptBySizes(read, next, q);
    }
  }

  /** A header whose groups of fields are filled in one after the other is the header with those groups. */
  lemma GroupsAgree(h: Header, ident: Header, addresses: Header, sizes: Header)
    requires ident == NO_HEADER.(cls := ident.cls, data := ident.data, version := ident.version, osabi := ident.osabi,
                                 abiversion := ident.abiversion)
    requires addresses == ident.(typ := addresses.typ, machine := addresses.machine, version2 := addresses.version2,
                                 entry := addresses.entry, phoff := addresses.phoff, shoff := addresses.shoff,
                                 flags := addresses.flags)
    requires sizes == addresses.(ehsize := sizes.ehsize, phentsize := sizes.phentsize, phnum := sizes.phnum,
                                 shentsize := sizes.shentsize, shnum := sizes.shnum, shstrndx := sizes.shstrndx)
    ensures sizes == h
            <==> && ident == NO_HEADER.(cls := h.cls, data := h.data, version := h.version, osabi := h.osabi,
                                        abiversion := h.abiversion)
                 && addresses == ident.(typ := h.typ, machine := h.machine, version2 := h.version2, entry := h.entry,
                                        phoff := h.phoff, shoff := h.shoff, flags := h.flags)
                 && sizes == addresses.(ehsize := h.ehsize, phentsize := h.phentsize, phnum := h.phnum,
                                        shentsize := h.shentsize, shnum := h.shnum, shstrndx := h.shstrndx)
  {
  }

  lemma KeptByIdent(read: Reader)
    ensures var n := ParsedIdent(read).0;
            n == NO_HEADER.(cls := n.cls, data := n.data, version := n.version, osabi := n.osabi,
                            abiversion := n.abiversion)
  {
  }

  /** The fields the later groups of fields leave alone. */
  lemma KeptByAddresses(read: Reader, h: Header, p: uint32)
    ensures var n := ParsedAddresses(read, h, p).0;
            n == h.(typ := n.typ, machine := n.machine, version2 := n.version2, entry := n.entry, phoff := n.phoff,
                    shoff := n.shoff, flags := n.flags)
  {
  }

  lemma KeptBySizes(read: Reader, h: Header, p: uint32)
    ensures var n := ParsedSizes(read, h, p).0;
            n == h.(ehsize := n.ehsize, phentsize := n.phentsize, phnum := n.phnum, shentsize := n.shentsize,
                    shnum := n.shnum, shstrndx := n.shstrndx)
  {
  }

  // ----- Section and program headers -----

  lemma SectionExact(read: Reader, h: Header, i: uint32, s: Section)
    requires h.cls == CLASS_ELF32 && h.shoff + h.shentsize * i < U32
    requires Readable(read, h.shoff + h.shentsize * i, SECTION_SIZE)
    ensures SectionAt(read, h, i) == s <==> SectionLayout(read, h, h.shoff + h.shentsize * i, s)
  {
    hide Load32;
    hide Holds;
    hide After4;
    hide Encoded32;
    var p := h.shoff + h.shentsize * i;
    InRange(p, SECTION_SIZE, read);
    hide Readable;
    Load32In(read, h.data, p, SECTION_SIZE, p, s.name);
    Load32In(read, h.data, p, SECTION_SIZE, p + 4, s.typ);
    Load32In(read, h.data, p, SECTION_SIZE, p + 8, s.flags);
    Load32In(read, h.data, p, SECTION_SIZE, p + 12, s.addr);
    Load32In(read, h.data, p, SECTION_SIZE, p + 16, s.offset);
    Load32In(read, h.data, p, SECTION_SIZE, p + 20, s.size);
    Load32In(read, h.data, p, SECTION_SIZE, p + 24, s.link);
    Load32In(read, h.data, p, SECTION_SIZE, p + 28, s.info);
    Load32In(read, h.data, p, SECTION_SIZE, p + 32, s.align);
    Load32In(read, h.data, p, SECTION_SIZE, p + 36, s.entsize);
  }

  lemma InRange(p: nat, n: nat, read: Reader)
    requires Readable(read, p, n)
    ensures p + n < U32
  {
  }

  /** A program header whose eight fields are read one after the other, the flags second to last. */
  function SegmentFrom(read: Reader, data: byte, p: nat): Segment
    requires p + 28 < U32
  {
    Segment(Load32(read, data, p), Load32(read, data, p + 24), Load32(read, data, p + 4), Load32(read, data, p + 8),
            Load32(read, data, p + 12), Load32(read, data, p + 16), Load32(read, data, p + 20),
            Load32(read, data, p + 28))
  }

  lemma SegmentIsFrom(read: Reader, data: byte, p: nat, stale: uint32)
    requires Readable(read, p, SEGMENT_SIZE)
    ensures p + SEGMENT_SIZE < U32
    ensures SegmentFields(read, CLASS_ELF32, data, p, stale) == SegmentFrom(read, data, p)
  {
    hide Load32;
    hide After4;
    InRange(p, SEGMENT_SIZE, read);
    AfterField(read, p, SEGMENT_SIZE, p);
    AfterField(read, p, SEGMENT_SIZE, p + 4);
    AfterField(read, p, SEGMENT_SIZE, p + 8);
    AfterField(read, p, SEGMENT_SIZE, p + 12);
    AfterField(read, p, SEGMENT_SIZE, p + 16);
    AfterField(read, p, SEGMENT_SIZE, p + 20);
    AfterField(read, p, SEGMENT_SIZE, p + 24);
    hide Readable;
  }

  lemma AfterField(read: Reader, start: nat, n: nat, pos: uint32)
    requires Readable(read, start, n) && start <= pos && pos + 4 <= start + n
    ensures After4(read, pos) == pos + 4
  {
    hide After4;
    AfterReadable(read, pos);
  }

  lemma SegmentExact(read: Reader, h: Header, i: uint32, s: Segment, stale: uint32)
    requires h.cls == CLASS_ELF32 && h.phoff + h.phentsize * i < U32
    requires Readable(read, h.phoff + h.phentsize * i, SEGMENT_SIZE)
    ensures SegmentAt(read, h, i, stale) == s <==> SegmentLayout(read, h, h.phoff + h.phentsize * i, s)
  {
    hide Load32;
    hide Holds;
    hide After4;
    hide Encoded32;
    hide SegmentFields;
    var p := h.phoff + h.phentsize * i;
    SegmentIsFrom(read, h.data, p, stale);
    hide Readable;
    Load32In(read, h.data, p, SEGMENT_SIZE, p, s.typ);
    Load32In(read, h.data, p, SEGMENT_SIZE, p + 4, s.offset);
    Load32In(read, h.data, p, SEGMENT_SIZE, p + 8, s.vaddr);
    Load32In(read, h.data, p, SEGMENT_SIZE, p + 12, s.paddr);
    Load32In(read, h.data, p, SEGMENT_SIZE, p + 16, s.filesz);
    Load32In(read, h.data, p, SEGMENT_SIZE, p + 20, s.memsz);
    Load32In(read, h.data, p, SEGMENT_SIZE, p + 24, s.flags);
    Load32In(read, h.data, p, SEGMENT_SIZE, p + 28, s.align);
  }

  // ----- Names -----

  ghost predicate StringAt(read: Reader, pos: nat, name: seq<byte>) {
    0 !in name && Holds(read, pos, name + [0])
  }

  function Cut(name: seq<byte>, room: nat): seq<byte> {
    if |name| <= room then name else name[..room]
  }

  lemma {:induction false} NameFromString(read: Reader, pos: uint32, name: seq<byte>, room: nat)
    requires StringAt(read, pos, name)
    ensures NameFrom(read, pos, room) == Cut(name, room)
    decreases room
  {
    var s := name + [0];
    assert read(pos + 0) == Some(s[0]);
    if name == [] || room == 0 {
    } else {
      var rest := name[1..];
      assert name == [name[0]] + rest;
      forall i | 0 <= i < |rest + [0]|
        ensures read(pos + 1 + i) == Some((rest + [0])[i])
      {
        assert read(pos + (i + 1)) == Some(s[i + 1]);
      }
      NameFromString(read, pos + 1, rest, room - 1);
    }
  }

  /**
   * An ELF32 image: header, section headers and section names are all there, and the names are in
   * the section the header says.
   */
  ghost predicate IsImage(read: Reader, h: Header, sections: seq<Section>, names: seq<seq<byte>>) {
    && h.cls == CLASS_ELF32 && Readable(read, 0, HEADER_SIZE) && HeaderLayout(read, h)
    && |sections| == |names| == h.shnum && h.shstrndx < h.shnum
    && (forall i: uint32 :: i < h.shnum ==> HasSection(read, h, i, sections[i]))
    && (forall i: uint32 :: i < h.shnum ==> HasName(read, sections[h.shstrndx], sections[i], names[i]))
  }

  ghost predicate HasSection(read: Reader, h: Header, i: uint32, s: Section) {
    && Readable(read, h.shoff + h.shentsize * i, SECTION_SIZE)
    && SectionLayout(read, h, h.shoff + h.shentsize * i, s)
  }

  ghost predicate HasName(read: Reader, strings: Section, s: Section, name: seq<byte>) {
    StringAt(read, strings.offset + s.name, name)
  }

  /** The header and all section headers of an image are recovered. */
  lemma ImageRecovered(read: Reader, h: Header, sections: seq<Section>, names: seq<seq<byte>>)
    requires IsImage(read, h, sections, names)
    ensures Parsed(read) == Some(h)
    ensures forall i: uint32 :: i < h.shnum ==> SectionAt(read, h, i) == sections[i]
  {
    hide Parsed;
    hide SectionAt;
    hide HeaderLayout;
    hide SectionLayout;
    HeaderExact(read, h);
    forall i: uint32 | i < h.shnum
      ensures SectionAt(read, h, i) == sections[i]
    {
      assert HasSection(read, h, i, sections[i]);
      InRange(h.shoff + h.shentsize * i, SECTION_SIZE, read);
      SectionExact(read, h, i, sections[i]);
    }
  }

  lemma NameOfString(read: Reader, h: Header, name: uint32, text: seq<byte>, room: nat)
    requires h.shstrndx < h.shnum && StringAt(read, SectionAt(read, h, h.shstrndx).offset + name, text)
    ensures NameOf(read, h, name, room) == Cut(text, room)
  {
    hide SectionAt;
    hide NameFrom;
    var pos := SectionAt(read, h, h.shstrndx).offset + name;
    InString(read, pos, text);
    hide StringAt;
    NameFromString(read, pos, text, room);
  }

  lemma NameHeld(read: Reader, h: Header, sections: seq<Section>, names: seq<seq<byte>>, i: uint32)
    requires IsImage(read, h, sections, names) && i < h.shnum
    ensures |sections| == |names| == h.shnum && h.shstrndx < h.shnum
    ensures StringAt(read, sections[h.shstrndx].offset + sections[i].name, names[i])
  {
    hide StringAt;
    hide HasSection;
    hide HeaderLayout;
    hide Readable;
    assert HasName(read, sections[h.shstrndx], sections[i], names[i]);
  }

  /** A section has a name shorter than 31 characters if that is its name; one of 31 if its name starts with it. */
  lemma NamedExactly(read: Reader, h: Header, sections: seq<Section>, names: seq<seq<byte>>, i: uint32, name: seq<byte>)
    requires IsImage(read, h, sections, names) && i < h.shnum
    ensures IsNamed(read, h, i, name)
            <==> if |name| < MAX_NAME - 1 then names[i] == name
                 else |name| == MAX_NAME - 1 && name <= names[i]
  {
    hide SectionAt;
    hide StringAt;
    hide Parsed;
    hide Cut;
    ImageRecovered(read, h, sections, names);
    NameHeld(read, h, sections, names, i);
    hide IsImage;
    hide NameOf;
    NameOfString(read, h, sections[i].name, names[i], MAX_NAME - 1);
    CutIs(names[i], name, MAX_NAME - 1);
  }

  lemma InString(read: Reader, pos: nat, name: seq<byte>)
    requires StringAt(read, pos, name)
    ensures pos < U32
  {
  }

  lemma CutIs(name: seq<byte>, wanted: seq<byte>, room: nat)
    ensures Cut(name, room) == wanted
            <==> if |wanted| < room then name == wanted else |wanted| == room && wanted <= name
  {
  }

  ghost predicate FirstIndex(names: seq<seq<byte>>, name: seq<byte>, i: nat) {
    i < |names| && names[i] == name && forall j :: 0 <= j < i ==> names[j] != name
  }

  /** In an image, the search for a name shorter than 31 characters finds the first section that has it. */
  lemma FindInImage(read: Reader, h: Header, sections: seq<Section>, names: seq<seq<byte>>, name: seq<byte>)
    requires IsImage(read, h, sections, names) && |name| < MAX_NAME - 1
    ensures match FindFrom(read, h, name, 0)
            case Some(s) => (exists i: nat :: FirstIndex(names, name, i) && s == sections[i])
            case None => name !in names
  {
    hide SectionAt;
    hide Readable;
    hide HeaderLayout;
    hide HasSection;
    hide HasName;
    hide NameFrom;
    hide IsNamed;
    hide FindFrom;
    hide Parsed;
    assert |sections| == |names| == h.shnum;
    hide IsImage;
    ImageRecovered(read, h, sections, names);
    forall i: uint32 | i < h.shnum
      ensures IsNamed(read, h, i, name) <==> names[i] == name
    {
      NamedExactly(read, h, sections, names, i, name);
    }
    FindFromIsFirst(read, h, name, 0);
    match FindFrom(read, h, name, 0)
    case Some(s) =>
      var k: uint32 :| FirstNamed(read, h, k, name) && s == SectionAt(read, h, k);
      assert FirstIndex(names, name, k);
    case None =>
      assert forall i: nat :: i < |names| ==> names[i] != name;
  }

  lemma FindFirst(read: Reader, h: Header, sections: seq<Section>, names: seq<seq<byte>>, name: seq<byte>, i: nat)
    requires IsImage(read, h, sections, names) && |name| < MAX_NAME - 1 && FirstIndex(names, name, i)
    ensures |sections| == |names| && FindFrom(read, h, name, 0) == Some(sections[i])
  {
    assert |sections| == |names|;
    FindInImage(read, h, sections, names, name);
    hide IsImage;
    hide FindFrom;
    assert names[i] in names;
    var s := FindFrom(read, h, name, 0).value;
    var j: nat :| FirstIndex(names, name, j) && s == sections[j];
    assert i == j;
  }

  // ----- Readers that fail, and images of another class -----

  /** Where nothing can be read every number is zero, and the cursor stays. */
  lemma UnreadableIsZero(read: Reader, data: byte, pos: uint32)
    requires read(pos).None?
    ensures Byte(read, pos) == 0 && Load16(read, data, pos) == 0 && Load32(read, data, pos) == 0
    ensures After2(read, pos) == pos && After4(read, pos) == pos
  {
  }

  /** Where everything can be read the cursor goes on, over the end of the address space. */
  lemma ReadableAdvances(read: Reader, pos: uint32)
    requires forall p: uint32 :: read(p).Some?
    ensures Next(read, pos) == (pos + 1) % U32 && After2(read, pos) == (pos + 2) % U32
    ensures After4(read, pos) == (pos + 4) % U32
  {
  }

  /** Of a header that is not one of ELF32 no address is read: all its tables are at offset zero. */
  lemma NoAddresses(read: Reader, h: Header, i: uint32)
    requires Parsed(read) == Some(h) && h.cls != CLASS_ELF32
    ensures h.entry == 0 && h.phoff == 0 && h.shoff == 0
    ensures SectionAt(read, h, i).addr == 0 && SectionAt(read, h, i).offset == 0 && SectionAt(read, h, i).size == 0
    ensures SegmentAt(read, h, i, 0).paddr == 0
  {
    hide ParsedIdent;
    hide Load16;
    hide Load32;
    hide After2;
    hide After4;
  }

  /** Without a section of names no section is found under any name but the empty one. */
  lemma NoNames(read: Reader, h: Header, name: seq<byte>)
    requires h.shstrndx >= h.shnum && name != []
    ensures FindFrom(read, h, name, 0) == None
  {
    hide SectionAt;
    assert forall i: uint32 :: !IsNamed(read, h, i, name);
    FindFromIsFirst(read, h, name, 0);
  }
}
