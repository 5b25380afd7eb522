/**
 * A signed image of the smallest kind: the ELF header, the section with the signature, the section with
 * the section names and the two section headers. It exists for every signature.
 */
module ExampleImage {
  import opened Bytes
  import opened TinyElf
  import opened ElfImages
  import opened Chainloader
  import opened SignedContent

  const HEADER := Header(CLASS_ELF32, DATA_BIG, 1, 0, 0, 2, 40, 1, 0, 0, 130, 0, 52, 32, 0, 40, 2, 1)

  const SIGNATURE := Section(0, 1, 0, 0, 52, 64, 0, 0, 1, 0)
  const STRINGS := Section(13, 3, 0, 0, 116, 14, 0, 0, 1, 0)

  // ----- Building a big-endian image -----

  function IdentBytes(h: Header): (s: seq<byte>)
    ensures |s| == 16
  {
    BigEndian32(MAGIC) + [h.cls, h.data, h.version, h.osabi, h.abiversion] + Zeros(7)
  }

  function AddressBytes(h: Header): (s: seq<byte>)
    ensures |s| == 24
  {
    BigEndian16(h.typ) + BigEndian16(h.machine) + BigEndian32(h.version2) + BigEndian32(h.entry)
    + BigEndian32(h.phoff) + BigEndian32(h.shoff) + BigEndian32(h.flags)
  }

  function SizeBytes(h: Header): (s: seq<byte>)
    ensures |s| == 12
  {
    BigEndian16(h.ehsize) + BigEndian16(h.phentsize) + BigEndian16(h.phnum)
    + BigEndian16(h.shentsize) + BigEndian16(h.shnum) + BigEndian16(h.shstrndx)
  }

  function FirstFields(s: Section): (r: seq<byte>)
    ensures |r| == 20
  {
    BigEndian32(s.name) + BigEndian32(s.typ) + BigEndian32(s.flags) + BigEndian32(s.addr) + BigEndian32(s.offset)
  }

  function LastFields(s: Section): (r: seq<byte>)
    ensures |r| == 20
  {
    BigEndian32(s.size) + BigEndian32(s.link) + BigEndian32(s.info) + BigEndian32(s.align) + BigEndian32(s.entsize)
  }

  function SectionBytes(s: Section): (r: seq<byte>)
    ensures |r| == SECTION_SIZE
  {
    FirstFields(s) + LastFields(s)
  }

  function Example(signature: Digest): (f: seq<byte>)
    ensures |f| == 210
  {
    IdentBytes(HEADER) + AddressBytes(HEADER) + SizeBytes(HEADER) + signature + (SIGNATURE_NAME + [0])
    + SectionBytes(SIGNATURE) + SectionBytes(STRINGS)
  }

  // ----- One field -----

  /** The file has a part at a position. */
  ghost predicate Has(f: seq<byte>, at: nat, part: seq<byte>) {
    at + |part| <= |f| < U32 && f[at..at + |part|] == part
  }

  lemma HasHolds(f: seq<byte>, at: nat, part: seq<byte>)
    requires Has(f, at, part)
    ensures Holds(FileReader(f), at, part)
  {
    forall i | 0 <= i < |part|
      ensures FileReader(f)(at + i) == Some(part[i])
    {
      assert f[at..at + |part|][i] == f[at + i];
    }
  }

  lemma HasPart(f: seq<byte>, at: nat, part: seq<byte>, from: nat, n: nat)
    requires Has(f, at, part) && from + n <= |part|
    ensures Has(f, at + from, part[from..from + n])
  {
    var a, b := f[at + from..at + from + n], part[from..from + n];
    forall k | 0 <= k < n
      ensures a[k] == b[k]
    {
      assert f[at..at + |part|][from + k] == f[at + (from + k)];
    }
  }

  lemma Field32(f: seq<byte>, h: Header, at: nat, part: seq<byte>, from: nat, v: uint32)
    requires Has(f, at, part) && from + 4 <= |part| && part[from..from + 4] == BigEndian32(v) && h.data == DATA_BIG
    ensures Holds32(FileReader(f), h, at + from, v)
  {
    hide Has;
    hide BigEndian32;
    HasPart(f, at, part, from, 4);
    HasHolds(f, at + from, BigEndian32(v));
  }

  lemma Field16(f: seq<byte>, h: Header, at: nat, part: seq<byte>, from: nat, v: uint16)
    requires Has(f, at, part) && from + 2 <= |part| && part[from..from + 2] == BigEndian16(v) && h.data == DATA_BIG
    ensures Holds16(FileReader(f), h, at + from, v)
  {
    hide Has;
    hide BigEndian16;
    HasPart(f, at, part, from, 2);
    HasHolds(f, at + from, BigEndian16(v));
  }

  // ----- The layout of what is built -----

  lemma IdentBuilt(f: seq<byte>, h: Header)
    requires Has(f, 0, IdentBytes(h))
    ensures IdentLayout(FileReader(f), h)
  {
    hide Has;
    hide BigEndian32;
    var part, ident := IdentBytes(h), [h.cls, h.data, h.version, h.osabi, h.abiversion];
    assert part[0..4] == BigEndian32(MAGIC) && part[4..9] == ident;
    HasPart(f, 0, part, 0, 4);
    HasPart(f, 0, part, 4, 5);
    HasHolds(f, 0, BigEndian32(MAGIC));
    HasHolds(f, 4, ident);
  }

  lemma AddressesBuilt(f: seq<byte>, h: Header)
    requires Has(f, 16, AddressBytes(h)) && h.data == DATA_BIG
    ensures AddressLayout(FileReader(f), h)
  {
    hide Has;
    hide Holds16;
    hide Holds32;
    hide BigEndian16;
    hide BigEndian32;
    var part := AddressBytes(h);
    Field16(f, h, 16, part, 0, h.typ);
    Field16(f, h, 16, part, 2, h.machine);
    Field32(f, h, 16, part, 4, h.version2);
    Field32(f, h, 16, part, 8, h.entry);
    Field32(f, h, 16, part, 12, h.phoff);
    Field32(f, h, 16, part, 16, h.shoff);
    Field32(f, h, 16, part, 20, h.flags);
  }

  lemma SizesBuilt(f: seq<byte>, h: Header)
    requires Has(f, 40, SizeBytes(h)) && h.data == DATA_BIG
    ensures SizeLayout(FileReader(f), h)
  {
    hide Has;
    hide Holds16;
    hide Holds32;
    hide BigEndian16;
    hide BigEndian32;
    var part := SizeBytes(h);
    Field16(f, h, 40, part, 0, h.ehsize);
    Field16(f, h, 40, part, 2, h.phentsize);
    Field16(f, h, 40, part, 4, h.phnum);
    Field16(f, h, 40, part, 6, h.shentsize);
    Field16(f, h, 40, part, 8, h.shnum);
    Field16(f, h, 40, part, 10, h.shstrndx);
  }

  lemma SectionBuilt(f: seq<byte>, h: Header, at: nat, s: Section)
    requires Has(f, at, SectionBytes(s)) && h.data == DATA_BIG
    ensures SectionLayout(FileReader(f), h, at, s)
  {
    hide Holds32;
    HasPart(f, at, SectionBytes(s), 0, 20);
    HasPart(f, at, SectionBytes(s), 20, 20);
    assert SectionBytes(s)[0..20] == FirstFields(s) && SectionBytes(s)[20..40] == LastFields(s);
    hide Has;
    FirstBuilt(f, h, at, s);
    LastBuilt(f, h, at + 20, s);
  }

  lemma FirstBuilt(f: seq<byte>, h: Header, at: nat, s: Section)
    requires Has(f, at, FirstFields(s)) && h.data == DATA_BIG
    ensures var read := FileReader(f);
            && Holds32(read, h, at, s.name) && Holds32(read, h, at + 4, s.typ) && Holds32(read, h, at + 8, s.flags)
            && Holds32(read, h, at + 12, s.addr) && Holds32(read, h, at + 16, s.offset)
  {
    hide Has;
    hide Holds32;
    hide BigEndian32;
    var part := FirstFields(s);
    Field32(f, h, at, part, 0, s.name);
    Field32(f, h, at, part, 4, s.typ);
    Field32(f, h, at, part, 8, s.flags);
    Field32(f, h, at, part, 12, s.addr);
    Field32(f, h, at, part, 16, s.offset);
  }

  lemma LastBuilt(f: seq<byte>, h: Header, at: nat, s: Section)
    requires Has(f, at, LastFields(s)) && h.data == DATA_BIG
    ensures var read := FileReader(f);
            && Holds32(read, h, at, s.size) && Holds32(read, h, at + 4, s.link) && Holds32(read, h, at + 8, s.info)
            && Holds32(read, h, at + 12, s.align) && Holds32(read, h, at + 16, s.entsize)
  {
    hide Has;
    hide Holds32;
    hide BigEndian32;
    var part := LastFields(s);
    Field32(f, h, at, part, 0, s.size);
    Field32(f, h, at, part, 4, s.link);
    Field32(f, h, at, part, 8, s.info);
    Field32(f, h, at, part, 12, s.align);
    Field32(f, h, at, part, 16, s.entsize);
  }

  // ----- The image -----

  lemma Pieces(signature: Digest)
    ensures var f := Example(signature);
            && Has(f, 0, IdentBytes(HEADER)) && Has(f, 16, AddressBytes(HEADER)) && Has(f, 40, SizeBytes(HEADER))
            && Has(f, 116, SIGNATURE_NAME + [0])
            && Has(f, 130, SectionBytes(SIGNATURE)) && Has(f, 170, SectionBytes(STRINGS))
  {
    hide IdentBytes;
    hide AddressBytes;
    hide SizeBytes;
    hide SectionBytes;
  }

  lemma NamesBuilt(f: seq<byte>)
    requires Has(f, 116, SIGNATURE_NAME + [0])
    ensures StringAt(FileReader(f), 116, SIGNATURE_NAME) && StringAt(FileReader(f), 129, [])
  {
    var part := SIGNATURE_NAME + [0];
    HasHolds(f, 116, part);
    assert |part| == 14;
    assert part[13..14] == [0] && [] + [0] == [0];
    HasPart(f, 116, part, 13, 1);
    HasHolds(f, 129, [0]);
  }

  lemma LayoutBuilt(signature: Digest)
    ensures var read := FileReader(Example(signature));
            && HeaderLayout(read, HEADER)
            && SectionLayout(read, HEADER, 130, SIGNATURE) && SectionLayout(read, HEADER, 170, STRINGS)
            && StringAt(read, 116, SIGNATURE_NAME) && StringAt(read, 129, [])
  {
    hide Has;
    hide Example;
    hide IdentLayout;
    hide AddressLayout;
    hide SizeLayout;
    hide SectionLayout;
    hide StringAt;
    var f := Example(signature);
    Pieces(signature);
    IdentBuilt(f, HEADER);
    AddressesBuilt(f, HEADER);
    SizesBuilt(f, HEADER);
    SectionBuilt(f, HEADER, 130, SIGNATURE);
    SectionBuilt(f, HEADER, 170, STRINGS);
    NamesBuilt(f);
  }

  /** Any 64 bytes can be the signature of a signed image. */
  lemma ExampleIsSigned(signature: Digest)
    ensures SignedImage(Example(signature), HEADER, [SIGNATURE, STRINGS], [SIGNATURE_NAME, []], 0)
  {
    hide HeaderLayout;
    hide SectionLayout;
    hide StringAt;
    hide Example;
    var read := FileReader(Example(signature));
    LayoutBuilt(signature);
    var sections, names := [SIGNATURE, STRINGS], [SIGNATURE_NAME, []];
    assert HasSection(read, HEADER, 0, sections[0]) && HasSection(read, HEADER, 1, sections[1]);
    assert HasName(read, STRINGS, sections[0], names[0]) && HasName(read, STRINGS, sections[1], names[1]);
    assert IsImage(read, HEADER, sections, names);
    hide IsImage;
    assert Apart(HEADER, sections, names, 52);
    assert FirstIndex(names, SIGNATURE_NAME, 0);
  }
}
