/** The reader of ELF files (TIS ELF Specification 1.2, Book I), over a callback that delivers single bytes. */
module TinyElf {
  import opened Bytes

  /** The byte the callback delivers at a position; none when it fails or runs short. */
  type Reader = uint32 -> Option<byte>

  const MAGIC: uint32 := 0x7f454c46
  const CLASS_ELF32: byte := 1
  const CLASS_ELF64: byte := 2
  const DATA_BIG: byte := 2
  const MAX_NAME := 32

  datatype Header = Header(cls: byte, data: byte, version: byte, osabi: byte, abiversion: byte,
                           typ: uint16, machine: uint16, version2: uint32,
                           entry: uint32, phoff: uint32, shoff: uint32, flags: uint32,
                           ehsize: uint16, phentsize: uint16, phnum: uint16,
                           shentsize: uint16, shnum: uint16, shstrndx: uint16)

  datatype Section = Section(name: uint32, typ: uint32, flags: uint32, addr: uint32, offset: uint32,
                             size: uint32, link: uint32, info: uint32, align: uint32, entsize: uint32)

  datatype Segment = Segment(typ: uint32, flags: uint32, offset: uint32, vaddr: uint32, paddr: uint32,
                             filesz: uint32, memsz: uint32, align: uint32)

  const NO_HEADER := Header(0, 0, 0, 0, 0, 0, 0, 0, 0, 0, 0, 0, 0, 0, 0, 0, 0, 0)
  const NO_SECTION := Section(0, 0, 0, 0, 0, 0, 0, 0, 0, 0)
  const NO_SEGMENT := Segment(0, 0, 0, 0, 0, 0, 0, 0)

  // ----- What a load gives, and where it leaves the cursor -----

  function Byte(read: Reader, pos: uint32): byte {
    match read(pos)
    case Some(b) => b
    case None => 0
  }

  /** A failed read leaves the cursor where it was; past the last position it starts again at 0. */
  function Next(read: Reader, pos: uint32): uint32 {
    if read(pos).None? then pos else if pos + 1 == U32 then 0 else pos + 1
  }

  function After2(read: Reader, pos: uint32): uint32 {
    Next(read, Next(read, pos))
  }

  function After4(read: Reader, pos: uint32): uint32 {
    After2(read, After2(read, pos))
  }

  function Number16(data: byte, b0: byte, b1: byte): uint16 {
    if data == DATA_BIG then Word16(b0, b1) else Word16(b1, b0)
  }

  function Number32(data: byte, b0: byte, b1: byte, b2: byte, b3: byte): uint32 {
    if data == DATA_BIG then Word32(b0, b1, b2, b3) else Word32(b3, b2, b1, b0)
  }

  function Load16(read: Reader, data: byte, pos: uint32): uint16 {
    Number16(data, Byte(read, pos), Byte(read, Next(read, pos)))
  }

  function Load32(read: Reader, data: byte, pos: uint32): uint32 {
    var p2 := After2(read, pos);
    Number32(data, Byte(read, pos), Byte(read, Next(read, pos)), Byte(read, p2), Byte(read, Next(read, p2)))
  }

  /** Addresses and offsets are read for ELF32 only: for anything else nothing is read. */
  function LoadPtr(read: Reader, cls: byte, data: byte, pos: uint32): uint32 {
    if cls == CLASS_ELF32 then Load32(read, data, pos) else 0
  }

  function AfterPtr(read: Reader, cls: byte, pos: uint32): uint32 {
    if cls == CLASS_ELF32 then After4(read, pos) else pos
  }

  function ParsedIdent(read: Reader): (Header, uint32) {
    var p0 := After4(read, 0);
    var p1 := Next(read, p0);
    var p2 := Next(read, p1);
    var p3 := Next(read, p2);
    var p4 := Next(read, p3);
    var p5 := Next(read, p4);
    (NO_HEADER.(cls := Byte(read, p0), data := Byte(read, p1), version := Byte(read, p2),
                osabi := Byte(read, p3), abiversion := Byte(read, p4)),
     (p5 + 7) % U32)
  }

  function ParsedAddresses(read: Reader, h: Header, p0: uint32): (Header, uint32) {
    var c, d := h.cls, h.data;
    var p1 := After2(read, p0);
    var p2 := After2(read, p1);
    var p3 := After4(read, p2);
    var p4 := AfterPtr(read, c, p3);
    var p5 := AfterPtr(read, c, p4);
    var p6 := AfterPtr(read, c, p5);
    (h.(typ := Load16(read, d, p0), machine := Load16(read, d, p1), version2 := Load32(read, d, p2),
        entry := LoadPtr(read, c, d, p3), phoff := LoadPtr(read, c, d, p4), shoff := LoadPtr(read, c, d, p5),
        flags := Load32(read, d, p6)),
     After4(read, p6))
  }

  function ParsedSizes(read: Reader, h: Header, p0: uint32): (Header, uint32) {
    var d := h.data;
    var p1 := After2(read, p0);
    var p2 := After2(read, p1);
    var p3 := After2(read, p2);
    var p4 := After2(read, p3);
    var p5 := After2(read, p4);
    (h.(ehsize := Load16(read, d, p0), phentsize := Load16(read, d, p1), phnum := Load16(read, d, p2),
        shentsize := Load16(read, d, p3), shnum := Load16(read, d, p4), shstrndx := Load16(read, d, p5)),
     After2(read, p5))
  }

  /** The header at the start of what the callback reads, if it starts with the ELF magic. */
  function Parsed(read: Reader): Option<Header> {
    if Load32(read, DATA_BIG, 0) != MAGIC then None
    else
      var (ident, p) := ParsedIdent(read);
      var (addresses, q) := ParsedAddresses(read, ident, p);
      Some(ParsedSizes(read, addresses, q).0)
  }

  function SectionPosition(h: Header, i: uint32): uint32 {
    (h.shoff + h.shentsize * i) % U32
  }

  function SectionAt(read: Reader, h: Header, i: uint32): Section {
    var c, d, p0 := h.cls, h.data, SectionPosition(h, i);
    var p1 := AfterPtr(read, c, p0);
    var p2 := After4(read, p1);
    var p3 := After4(read, p2);
    var p4 := AfterPtr(read, c, p3);
    var p5 := AfterPtr(read, c, p4);
    var p6 := AfterPtr(read, c, p5);
    var p7 := After4(read, p6);
    var p8 := After4(read, p7);
    var p9 := After4(read, p8);
    Section(LoadPtr(read, c, d, p0), Load32(read, d, p1), Load32(read, d, p2), LoadPtr(read, c, d, p3),
            LoadPtr(read, c, d, p4), LoadPtr(read, c, d, p5), Load32(read, d, p6), Load32(read, d, p7),
            Load32(read, d, p8), Load32(read, d, p9))
  }

  function SegmentPosition(h: Header, i: uint32): uint32 {
    (h.phoff + h.phentsize * i) % U32
  }

  function SegmentAt(read: Reader, h: Header, i: uint32, stale: uint32): Segment {
    SegmentFields(read, h.cls, h.data, SegmentPosition(h, i), stale)
  }

  /** The flags come second in ELF64 and second to last in ELF32; otherwise the stale ones stay. */
  function SegmentFields(read: Reader, c: byte, d: byte, p0: uint32, stale: uint32): Segment {
    var p1 := After4(read, p0);
    var p2 := if c == CLASS_ELF64 then After4(read, p1) else p1;
    var p3 := AfterPtr(read, c, p2);
    var p4 := AfterPtr(read, c, p3);
    var p5 := AfterPtr(read, c, p4);
    var p6 := AfterPtr(read, c, p5);
    var p7 := AfterPtr(read, c, p6);
    var p8 := AfterPtr(read, c, p7);
    var flags := if c == CLASS_ELF64 then Load32(read, d, p1)
                 else if c == CLASS_ELF32 then Load32(read, d, p7)
                 else stale;
    Segment(Load32(read, d, p0), flags, LoadPtr(read, c, d, p2), LoadPtr(read, c, d, p3), LoadPtr(read, c, d, p4),
            LoadPtr(read, c, d, p5), LoadPtr(read, c, d, p6), LoadPtr(read, c, d, p8))
  }

  /** The characters before the terminator, at most as many as there is room for. */
  function NameFrom(read: Reader, pos: uint32, room: nat): seq<byte>
    decreases room, pos
  {
    var c := Byte(read, pos);
    if c == 0 || room == 0 then [] else [c] + NameFrom(read, Next(read, pos), room - 1)
  }

  /** Names are looked up in the section that holds the section names; without it they are empty. */
  function NameOf(read: Reader, h: Header, name: uint32, room: nat): seq<byte> {
    hide SectionAt;
    if h.shstrndx >= h.shnum then []
    else NameFrom(read, (SectionAt(read, h, h.shstrndx).offset + name) % U32, room)
  }

  predicate IsNamed(read: Reader, h: Header, i: uint32, name: seq<byte>) {
    hide SectionAt;
    hide NameOf;
    NameOf(read, h, SectionAt(read, h, i).name, MAX_NAME - 1) == name
  }

  /** The first section from number i on that has the name. */
  function FindFrom(read: Reader, h: Header, name: seq<byte>, i: uint32): Option<Section>
    decreases h.shnum - i
  {
    hide IsNamed;
    hide SectionAt;
    if i >= h.shnum then None
    else if IsNamed(read, h, i, name) then Some(SectionAt(read, h, i))
    else FindFrom(read, h, name, i + 1)
  }

  // ----- The reader -----

  class Elf {
    var read: Reader
    var cursor: uint32
    var header: Header

    constructor (read: Reader)
      ensures this.read == read && cursor == 0 && header == NO_HEADER
    {
      this.read := read;
      cursor := 0;
      header := NO_HEADER;
    }

    method Init(read: Reader)
      modifies this
      ensures this.read == read && cursor == 0 && header == NO_HEADER
    {
      this.read := read;
      cursor := 0;
      header := NO_HEADER;
    }

    method LoadUint8() returns (r: byte)
      modifies `cursor
      ensures r == Byte(read, old(cursor)) && cursor == Next(read, old(cursor))
    {
      var got := read(cursor);
      match got
      case Some(b) =>
        cursor := (cursor + 1) % U32;
        r := b;
      case None =>
        r := 0;
    }

    method LoadUint16() returns (r: uint16)
      modifies `cursor
      ensures r == Load16(read, header.data, old(cursor)) && cursor == After2(read, old(cursor))
    {
      var b0 := LoadUint8();
      var b1 := LoadUint8();
      r := Number16(header.data, b0, b1);
    }

    method LoadUint32() returns (r: uint32)
      modifies `cursor
      ensures r == Load32(read, header.data, old(cursor)) && cursor == After4(read, old(cursor))
    {
      var b0 := LoadUint8();
      var b1 := LoadUint8();
      var b2 := LoadUint8();
      var b3 := LoadUint8();
      r := Number32(header.data, b0, b1, b2, b3);
    }

    method LoadAddress() returns (r: uint32)
      modifies `cursor
      ensures r == LoadPtr(read, header.cls, header.data, old(cursor))
      ensures cursor == AfterPtr(read, header.cls, old(cursor))
    {
      if header.cls == CLASS_ELF32 {
        r := LoadUint32();
      } else {
        r := 0;
      }
    }

    method ParseIdent()
      modifies `cursor, `header
      requires cursor == After4(read, 0)
      ensures cursor == ParsedIdent(read).1
      ensures var h := ParsedIdent(read).0;
              header == old(header).(cls := h.cls, data := h.data, version := h.version, osabi := h.osabi,
                                     abiversion := h.abiversion)
    {
      hide After2;
      hide After4;
      hide Byte;
      hide Next;
      var b := LoadUint8();
      header := header.(cls := b);
      b := LoadUint8();
      header := header.(data := b);
      b := LoadUint8();
      header := header.(version := b);
      b := LoadUint8();
      header := header.(osabi := b);
      b := LoadUint8();
      header := header.(abiversion := b);
      cursor := (cursor + 7) % U32;
    }

    method ParseAddresses()
      modifies `cursor, `header
      ensures (header, cursor) == ParsedAddresses(read, old(header), old(cursor))
    {
      hide After2;
      hide After4;
      hide Load16;
      hide Load32;
      hide LoadPtr;
      hide AfterPtr;
      var w := LoadUint16();
      header := header.(typ := w);
      w := LoadUint16();
      header := header.(machine := w);
      var v := LoadUint32();
      header := header.(version2 := v);
      v := LoadAddress();
      header := header.(entry := v);
      v := LoadAddress();
      header := header.(phoff := v);
      v := LoadAddress();
      header := header.(shoff := v);
      v := LoadUint32();
      header := header.(flags := v);
    }

    method ParseSizes()
      modifies `cursor, `header
      ensures (header, cursor) == ParsedSizes(read, old(header), old(cursor))
    {
      hide After2;
      hide After4;
      hide Load16;
      var w := LoadUint16();
      header := header.(ehsize := w);
      w := LoadUint16();
      header := header.(phentsize := w);
      w := LoadUint16();
      header := header.(phnum := w);
      w := LoadUint16();
      header := header.(shentsize := w);
      w := LoadUint16();
      header := header.(shnum := w);
      w := LoadUint16();
      header := header.(shstrndx := w);
    }

    /** Without the ELF magic nothing but the byte order of the header changes. */
    method Parse() returns (ok: bool)
      modifies `cursor, `header
      ensures ok <==> Parsed(read).Some?
      ensures header == if ok then Parsed(read).value else old(header).(data := DATA_BIG)
    {
      hide After2;
      hide After4;
      hide Load32;
      header := header.(data := DATA_BIG);
      cursor := 0;
      var magic := LoadUint32();
      if magic != MAGIC {
        return false;
      }
      ParseIdent();
      ParseAddresses();
      ParseSizes();
      ok := true;
    }

    method ShdrGet(i: uint32) returns (ok: bool, s: Section)
      modifies `cursor
      ensures ok <==> i < header.shnum
      ensures ok ==> s == SectionAt(read, header, i)
    {
      hide After2;
      hide After4;
      hide Load32;
      hide LoadPtr;
      hide AfterPtr;
      ok, s := false, NO_SECTION;
      if i < header.shnum {
        cursor := (header.shoff + header.shentsize * i) % U32;
        var name := LoadAddress();
        var typ := LoadUint32();
        var flags := LoadUint32();
        var addr := LoadAddress();
        var offset := LoadAddress();
        var size := LoadAddress();
        var link := LoadUint32();
        var info := LoadUint32();
        var align := LoadUint32();
        var entsize := LoadUint32();
        ok, s := true, Section(name, typ, flags, addr, offset, size, link, info, align, entsize);
      }
    }

    method PhdrGet(i: uint32, stale: Segment) returns (ok: bool, s: Segment)
      modifies `cursor
      ensures ok <==> i < header.phnum
      ensures s == if ok then SegmentAt(read, header, i, stale.flags) else stale
    {
      hide After2;
      hide After4;
      hide Load32;
      hide LoadPtr;
      ok, s := false, stale;
      if i < header.phnum {
        cursor := (header.phoff + header.phentsize * i) % U32;
        var typ := LoadUint32();
        var flags := stale.flags;
        if header.cls == CLASS_ELF64 {
          flags := LoadUint32();
        }
        var offset := LoadAddress();
        var vaddr := LoadAddress();
        var paddr := LoadAddress();
        var filesz := LoadAddress();
        var memsz := LoadAddress();
        if header.cls == CLASS_ELF32 {
          flags := LoadUint32();
        }
        var align := LoadAddress();
        ok, s := true, Segment(typ, flags, offset, vaddr, paddr, filesz, memsz, align);
      }
    }

    /**
     * Copies a name and a terminator into a buffer of the given size: its characters are what is
     * returned. The terminator is written even when the size is zero.
     */
    method SectionGetName(offset: uint32, size: nat) returns (ok: bool, name: seq<byte>)
      modifies `cursor
      ensures ok <==> header.shstrndx < header.shnum
      ensures name == NameOf(read, header, offset, if size == 0 then 0 else size - 1)
    {
      hide SectionAt;
      hide NameFrom;
      name := [];
      var str: Section;
      ok, str := ShdrGet(header.shstrndx);
      if !ok {
        return;
      }
      cursor := (str.offset + offset) % U32;
      name := CopyName(size);
    }

    method CopyName(size: nat) returns (name: seq<byte>)
      modifies `cursor
      ensures name == NameFrom(read, old(cursor), if size == 0 then 0 else size - 1)
    {
      ghost var room := if size == 0 then 0 else size - 1;
      hide Next;
      hide Byte;
      name := [];
      var left := size;
      var c := LoadUint8();
      while c != 0 && left > 1
        invariant NameFrom(read, old(cursor), room)
                  == name + (if c == 0 || left <= 1 then [] else [c] + NameFrom(read, cursor, left - 2))
        decreases left
      {
        name := name + [c];
        left := left - 1;
        c := LoadUint8();
      }
    }

    /** A linear search; the names are cut to the size of the buffer they are copied to. */
    method FindByName(name: seq<byte>) returns (ok: bool, s: Section)
      modifies `cursor
      ensures var found := FindFrom(read, header, name, 0);
              ok == found.Some? && (ok ==> s == found.value)
    {
      hide SectionAt;
      hide NameOf;
      var i: uint32 := 0;
      ok, s := ShdrGet(i);
      while ok
        invariant i <= header.shnum && (ok <==> i < header.shnum)
        invariant ok ==> s == SectionAt(read, header, i)
        invariant FindFrom(read, header, name, 0) == FindFrom(read, header, name, i)
        decreases header.shnum - i
      {
        var named, fname := SectionGetName(s.name, MAX_NAME);
        if name == fname {
          return;
        }
        i := i + 1;
        ok, s := ShdrGet(i);
      }
    }
  }

  ghost predicate FirstNamed(read: Reader, h: Header, i: uint32, name: seq<byte>) {
    && i < h.shnum && IsNamed(read, h, i, name)
    && forall j: uint32 :: j < i ==> !IsNamed(read, h, j, name)
  }

  /** The search finds the first section with the name, and fails only if there is none. */
  lemma {:induction false} FindFromIsFirst(read: Reader, h: Header, name: seq<byte>, i: uint32)
    requires forall j: uint32 :: j < i ==> !IsNamed(read, h, j, name)
    ensures match FindFrom(read, h, name, i)
            case Some(s) => (exists k: uint32 :: FirstNamed(read, h, k, name) && s == SectionAt(read, h, k))
            case None => (forall k: uint32 :: k < h.shnum ==> !IsNamed(read, h, k, name))
    decreases h.shnum - i
  {
    hide SectionAt;
    hide NameOf;
    if i >= h.shnum {
    } else {
      if IsNamed(read, h, i, name) {
        assert FirstNamed(read, h, i, name);
      } else {
        FindFromIsFirst(read, h, name, i + 1);
      }
    }
  }
}
