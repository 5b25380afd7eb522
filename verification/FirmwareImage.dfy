/** The firmware image creator: sections of a magic number, a length and data, nested two levels deep. */
module FirmwareImage {
  import opened Bytes

  const VERIFICATION: uint32 := 0x6ef44bc0
  const VERIFIED: uint32 := 0x1eda84bc
  const DUMMY: uint32 := 0xba50911a
  const FIRMWARE: uint32 := 0x40b80c0f
  const SHA512: uint32 := 0xb6eb9721
  const ED25519: uint32 := 0x9d6b1a99
  const FP: uint32 := 0x5bf0aa39
  const VERSION: uint32 := 0x44ed31be
  const COMPATIBILITY: uint32 := 0x3a1e112b

  const SPACE: byte := 0x20

  /** The magic numbers that have a name. */
  predicate Known(magic: uint32) {
    magic in {VERIFICATION, VERIFIED, DUMMY, FIRMWARE, SHA512, ED25519, FP, VERSION, COMPATIBILITY}
  }

  datatype Leaf = Leaf(magic: uint32, payload: seq<byte>)
  datatype Node = Node(magic: uint32, children: seq<Leaf>)

  // ----- Sections -----

  /** Lengths of 2^32 and more cannot be packed. */
  function BuildSection(magic: uint32, data: seq<byte>): Option<seq<byte>> {
    if |data| < U32 then Some(BigEndian32(magic) + BigEndian32(|data|) + data) else None
  }

  function Spaces(n: nat): (s: seq<byte>)
    ensures |s| == n
  {
    seq(n, _ => SPACE)
  }

  function PadMetadata(data: seq<byte>, reqLen: int): Option<seq<byte>> {
    if |data| > reqLen then None
    else if |data| == reqLen then Some(data)
    else if |data| > reqLen - 8 then None
    else match BuildSection(DUMMY, Spaces(reqLen - |data| - 8))
      case Some(s) => Some(data + s)
      case None => None
  }

  /** Padding gives the required length exactly, and exists only when nothing or a whole section is missing. */
  lemma PadIsExact(data: seq<byte>, reqLen: int)
    requires reqLen < U32
    ensures match PadMetadata(data, reqLen)
            case Some(p) => |p| == reqLen && data <= p
            case None => |data| != reqLen && |data| + 8 > reqLen
  {
  }

  // ----- What is built -----

  ghost predicate LeavesFit(leaves: seq<Leaf>) {
    forall i :: 0 <= i < |leaves| ==> |leaves[i].payload| < U32
  }

  function Header(magic: uint32, length: uint32): (s: seq<byte>)
    ensures |s| == 8
  {
    BigEndian32(magic) + BigEndian32(length)
  }

  ghost function Encoded(leaves: seq<Leaf>): seq<byte>
    requires LeavesFit(leaves)
  {
    if leaves == [] then []
    else Header(leaves[0].magic, |leaves[0].payload|) + leaves[0].payload + Encoded(leaves[1..])
  }

  ghost predicate NodesFit(nodes: seq<Node>) {
    forall i :: 0 <= i < |nodes| ==> LeavesFit(nodes[i].children) && |Encoded(nodes[i].children)| < U32
  }

  ghost function EncodedNodes(nodes: seq<Node>): seq<byte>
    requires NodesFit(nodes)
  {
    if nodes == [] then []
    else
      var data := Encoded(nodes[0].children);
      Header(nodes[0].magic, |data|) + data + EncodedNodes(nodes[1..])
  }

  lemma {:induction false} EncodedConcat(a: seq<Leaf>, b: seq<Leaf>)
    requires LeavesFit(a) && LeavesFit(b)
    ensures LeavesFit(a + b) && Encoded(a + b) == Encoded(a) + Encoded(b)
  {
    hide Header;
    if a == [] {
      assert a + b == b;
    } else {
      EncodedConcat(a[1..], b);
      FirstOfConcat(a, b);
    }
  }

  lemma FirstOfConcat(a: seq<Leaf>, b: seq<Leaf>)
    requires a != [] && LeavesFit(a) && LeavesFit(b) && LeavesFit(a[1..] + b)
    ensures LeavesFit(a + b)
    ensures Encoded(a + b) == Header(a[0].magic, |a[0].payload|) + a[0].payload + Encoded(a[1..] + b)
  {
    hide Header;
    assert (a + b)[1..] == a[1..] + b;
  }

  // ----- The walker -----

  /** One line of the listing of an image. */
  datatype Line = Line(indent: nat, magic: uint32, offset: int, dataOffset: int, length: uint32)

  /** What a walk printed, whether it ended with an exception, and what it left over. */
  datatype Walk = Walk(lines: seq<Line>, failed: bool, rest: seq<byte>, offset: int)

  function Prefix(s: seq<byte>, n: nat): seq<byte> {
    if |s| <= n then s else s[..n]
  }

  function Suffix(s: seq<byte>, n: nat): seq<byte> {
    if |s| <= n then [] else s[n..]
  }

  /** A short header or a magic number without a name is an exception; too long a length is cut. */
  function SectionWalk(data: seq<byte>, offset: int, indent: nat): (w: Walk)
    ensures data != [] && !w.failed ==> |w.rest| < |data|
    decreases |data|, 0
  {
    if indent > 1 then Walk([], false, [], 0)
    else if |data| < 8 then Walk([], true, data, offset)
    else
      var magic, length := Word32(data[0], data[1], data[2], data[3]), Word32(data[4], data[5], data[6], data[7]);
      if !Known(magic) then Walk([], true, data, offset)
      else
        var body := data[8..];
        var inner := ContentsWalk(Prefix(body, length), offset + 8, indent + 1);
        var lines := [Line(indent, magic, offset, offset + 8, length)] + inner.lines;
        if inner.failed then Walk(lines, true, data, offset)
        else Walk(lines, false, Suffix(body, length), offset + 8 + length)
  }

  function ContentsWalk(data: seq<byte>, offset: int, indent: nat): Walk
    decreases |data|, 1
  {
    if data == [] then Walk([], false, [], offset)
    else
      var first := SectionWalk(data, offset, indent);
      if first.failed then first
      else
        var others := ContentsWalk(first.rest, first.offset, indent);
        others.(lines := first.lines + others.lines)
  }

  method PrintSection(data: seq<byte>, offset: int, indent: nat) returns (w: Walk)
    ensures w == SectionWalk(data, offset, indent)
    decreases |data|
  {
    if indent > 1 {
      return Walk([], false, [], 0);
    }
    if |data| < 8 {
      return Walk([], true, data, offset);
    }
    var magic, length := Word32(data[0], data[1], data[2], data[3]), Word32(data[4], data[5], data[6], data[7]);
    if !Known(magic) {
      return Walk([], true, data, offset);
    }
    var body := data[8..];
    var sectionData, sectionOffset := Prefix(body, length), offset + 8;
    var lines := [Line(indent, magic, offset, sectionOffset, length)];
    ghost var whole := ContentsWalk(sectionData, sectionOffset, indent + 1);
    while |sectionData| > 0
      invariant |sectionData| <= |body|
      invariant var left := ContentsWalk(sectionData, sectionOffset, indent + 1);
                [Line(indent, magic, offset, offset + 8, length)] + whole.lines == lines + left.lines
                && whole.failed == left.failed
      decreases |sectionData|
    {
      var inner := PrintSection(sectionData, sectionOffset, indent + 1);
      lines := lines + inner.lines;
      if inner.failed {
        return Walk(lines, true, data, offset);
      }
      sectionData, sectionOffset := inner.rest, inner.offset;
    }
    w := Walk(lines, false, Suffix(body, length), offset + 8 + length);
  }

  method PrintSections(data: seq<byte>, offset: int) returns (failed: bool, lines: seq<Line>)
    ensures failed == ContentsWalk(data, offset, 0).failed && lines == ContentsWalk(data, offset, 0).lines
  {
    hide SectionWalk;
    failed, lines := false, [];
    var left, at := data, offset;
    while |left| > 0
      invariant ContentsWalk(data, offset, 0).lines == lines + ContentsWalk(left, at, 0).lines
      invariant ContentsWalk(data, offset, 0).failed == ContentsWalk(left, at, 0).failed
      decreases |left|
    {
      var w := PrintSection(left, at, 0);
      lines := lines + w.lines;
      if w.failed {
        failed := true;
        return;
      }
      left, at := w.rest, w.offset;
    }
  }

  // ----- The walker visits what was built -----

  ghost function LeafLines(leaves: seq<Leaf>, offset: int): seq<Line>
    requires LeavesFit(leaves)
  {
    if leaves == [] then []
    else
      var n := |leaves[0].payload|;
      [Line(1, leaves[0].magic, offset, offset + 8, n)] + LeafLines(leaves[1..], offset + 8 + n)
  }

  ghost function NodeLines(nodes: seq<Node>, offset: int): seq<Line>
    requires NodesFit(nodes)
  {
    if nodes == [] then []
    else
      var n := |Encoded(nodes[0].children)|;
      [Line(0, nodes[0].magic, offset, offset + 8, n)] + LeafLines(nodes[0].children, offset + 8)
      + NodeLines(nodes[1..], offset + 8 + n)
  }

  ghost predicate KnownLeaves(leaves: seq<Leaf>) {
    forall i :: 0 <= i < |leaves| ==> Known(leaves[i].magic)
  }

  ghost predicate KnownNodes(nodes: seq<Node>) {
    forall i :: 0 <= i < |nodes| ==> Known(nodes[i].magic) && KnownLeaves(nodes[i].children)
  }

  lemma HeaderFields(magic: uint32, length: uint32)
    ensures var h := Header(magic, length);
            Word32(h[0], h[1], h[2], h[3]) == magic && Word32(h[4], h[5], h[6], h[7]) == length
  {
    hide Word32;
    hide BigEndian32;
    var h := Header(magic, length);
    Word32Exact(h[0], h[1], h[2], h[3], magic);
    Word32Exact(h[4], h[5], h[6], h[7], length);
    assert h[..4] == BigEndian32(magic) && h[4..] == BigEndian32(length);
    assert [h[0], h[1], h[2], h[3]] == h[..4] && [h[4], h[5], h[6], h[7]] == h[4..];
  }

  /** One built section in front of other data: its line, what is inside, and the other data left. */
  lemma WalkOfSection(magic: uint32, payload: seq<byte>, rest: seq<byte>, offset: int, indent: nat)
    requires indent <= 1 && |payload| < U32 && Known(magic)
    requires !ContentsWalk(payload, offset + 8, indent + 1).failed
    ensures SectionWalk(Header(magic, |payload|) + payload + rest, offset, indent)
            == Walk([Line(indent, magic, offset, offset + 8, |payload|)]
                    + ContentsWalk(payload, offset + 8, indent + 1).lines,
                    false, rest, offset + 8 + |payload|)
  {
    hide ContentsWalk;
    hide Word32;
    hide Header;
    var h := Header(magic, |payload|);
    var data := h + payload + rest;
    HeaderFields(magic, |payload|);
    assert data[8..] == payload + rest;
    assert Prefix(payload + rest, |payload|) == payload;
    assert Suffix(payload + rest, |payload|) == rest;
  }

  lemma DeepWalk(payload: seq<byte>, offset: int)
    ensures ContentsWalk(payload, offset, 2).lines == [] && !ContentsWalk(payload, offset, 2).failed
  {
    if payload != [] {
      assert SectionWalk(payload, offset, 2) == Walk([], false, [], 0);
    }
  }

  lemma {:induction false} WalkOfLeaves(leaves: seq<Leaf>, offset: int)
    requires LeavesFit(leaves) && KnownLeaves(leaves)
    ensures ContentsWalk(Encoded(leaves), offset, 1)
            == Walk(LeafLines(leaves, offset), false, [], offset + |Encoded(leaves)|)
  {
    hide SectionWalk;
    if leaves == [] {
    } else {
      var l, rest := leaves[0], Encoded(leaves[1..]);
      DeepWalk(l.payload, offset + 8);
      WalkOfSection(l.magic, l.payload, rest, offset, 1);
      WalkOfLeaves(leaves[1..], offset + 8 + |l.payload|);
    }
  }

  /** The walk of built sections lists exactly those, in order, and ends without an exception. */
  lemma {:induction false} WalkOfNodes(nodes: seq<Node>, offset: int)
    requires NodesFit(nodes) && KnownNodes(nodes)
    ensures ContentsWalk(EncodedNodes(nodes), offset, 0)
            == Walk(NodeLines(nodes, offset), false, [], offset + |EncodedNodes(nodes)|)
  {
    hide SectionWalk;
    if nodes == [] {
    } else {
      var n, rest := nodes[0], EncodedNodes(nodes[1..]);
      var data := Encoded(n.children);
      WalkOfLeaves(n.children, offset + 8);
      WalkOfSection(n.magic, data, rest, offset, 0);
      WalkOfNodes(nodes[1..], offset + 8 + |data|);
    }
  }

  /** The sections of a tree in the order of the listing, with their data. */
  ghost function Flat(nodes: seq<Node>): seq<Leaf>
    requires NodesFit(nodes)
  {
    if nodes == [] then []
    else [Leaf(nodes[0].magic, Encoded(nodes[0].children))] + nodes[0].children + Flat(nodes[1..])
  }

  /** A line says where in the image, loaded at the base, a section and its data are. */
  ghost predicate Locates(line: Line, s: Leaf, image: seq<byte>, base: int) {
    && line.magic == s.magic && line.length == |s.payload| && line.dataOffset == line.offset + 8
    && base <= line.offset && line.dataOffset + line.length <= base + |image|
    && image[line.offset - base..line.dataOffset - base] == Header(s.magic, line.length)
    && image[line.dataOffset - base..line.dataOffset + line.length - base] == s.payload
  }

  ghost predicate AllLocated(lines: seq<Line>, sections: seq<Leaf>, image: seq<byte>, base: int) {
    |lines| == |sections| && forall i :: 0 <= i < |lines| ==> Locates(lines[i], sections[i], image, base)
  }

  lemma LocatesInside(line: Line, s: Leaf, image: seq<byte>, base: int, before: seq<byte>, after: seq<byte>)
    requires Locates(line, s, image, base)
    ensures Locates(line, s, before + image + after, base - |before|)
  {
    var whole, n := before + image + after, |before|;
    var a, b, c := line.offset - base, line.dataOffset - base, line.dataOffset + line.length - base;
    assert whole[a + n..b + n] == image[a..b];
    assert whole[b + n..c + n] == image[b..c];
  }

  lemma AllLocatedInside(lines: seq<Line>, sections: seq<Leaf>, image: seq<byte>, base: int,
                         before: seq<byte>, after: seq<byte>)
    requires AllLocated(lines, sections, image, base)
    ensures AllLocated(lines, sections, before + image + after, base - |before|)
  {
    forall i | 0 <= i < |lines|
      ensures Locates(lines[i], sections[i], before + image + after, base - |before|)
    {
      LocatesInside(lines[i], sections[i], image, base, before, after);
    }
  }

  lemma FirstLocated(indent: nat, magic: uint32, payload: seq<byte>, rest: seq<byte>, base: int)
    requires |payload| < U32
    ensures Locates(Line(indent, magic, base, base + 8, |payload|), Leaf(magic, payload),
                    Header(magic, |payload|) + payload + rest, base)
  {
  }

  lemma AllLocatedConcat(l1: seq<Line>, s1: seq<Leaf>, l2: seq<Line>, s2: seq<Leaf>, image: seq<byte>, base: int)
    requires AllLocated(l1, s1, image, base) && AllLocated(l2, s2, image, base)
    ensures AllLocated(l1 + l2, s1 + s2, image, base)
  {
    hide Locates;
  }

  lemma {:induction false} LeavesLocated(leaves: seq<Leaf>, base: int)
    requires LeavesFit(leaves)
    ensures AllLocated(LeafLines(leaves, base), leaves, Encoded(leaves), base)
  {
    hide Locates;
    if leaves == [] {
    } else {
      var l, rest := leaves[0], Encoded(leaves[1..]);
      var n := |l.payload|;
      var head := Header(l.magic, n) + l.payload;
      var image := head + rest;
      FirstLocated(1, l.magic, l.payload, rest, base);
      LeavesLocated(leaves[1..], base + 8 + n);
      AllLocatedInside(LeafLines(leaves[1..], base + 8 + n), leaves[1..], rest, base + 8 + n, head, []);
      assert head + rest + [] == image;
      AllLocatedConcat([Line(1, l.magic, base, base + 8, n)], [l], LeafLines(leaves[1..], base + 8 + n), leaves[1..],
                       image, base);
      assert [l] + leaves[1..] == leaves;
    }
  }

  /** Every line of the listing of built sections locates the header and the data of its section. */
  lemma {:induction false} NodesLocated(nodes: seq<Node>, base: int)
    requires NodesFit(nodes)
    ensures AllLocated(NodeLines(nodes, base), Flat(nodes), EncodedNodes(nodes), base)
  {
    hide Locates;
    hide AllLocated;
    hide Encoded;
    hide LeafLines;
    if nodes == [] {
      NoneLocated(base);
    } else {
      var d, rest := Encoded(nodes[0].children), EncodedNodes(nodes[1..]);
      var h := Header(nodes[0].magic, |d|);
      var image, after := h + d + rest, base + 8 + |d|;
      FirstLocated(0, nodes[0].magic, d, rest, base);
      LeavesLocated(nodes[0].children, base + 8);
      AllLocatedInside(LeafLines(nodes[0].children, base + 8), nodes[0].children, d, base + 8, h, rest);
      NodesLocated(nodes[1..], after);
      AllLocatedInside(NodeLines(nodes[1..], after), Flat(nodes[1..]), rest, after, h + d, []);
      assert h + d + rest + [] == image;
      OneLocated(Line(0, nodes[0].magic, base, base + 8, |d|), Leaf(nodes[0].magic, d), image, base);
      AllLocatedConcat([Line(0, nodes[0].magic, base, base + 8, |d|)], [Leaf(nodes[0].magic, d)],
                       LeafLines(nodes[0].children, base + 8), nodes[0].children, image, base);
      AllLocatedConcat([Line(0, nodes[0].magic, base, base + 8, |d|)] + LeafLines(nodes[0].children, base + 8),
                       [Leaf(nodes[0].magic, d)] + nodes[0].children,
                       NodeLines(nodes[1..], after), Flat(nodes[1..]), image, base);
    }
  }

  lemma NoneLocated(base: int)
    ensures AllLocated([], [], [], base)
  {
  }

  lemma OneLocated(line: Line, s: Leaf, image: seq<byte>, base: int)
    requires Locates(line, s, image, base)
    ensures AllLocated([line], [s], image, base)
  {
  }

  // ----- The script -----

  datatype Crypto = Crypto(sha512: seq<byte> -> Digest, publicKey: seq<byte> -> seq<byte>,
                           sign: (seq<byte>, seq<byte>, seq<byte>) -> Digest)

  datatype Options = Options(version: Option<seq<byte>>, compatibility: seq<seq<byte>>, fwOffset: int,
                             check: bool, hashKnown: bool, key: Option<File>)

  /** A file that the script is told to read. */
  datatype File = Unreadable | Contents(bytes: seq<byte>)

  datatype Outcome =
    | Image(image: seq<byte>)
    | TooBig
    | CannotReadInput
    | UnknownHash
    | NoHash
    | CannotReadKey
    | PackError

  ghost function Compatibilities(cs: seq<seq<byte>>): seq<Leaf> {
    seq(|cs|, i requires 0 <= i < |cs| => Leaf(COMPATIBILITY, cs[i]))
  }

  ghost function Metadata(o: Options): seq<Leaf> {
    (if o.version.Some? && o.version.value != [] then [Leaf(VERSION, o.version.value)] else [])
    + Compatibilities(o.compatibility)
  }

  ghost function VerifiedLeaves(o: Options, binary: seq<byte>): seq<Leaf>
    requires LeavesFit(Metadata(o)) && |Encoded(Metadata(o))| <= o.fwOffset - 24
  {
    Metadata(o) + [Leaf(DUMMY, Spaces(o.fwOffset - 24 - |Encoded(Metadata(o))|)), Leaf(FIRMWARE, binary)]
  }

  ghost function VerificationLeaves(o: Options, crypto: Crypto, verified: seq<byte>): seq<Leaf> {
    (if o.check then [Leaf(SHA512, crypto.sha512(verified))] else [])
    + match o.key
      case None => []
      case Some(Unreadable) => []
      case Some(Contents(key)) =>
        var public := crypto.publicKey(key);
        [Leaf(ED25519, crypto.sign(crypto.sha512(verified), key, public)), Leaf(FP, crypto.sha512(public)[..4])]
  }

  ghost predicate TreeFits(o: Options, binary: seq<byte>) {
    LeavesFit(Metadata(o)) && |Encoded(Metadata(o))| <= o.fwOffset - 24 && LeavesFit(VerifiedLeaves(o, binary))
  }

  /** The two sections of an image. */
  ghost function Tree(o: Options, binary: seq<byte>, crypto: Crypto): seq<Node>
    requires TreeFits(o, binary)
  {
    var verified := VerifiedLeaves(o, binary);
    [Node(VERIFIED, verified), Node(VERIFICATION, VerificationLeaves(o, crypto, Encoded(verified)))]
  }

  /** Only the binary can still be too long when the metadata and the padding fit. */
  lemma VerifiedFits(o: Options, binary: seq<byte>)
    requires LeavesFit(Metadata(o)) && |Encoded(Metadata(o))| <= o.fwOffset - 24
    ensures LeavesFit(VerifiedLeaves(o, binary))
            <==> o.fwOffset - 24 - |Encoded(Metadata(o))| < U32 && |binary| < U32
  {
    hide Encoded;
    var leaves, n := VerifiedLeaves(o, binary), |Metadata(o)|;
    assert leaves[n].payload == Spaces(o.fwOffset - 24 - |Encoded(Metadata(o))|) && leaves[n + 1].payload == binary;
  }

  /**
   * What running the script with these options and this input file comes to. A binary that is too
   * long for its section is reported like one that cannot be read.
   */
  ghost function Created(o: Options, binfile: File, crypto: Crypto): Outcome {
    hide Encoded;
    hide LeavesFit;
    hide Metadata;
    if !LeavesFit(Metadata(o)) then PackError
    else if |Encoded(Metadata(o))| > o.fwOffset - 24 then TooBig
    else if o.fwOffset - 24 - |Encoded(Metadata(o))| >= U32 then PackError
    else if binfile.Unreadable? || |binfile.bytes| >= U32 then CannotReadInput
    else if o.check && !o.hashKnown then UnknownHash
    else if o.key.Some? && !o.check then NoHash
    else if o.key == Some(Unreadable) then CannotReadKey
    else
      VerifiedFits(o, binfile.bytes);
      if !NodesFit(Tree(o, binfile.bytes, crypto)) then PackError
      else Image(EncodedNodes(Tree(o, binfile.bytes, crypto)))
  }

  lemma AppendLeaf(leaves: seq<Leaf>, l: Leaf)
    requires LeavesFit(leaves) && |l.payload| < U32
    ensures LeavesFit(leaves + [l])
    ensures Encoded(leaves + [l]) == Encoded(leaves) + Header(l.magic, |l.payload|) + l.payload
  {
    EncodedConcat(leaves, [l]);
    assert Encoded([l]) == Header(l.magic, |l.payload|) + l.payload + Encoded([]);
  }

  ghost function FirstMetadata(o: Options, n: nat): seq<Leaf>
    requires n <= |o.compatibility|
  {
    Metadata(o.(compatibility := o.compatibility[..n]))
  }

  lemma NextMetadata(o: Options, n: nat)
    requires n < |o.compatibility|
    ensures FirstMetadata(o, n + 1) == FirstMetadata(o, n) + [Leaf(COMPATIBILITY, o.compatibility[n])]
  {
  }

  lemma MetadataPrefix(o: Options, n: nat)
    requires n <= |o.compatibility|
    ensures LeavesFit(Metadata(o)) ==> LeavesFit(FirstMetadata(o, n))
  {
    assert FirstMetadata(o, n) == Metadata(o)[..|FirstMetadata(o, n)|];
  }

  /** The metadata sections, one after the other; none when one of them cannot be packed. */
  method CollectMetadata(o: Options) returns (r: Option<seq<byte>>)
    ensures r == if LeavesFit(Metadata(o)) then Some(Encoded(Metadata(o))) else None
  {
    hide Encoded;
    hide LeavesFit;
    var data: seq<byte> := [];
    NoLeaves();
    if o.version.Some? && o.version.value != [] {
      var s := BuildSection(VERSION, o.version.value);
      if s.None? {
        TooLong(Metadata(o), 0);
        return None;
      }
      AppendLeaf([], Leaf(VERSION, o.version.value));
      assert [] + [Leaf(VERSION, o.version.value)] == FirstMetadata(o, 0);
      data := data + s.value;
      assert data == Encoded([]) + Header(VERSION, |o.version.value|) + o.version.value;
    } else {
      assert FirstMetadata(o, 0) == [];
    }
    for i := 0 to |o.compatibility|
      invariant LeavesFit(FirstMetadata(o, i)) && data == Encoded(FirstMetadata(o, i))
    {
      NextMetadata(o, i);
      MetadataPrefix(o, i + 1);
      var s := BuildSection(COMPATIBILITY, o.compatibility[i]);
      if s.None? {
        TooLong(FirstMetadata(o, i + 1), |FirstMetadata(o, i)|);
        return None;
      }
      AppendLeaf(FirstMetadata(o, i), Leaf(COMPATIBILITY, o.compatibility[i]));
      data := data + s.value;
      Grouped(Encoded(FirstMetadata(o, i)), COMPATIBILITY, o.compatibility[i]);
    }
    assert o.compatibility[..|o.compatibility|] == o.compatibility;
    r := Some(data);
  }

  lemma Grouped(a: seq<byte>, magic: uint32, payload: seq<byte>)
    requires |payload| < U32
    ensures a + BuildSection(magic, payload).value == a + Header(magic, |payload|) + payload
  {
  }

  lemma NoLeaves()
    ensures LeavesFit([]) && Encoded([]) == []
  {
  }

  lemma TooLong(leaves: seq<Leaf>, i: nat)
    requires i < |leaves| && |leaves[i].payload| >= U32
    ensures !LeavesFit(leaves)
  {
  }

  /** The metadata, padded; none when the padding cannot be packed. */
  method PadVerified(o: Options, metadata: seq<byte>) returns (r: Option<seq<byte>>)
    requires LeavesFit(Metadata(o)) && metadata == Encoded(Metadata(o)) && |metadata| <= o.fwOffset - 24
    ensures var pad := Leaf(DUMMY, Spaces(o.fwOffset - 24 - |metadata|));
            if |pad.payload| >= U32 then r == None
            else LeavesFit(Metadata(o) + [pad]) && r == Some(Encoded(Metadata(o) + [pad]))
  {
    hide Encoded;
    hide LeavesFit;
    ghost var pad := Leaf(DUMMY, Spaces(o.fwOffset - 24 - |metadata|));
    r := PadMetadata(metadata, o.fwOffset - 16);
    if r.Some? {
      AppendLeaf(Metadata(o), pad);
      Grouped(metadata, DUMMY, pad.payload);
    }
  }

  /** The metadata, padded, and the binary after it. */
  method CollectVerified(o: Options, metadata: seq<byte>, binfile: File)
      returns (r: Option<seq<byte>>, failure: Outcome)
    requires LeavesFit(Metadata(o)) && metadata == Encoded(Metadata(o)) && |metadata| <= o.fwOffset - 24
    ensures match r
            case Some(verified) =>
              && binfile.Contents? && LeavesFit(VerifiedLeaves(o, binfile.bytes))
              && verified == Encoded(VerifiedLeaves(o, binfile.bytes))
            case None =>
              if o.fwOffset - 24 - |metadata| >= U32 then failure == PackError
              else (binfile.Unreadable? || |binfile.bytes| >= U32) && failure == CannotReadInput
  {
    hide Encoded;
    hide LeavesFit;
    hide Metadata;
    failure := PackError;
    var padded := PadVerified(o, metadata);
    if padded.None? {
      return None, failure;
    }
    failure := CannotReadInput;
    if binfile.Unreadable? {
      return None, failure;
    }
    var s := BuildSection(FIRMWARE, binfile.bytes);
    if s.None? {
      return None, failure;
    }
    ghost var pad, firmware := Leaf(DUMMY, Spaces(o.fwOffset - 24 - |metadata|)), Leaf(FIRMWARE, binfile.bytes);
    AppendLeaf(Metadata(o) + [pad], firmware);
    Grouped(padded.value, FIRMWARE, binfile.bytes);
    assert VerifiedLeaves(o, binfile.bytes) == Metadata(o) + [pad] + [firmware];
    r := Some(padded.value + s.value);
  }

  /** The hash, the signature and the fingerprint of the public key. */
  method CollectVerification(o: Options, crypto: Crypto, verified: seq<byte>) returns (data: seq<byte>)
    requires o.key.Some? ==> o.check && o.key.value.Contents?
    ensures LeavesFit(VerificationLeaves(o, crypto, verified))
    ensures data == Encoded(VerificationLeaves(o, crypto, verified))
  {
    hide Encoded;
    hide LeavesFit;
    data := [];
    NoLeaves();
    if o.check {
      var hash := crypto.sha512(verified);
      ghost var l1 := Leaf(SHA512, hash);
      AppendLeaf([], l1);
      data := data + BuildSection(SHA512, hash).value;
      assert [] + [l1] == [l1] && data == Encoded([l1]);
      if o.key.Some? {
        var public := crypto.publicKey(o.key.value.bytes);
        var signature := crypto.sign(hash, o.key.value.bytes, public);
        ghost var l2 := Leaf(ED25519, signature);
        AppendLeaf([l1], l2);
        Grouped(data, ED25519, signature);
        data := data + BuildSection(ED25519, signature).value;
        var fingerprint := crypto.sha512(public)[..4];
        ghost var l3 := Leaf(FP, fingerprint);
        AppendLeaf([l1] + [l2], l3);
        Grouped(data, FP, fingerprint);
        data := data + BuildSection(FP, fingerprint).value;
        assert [l1] + [l2] + [l3] == VerificationLeaves(o, crypto, verified);
      } else {
        assert [l1] == VerificationLeaves(o, crypto, verified);
      }
    } else {
      assert VerificationLeaves(o, crypto, verified) == [];
    }
  }

  /** The body of the script, from the options to the image it saves. */
  method Create(o: Options, binfile: File, crypto: Crypto) returns (r: Outcome)
    ensures r == Created(o, binfile, crypto)
  {
    hide Encoded;
    hide LeavesFit;
    hide Metadata;
    hide VerifiedLeaves;
    hide VerificationLeaves;
    var metadata := CollectMetadata(o);
    if metadata.None? {
      return PackError;
    }
    if |metadata.value| > o.fwOffset - 24 {
      return TooBig;
    }
    var verified, failure := CollectVerified(o, metadata.value, binfile);
    if verified.None? {
      return failure;
    }
    VerifiedFits(o, binfile.bytes);
    if o.check && !o.hashKnown {
      return UnknownHash;
    }
    if o.key.Some? && !o.check {
      return NoHash;
    }
    if o.key.Some? && o.key.value.Unreadable? {
      return CannotReadKey;
    }
    var verification := CollectVerification(o, crypto, verified.value);
    var first := BuildSection(VERIFIED, verified.value);
    var second := BuildSection(VERIFICATION, verification);
    ghost var tree := Tree(o, binfile.bytes, crypto);
    TwoNodes(tree);
    if first.None? || second.None? {
      return PackError;
    }
    r := Image(first.value + second.value);
  }

  lemma TwoNodes(nodes: seq<Node>)
    requires |nodes| == 2 && LeavesFit(nodes[0].children) && LeavesFit(nodes[1].children)
    ensures var a, b := Encoded(nodes[0].children), Encoded(nodes[1].children);
            && (NodesFit(nodes) <==> |a| < U32 && |b| < U32)
            && (NodesFit(nodes) ==>
                  EncodedNodes(nodes) == BuildSection(nodes[0].magic, a).value + BuildSection(nodes[1].magic, b).value)
  {
    var a, b := Encoded(nodes[0].children), Encoded(nodes[1].children);
    if NodesFit(nodes) {
      assert nodes[1..][1..] == [];
      assert EncodedNodes(nodes[1..]) == Header(nodes[1].magic, |b|) + b + EncodedNodes([]);
      assert EncodedNodes(nodes) == Header(nodes[0].magic, |a|) + a + EncodedNodes(nodes[1..]);
    }
    if |a| < U32 && |b| < U32 {
      assert NodesFit(nodes);
    }
  }

  /** In every image that is created the binary starts exactly at the offset asked for. */
  lemma BinaryAtOffset(o: Options, binary: seq<byte>, crypto: Crypto)
    requires Created(o, Contents(binary), crypto).Image?
    ensures var s := Created(o, Contents(binary), crypto).image;
            && 0 <= o.fwOffset && o.fwOffset + |binary| <= |s|
            && s[o.fwOffset..o.fwOffset + |binary|] == binary
  {
    hide Encoded;
    hide VerificationLeaves;
    VerifiedFits(o, binary);
    var tree, s := Tree(o, binary, crypto), Created(o, Contents(binary), crypto).image;
    TwoNodes(tree);
    var verified, meta := VerifiedLeaves(o, binary), Encoded(Metadata(o));
    var pad := Leaf(DUMMY, Spaces(o.fwOffset - 24 - |meta|));
    assert verified == Metadata(o) + [pad] + [Leaf(FIRMWARE, binary)];
    assert verified[|Metadata(o)|] == pad && verified[|Metadata(o)| + 1] == Leaf(FIRMWARE, binary);
    AppendLeaf(Metadata(o), pad);
    AppendLeaf(Metadata(o) + [pad], Leaf(FIRMWARE, binary));
    var before := Header(VERIFIED, |Encoded(verified)|) + Encoded(Metadata(o) + [pad]) + Header(FIRMWARE, |binary|);
    assert |before| == o.fwOffset;
    var after := BuildSection(VERIFICATION, Encoded(tree[1].children)).value;
    assert s == before + binary + after;
  }

  /**
   * The listing of every image that is created ends without an exception and visits exactly its
   * sections, each line locating the header and the data of its section.
   */
  lemma ListingOfCreated(o: Options, binary: seq<byte>, crypto: Crypto, base: int)
    requires Created(o, Contents(binary), crypto).Image?
    ensures var s := Created(o, Contents(binary), crypto).image;
            var w := ContentsWalk(s, base, 0);
            TreeFits(o, binary) && !w.failed && AllLocated(w.lines, Flat(Tree(o, binary, crypto)), s, base)
  {
    hide Encoded;
    hide AllLocated;
    hide ContentsWalk;
    VerifiedFits(o, binary);
    var tree := Tree(o, binary, crypto);
    TreeIsKnown(o, binary, crypto);
    WalkOfNodes(tree, base);
    NodesLocated(tree, base);
  }

  lemma TreeIsKnown(o: Options, binary: seq<byte>, crypto: Crypto)
    requires TreeFits(o, binary)
    ensures KnownNodes(Tree(o, binary, crypto))
  {
    hide Encoded;
  }
}
