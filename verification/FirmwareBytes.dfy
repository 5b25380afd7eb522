/** The firmware image byte by byte: what it holds, what is hashed and signed, and when there is one. */
module FirmwareBytes {
  import opened Bytes
  import opened FirmwareImage

  /** A magic number and a length, most significant byte first, and data. */
  function Section(magic: uint32, data: seq<byte>): seq<byte>
    requires |data| < U32
  {
    var n := |data|;
    [magic / 0x100_0000, magic / 0x1_0000 % 0x100, magic / 0x100 % 0x100, magic % 0x100,
     n / 0x100_0000, n / 0x1_0000 % 0x100, n / 0x100 % 0x100, n % 0x100] + data
  }

  function CompatibilityBytes(cs: seq<seq<byte>>): seq<byte>
    requires forall i :: 0 <= i < |cs| ==> |cs[i]| < U32
  {
    if cs == [] then [] else Section(0x3a1e112b, cs[0]) + CompatibilityBytes(cs[1..])
  }

  /** Everything that is told about the firmware can be packed. */
  predicate Packable(o: Options) {
    && (o.version.Some? ==> |o.version.value| < U32)
    && forall i :: 0 <= i < |o.compatibility| ==> |o.compatibility[i]| < U32
  }

  /** The version, if there is one, and the compatibility strings. */
  function MetadataBytes(o: Options): seq<byte>
    requires Packable(o)
  {
    (if o.version.Some? && o.version.value != [] then Section(0x44ed31be, o.version.value) else [])
    + CompatibilityBytes(o.compatibility)
  }

  /** The metadata, spaces up to the offset, and the binary. */
  function VerifiedBytes(o: Options, binary: seq<byte>): seq<byte>
    requires Packable(o) && 0 <= o.fwOffset - 24 - |MetadataBytes(o)| < U32 && |binary| < U32
  {
    MetadataBytes(o)
    + Section(0xba50911a, seq(o.fwOffset - 24 - |MetadataBytes(o)|, _ => 0x20))
    + Section(0x40b80c0f, binary)
  }

  /** The hash of all that, its signature and four bytes of the hash of the public key, as far as they are asked for. */
  function VerificationBytes(o: Options, crypto: Crypto, verified: seq<byte>): seq<byte> {
    (if o.check then Section(0xb6eb9721, crypto.sha512(verified)) else [])
    + match o.key
      case Some(Contents(key)) =>
        Section(0x9d6b1a99, crypto.sign(crypto.sha512(verified), key, crypto.publicKey(key)))
        + Section(0x5bf0aa39, crypto.sha512(crypto.publicKey(key))[..4])
      case _ => []
  }

  lemma OneLeaf(l: Leaf)
    requires |l.payload| < U32
    ensures LeavesFit([l]) && Encoded([l]) == Section(l.magic, l.payload)
  {
    assert Encoded([l]) == FirmwareImage.Header(l.magic, |l.payload|) + l.payload + Encoded([]);
    assert FirmwareImage.Header(l.magic, |l.payload|) + l.payload == Section(l.magic, l.payload);
  }

  lemma {:induction false} CompatibilityIs(cs: seq<seq<byte>>)
    ensures LeavesFit(Compatibilities(cs)) <==> forall i :: 0 <= i < |cs| ==> |cs[i]| < U32
    ensures LeavesFit(Compatibilities(cs)) ==> Encoded(Compatibilities(cs)) == CompatibilityBytes(cs)
    decreases |cs|
  {
    hide Section;
    assert forall i :: 0 <= i < |cs| ==> Compatibilities(cs)[i].payload == cs[i];
    if cs == [] {
    } else if LeavesFit(Compatibilities(cs)) {
      var first, rest := Leaf(COMPATIBILITY, cs[0]), Compatibilities(cs[1..]);
      assert Compatibilities(cs) == [first] + rest;
      assert Compatibilities(cs)[0] == first;
      CompatibilityIs(cs[1..]);
      OneLeaf(first);
      EncodedConcat([first], rest);
    }
  }

  lemma MetadataIs(o: Options)
    ensures LeavesFit(Metadata(o)) <==> Packable(o)
    ensures Packable(o) ==> Encoded(Metadata(o)) == MetadataBytes(o)
  {
    hide Encoded;
    hide Section;
    CompatibilityIs(o.compatibility);
    if o.version.Some? && o.version.value != [] {
      var first, rest := Leaf(VERSION, o.version.value), Compatibilities(o.compatibility);
      var all := Metadata(o);
      assert all == [first] + rest && all[0] == first;
      assert forall i :: 0 <= i < |rest| ==> all[i + 1] == rest[i];
      if Packable(o) {
        OneLeaf(first);
        EncodedConcat([first], rest);
      }
    } else {
      assert Metadata(o) == Compatibilities(o.compatibility);
      if Packable(o) {
        assert [] + CompatibilityBytes(o.compatibility) == CompatibilityBytes(o.compatibility);
      }
    }
  }

  lemma VerifiedIs(o: Options, binary: seq<byte>)
    requires Packable(o) && 0 <= o.fwOffset - 24 - |MetadataBytes(o)| < U32 && |binary| < U32
    ensures LeavesFit(Metadata(o)) && Encoded(Metadata(o)) == MetadataBytes(o)
    ensures LeavesFit(VerifiedLeaves(o, binary))
    ensures Encoded(VerifiedLeaves(o, binary)) == VerifiedBytes(o, binary)
  {
    hide Encoded;
    hide Section;
    MetadataIs(o);
    VerifiedFits(o, binary);
    var meta := Metadata(o);
    var pad := Leaf(DUMMY, Spaces(o.fwOffset - 24 - |MetadataBytes(o)|));
    var firmware := Leaf(FIRMWARE, binary);
    OneLeaf(pad);
    OneLeaf(firmware);
    EncodedConcat(meta, [pad]);
    EncodedConcat(meta + [pad], [firmware]);
    assert VerifiedLeaves(o, binary) == meta + [pad] + [firmware];
    assert Spaces(o.fwOffset - 24 - |MetadataBytes(o)|) == seq(o.fwOffset - 24 - |MetadataBytes(o)|, _ => 0x20);
  }

  lemma VerificationIs(o: Options, crypto: Crypto, verified: seq<byte>)
    ensures LeavesFit(VerificationLeaves(o, crypto, verified))
    ensures Encoded(VerificationLeaves(o, crypto, verified)) == VerificationBytes(o, crypto, verified)
    ensures |VerificationBytes(o, crypto, verified)| <= 156
  {
    hide Encoded;
    var hash := Leaf(SHA512, crypto.sha512(verified));
    NoLeaves();
    OneLeaf(hash);
    match o.key
    case Some(Contents(key)) =>
      var public := crypto.publicKey(key);
      var signature := Leaf(ED25519, crypto.sign(crypto.sha512(verified), key, public));
      var fp := Leaf(FP, crypto.sha512(public)[..4]);
      OneLeaf(signature);
      OneLeaf(fp);
      EncodedConcat([signature], [fp]);
      assert [signature] + [fp] == [signature, fp];
      if o.check {
        EncodedConcat([hash], [signature, fp]);
      } else {
        assert VerificationLeaves(o, crypto, verified) == [signature, fp];
      }
    case _ =>
      assert VerificationLeaves(o, crypto, verified) == if o.check then [hash] else [];
  }

  /**
   * An image is created exactly if the binary and the key can be read, everything fits, the hash is one that is
   * known, and a hash is asked for when a signature is. It consists of the verified and the verification section,
   * byte for byte.
   */
  lemma CreatedExactly(o: Options, binfile: File, crypto: Crypto)
    ensures Created(o, binfile, crypto).Image?
            <==> && Packable(o) && 0 <= o.fwOffset - 24 - |MetadataBytes(o)| < U32
                 && binfile.Contents? && |binfile.bytes| < U32
                 && (o.check ==> o.hashKnown) && (o.key.Some? ==> o.check && o.key.value.Contents?)
                 && |VerifiedBytes(o, binfile.bytes)| < U32
    ensures Created(o, binfile, crypto).Image? ==>
              var v := VerifiedBytes(o, binfile.bytes);
              |VerificationBytes(o, crypto, v)| < U32
              && Created(o, binfile, crypto).image
                 == Section(0x1eda84bc, v) + Section(0x6ef44bc0, VerificationBytes(o, crypto, v))
  {
    hide Encoded;
    hide Section;
    hide MetadataBytes;
    hide VerifiedBytes;
    hide VerificationBytes;
    hide VerifiedLeaves;
    hide VerificationLeaves;
    hide Metadata;
    MetadataIs(o);
    if && Packable(o) && 0 <= o.fwOffset - 24 - |MetadataBytes(o)| < U32 && binfile.Contents?
       && |binfile.bytes| < U32 {
      TreeIs(o, binfile.bytes, crypto);
    }
  }

  lemma TreeIs(o: Options, binary: seq<byte>, crypto: Crypto)
    requires Packable(o) && 0 <= o.fwOffset - 24 - |MetadataBytes(o)| < U32 && |binary| < U32
    ensures TreeFits(o, binary)
    ensures NodesFit(Tree(o, binary, crypto)) <==> |VerifiedBytes(o, binary)| < U32
    ensures |VerificationBytes(o, crypto, VerifiedBytes(o, binary))| < U32
    ensures |VerifiedBytes(o, binary)| < U32 ==>
              EncodedNodes(Tree(o, binary, crypto))
              == Section(0x1eda84bc, VerifiedBytes(o, binary))
                 + Section(0x6ef44bc0, VerificationBytes(o, crypto, VerifiedBytes(o, binary)))
  {
    hide Encoded;
    hide VerifiedBytes;
    hide VerificationBytes;
    hide VerifiedLeaves;
    hide VerificationLeaves;
    VerifiedIs(o, binary);
    VerificationIs(o, crypto, VerifiedBytes(o, binary));
    TwoNodes(Tree(o, binary, crypto));
  }

  /** Otherwise the first of these that is not as it should be decides what is said. */
  lemma WhichFailure(o: Options, binfile: File, crypto: Crypto)
    ensures Created(o, binfile, crypto) == TooBig <==> Packable(o) && o.fwOffset < 24 + |MetadataBytes(o)|
    ensures Created(o, binfile, crypto) == CannotReadInput
            <==> && Packable(o) && 0 <= o.fwOffset - 24 - |MetadataBytes(o)| < U32
                 && (binfile.Contents? ==> |binfile.bytes| >= U32)
    ensures Created(o, binfile, crypto) in {UnknownHash, NoHash, CannotReadKey}
            <==> && Packable(o) && 0 <= o.fwOffset - 24 - |MetadataBytes(o)| < U32
                 && binfile.Contents? && |binfile.bytes| < U32
                 && ((o.check && !o.hashKnown) || (o.key.Some? && (!o.check || o.key.value.Unreadable?)))
    ensures Created(o, binfile, crypto) == UnknownHash ==> o.check && !o.hashKnown
    ensures Created(o, binfile, crypto) == NoHash ==> o.key.Some? && !o.check
    ensures Created(o, binfile, crypto) == CannotReadKey ==> o.key == Some(Unreadable) && o.check && o.hashKnown
  {
    hide Encoded;
    hide Section;
    hide MetadataBytes;
    hide VerifiedLeaves;
    hide Tree;
    hide Metadata;
    MetadataIs(o);
  }
}
