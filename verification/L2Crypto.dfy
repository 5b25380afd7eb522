/** The stream cipher of layer 2: ChaCha20 in counter mode over 64-byte blocks, and Poly1305 tags. */
module L2Crypto {
  import opened Bytes

  const BLOCK := 64
  const TAG_LEN := 4

  type Block = s: seq<byte> | |s| == BLOCK witness seq(64, _ => 0)
  type Tag = s: seq<byte> | |s| == 16 witness seq(16, _ => 0)

  /** CRC16, the keystream of one nonce and block counter under the fixed key, and Poly1305: uninterpreted. */
  datatype Ciphers = Ciphers(crc16: seq<byte> -> uint16,
                             chacha20: (uint32, uint32) -> Block,
                             poly1305: (seq<byte>, seq<byte>) -> Tag)
  {
    function Crc(data: seq<byte>): uint16 {
      crc16(data)
    }

    function Keystream(nonce: uint32, counter: uint32): Block {
      chacha20(nonce, counter)
    }

    /** The Poly1305 key is taken from keystream block zero, and the tag is truncated. */
    function Mac(nonce: uint32, data: seq<byte>): (tag: seq<byte>)
      ensures |tag| == TAG_LEN
    {
      poly1305(Keystream(nonce, 0)[..32], data)[..TAG_LEN]
    }
  }

  /** Data exclusive-or the start of a block. */
  function XorBlock(data: seq<byte>, k: Block): (r: seq<byte>)
    requires |data| <= BLOCK
    ensures |r| == |data|
  {
    seq(|data|, i requires 0 <= i < |data| => Xor(data[i], k[i]))
  }

  /** Data exclusive-or the keystream from a block counter on; the counter has 16 bits. */
  function Stream(c: Ciphers, data: seq<byte>, nonce: uint32, counter: uint16): (r: seq<byte>)
    ensures |r| == |data|
    decreases |data|
  {
    if data == [] then []
    else
      var n := if |data| < BLOCK then |data| else BLOCK;
      XorBlock(data[..n], c.Keystream(nonce, counter)) + Stream(c, data[n..], nonce, (counter + 1) % 0x1_0000)
  }

  lemma XorBlockCancel(data: seq<byte>, k: Block)
    requires |data| <= BLOCK
    ensures XorBlock(XorBlock(data, k), k) == data
  {
    forall i | 0 <= i < |data|
      ensures XorBlock(XorBlock(data, k), k)[i] == data[i]
    {
      XorCancel(data[i], k[i]);
    }
  }

  /** Decryption undoes encryption, whatever the length and whether or not the counter wraps. */
  lemma {:induction false} StreamInverse(c: Ciphers, data: seq<byte>, nonce: uint32, counter: uint16)
    ensures Stream(c, Stream(c, data, nonce, counter), nonce, counter) == data
    decreases |data|
  {
    if data == [] {
    } else {
      var n := if |data| < BLOCK then |data| else BLOCK;
      var k, counter' := c.Keystream(nonce, counter), (counter + 1) % 0x1_0000;
      var once := Stream(c, data, nonce, counter);
      assert once[..n] == XorBlock(data[..n], k) && once[n..] == Stream(c, data[n..], nonce, counter');
      XorBlockCancel(data[..n], k);
      StreamInverse(c, data[n..], nonce, counter');
    }
  }

  /** Which keystream byte meets which byte of the data. */
  lemma {:induction false} StreamAt(c: Ciphers, data: seq<byte>, nonce: uint32, counter: uint16, i: nat)
    requires i < |data|
    ensures Stream(c, data, nonce, counter)[i]
            == Xor(data[i], c.Keystream(nonce, (counter + i / BLOCK) % 0x1_0000)[i % BLOCK])
    decreases |data|
  {
    hide Xor;
    hide Stream;
    hide XorBlock;
    var n := if |data| < BLOCK then |data| else BLOCK;
    var counter' := (counter + 1) % 0x1_0000;
    StreamStep(c, data, nonce, counter, n);
    if i < n {
      XorBlockAt(data[..n], c.Keystream(nonce, counter), i);
    } else {
      StreamAt(c, data[n..], nonce, counter', i - n);
      CounterStep(counter, i);
    }
  }

  lemma XorBlockAt(data: seq<byte>, k: Block, i: nat)
    requires i < |data| <= BLOCK
    ensures XorBlock(data, k)[i] == Xor(data[i], k[i])
  {
  }

  lemma CounterStep(counter: uint16, i: nat)
    requires i >= BLOCK
    ensures ((counter + 1) % 0x1_0000 + (i - BLOCK) / BLOCK) % 0x1_0000 == (counter + i / BLOCK) % 0x1_0000
    ensures (i - BLOCK) % BLOCK == i % BLOCK
  {
    assert (i - BLOCK) / BLOCK == i / BLOCK - 1;
  }

  /** Two keystreams of one nonce that may differ in block zero, which keys the MAC, and nowhere else. */
  ghost predicate SameButBlockZero(c: Ciphers, c': Ciphers, nonce: uint32) {
    forall counter: uint16 :: counter != 0 ==> c.Keystream(nonce, counter) == c'.Keystream(nonce, counter)
  }

  lemma BlockZeroUnused(c: Ciphers, c': Ciphers, data: seq<byte>, nonce: uint32)
    requires SameButBlockZero(c, c', nonce) && |data| <= 65535 * BLOCK
    ensures Stream(c, data, nonce, 1) == Stream(c', data, nonce, 1)
  {
    hide Stream;
    var s, s' := Stream(c, data, nonce, 1), Stream(c', data, nonce, 1);
    forall i: nat | i < |data|
      ensures s[i] == s'[i]
    {
      StreamAt(c, data, nonce, 1, i);
      StreamAt(c', data, nonce, 1, i);
      assert (1 + i / BLOCK) % 0x1_0000 == 1 + i / BLOCK;
    }
  }

  function BlockOf(first: byte, counter: uint32): Block {
    if counter == 0 then [first] + Zeros(63) else Zeros(64)
  }

  /** Keystreams that differ in the first byte of block zero. */
  function BlockZeroIs(first: byte): Ciphers {
    Ciphers(_ => 0, (_, counter) => BlockOf(first, counter), (_, _) => Zeros(16))
  }

  lemma BlockZeroUsed(data: seq<byte>, nonce: uint32)
    requires |data| > 65535 * BLOCK
    ensures SameButBlockZero(BlockZeroIs(0), BlockZeroIs(1), nonce)
    ensures Stream(BlockZeroIs(0), data, nonce, 1) != Stream(BlockZeroIs(1), data, nonce, 1)
  {
    hide Stream;
    hide Xor;
    var i := 65535 * BLOCK;
    StreamAt(BlockZeroIs(0), data, nonce, 1, i);
    StreamAt(BlockZeroIs(1), data, nonce, 1, i);
    XorDiffers(data[i]);
  }

  lemma XorDiffers(a: byte)
    ensures Xor(a, 0) != Xor(a, 1)
  {
    assert Pow2(8) > 0;
    var x, y := Xor(a, 0), Xor(a, 1);
    assert XorBits(a, 0, 8) % 2 != XorBits(a, 1, 8) % 2;
  }

  /**
   * Starting from block one, as builder and parser do, the encrypted payload is independent of
   * keystream block zero exactly when it has at most 65535 blocks.
   */
  lemma BlockZeroReserved(n: nat, nonce: uint32)
    ensures (forall c: Ciphers, c': Ciphers, data: seq<byte> ::
               |data| == n && SameButBlockZero(c, c', nonce) ==>
                 Stream(c, data, nonce, 1) == Stream(c', data, nonce, 1))
            <==> n <= 65535 * BLOCK
  {
    hide Stream;
    hide SameButBlockZero;
    if n <= 65535 * BLOCK {
      forall c: Ciphers, c': Ciphers, data: seq<byte> | |data| == n && SameButBlockZero(c, c', nonce)
        ensures Stream(c, data, nonce, 1) == Stream(c', data, nonce, 1)
      {
        BlockZeroUnused(c, c', data, nonce);
      }
    } else {
      BlockZeroUsed(Zeros(n), nonce);
    }
  }

  lemma StreamStep(c: Ciphers, data: seq<byte>, nonce: uint32, counter: uint16, n: nat)
    requires data != [] && n == if |data| < BLOCK then |data| else BLOCK
    ensures Stream(c, data, nonce, counter)
            == XorBlock(data[..n], c.Keystream(nonce, counter)) + Stream(c, data[n..], nonce, (counter + 1) % 0x1_0000)
  {
  }

  lemma StreamEmpty(c: Ciphers, data: seq<byte>, nonce: uint32, counter: uint16)
    ensures data == [] ==> Stream(c, data, nonce, counter) == []
  {
  }

  method XorStream(c: Ciphers, src: array<byte>, from: nat, dst: array<byte>, to: nat, len: nat, nonce: uint32)
    requires src != dst
    requires from + len <= src.Length && to + len <= dst.Length
    modifies dst
    ensures dst[to..to + len] == Stream(c, src[from..from + len], nonce, 1)
    ensures forall j :: 0 <= j < to || to + len <= j < dst.Length ==> dst[j] == old(dst[j])
  {
    hide Stream;
    hide XorBlock;
    var remaining := len;
    var counter: uint16 := 1;
    ghost var data, rest, out := src[from..from + len], src[from..from + len], [];
    while remaining > 0
      invariant 0 <= remaining <= len && |out| == len - remaining
      invariant rest == data[len - remaining..]
      invariant forall j :: to <= j < to + |out| ==> dst[j] == out[j - to]
      invariant out + Stream(c, rest, nonce, counter) == Stream(c, data, nonce, 1)
      invariant forall j :: 0 <= j < to || to + len - remaining <= j < dst.Length ==> dst[j] == old(dst[j])
    {
      var done := len - remaining;
      var keystream := c.Keystream(nonce, counter);
      var bytes := if remaining < BLOCK then remaining else BLOCK;
      assert rest[..bytes] == src[from + done..from + done + bytes];
      XorBytes(keystream, src, from + done, dst, to + done, bytes);
      StreamStep(c, rest, nonce, counter, bytes);
      out := out + XorBlock(rest[..bytes], keystream);
      rest := rest[bytes..];
      remaining := remaining - bytes;
      counter := (counter + 1) % 0x1_0000;
    }
    StreamEmpty(c, rest, nonce, counter);
  }

  method XorBytes(k: Block, src: array<byte>, from: nat, dst: array<byte>, to: nat, bytes: nat)
    requires src != dst && bytes <= BLOCK
    requires from + bytes <= src.Length && to + bytes <= dst.Length
    modifies dst
    ensures forall j :: to <= j < to + bytes ==> dst[j] == XorBlock(src[from..from + bytes], k)[j - to]
    ensures forall j :: 0 <= j < to || to + bytes <= j < dst.Length ==> dst[j] == old(dst[j])
  {
    for i := 0 to bytes
      invariant forall j :: to <= j < to + i ==> dst[j] == Xor(src[from + j - to], k[j - to])
      invariant forall j :: 0 <= j < to || to + i <= j < dst.Length ==> dst[j] == old(dst[j])
    {
      dst[to + i] := Xor(src[from + i], k[i]);
    }
  }

  /** Decryption refuses nonce zero, and data longer than its destination. */
  method Decrypt(c: Ciphers, dst: array<byte>, src: array<byte>, from: nat, len: nat, nonce: uint32) returns (ok: bool)
    requires src != dst && from + len <= src.Length
    modifies dst
    ensures ok == (len <= dst.Length && nonce != 0)
    ensures ok ==> dst[..len] == Stream(c, src[from..from + len], nonce, 1)
    ensures forall j :: (if ok then len else 0) <= j < dst.Length ==> dst[j] == old(dst[j])
  {
    if len > dst.Length || nonce == 0 {
      return false;
    }
    XorStream(c, src, from, dst, 0, len, nonce);
    assert dst[..len] == dst[0..0 + len];
    ok := true;
  }
}
