/** The 8-byte DXT1 block record `BlockDxt1` (two RGB565 endpoints and a
    32-bit field of sixteen 2-bit texel codes) and the way the splitter
    reads it. */
module Dxt1Block {
  import opened Bits

  datatype Block = Block(endPointA: u16, endPointB: u16, indices: u32)

  /** Size of the packed record in bytes. */
  const BlockSize: nat := 8

  /** The block stored at byte offset `at`: a `memcpy` of eight bytes into the
      packed struct, read little-endian as (u16, u16, u32). */
  function ParseBlock(s: seq<u8>, at: nat): Block
    requires at + BlockSize <= |s|
  {
    Block(U16At(s, at), U16At(s, at + 2), U32At(s, at + 4))
  }

  /** The eight bytes a block occupies in a DXT1 mip level. */
  function BlockBytes(blk: Block): (s: seq<u8>)
    ensures |s| == BlockSize
  {
    U16Bytes(blk.endPointA) + U16Bytes(blk.endPointB) + U32Bytes(blk.indices)
  }

  /** Reading back the bytes of a block gives the block. */
  lemma ParseBlockBytes(blk: Block)
    ensures ParseBlock(BlockBytes(blk), 0) == blk
  {
    var s := BlockBytes(blk);
    U16RoundTrip(blk.endPointA);
    U16RoundTrip(blk.endPointB);
    U32RoundTrip(blk.indices);
    assert s[..2] == U16Bytes(blk.endPointA);
    assert s[2..4] == U16Bytes(blk.endPointB);
    assert s[4..] == U32Bytes(blk.indices);
    assert U16At(s, 0) == U16At(U16Bytes(blk.endPointA), 0);
    assert U16At(s, 2) == U16At(U16Bytes(blk.endPointB), 0);
    assert U32At(s, 4) == U32At(U32Bytes(blk.indices), 0);
  }

  /** Every 8-byte pattern is some block, and reading loses no byte. */
  lemma BlockBytesOfParse(s: seq<u8>, at: nat)
    requires at + BlockSize <= |s|
    ensures BlockBytes(ParseBlock(s, at)) == s[at..at + BlockSize]
  {
    U16BytesOfRead(s, at);
    U16BytesOfRead(s, at + 2);
    U32BytesOfRead(s, at + 4);
    assert s[at..at + BlockSize] == s[at..at + 2] + s[at + 2..at + 4] + s[at + 4..at + 8];
  }

  /** The 2-bit code of texel t = oy * 4 + ox: `(indices >> 2 * t) & 3`. */
  function TexelCode(indices: u32, t: nat): (code: nat)
    requires t < 16
    ensures code < 4
  {
    ShrCodes(indices, t) % 4
  }

  /** The sixteen codes of a block in row-major texel order. */
  function TexelCodes(indices: u32): (codes: seq<nat>)
    ensures |codes| == 16
  {
    seq(16, t requires 0 <= t < 16 => TexelCode(indices, t))
  }

  /** Packs codes back into a bit field, first code in the lowest two bits. */
  function PackCodes(codes: seq<nat>): nat
  {
    if codes == [] then 0 else codes[0] + 4 * PackCodes(codes[1..])
  }

  /** The first n codes of v read the way the texel loop reads them: the
      bottom two bits, then a shift right by two. */
  function ShiftedCodes(v: nat, n: nat): (codes: seq<nat>)
    ensures |codes| == n
  {
    if n == 0 then [] else [v % 4] + ShiftedCodes(v / 4, n - 1)
  }

  /** Code t read by shifting is code t read directly. */
  lemma {:induction false} ShiftedCodesAt(v: nat, n: nat, t: nat)
    requires t < n
    ensures ShiftedCodes(v, n)[t] == ShrCodes(v, t) % 4
  {
    if t > 0 {
      ShiftedCodesAt(v / 4, n - 1, t - 1);
      ShrCodesFirst(v, t - 1);
    }
  }

  lemma {:induction false} PackShiftedCodes(v: nat, n: nat)
    requires v < Pow4(n)
    ensures PackCodes(ShiftedCodes(v, n)) == v
  {
    if n > 0 {
      var codes := ShiftedCodes(v, n);
      assert codes[1..] == ShiftedCodes(v / 4, n - 1);
      PackShiftedCodes(v / 4, n - 1);
    }
  }

  lemma {:induction false} ShiftedCodesOfPack(codes: seq<nat>)
    requires forall t :: 0 <= t < |codes| ==> codes[t] < 4
    ensures PackCodes(codes) < Pow4(|codes|)
    ensures ShiftedCodes(PackCodes(codes), |codes|) == codes
  {
    if codes != [] {
      var rest := PackCodes(codes[1..]);
      ShiftedCodesOfPack(codes[1..]);
      var v := PackCodes(codes);
      DivModUnique(v, 4, rest, codes[0]);
      assert codes == [codes[0]] + codes[1..];
    }
  }

  /** The sixteen texel codes are the codes the shifting loop reads. */
  lemma TexelCodesAreShifted(indices: u32)
    ensures TexelCodes(indices) == ShiftedCodes(indices, 16)
  {
    forall t | 0 <= t < 16
      ensures TexelCodes(indices)[t] == ShiftedCodes(indices, 16)[t]
    {
      ShiftedCodesAt(indices, 16, t);
    }
  }

  /** The sixteen codes determine the index field: packing them gives it back. */
  lemma PackTexelCodes(indices: u32)
    ensures PackCodes(TexelCodes(indices)) == indices
  {
    Pow4Is2To32();
    TexelCodesAreShifted(indices);
    PackShiftedCodes(indices, 16);
  }

  /** Conversely, any sixteen codes in 0..3 pack into a 32-bit field whose
      codes are exactly those. */
  lemma TexelCodesOfPack(codes: seq<nat>)
    requires |codes| == 16
    requires forall t :: 0 <= t < 16 ==> codes[t] < 4
    ensures PackCodes(codes) < U32Modulus
    ensures TexelCodes(PackCodes(codes)) == codes
  {
    Pow4Is2To32();
    ShiftedCodesOfPack(codes);
    TexelCodesAreShifted(PackCodes(codes));
  }

  lemma Pow4Is2To32()
    ensures Pow4(16) == U32Modulus
  {
    assert Pow4(4) == 0x100;
    assert Pow4(8) == 0x1_0000;
    assert Pow4(12) == 0x100_0000;
  }

  lemma {:induction false} PackAllThrees(n: nat)
    ensures PackCodes(seq(n, t => 3)) + 1 == Pow4(n)
  {
    if n > 0 {
      assert seq(n, t => 3)[1..] == seq(n - 1, t => 3);
      PackAllThrees(n - 1);
    }
  }

  /** An all-ones index field selects code 3 for every texel, and an
      all-zeros field code 0. */
  lemma ExtremeIndexFields()
    ensures forall t :: 0 <= t < 16 ==> TexelCode(0xFFFF_FFFF, t) == 3
    ensures forall t :: 0 <= t < 16 ==> TexelCode(0, t) == 0
  {
    var ones := seq(16, t => 3);
    PackAllThrees(16);
    Pow4Is2To32();
    TexelCodesOfPack(ones);
    forall t | 0 <= t < 16
      ensures TexelCode(0xFFFF_FFFF, t) == 3 && TexelCode(0, t) == 0
    {
      assert TexelCodes(0xFFFF_FFFF)[t] == ones[t];
      ShrCodesZero(t);
    }
  }
}
