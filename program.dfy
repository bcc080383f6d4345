/** The program's main flow without its file handling and printing: load a
    DXT1 texture from the bytes of a DDS file and split its level 0. */
module DxtSplitter {
  import opened Bits
  import opened Dxt1Block
  import opened BlockStats
  import opened Dds
  import opened Splitter

  /** Lines 249-350: load the file, then split level 0 at the header's
      dimensions. On success the splitter holds, for every block of level 0,
      its unpacked endpoints, for every pixel its index colour, and the two
      frequency tables of all blocks. */
  method SplitDdsFile(file: seq<u8>) returns (r: Result<BlockSplitter>)
    ensures |file| < HeaderSize ==> r == Err(FileTooSmall)
    ensures HeaderSize <= |file| && CheckHeader(ParseHeader(file)).Err? ==>
      r == Err(CheckHeader(ParseHeader(file)).error)
    ensures HeaderSize <= |file| && CheckHeader(ParseHeader(file)).Ok? ==>
      var h := ParseHeader(file);
      (r.Ok? <==> HeaderSize + ChainSize(h.width, h.height, LevelCount(h)) <= |file|)
    ensures HeaderSize <= |file| && CheckHeader(ParseHeader(file)).Ok? && r.Err? ==>
      var h := ParseHeader(file);
      && r.error.MipReadFailed? && r.error.mip < LevelCount(h)
      && HeaderSize + ChainSize(h.width, h.height, r.error.mip) <= |file|
      && |file| < HeaderSize + ChainSize(h.width, h.height, r.error.mip + 1)
    ensures r.Ok? ==>
      var s := r.value;
      && HeaderSize <= |file|
      && s.width == ParseHeader(file).width && s.height == ParseHeader(file).height
      && HeaderSize + ChainSize(s.width, s.height, 1) <= |file|
      && fresh(s) && fresh(s.endPointsA) && fresh(s.endPointsB) && fresh(s.indices)
      && s.Valid()
      && var level0 := MipBytes(file, s.width, s.height, 0);
         s.BlockCount() * BlockSize <= |level0|
         && (forall k :: 0 <= k < s.BlockCount() ==>
               s.endPointsA[k] == Color565.UnpackColor565(BlockAt(level0, k).endPointA)
               && s.endPointsB[k] == Color565.UnpackColor565(BlockAt(level0, k).endPointB))
         && (forall i :: 0 <= i < s.indices.Length ==>
               s.indices[i] == IndexPixel(level0, s.width, s.height, i))
         && s.uniqueColors == ColorCounts(Blocks(level0, s.BlockCount()))
         && s.uniqueIndices == IndexCounts(Blocks(level0, s.BlockCount()))
  {
    var loaded := LoadDds(file);
    if loaded.Err? {
      return Err(loaded.error);
    }
    var header := loaded.value.header;
    var level0 := loaded.value.mips[0];
    Mip0CoversSplitter(header.width, header.height);
    var splitter := new BlockSplitter(header.width, header.height);
    splitter.SplitBlocks(level0);
    return Ok(splitter);
  }

  /** The checks admit only dimensions that are multiples of 4, so every
      pixel of level 0 lies in a whole block: splitting an accepted file
      writes every pixel of the index image. */
  lemma AcceptedLevelFullyCovered(h: Header, i: nat)
    requires CheckHeader(h).Ok? && i < h.width * h.height
    ensures h.width > 0 && InGrid(h.width, h.height, i)
  {
    WholeImageInGrid(h.width, h.height, i);
  }

  /** A header the checks accept, 65536 x 65536: level 0 is 2^31 bytes, which
      uint32_t holds, so loading succeeds, but the index image's uint32_t size
      wraps to 0. */
  lemma WideTextureOverflowsIndexImage()
    ensures var h := WideHeader(65536, 65536, 1);
      && CheckHeader(h).Ok?
      && MipSizeInBytesU32(h.width, h.height, 0) == MipLevelAt(h.width, h.height, 0).sizeInBytes
      && IndexImageSizeU32(h.width, h.height) == 0
  {
    IndexImageSizeWraps();
  }

  /** A header the checks accept, 65536 x 65540: level 0 is 2147614720
      bytes, which uint32_t holds, and the index image's uint32_t size wraps
      to 262144, while the texel offsets of the last block row are at least
      2^32 and wrap back inside the index image. */
  lemma TallTextureWrapsTexelOffset()
    ensures var h := WideHeader(65536, 65540, 1);
      && CheckHeader(h).Ok?
      && MipLevelAt(h.width, h.height, 0).sizeInBytes == 2147614720
      && MipSizeInBytesU32(h.width, h.height, 0) == MipLevelAt(h.width, h.height, 0).sizeInBytes
      && IndexImageSizeU32(h.width, h.height) == 262144
      && TexelOffset(h.width, 16383, 16384, 0, 0) >= U32Modulus
      && WrapU32(TexelOffset(h.width, 16383, 16384, 3, 3)) < IndexImageSizeU32(h.width, h.height)
  {
  }
}
