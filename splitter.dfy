/** The block splitter (`splitAndSave` without its printing and file
    writing): for every DXT1 block of a mip level it writes the two
    unpacked endpoint colours into block-resolution images, scatters the
    colour of each texel's 2-bit code into a full-resolution index image
    with a checkerboard overlay, and counts endpoint values and index fields
    in two frequency tables. */
module Splitter {
  import opened Bits
  import opened Color565
  import opened Dxt1Block
  import opened Frequency
  import opened BlockStats

  /** The colour of each 2-bit code in the index image, in the struct's
      (b, g, r) order: dark olive (red = green = 0x40, no blue), two lighter
      khaki shades, white. */
  const IndiceColor: seq<RGB> := [
    RGB(0x00, 0x40, 0x40), RGB(0x55, 0x80, 0x80), RGB(0xAA, 0xC0, 0xC0), RGB(0xFF, 0xFF, 0xFF)
  ]

  /** The index-image colour of code `code` in block (x, y): on blocks with
      x + y even the red channel is zeroed, on the others the green one;
      every other channel keeps the code's colour. */
  function CheckerColor(code: nat, x: nat, y: nat): (c: RGB)
    requires code < 4
    ensures (x + y) % 2 == 0 ==> c.r == 0 && c.g == IndiceColor[code].g && c.b == IndiceColor[code].b
    ensures (x + y) % 2 == 1 ==> c.g == 0 && c.r == IndiceColor[code].r && c.b == IndiceColor[code].b
  {
    var base := IndiceColor[code];
    if (x + y) % 2 == 0 then base.(r := 0) else base.(g := 0)
  }

  /** The k-th block of a mip level, blocks stored row-major. */
  function BlockAt(mipData: seq<u8>, k: nat): Block
    requires (k + 1) * BlockSize <= |mipData|
  {
    ParseBlock(mipData, k * BlockSize)
  }

  /** Block k of n lies inside a level of at least n * 8 bytes. */
  lemma BlockInData(k: nat, n: nat, size: nat)
    requires k < n && n * BlockSize <= size
    ensures (k + 1) * BlockSize <= size
  {
  }

  /** The first n blocks of a mip level. */
  function Blocks(mipData: seq<u8>, n: nat): seq<Block>
    requires n * BlockSize <= |mipData|
  {
    seq(n, k requires 0 <= k < n => BlockAt(mipData, k))
  }

  /** Row-major index of block (x, y) in a grid of blockCountW by
      blockCountH blocks (line 154); it is always a valid block index. */
  function RowMajor(blockCountW: nat, blockCountH: nat, x: nat, y: nat): (k: nat)
    requires x < blockCountW && y < blockCountH
    ensures k < blockCountW * blockCountH
  {
    RowMajorInRange(blockCountW, blockCountH, x, y);
    y * blockCountW + x
  }

  lemma RowMajorInRange(blockCountW: nat, blockCountH: nat, x: nat, y: nat)
    requires x < blockCountW && y < blockCountH
    ensures y * blockCountW + x < blockCountW * blockCountH
  {
    assert y * blockCountW + x < (y + 1) * blockCountW;
    assert (y + 1) * blockCountW <= blockCountH * blockCountW;
  }

  /** The palette runs from dark olive to white; the checkerboard turns it
      into dark green .. cyan on even blocks and dark red .. magenta on odd
      ones. */
  lemma CheckerboardShades()
    ensures IndiceColor[0] == RGB(0x00, 0x40, 0x40) && IndiceColor[0].r == IndiceColor[0].g
    ensures CheckerColor(0, 0, 0) == RGB(0x00, 0x40, 0x00)
    ensures CheckerColor(0, 1, 0) == RGB(0x00, 0x00, 0x40)
    ensures CheckerColor(3, 0, 0) == RGB(0xFF, 0xFF, 0x00)
    ensures CheckerColor(3, 1, 0) == RGB(0xFF, 0x00, 0xFF)
  {
  }

  /** Byte offset of block (x, y): `y * blockLineStride + x * sizeof(BlockDxt1)`
      with `blockLineStride = blockCountW * sizeof(BlockDxt1)` (lines 126, 148). */
  function BlockOffset(blockCountW: nat, x: nat, y: nat): nat
  {
    y * (blockCountW * BlockSize) + x * BlockSize
  }

  /** The eight bytes read for block (x, y) are the row-major block's, and
      they lie inside the blockCount * 8 bytes of the level. */
  lemma BlockOffsetInBounds(blockCountW: nat, blockCountH: nat, x: nat, y: nat)
    requires x < blockCountW && y < blockCountH
    ensures BlockOffset(blockCountW, x, y) == RowMajor(blockCountW, blockCountH, x, y) * BlockSize
    ensures BlockOffset(blockCountW, x, y) + BlockSize <= blockCountW * blockCountH * BlockSize
  {
    var k := RowMajor(blockCountW, blockCountH, x, y);
    assert BlockOffset(blockCountW, x, y) == k * BlockSize;
  }

  /** Index-image offset of texel (ox, oy) of block (x, y) (line 165). */
  function TexelOffset(width: nat, x: nat, y: nat, ox: nat, oy: nat): nat
  {
    (y * 4 + oy) * width + (x * 4 + ox)
  }

  /** Column of pixel i of a width-wide image. */
  function Col(width: nat, i: nat): (c: nat)
    requires width > 0
    ensures c < width
  {
    i % width
  }

  /** Row of pixel i of a width-wide image. */
  function Row(width: nat, i: nat): (r: nat)
    requires width > 0
    ensures i == r * width + Col(width, i)
  {
    DivNonneg(i, width);
    i / width
  }

  /** Pixel i of a width-wide image lies in block (x, y). */
  predicate InBlock(width: nat, i: nat, x: nat, y: nat)
    requires width > 0
  {
    Col(width, i) / 4 == x && Row(width, i) / 4 == y
  }

  /** Pixel i lies in a whole block of the grid: the splitter writes it. */
  predicate InGrid(width: nat, height: nat, i: nat)
  {
    width > 0 && Col(width, i) / 4 < width / 4 && Row(width, i) / 4 < height / 4
  }

  /** Row-major index of the block pixel i lies in, one of the level's blocks. */
  function PixelBlock(width: nat, height: nat, i: nat): (k: nat)
    requires InGrid(width, height, i)
    ensures k < (width / 4) * (height / 4)
  {
    RowMajor(width / 4, height / 4, Col(width, i) / 4, Row(width, i) / 4)
  }

  /** Position t = oy * 4 + ox of pixel i within its block. */
  function TexelOf(width: nat, i: nat): (t: nat)
    requires width > 0
    ensures t < 16
  {
    Row(width, i) % 4 * 4 + Col(width, i) % 4
  }

  /** A pixel index below width * height has a positive width and a row
      inside the image. */
  lemma PixelInImage(width: nat, height: nat, i: nat)
    requires i < width * height
    ensures width > 0 && Row(width, i) < height
  {
    assert width > 0;
    MulLess(Row(width, i), height, width, i);
  }

  /** If row * width <= i < height * width then row < height. */
  lemma MulLess(row: nat, height: nat, width: nat, i: nat)
    requires row * width <= i < height * width
    ensures row < height
  {
    if row >= height {
      MulMonoLeft(height, row, width);
    }
  }

  /** The colour the splitter leaves at pixel i of the index image: the
      checkerboarded colour of the code its block assigns it, or the initial
      black for pixels outside the block grid. */
  function IndexPixel(mipData: seq<u8>, width: nat, height: nat, i: nat): RGB
    requires i < width * height
    requires (width / 4) * (height / 4) * BlockSize <= |mipData|
  {
    if InGrid(width, height, i) then
      var k := PixelBlock(width, height, i);
      BlockInData(k, (width / 4) * (height / 4), |mipData|);
      CheckerColor(TexelCode(BlockAt(mipData, k).indices, TexelOf(width, i)), Col(width, i) / 4, Row(width, i) / 4)
    else
      Black
  }

  /** Texel (ox, oy) of block (x, y) lands inside the image, in that block,
      at that texel position. */
  lemma TexelOffsetDecodes(width: nat, height: nat, x: nat, y: nat, ox: nat, oy: nat)
    requires x < width / 4 && y < height / 4 && ox < 4 && oy < 4
    ensures TexelOffset(width, x, y, ox, oy) < width * height
    ensures InBlock(width, TexelOffset(width, x, y, ox, oy), x, y)
    ensures TexelOf(width, TexelOffset(width, x, y, ox, oy)) == oy * 4 + ox
  {
    var row, col := y * 4 + oy, x * 4 + ox;
    var i := TexelOffset(width, x, y, ox, oy);
    assert row < height && col < width;
    DivModUnique(i, width, row, col);
    DivModUnique(row, 4, y, oy);
    DivModUnique(col, 4, x, ox);
    assert i < (row + 1) * width;
    MulMonoLeft(row + 1, height, width);
  }

  /** The index image holds, at the offset of texel (ox, oy) of block (x, y),
      the colour of that texel's code `(indices >> 2 * (oy * 4 + ox)) & 3`
      with the block's checkerboard channel zeroed. */
  lemma IndexPixelAtTexel(mipData: seq<u8>, width: nat, height: nat, x: nat, y: nat, ox: nat, oy: nat)
    requires x < width / 4 && y < height / 4 && ox < 4 && oy < 4
    requires (width / 4) * (height / 4) * BlockSize <= |mipData|
    ensures TexelOffset(width, x, y, ox, oy) < width * height
    ensures var blk := BlockAt(mipData, RowMajor(width / 4, height / 4, x, y));
      IndexPixel(mipData, width, height, TexelOffset(width, x, y, ox, oy))
        == CheckerColor(TexelCode(blk.indices, oy * 4 + ox), x, y)
  {
    TexelOffsetDecodes(width, height, x, y, ox, oy);
  }

  /** Conversely, a pixel of block (x, y) at texel position oy * 4 + ox is
      exactly that texel's offset: no two texels share a pixel. */
  lemma SameTexelSamePixel(width: nat, i: nat, x: nat, y: nat, ox: nat, oy: nat)
    requires width > 0 && InBlock(width, i, x, y)
    requires ox < 4 && oy < 4 && TexelOf(width, i) == oy * 4 + ox
    ensures i == TexelOffset(width, x, y, ox, oy)
  {
    var row, col := Row(width, i), Col(width, i);
    DivModUnique(TexelOf(width, i), 4, row % 4, col % 4);
    assert row == y * 4 + oy;
    assert col == x * 4 + ox;
    assert i == row * width + col;
  }

  /** Every pixel of the grid is the offset of the texel its coordinates name,
      so the texels of all blocks cover the grid. */
  lemma TexelOffsetCovers(width: nat, height: nat, i: nat)
    requires i < width * height
    ensures width > 0
    ensures var col, row := Col(width, i), Row(width, i);
      i == TexelOffset(width, col / 4, row / 4, col % 4, row % 4)
  {
    PixelInImage(width, height, i);
    var col, row := Col(width, i), Row(width, i);
    assert i == row * width + col;
    assert row == row / 4 * 4 + row % 4;
    assert col == col / 4 * 4 + col % 4;
  }

  /** Two texels of the grid with the same index-image offset are the same
      texel of the same block: each slot is written once. */
  lemma TexelOffsetInjective(width: nat, height: nat,
                             x1: nat, y1: nat, ox1: nat, oy1: nat,
                             x2: nat, y2: nat, ox2: nat, oy2: nat)
    requires x1 < width / 4 && y1 < height / 4 && ox1 < 4 && oy1 < 4
    requires x2 < width / 4 && y2 < height / 4 && ox2 < 4 && oy2 < 4
    requires TexelOffset(width, x1, y1, ox1, oy1) == TexelOffset(width, x2, y2, ox2, oy2)
    ensures x1 == x2 && y1 == y2 && ox1 == ox2 && oy1 == oy2
  {
    TexelOffsetDecodes(width, height, x1, y1, ox1, oy1);
    TexelOffsetDecodes(width, height, x2, y2, ox2, oy2);
    DivModUnique(oy1 * 4 + ox1, 4, oy2, ox2);
  }

  /** With width and height multiples of 4 every pixel lies in the grid. */
  lemma WholeImageInGrid(width: nat, height: nat, i: nat)
    requires width % 4 == 0 && height % 4 == 0 && i < width * height
    ensures width > 0 && InGrid(width, height, i)
  {
    PixelInImage(width, height, i);
  }

  /** A pixel lies in block (x, y) exactly when it is in the grid and its
      row-major block index is that of (x, y). */
  lemma InBlockIsPixelBlock(width: nat, height: nat, i: nat, x: nat, y: nat)
    requires x < width / 4 && y < height / 4 && width > 0
    ensures InBlock(width, i, x, y)
      <==> InGrid(width, height, i) && PixelBlock(width, height, i) == RowMajor(width / 4, height / 4, x, y)
  {
    var bx, bly := Col(width, i) / 4, Row(width, i) / 4;
    if InGrid(width, height, i) && PixelBlock(width, height, i) == RowMajor(width / 4, height / 4, x, y) {
      DivModUnique(PixelBlock(width, height, i), width / 4, bly, bx);
      DivModUnique(PixelBlock(width, height, i), width / 4, y, x);
    }
  }

  /** `width * height`, the length of the index image, as the source
      computes it in uint32_t (line 133). */
  function IndexImageSizeU32(width: u32, height: u32): (n: u32)
    ensures width * height < U32Modulus ==> n == width * height
    ensures width * height >= U32Modulus ==> n < width * height
  {
    WrapU32(width * height)
  }

  /** A 65536 x 65536 level needs 2^32 index pixels, and the uint32_t
      product is 0: the index image is empty while the texel loop writes up
      to offset 2^32 - 1. */
  lemma IndexImageSizeWraps()
    ensures IndexImageSizeU32(65536, 65536) == 0
    ensures TexelOffset(65536, 16383, 16383, 3, 3) == U32Modulus - 1
  {
  }

  /** The index image px after the sixteen texels of block (x, y) have been
      written into it: the block's pixels take their IndexPixel colour, all
      others keep theirs. */
  function ScatterBlock(mipData: seq<u8>, width: nat, height: nat, px: seq<RGB>, x: nat, y: nat): seq<RGB>
    requires x < width / 4 && y < height / 4 && |px| == width * height
    requires (width / 4) * (height / 4) * BlockSize <= |mipData|
  {
    seq(|px|, i requires 0 <= i < |px| =>
      if InBlock(width, i, x, y) then IndexPixel(mipData, width, height, i) else px[i])
  }

  /** The index image after the first k blocks in row-major order: the
      pixels of those blocks hold their IndexPixel colour, every other pixel
      is still black. */
  function IndexImageAfter(mipData: seq<u8>, width: nat, height: nat, k: nat): (px: seq<RGB>)
    requires (width / 4) * (height / 4) * BlockSize <= |mipData|
    ensures |px| == width * height
  {
    seq(width * height, i requires 0 <= i < width * height =>
      if InGrid(width, height, i) && PixelBlock(width, height, i) < k
      then IndexPixel(mipData, width, height, i) else Black)
  }

  /** The endpoint-A image after the first k of n blocks: those blocks'
      unpacked endpoint A at their row-major index, black after them. */
  function EndpointsAAfter(mipData: seq<u8>, k: nat, n: nat): (a: seq<RGB>)
    requires k <= n && n * BlockSize <= |mipData|
    ensures |a| == n
  {
    seq(n, j requires 0 <= j < n =>
      if j < k then (BlockInData(j, n, |mipData|); UnpackColor565(BlockAt(mipData, j).endPointA))
      else Black)
  }

  /** The endpoint-B image after the first k of n blocks. */
  function EndpointsBAfter(mipData: seq<u8>, k: nat, n: nat): (b: seq<RGB>)
    requires k <= n && n * BlockSize <= |mipData|
    ensures |b| == n
  {
    seq(n, j requires 0 <= j < n =>
      if j < k then (BlockInData(j, n, |mipData|); UnpackColor565(BlockAt(mipData, j).endPointB))
      else Black)
  }

  /** Writing block k = (x, y) into the index image after k blocks gives the
      index image after k + 1. */
  lemma PixelsStep(mipData: seq<u8>, width: nat, height: nat, x: nat, y: nat)
    requires x < width / 4 && y < height / 4
    requires (width / 4) * (height / 4) * BlockSize <= |mipData|
    ensures var k := RowMajor(width / 4, height / 4, x, y);
      ScatterBlock(mipData, width, height, IndexImageAfter(mipData, width, height, k), x, y)
        == IndexImageAfter(mipData, width, height, k + 1)
  {
    var k := RowMajor(width / 4, height / 4, x, y);
    forall i | 0 <= i < width * height
      ensures InBlock(width, i, x, y) <==> InGrid(width, height, i) && PixelBlock(width, height, i) == k
    {
      InBlockIsPixelBlock(width, height, i, x, y);
    }
  }

  /** Storing the endpoints of block k extends the stored prefix by one. */
  lemma EndpointsStep(mipData: seq<u8>, k: nat, n: nat)
    requires k < n && n * BlockSize <= |mipData| && (k + 1) * BlockSize <= |mipData|
    ensures EndpointsAAfter(mipData, k, n)[k := UnpackColor565(BlockAt(mipData, k).endPointA)]
        == EndpointsAAfter(mipData, k + 1, n)
    ensures EndpointsBAfter(mipData, k, n)[k := UnpackColor565(BlockAt(mipData, k).endPointB)]
        == EndpointsBAfter(mipData, k + 1, n)
  {
  }

  /** Counting block k into the tables of the first k blocks gives the
      tables of the first k + 1. */
  lemma CountsStep(mipData: seq<u8>, k: nat)
    requires (k + 1) * BlockSize <= |mipData|
    ensures var blk := BlockAt(mipData, k);
      ColorCounts(Blocks(mipData, k + 1))
        == AddCount(AddCount(ColorCounts(Blocks(mipData, k)), blk.endPointA), blk.endPointB)
    ensures IndexCounts(Blocks(mipData, k + 1))
        == AddCount(IndexCounts(Blocks(mipData, k)), BlockAt(mipData, k).indices)
  {
    assert Blocks(mipData, k + 1)[..k] == Blocks(mipData, k);
  }

  /** Before any block is written, all-black images are the images after
      zero blocks. */
  lemma ImagesInitial(mipData: seq<u8>, width: nat, height: nat, a: seq<RGB>, b: seq<RGB>, px: seq<RGB>)
    requires (width / 4) * (height / 4) * BlockSize <= |mipData|
    requires |a| == |b| == (width / 4) * (height / 4) && |px| == width * height
    requires forall k :: 0 <= k < |a| ==> a[k] == Black
    requires forall k :: 0 <= k < |b| ==> b[k] == Black
    requires forall i :: 0 <= i < |px| ==> px[i] == Black
    ensures a == EndpointsAAfter(mipData, 0, |a|)
    ensures b == EndpointsBAfter(mipData, 0, |b|)
    ensures px == IndexImageAfter(mipData, width, height, 0)
  {
  }

  /** Once every block is written, each endpoint image holds every block's
      unpacked endpoint and every pixel of the index image holds its
      IndexPixel colour. */
  lemma ImagesComplete(mipData: seq<u8>, width: nat, height: nat, a: seq<RGB>, b: seq<RGB>, px: seq<RGB>)
    requires (width / 4) * (height / 4) * BlockSize <= |mipData|
    requires a == EndpointsAAfter(mipData, (width / 4) * (height / 4), (width / 4) * (height / 4))
    requires b == EndpointsBAfter(mipData, (width / 4) * (height / 4), (width / 4) * (height / 4))
    requires px == IndexImageAfter(mipData, width, height, (width / 4) * (height / 4))
    ensures forall k :: 0 <= k < |a| ==>
      (BlockInData(k, |a|, |mipData|);
       a[k] == UnpackColor565(BlockAt(mipData, k).endPointA)
       && b[k] == UnpackColor565(BlockAt(mipData, k).endPointB))
    ensures forall i :: 0 <= i < |px| ==> px[i] == IndexPixel(mipData, width, height, i)
  {
  }

  /** The state `splitAndSave` builds: the endpoint images, the index image
      and the two frequency tables. */
  class BlockSplitter {
    const width: nat
    const height: nat
    const blockCountW: nat
    const blockCountH: nat
    const endPointsA: array<RGB>
    const endPointsB: array<RGB>
    const indices: array<RGB>
    var uniqueColors: map<u16, nat>
    var uniqueIndices: map<u32, nat>

    ghost predicate Valid()
    {
      && blockCountW == width / 4 && blockCountH == height / 4
      && endPointsA.Length == blockCountW * blockCountH
      && endPointsB.Length == blockCountW * blockCountH
      && indices.Length == width * height
      && endPointsA != endPointsB && endPointsA != indices && endPointsB != indices
    }

    /** The state right after allocation: empty tables, all pixels black. */
    ghost predicate Initial()
      reads this, endPointsA, endPointsB, indices
    {
      && uniqueColors == map[] && uniqueIndices == map[]
      && (forall k :: 0 <= k < endPointsA.Length ==> endPointsA[k] == Black)
      && (forall k :: 0 <= k < endPointsB.Length ==> endPointsB[k] == Black)
      && (forall i :: 0 <= i < indices.Length ==> indices[i] == Black)
    }

    function BlockCount(): nat
    {
      blockCountW * blockCountH
    }

    /** Allocation of the buffers and tables (lines 123-142). */
    constructor (width: u32, height: u32)
      ensures Valid() && Initial()
      ensures this.width == width && this.height == height
      ensures fresh(endPointsA) && fresh(endPointsB) && fresh(indices)
    {
      this.width := width;
      this.height := height;
      blockCountW := width / 4;
      blockCountH := height / 4;
      endPointsA := new RGB[(width / 4) * (height / 4)](_ => Black);
      endPointsB := new RGB[(width / 4) * (height / 4)](_ => Black);
      indices := new RGB[width * height](_ => Black);
      uniqueColors := map[];
      uniqueIndices := map[];
    }

    /** One iteration of the block loop (lines 148-217): read block (x, y),
      store its unpacked endpoints, write its sixteen texels into the index
      image, and count its endpoints and index field. */
    method ProcessBlock(mipData: seq<u8>, x: nat, y: nat)
      requires Valid()
      requires x < blockCountW && y < blockCountH
      requires BlockCount() * BlockSize <= |mipData|
      modifies this, endPointsA, endPointsB, indices
      ensures var k := RowMajor(blockCountW, blockCountH, x, y);
        var blk := BlockAt(mipData, k);
        && endPointsA[..] == old(endPointsA[..])[k := UnpackColor565(blk.endPointA)]
        && endPointsB[..] == old(endPointsB[..])[k := UnpackColor565(blk.endPointB)]
        && indices[..] == ScatterBlock(mipData, width, height, old(indices[..]), x, y)
        && uniqueColors == AddCount(AddCount(old(uniqueColors), blk.endPointA), blk.endPointB)
        && uniqueIndices == AddCount(old(uniqueIndices), blk.indices)
    {
      var blockLineStride := blockCountW * BlockSize;
      var blockOffset := y * blockLineStride + x * BlockSize;
      BlockOffsetInBounds(blockCountW, blockCountH, x, y);
      var block := ParseBlock(mipData, blockOffset);
      var offset := y * blockCountW + x;
      assert block == BlockAt(mipData, offset);

      StoreEndpoints(offset, block);
      ScatterIndices(mipData, block, x, y);
      CountBlock(block);
    }

    /** Lines 153-156: the unpacked endpoints of a block go to the same
      offset of the two endpoint images. */
    method StoreEndpoints(offset: nat, block: Block)
      requires Valid() && offset < BlockCount()
      modifies endPointsA, endPointsB
      ensures endPointsA[..] == old(endPointsA[..])[offset := UnpackColor565(block.endPointA)]
      ensures endPointsB[..] == old(endPointsB[..])[offset := UnpackColor565(block.endPointB)]
    {
      endPointsA[offset] := UnpackColor565(block.endPointA);
      endPointsB[offset] := UnpackColor565(block.endPointB);
    }

    /** Lines 182-216: both endpoints are counted in the colour table and the
      index field in the index table, each by a find followed by an
      increment or an insertion of 1. */
    method CountBlock(block: Block)
      modifies this
      ensures uniqueColors == AddCount(AddCount(old(uniqueColors), block.endPointA), block.endPointB)
      ensures uniqueIndices == AddCount(old(uniqueIndices), block.indices)
    {
      if block.endPointA in uniqueColors {
        uniqueColors := uniqueColors[block.endPointA := uniqueColors[block.endPointA] + 1];
      } else {
        uniqueColors := uniqueColors[block.endPointA := 1];
      }
      if block.endPointB in uniqueColors {
        uniqueColors := uniqueColors[block.endPointB := uniqueColors[block.endPointB] + 1];
      } else {
        uniqueColors := uniqueColors[block.endPointB := 1];
      }
      if block.indices in uniqueIndices {
        uniqueIndices := uniqueIndices[block.indices := uniqueIndices[block.indices] + 1];
      } else {
        uniqueIndices := uniqueIndices[block.indices := 1];
      }
    }

    /** The texel loop of one block (lines 159-180): the code of texel
      (ox, oy) is taken from the bottom two bits of `ind`, which is shifted
      right by two after every texel, and its checkerboarded colour is
      written at the texel's offset in the index image. */
    method ScatterIndices(mipData: seq<u8>, block: Block, x: nat, y: nat)
      requires Valid()
      requires x < blockCountW && y < blockCountH
      requires BlockCount() * BlockSize <= |mipData|
      requires block == BlockAt(mipData, RowMajor(blockCountW, blockCountH, x, y))
      modifies indices
      ensures indices[..] == ScatterBlock(mipData, width, height, old(indices[..]), x, y)
    {
      var ind: nat := block.indices;
      var oy := 0;
      while oy < 4
        invariant 0 <= oy <= 4
        invariant ind == ShrCodes(block.indices, oy * 4)
        invariant forall i :: 0 <= i < indices.Length ==>
          indices[i] == if InBlock(width, i, x, y) && TexelOf(width, i) < oy * 4
                        then IndexPixel(mipData, width, height, i) else old(indices[i])
      {
        var ox := 0;
        while ox < 4
          invariant 0 <= ox <= 4
          invariant ind == ShrCodes(block.indices, oy * 4 + ox)
          invariant forall i :: 0 <= i < indices.Length ==>
            indices[i] == if InBlock(width, i, x, y) && TexelOf(width, i) < oy * 4 + ox
                          then IndexPixel(mipData, width, height, i) else old(indices[i])
        {
          var currentIndice := ind % 4;
          var indiceOffset := (y * 4 + oy) * width + (x * 4 + ox);
          IndexPixelAtTexel(mipData, width, height, x, y, ox, oy);
          TexelOffsetDecodes(width, height, x, y, ox, oy);
          assert currentIndice == TexelCode(block.indices, oy * 4 + ox);
          indices[indiceOffset] := IndiceColor[currentIndice];
          if (x + y) % 2 == 0 {
            indices[indiceOffset] := indices[indiceOffset].(r := 0);
          } else {
            indices[indiceOffset] := indices[indiceOffset].(g := 0);
          }
          assert indices[indiceOffset] == IndexPixel(mipData, width, height, indiceOffset);
          forall i | 0 <= i < indices.Length && InBlock(width, i, x, y) && TexelOf(width, i) == oy * 4 + ox
            ensures i == indiceOffset
          {
            SameTexelSamePixel(width, i, x, y, ox, oy);
          }
          ind := ind / 4;
          ox := ox + 1;
        }
        oy := oy + 1;
      }
    }

    /** The state after the first k blocks in row-major order have been
      processed: the endpoint images and the index image hold exactly those
      blocks' data and are black elsewhere, and the tables count exactly
      those blocks. */
    ghost predicate DoneUpTo(mipData: seq<u8>, k: nat)
      requires Valid()
      requires k <= BlockCount() && BlockCount() * BlockSize <= |mipData|
      reads this, endPointsA, endPointsB, indices
    {
      && endPointsA[..] == EndpointsAAfter(mipData, k, BlockCount())
      && endPointsB[..] == EndpointsBAfter(mipData, k, BlockCount())
      && indices[..] == IndexImageAfter(mipData, width, height, k)
      && uniqueColors == ColorCounts(Blocks(mipData, k))
      && uniqueIndices == IndexCounts(Blocks(mipData, k))
    }

    /** One row of the block loop (the inner loop over x, lines 146-218):
      processing blocks k .. k + blockCountW - 1 of row y. */
    method SplitRow(mipData: seq<u8>, y: nat, ghost k: nat)
      requires Valid() && y < blockCountH
      requires k == y * blockCountW && k + blockCountW <= BlockCount()
      requires BlockCount() * BlockSize <= |mipData|
      requires DoneUpTo(mipData, k)
      modifies this, endPointsA, endPointsB, indices
      ensures DoneUpTo(mipData, k + blockCountW)
    {
      var x := 0;
      while x < blockCountW
        invariant 0 <= x <= blockCountW
        invariant DoneUpTo(mipData, k + x)
      {
        ghost var n := k + x;
        assert n == RowMajor(blockCountW, blockCountH, x, y);
        ProcessBlock(mipData, x, y);
        BlockInData(n, BlockCount(), |mipData|);
        EndpointsStep(mipData, n, BlockCount());
        PixelsStep(mipData, width, height, x, y);
        CountsStep(mipData, n);
        x := x + 1;
      }
    }

    /** The block loop (lines 144-219), blocks visited row by row. Afterwards
      every endpoint image pixel holds its block's unpacked endpoint, every
      index image pixel holds IndexPixel, and the tables are the frequency
      tables of all blocks. */
    method SplitBlocks(mipData: seq<u8>)
      requires Valid() && Initial()
      requires BlockCount() * BlockSize <= |mipData|
      modifies this, endPointsA, endPointsB, indices
      ensures forall k :: 0 <= k < BlockCount() ==>
        endPointsA[k] == UnpackColor565(BlockAt(mipData, k).endPointA)
        && endPointsB[k] == UnpackColor565(BlockAt(mipData, k).endPointB)
      ensures forall i :: 0 <= i < indices.Length ==> indices[i] == IndexPixel(mipData, width, height, i)
      ensures uniqueColors == ColorCounts(Blocks(mipData, BlockCount()))
      ensures uniqueIndices == IndexCounts(Blocks(mipData, BlockCount()))
    {
      ImagesInitial(mipData, width, height, endPointsA[..], endPointsB[..], indices[..]);
      ghost var k: nat := 0;
      var y := 0;
      while y < blockCountH
        invariant 0 <= y <= blockCountH
        invariant k == y * blockCountW && k <= BlockCount()
        invariant DoneUpTo(mipData, k)
      {
        MulMonoLeft(y + 1, blockCountH, blockCountW);
        Distribute(y, 1, blockCountW);
        SplitRow(mipData, y, k);
        k := k + blockCountW;
        y := y + 1;
      }
      assert k == BlockCount();
      ImagesComplete(mipData, width, height, endPointsA[..], endPointsB[..], indices[..]);
    }
  }
}
