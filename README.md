# DxtSplitter in Dafny

DxtSplitter reads a DXT1 (BC1) texture from a DDS file and splits its base
mip level into three images:

- two block-resolution images holding endpoint A and endpoint B of every
  4x4 block, unpacked from RGB565 to 8 bits per channel;
- a full-resolution "indices" image that shows each texel's 2-bit code as a
  grey-yellow shade, from dark olive (code 0) through khaki to white
  (code 3). The red channel is zeroed on blocks where x + y is even and the
  green channel on the others, so even blocks run from dark green to cyan
  and odd blocks from dark red to magenta (a checkerboard);
- statistics on how often endpoint values and whole index fields repeat.

This project models that core and proves properties of it:

- `bits.dfy` (module `Bits`): fixed-width integers, shifts and masks as
  division and remainder, and little-endian byte reads and writes.
- `color565.dfy` (module `Color565`): `unpackColor565` and its inverse on
  the 565 grid.
- `block_dxt1.dfy` (module `Dxt1Block`): the 8-byte `BlockDxt1` record and
  its sixteen 2-bit texel codes.
- `frequency.dfy` (module `Frequency`): the find-then-increment-or-insert
  counting step of the two `unordered_map` tables.
- `block_stats.dfy` (module `BlockStats`): the two frequency tables as
  functions of the block sequence, and the "shared" statistics.
- `splitter.dfy` (module `Splitter`): the block loop of `splitAndSave`, as
  the class `BlockSplitter`.
  - Its buffers are arrays and its tables are map fields.
  - Its methods are proved against specification functions (`BlockAt`,
    `IndexPixel`, `ColorCounts`, `IndexCounts`).
- `dds.dfy` (module `Dds`): the DDS header layout, the acceptance checks in
  `main`, mip-level sizing, and the loop that reads the mip chain.
- `program.dfy` (module `DxtSplitter`): `main` without file handling and
  printing.
  - It loads the texture and splits level 0.

Modelling conventions:

- The file is a byte sequence. `fread` from it returns the requested bytes,
  or fewer at the end of the file.
- Blocks are read little-endian as (u16, u16, u32), which is what the
  packed `memcpy` does on a little-endian host.
- The source's `RGB` struct stores its channels in the order blue, green,
  red. Its brace initialisers follow that order, and so does the Dafny
  `RGB(b, g, r)`.
- Integers are unbounded. The `uint32_t` computations that can wrap on an
  accepted header have explicit as-written members (see "## Findings"). The
  block offsets and counts of the block loop are computed exactly; the
  `Splitter.BlockSplitter.SplitBlocks` line under "## Left out" says why.

## Model

| member | source | states |
|---|---|---|
| Color565.Clamp255 | src/main.cpp:85-92 | a channel value up to 255 is kept, a larger one saturates to 255 |
| Color565.UnpackColor565 | src/main.cpp:79-99 | the unpacked channels lie on the 565 grid (red and blue multiples of 8, green of 4) and never exceed 248/252/248 |
| Color565.UnpackColor565NeverClamps | src/main.cpp:81-92 | each channel is exactly its shifted bit field; the three clamps to 255 never fire |
| Color565.PackUnpack | src/main.cpp:79-99 | re-quantising an unpacked colour gives back the 16-bit word: unpacking loses nothing |
| Color565.UnpackPack | src/main.cpp:79-99 | every colour on the 565 grid is the unpacking of its re-quantisation |
| Color565.UnpackColor565Injective | src/main.cpp:79-99 | distinct endpoint words unpack to distinct colours |
| Color565.RequantiseWithinStep | src/main.cpp:79-99 | any 8-bit colour survives a trip through RGB565 to within one quantisation step per channel |
| Color565.UnpackPureColours | src/main.cpp:81-83 | 0xF800 unpacks to red 248 (not 255), 0x001F to blue 248, 0xFFFF to (248, 252, 248) |
| Dxt1Block.ParseBlock | src/main.cpp:150-151 | the block copied from offset `at`: endpoint A the little-endian u16 at `at`, endpoint B the one at `at + 2`, the index field the little-endian u32 at `at + 4` |
| Dxt1Block.ParseBlockBytes | src/main.cpp:151 | reading back the eight bytes of a block gives the block |
| Dxt1Block.BlockBytesOfParse | src/main.cpp:151 | the block read at an offset is exactly those eight bytes; nothing is lost |
| Dxt1Block.TexelCode | src/main.cpp:164 | the code of a texel, taken from the bottom two bits, is one of 0..3 |
| Dxt1Block.ShiftedCodesAt | src/main.cpp:159-179 | reading codes by taking the bottom two bits and shifting right by two gives, at step t, the bits of `v >> 2t` |
| Dxt1Block.TexelCodesAreShifted | src/main.cpp:159-179 | the sixteen texel codes are exactly the codes the shifting loop reads |
| Dxt1Block.PackTexelCodes | src/main.cpp:159-179 | the sixteen codes read by shifting two bits per texel determine the index field: packing them gives it back |
| Dxt1Block.TexelCodesOfPack | src/main.cpp:159-179 | any sixteen codes in 0..3 pack into a 32-bit field whose codes are exactly those |
| Dxt1Block.ExtremeIndexFields | src/main.cpp:164 | an all-ones index field gives code 3 for every texel, an all-zeros field code 0 |
| Frequency.AddCount | src/main.cpp:184-193 | one counting step adds the key, raises its count by one (from 0 when new) and leaves every other count unchanged |
| Frequency.SumCountsAddCount | src/main.cpp:184-193 | each counting step raises the total of all counts by exactly one |
| Frequency.SizeAddCount | src/main.cpp:184-193 | each counting step adds a key exactly when the key is new |
| BlockStats.ColorCounts | src/main.cpp:183-205 | the endpoint table after counting the blocks in order, endpoint A then endpoint B of each block, into one table |
| BlockStats.IndexCounts | src/main.cpp:207-217 | the index table after counting each block's index field in order |
| BlockStats.ColorCountsAreMultiplicities | src/main.cpp:183-205 | the endpoint table maps each value to the number of A and B endpoints equal to it, and holds no other key |
| BlockStats.IndexCountsAreMultiplicities | src/main.cpp:207-217 | the index table maps each index field to the number of blocks carrying it, and holds no other key |
| BlockStats.SumColorCounts | src/main.cpp:183-205 | the endpoint counts add up to two per block |
| BlockStats.SumIndexCounts | src/main.cpp:207-217 | the index counts add up to one per block |
| BlockStats.ColorTableSize | src/main.cpp:183-205 | the endpoint table has at most two keys per block, and at least one key when there is a block |
| BlockStats.IndexTableSize | src/main.cpp:207-217 | the index table has at most one key per block, and at least one key when there is a block |
| BlockStats.SharedBlocks | src/main.cpp:229-231 | the uint32_t difference `blockCount - size` equals the true difference when the size does not exceed the count, and wraps to 2^32 minus the excess otherwise |
| BlockStats.SharedIndicesNeverWraps | src/main.cpp:231 | "shared indices blocks" never wraps, and is below the block count when there is a block |
| BlockStats.SharedColorBlocksWraps | src/main.cpp:229 | one block with endpoints 0xF800 and 0x001F gives "shared color blocks" 4294967295 |
| BlockStats.SharedEndpointColors | src/main.cpp:229 | corrected statistic: repeated endpoint occurrences, 2 per block minus distinct values; never wraps; zero exactly when no endpoint value repeats |
| Splitter.CheckerColor | src/main.cpp:166-176 | a texel's colour is its code's colour, with red zeroed on blocks where x + y is even and green zeroed on the others |
| Splitter.CheckerboardShades | src/main.cpp:135-176 | code 0 is dark olive (red = green = 0x40, blue 0) and code 3 white; after the overlay they are dark green and cyan on even blocks, dark red and magenta on odd ones |
| Splitter.RowMajor | src/main.cpp:154 | the row-major offset of block (x, y) is a valid block index |
| Splitter.BlockOffset | src/main.cpp:126-148 | the byte offset `y * (blockCountW * 8) + x * 8` of block (x, y) |
| Splitter.TexelOffset | src/main.cpp:165 | the index-image offset `(y * 4 + oy) * width + (x * 4 + ox)` of texel (ox, oy) of block (x, y), computed exactly |
| Splitter.BlockOffsetInBounds | src/main.cpp:126-151 | the byte offset of block (x, y) is its row-major index times 8, and its eight bytes lie inside the level |
| Splitter.TexelOffsetDecodes | src/main.cpp:165 | texel (ox, oy) of block (x, y) lands inside the index image, in that block, at position oy * 4 + ox |
| Splitter.IndexPixelAtTexel | src/main.cpp:159-179 | the pixel at a texel's offset has the checkerboarded colour of that texel's 2-bit code |
| Splitter.SameTexelSamePixel | src/main.cpp:165 | a pixel of a block at a given texel position is that texel's offset |
| Splitter.TexelOffsetCovers | src/main.cpp:165 | every pixel is the offset of the texel its coordinates name |
| Splitter.TexelOffsetInjective | src/main.cpp:165 | no two texels of the grid share an offset, so each pixel is written once |
| Splitter.WholeImageInGrid | src/main.cpp:123-133 | with width and height multiples of 4, every pixel lies in a whole block |
| Splitter.InBlockIsPixelBlock | src/main.cpp:154-165 | a pixel lies in block (x, y) exactly when it is in the grid and its block index is that of (x, y) |
| Splitter.PixelBlock | src/main.cpp:154-165 | the block of a grid pixel, recovered from its row and column, is one of the level's blocks |
| Splitter.IndexImageSizeU32 | src/main.cpp:133 | `width * height` in uint32_t equals the true product when it fits and is smaller otherwise |
| Splitter.IndexImageSizeWraps | src/main.cpp:133 | for 65536 x 65536 the uint32_t size is 0, while the texel loop writes up to offset 2^32 - 1 |
| Splitter.PixelsStep | src/main.cpp:159-180 | scattering block k = (x, y) into the index image after k blocks gives the index image after k + 1 blocks |
| Splitter.EndpointsStep | src/main.cpp:154-156 | storing block k's endpoints at index k turns the endpoint images after k blocks into those after k + 1 |
| Splitter.CountsStep | src/main.cpp:182-216 | counting block k into the tables of the first k blocks gives the tables of the first k + 1 |
| Splitter.ImagesInitial | src/main.cpp:130-133 | the freshly allocated all-black buffers are the endpoint and index images after zero blocks |
| Splitter.ImagesComplete | src/main.cpp:144-219 | once every block is written, each endpoint image holds every block's unpacked endpoint and every pixel of the index image holds its IndexPixel colour |
| Splitter.BlockSplitter.constructor | src/main.cpp:123-142 | the buffers have blockCountW * blockCountH and width * height pixels, all black, and both tables are empty |
| Splitter.BlockSplitter.ProcessBlock | src/main.cpp:148-216 | one block: the endpoint images change only at its row-major index, the index image only at its pixels (to IndexPixel), and each table takes one counting step per key |
| Splitter.BlockSplitter.StoreEndpoints | src/main.cpp:153-156 | the two endpoint images change only at the block's index, where they take its unpacked endpoints A and B |
| Splitter.BlockSplitter.CountBlock | src/main.cpp:182-216 | the colour table takes one counting step for endpoint A then one for endpoint B, the index table one for the index field |
| Splitter.BlockSplitter.ScatterIndices | src/main.cpp:159-180 | the texel loop, shifting `ind` right by two per texel, writes each of the block's 16 pixels and nothing else |
| Splitter.BlockSplitter.SplitRow | src/main.cpp:146-218 | a row of blocks takes the images and tables from their state after y * blockCountW blocks to their state after (y + 1) * blockCountW |
| Splitter.BlockSplitter.SplitBlocks | src/main.cpp:144-219 | afterwards each endpoint pixel is its block's unpacked endpoint, each index pixel is IndexPixel, and the tables are the frequency tables of all blocks |
| Dds.ParseHeader | src/main.cpp:256-257 | the header fields are the little-endian words at their packed offsets (magic 0, height 12, width 16, mipMapCount 28, fourCC 84) |
| Dds.ParseHeaderBytes | src/main.cpp:25-46 | reading back the 128 bytes of a header gives the header |
| Dds.HeaderBytesOfParse | src/main.cpp:25-46 | the header read from a file is exactly its first 128 bytes |
| Dds.CheckHeader | src/main.cpp:264-309 | a header is accepted exactly when all eight checks pass; each of the seven errors is returned exactly when every earlier check passes and its own check fails, in source order, and no other error is returned |
| Dds.TagBytes | src/main.cpp:264 | the magic word is the bytes "DDS " and the fourCC word the bytes "DXT1" |
| Dds.AcceptedFileTags | src/main.cpp:264-290 | an accepted file starts with "DDS " and carries "DXT1" at byte 84 |
| Dds.MipLevelAt | src/main.cpp:314-334 | every level has width, height and block counts of at least 1 and at least one block's bytes, never larger than the base dimensions |
| Dds.MipHalves | src/main.cpp:314-321 | each level halves the previous level's dimensions, stopping at 1 |
| Dds.MipSizeShrinks | src/main.cpp:314-334 | a level is never larger than the one before it |
| Dds.Mip0CoversSplitter | src/main.cpp:323-350 | level 0 holds at least the (width / 4) * (height / 4) blocks the splitter reads, and exactly that many when both dimensions are at least 4 |
| Dds.SmallestMip | src/main.cpp:314-330 | once 2^mip exceeds both dimensions the level is one 8-byte block |
| Dds.MipSizeInBytesU32 | src/main.cpp:334 | the uint32_t level size equals the true size whenever that fits in 32 bits |
| Dds.MipSizeWraps | src/main.cpp:334 | an accepted 131072 x 131072 header has a 2^33-byte level 0 whose uint32_t size is 0 |
| Dds.ZeroMipCountAccepted | src/main.cpp:312 | a header with mipMapCount 0 passes every check, and the loop then reads no level |
| Dds.LevelCountAsWritten | src/main.cpp:312 | the number of levels the loop reads as written: `mipMapCount`, which may be 0 |
| Dds.LevelCount | src/main.cpp:312 | corrected level count: mipMapCount, but at least 1 |
| Dds.MipBytes | src/main.cpp:336-340 | level m is the slice after the header and levels 0 .. m-1, as long as its size |
| Dds.MipsUpToSlices | src/main.cpp:311-345 | level m of the chain read so far is the slice that follows levels 0 .. m-1 |
| Dds.ReadMipChain | src/main.cpp:311-345 | the loop succeeds exactly when the whole chain fits after the header, returning each level's slice; otherwise it fails at the first level that does not fit |
| Dds.LoadDds | src/main.cpp:256-345 | a short file is rejected, a failing header check reports its error, and an accepted header loads exactly when its chain fits; otherwise the error is MipReadFailed at the first level that does not fit; a loaded texture has at least one level, which is level 0's slice |
| DxtSplitter.SplitDdsFile | src/main.cpp:249-350 | the load errors are LoadDds's (too small, the failing header check, MipReadFailed at the first level that does not fit); on success the splitter holds, for level 0 of the file, every block's endpoints, every pixel's index colour and the two frequency tables |
| DxtSplitter.AcceptedLevelFullyCovered | src/main.cpp:293-303 | for an accepted header every pixel of level 0 lies in a whole block of the grid |
| DxtSplitter.WideTextureOverflowsIndexImage | src/main.cpp:133 | an accepted 65536 x 65536 header loads (its level size fits in uint32_t) but its index image's uint32_t size is 0 |
| DxtSplitter.TallTextureWrapsTexelOffset | src/main.cpp:165 | an accepted 65536 x 65540 header has a level 0 that fits in uint32_t, an index image whose uint32_t size wraps to 262144, and texel offsets in its last block row of at least 2^32, which wrap back inside the index image |

## Left out

- File handling: opening the input, `fclose` and the "Can't open file" error. The input file is a parameter holding its bytes.
- `saveToTga` and the TGA output files. The model ends with the images in memory.
- All `printf` output, including the byte-size and percentage lines of the statistics. The floating-point percentages are not modelled; the integer "shared" counts are, in `BlockStats`.
- The commented-out splits of mip levels 1 and 2. Only level 0 is split, as in the source.
- The `#pragma pack` struct layout and `memcpy`. The model reads the same little-endian words at the same offsets instead.
- Dds.MipLevelAt: uses `width / 2^mip` for every mip. `header.width >> mip` is undefined in C++ for mip >= 32, so levels beyond 31 follow no source behaviour.
- Dds.MipLevelAt: models the block count as written, `max(1, width / 4)`. For a level whose width is not a multiple of 4 (for example 6), this is fewer blocks than a DDS writer stores (`(width + 3) / 4`). Later levels would then be read from the wrong offsets. Only level 0 is split, so the output does not change.
- Splitter.BlockSplitter.SplitBlocks: computes block offsets, `blockCount` and the table counts exactly. In the source these are `uint32_t`. Apart from the findings below, they can only wrap for levels whose level-0 size already wraps (see `Dds.MipSizeWraps`).
- Splitter.TexelOffset: computes the index-image offset exactly. At line 165 it is a `uint32_t`, which wraps once `width * height` exceeds 2^32. That happens on the same accepted headers as the line-133 finding; `DxtSplitter.TallTextureWrapsTexelOffset` shows one.
- Dds.ReadMipChain and Dds.LoadDds: read `max(1, mipMapCount)` levels, the corrected count. The as-written count is `Dds.LevelCountAsWritten`.
- Dds.ReadMipChain: uses exact level sizes, the corrected computation. The as-written `uint32_t` size is `Dds.MipSizeInBytesU32`.
- Splitter.BlockSplitter.constructor: gives the index image exactly `width * height` pixels, the corrected size. The as-written size is `Splitter.IndexImageSizeU32`.

## Findings

| source | as written | input that shows it | evidently intended | confidence | as-written member | corrected member |
|---|---|---|---|---|---|---|
| src/main.cpp:229 | `blockCount - (uint32_t)uniqueColors.size()`, where the table counts both endpoints of every block | one block with endpoints 0xF800 and 0x001F: 1 - 2 wraps to 4294967295, which the `%d` at line 230 prints as -1, with a percentage of about 4.3e11 % | the number of endpoint occurrences that repeat a value: `2 * blockCount - size` | high, not executed | BlockStats.SharedColorBlocksWraps | BlockStats.SharedEndpointColors |
| src/main.cpp:312 | the loop reads `mipMapCount` levels, and `data[0]` is used afterwards | a header with mipMapCount 0 (allowed by DDS for a texture without mips) passes every check, then `data[0]` indexes an empty vector | read at least the base level | high, not executed | Dds.ZeroMipCountAccepted | Dds.LevelCount |
| src/main.cpp:334 | `blockW * blockH * sizeof(BlockDxt1)` in uint32_t | an accepted 131072 x 131072 header: 2^33 bytes wrap to 0, so nothing is read and loading succeeds | the exact level size | medium, not executed | Dds.MipSizeWraps | Dds.ReadMipChain |
| src/main.cpp:165 | `indiceOffset = (y * 4 + oy) * width + (x * 4 + ox)` in uint32_t | an accepted 65536 x 65540 header: level 0 (2147614720 bytes) loads, the index image has 262144 pixels, and the last block row's offsets wrap back into it | the exact offset, inside an index image of width * height pixels | medium, not executed | DxtSplitter.TallTextureWrapsTexelOffset | Splitter.TexelOffsetDecodes |
| src/main.cpp:133 | `std::vector<RGB> indices(width * height)` with a uint32_t product | an accepted 65536 x 65536 header: the product wraps to 0 while texels are written up to offset 2^32 - 1 | an index image of exactly width * height pixels | medium, not executed | DxtSplitter.WideTextureOverflowsIndexImage | Splitter.BlockSplitter.constructor |
