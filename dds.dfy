/** The DDS container as the splitter's loader reads it: the 128-byte
    header (magic word plus `DDS_HEADER`), the checks a file must pass to be
    accepted as a 2D DXT1 texture, the size of each mip level, and the loop
    that reads the mip chain that follows the header. */
module Dds {
  import opened Bits
  import opened Dxt1Block

  datatype PixelFormat = PixelFormat(
    size: u32, flags: u32, fourCC: u32, rgbBitCount: u32,
    rBitMask: u32, gBitMask: u32, bBitMask: u32, aBitMask: u32)

  /** The header record, field for field, including the leading magic word. */
  datatype Header = Header(
    magic: u32, size: u32, flags: u32, height: u32, width: u32,
    pitchOrLinearSize: u32, depth: u32, mipMapCount: u32,
    reserved1: seq<u32>, ddspf: PixelFormat,
    caps: u32, caps2: u32, caps3: u32, caps4: u32, reserved2: u32)

  /** Why loading stops; each one ends the program with its own message. */
  datatype LoadError =
    | FileTooSmall
    | MissingMagic
    | BadHeaderSize
    | BadPixelFormatSize
    | NotDxt1
    | WidthNotMultipleOf4
    | HeightNotMultipleOf4
    | VolumeTexture
    | MipReadFailed(mip: nat)

  datatype Result<T> = Ok(value: T) | Err(error: LoadError)

  /** `sizeof(DDS_HEADER)`: 32 words. */
  const HeaderSize: nat := 128
  /** `sizeof(DDS_PIXELFORMAT)`: 8 words. */
  const PixelFormatSize: nat := 32
  /** The bytes "DDS " read as a little-endian word. */
  const DdsMagic: u32 := 0x2053_4444
  /** The bytes "DXT1" read as a little-endian word. */
  const FourCCDxt1: u32 := 0x3154_5844
  /** The pixel-format flag saying that fourCC is meaningful. */
  const FlagFourCC: nat := 4

  /** n consecutive little-endian words starting at byte `at`. */
  function WordsAt(s: seq<u8>, at: nat, n: nat): (ws: seq<u32>)
    requires at + 4 * n <= |s|
    ensures |ws| == n
  {
    seq(n, i requires 0 <= i < n => U32At(s, at + 4 * i))
  }

  /** The bytes of a sequence of words, each one low byte first. */
  function WordsBytes(ws: seq<u32>): (s: seq<u8>)
    ensures |s| == 4 * |ws|
  {
    if ws == [] then [] else U32Bytes(ws[0]) + WordsBytes(ws[1..])
  }

  lemma {:induction false} WordsAtBytes(ws: seq<u32>)
    ensures WordsAt(WordsBytes(ws), 0, |ws|) == ws
  {
    if ws != [] {
      var s := WordsBytes(ws);
      WordsAtBytes(ws[1..]);
      U32RoundTrip(ws[0]);
      assert s[..4] == U32Bytes(ws[0]);
      assert U32At(s, 0) == U32At(U32Bytes(ws[0]), 0);
      forall i | 1 <= i < |ws|
        ensures U32At(s, 4 * i) == ws[i]
      {
        var rest := WordsBytes(ws[1..]);
        assert U32At(s, 4 * i) == U32At(rest, 4 * (i - 1));
        assert WordsAt(rest, 0, |ws| - 1)[i - 1] == ws[1..][i - 1];
      }
    }
  }

  lemma {:induction false} WordsBytesAt(s: seq<u8>, at: nat, n: nat)
    requires at + 4 * n <= |s|
    ensures WordsBytes(WordsAt(s, at, n)) == s[at..at + 4 * n]
    decreases n
  {
    if n > 0 {
      var ws := WordsAt(s, at, n);
      assert ws[1..] == WordsAt(s, at + 4, n - 1);
      WordsBytesAt(s, at + 4, n - 1);
      U32BytesOfRead(s, at);
      assert s[at..at + 4 * n] == s[at..at + 4] + s[at + 4..at + 4 * n];
    }
  }

  /** The header laid over 32 words (`#pragma pack(1)`, no padding): the
      pixel format starts at word 19 (byte 76), caps at word 27 (byte 108). */
  function HeaderOfWords(ws: seq<u32>): Header
    requires |ws| == 32
  {
    Header(ws[0], ws[1], ws[2], ws[3], ws[4], ws[5], ws[6], ws[7], ws[8..19],
           PixelFormat(ws[19], ws[20], ws[21], ws[22], ws[23], ws[24], ws[25], ws[26]),
           ws[27], ws[28], ws[29], ws[30], ws[31])
  }

  function HeaderWords(h: Header): (ws: seq<u32>)
    requires |h.reserved1| == 11
    ensures |ws| == 32
  {
    var pf := h.ddspf;
    [h.magic, h.size, h.flags, h.height, h.width, h.pitchOrLinearSize, h.depth, h.mipMapCount]
      + h.reserved1
      + [pf.size, pf.flags, pf.fourCC, pf.rgbBitCount, pf.rBitMask, pf.gBitMask, pf.bBitMask, pf.aBitMask]
      + [h.caps, h.caps2, h.caps3, h.caps4, h.reserved2]
  }

  /** The header `fread` fills from the first 128 bytes of the file. */
  function ParseHeader(file: seq<u8>): (h: Header)
    requires HeaderSize <= |file|
    ensures |h.reserved1| == 11
    ensures h.magic == U32At(file, 0) && h.width == U32At(file, 16) && h.height == U32At(file, 12)
    ensures h.mipMapCount == U32At(file, 28) && h.ddspf.fourCC == U32At(file, 84)
  {
    HeaderOfWords(WordsAt(file, 0, 32))
  }

  /** The 128 bytes a header occupies in a file. */
  function HeaderBytes(h: Header): (s: seq<u8>)
    requires |h.reserved1| == 11
    ensures |s| == HeaderSize
  {
    WordsBytes(HeaderWords(h))
  }

  /** Reading back the bytes of a header gives the header. */
  lemma ParseHeaderBytes(h: Header)
    requires |h.reserved1| == 11
    ensures ParseHeader(HeaderBytes(h)) == h
  {
    var ws := HeaderWords(h);
    WordsAtBytes(ws);
    assert ws[8..19] == h.reserved1;
  }

  /** Every 128-byte prefix is some header, and reading it loses no byte. */
  lemma HeaderBytesOfParse(file: seq<u8>)
    requires HeaderSize <= |file|
    ensures HeaderBytes(ParseHeader(file)) == file[..HeaderSize]
  {
    var ws := WordsAt(file, 0, 32);
    assert HeaderWords(HeaderOfWords(ws)) == ws;
    WordsBytesAt(file, 0, 32);
  }

  /** The header checks in the order the loader makes them (lines 264-309);
      the first that fails names the error. A header passes exactly when it
      has the "DDS " magic, a 124-byte header size, a 32-byte pixel format,
      the fourCC flag set with fourCC "DXT1", width and height multiples of
      4 and depth 1. */
  function CheckHeader(h: Header): (r: Result<Header>)
    ensures r.Ok? ==> r.value == h
    ensures r.Ok? <==>
      && h.magic == DdsMagic && h.size == HeaderSize - 4
      && h.ddspf.size == PixelFormatSize
      && h.ddspf.flags / FlagFourCC % 2 == 1 && h.ddspf.fourCC == FourCCDxt1
      && h.width % 4 == 0 && h.height % 4 == 0 && h.depth == 1
    ensures r == Err(MissingMagic) <==> h.magic != DdsMagic
    ensures r == Err(BadHeaderSize) <==> h.magic == DdsMagic && h.size != HeaderSize - 4
    ensures r == Err(BadPixelFormatSize) <==>
      && h.magic == DdsMagic && h.size == HeaderSize - 4
      && h.ddspf.size != PixelFormatSize
    ensures r == Err(NotDxt1) <==>
      && h.magic == DdsMagic && h.size == HeaderSize - 4
      && h.ddspf.size == PixelFormatSize
      && (h.ddspf.flags / FlagFourCC % 2 == 0 || h.ddspf.fourCC != FourCCDxt1)
    ensures r == Err(WidthNotMultipleOf4) <==>
      && h.magic == DdsMagic && h.size == HeaderSize - 4
      && h.ddspf.size == PixelFormatSize
      && h.ddspf.flags / FlagFourCC % 2 == 1 && h.ddspf.fourCC == FourCCDxt1
      && h.width % 4 != 0
    ensures r == Err(HeightNotMultipleOf4) <==>
      && h.magic == DdsMagic && h.size == HeaderSize - 4
      && h.ddspf.size == PixelFormatSize
      && h.ddspf.flags / FlagFourCC % 2 == 1 && h.ddspf.fourCC == FourCCDxt1
      && h.width % 4 == 0 && h.height % 4 != 0
    ensures r == Err(VolumeTexture) <==>
      && h.magic == DdsMagic && h.size == HeaderSize - 4
      && h.ddspf.size == PixelFormatSize
      && h.ddspf.flags / FlagFourCC % 2 == 1 && h.ddspf.fourCC == FourCCDxt1
      && h.width % 4 == 0 && h.height % 4 == 0 && h.depth != 1
    ensures r.Err? ==> !r.error.FileTooSmall? && !r.error.MipReadFailed?
  {
    if h.magic != DdsMagic then Err(MissingMagic)
    else if h.size != HeaderSize - 4 then Err(BadHeaderSize)
    else if h.ddspf.size != PixelFormatSize then Err(BadPixelFormatSize)
    else if h.ddspf.flags / FlagFourCC % 2 == 0 || h.ddspf.fourCC != FourCCDxt1 then Err(NotDxt1)
    else if h.width % 4 != 0 then Err(WidthNotMultipleOf4)
    else if h.height % 4 != 0 then Err(HeightNotMultipleOf4)
    else if h.depth != 1 then Err(VolumeTexture)
    else Ok(h)
  }

  /** The two tags are the ASCII bytes they are named after. */
  lemma TagBytes()
    ensures U32Bytes(DdsMagic) == ['D' as u8, 'D' as u8, 'S' as u8, ' ' as u8]
    ensures U32Bytes(FourCCDxt1) == ['D' as u8, 'X' as u8, 'T' as u8, '1' as u8]
  {
  }

  /** An accepted file starts with the bytes "DDS " and carries "DXT1" at
      byte 84, the fourCC field of the pixel format. */
  lemma AcceptedFileTags(file: seq<u8>)
    requires HeaderSize <= |file| && CheckHeader(ParseHeader(file)).Ok?
    ensures file[..4] == ['D' as u8, 'D' as u8, 'S' as u8, ' ' as u8]
    ensures file[84..88] == ['D' as u8, 'X' as u8, 'T' as u8, '1' as u8]
  {
    TagBytes();
    U32BytesOfRead(file, 0);
    U32BytesOfRead(file, 84);
  }

  /** The dimensions of one mip level and the bytes it occupies. */
  datatype MipLevel = MipLevel(width: nat, height: nat, blockW: nat, blockH: nat, sizeInBytes: nat)

  /** Mip level `mip` of a width x height texture (lines 314-334): the
      dimensions shifted right by mip and raised to at least 1, the block
      counts as dimension / 4 raised to at least 1, and eight bytes per
      block. */
  function MipLevelAt(width: u32, height: u32, mip: nat): (m: MipLevel)
    ensures 1 <= m.width && 1 <= m.height && 1 <= m.blockW && 1 <= m.blockH
    ensures m.width <= width || width == 0
    ensures m.height <= height || height == 0
    ensures m.sizeInBytes >= BlockSize
  {
    ShrLe(width, mip);
    ShrLe(height, mip);
    var w := Shr(width, mip);
    var h := Shr(height, mip);
    var w: nat := if w < 1 then 1 else w;
    var h: nat := if h < 1 then 1 else h;
    var bw: nat := if w / 4 < 1 then 1 else w / 4;
    var bh: nat := if h / 4 < 1 then 1 else h / 4;
    MulLe(1, bw, 1, bh);
    MipLevel(w, h, bw, bh, bw * bh * BlockSize)
  }

  /** Each level halves the previous one's dimensions, stopping at 1. */
  lemma MipHalves(width: u32, height: u32, mip: nat)
    ensures var m, n := MipLevelAt(width, height, mip), MipLevelAt(width, height, mip + 1);
      && n.width == (if m.width / 2 < 1 then 1 else m.width / 2)
      && n.height == (if m.height / 2 < 1 then 1 else m.height / 2)
  {
  }

  /** Levels never grow. */
  lemma MipSizeShrinks(width: u32, height: u32, mip: nat)
    ensures MipLevelAt(width, height, mip + 1).sizeInBytes <= MipLevelAt(width, height, mip).sizeInBytes
  {
    var m, n := MipLevelAt(width, height, mip), MipLevelAt(width, height, mip + 1);
    MipHalves(width, height, mip);
    assert n.blockW <= m.blockW && n.blockH <= m.blockH;
    MulLe(n.blockW, m.blockW, n.blockH, m.blockH);
  }


  /** Level 0 holds at least the (width / 4) * (height / 4) blocks the
      splitter reads, and exactly that many when both are at least 4. */
  lemma Mip0CoversSplitter(width: u32, height: u32)
    ensures MipLevelAt(width, height, 0).sizeInBytes >= (width / 4) * (height / 4) * BlockSize
    ensures width >= 4 && height >= 4 ==>
      MipLevelAt(width, height, 0).sizeInBytes == (width / 4) * (height / 4) * BlockSize
  {
    var m := MipLevelAt(width, height, 0);
    MulLe(width / 4, m.blockW, height / 4, m.blockH);
  }

  /** Once 2^mip exceeds both dimensions the level is a single block. */
  lemma SmallestMip(width: u32, height: u32, mip: nat)
    requires width < Pow2(mip) && height < Pow2(mip)
    ensures MipLevelAt(width, height, mip) == MipLevel(1, 1, 1, 1, BlockSize)
  {
    ShrSmall(width, mip);
    ShrSmall(height, mip);
  }

  /** `blockW * blockH * sizeof(BlockDxt1)` as the loader computes it, in
      uint32_t (line 334). */
  function MipSizeInBytesU32(width: u32, height: u32, mip: nat): (size: u32)
    ensures MipLevelAt(width, height, mip).sizeInBytes < U32Modulus ==>
      size == MipLevelAt(width, height, mip).sizeInBytes
  {
    WrapU32(MipLevelAt(width, height, mip).sizeInBytes)
  }

  /** A header the checks accept whose level 0 is 2^33 bytes: the uint32_t
      size wraps to 0, so the loader reads nothing and still succeeds. */
  lemma MipSizeWraps()
    ensures var h := WideHeader(131072, 131072, 1);
      && CheckHeader(h).Ok?
      && MipLevelAt(h.width, h.height, 0).sizeInBytes == 2 * U32Modulus
      && MipSizeInBytesU32(h.width, h.height, 0) == 0
  {
  }

  /** A header the checks accept, with the given dimensions and mip count. */
  function WideHeader(width: u32, height: u32, mipMapCount: u32): (h: Header)
    requires width % 4 == 0 && height % 4 == 0
    ensures CheckHeader(h).Ok? && h.width == width && h.height == height
    ensures h.mipMapCount == mipMapCount && |h.reserved1| == 11
  {
    Header(DdsMagic, 124, 0x1007, height, width, 0, 1, mipMapCount, seq(11, _ => 0),
           PixelFormat(32, FlagFourCC, FourCCDxt1, 0, 0, 0, 0, 0), 0x1000, 0, 0, 0, 0)
  }

  /** The number of levels the loop reads as written: `mipMapCount`. */
  function LevelCountAsWritten(h: Header): nat
  {
    h.mipMapCount
  }

  /** A header with mipMapCount 0 passes every check, and then no level is
      read, so `data[0]` indexes an empty vector. */
  lemma ZeroMipCountAccepted()
    ensures var h := WideHeader(4, 4, 0);
      CheckHeader(h).Ok? && LevelCountAsWritten(h) == 0
  {
  }

  /** The number of levels read: mipMapCount, but at least the base level,
      which the texture always has. */
  function LevelCount(h: Header): (n: nat)
    ensures n >= 1
    ensures h.mipMapCount >= 1 ==> n == h.mipMapCount
    ensures h.mipMapCount == 0 ==> n == 1
  {
    if h.mipMapCount < 1 then 1 else h.mipMapCount
  }

  /** Bytes occupied by levels 0 .. n-1. */
  function ChainSize(width: u32, height: u32, n: nat): nat
  {
    if n == 0 then 0 else ChainSize(width, height, n - 1) + MipLevelAt(width, height, n - 1).sizeInBytes
  }

  lemma {:induction false} ChainSizeMono(width: u32, height: u32, m: nat, n: nat)
    requires m <= n
    ensures ChainSize(width, height, m) <= ChainSize(width, height, n)
    decreases n - m
  {
    if m < n {
      ChainSizeMono(width, height, m + 1, n);
    }
  }

  /** The bytes of level m: they follow the header and the levels before it. */
  function MipBytes(file: seq<u8>, width: u32, height: u32, m: nat): (s: seq<u8>)
    requires HeaderSize + ChainSize(width, height, m + 1) <= |file|
    ensures |s| == MipLevelAt(width, height, m).sizeInBytes
  {
    file[HeaderSize + ChainSize(width, height, m) .. HeaderSize + ChainSize(width, height, m + 1)]
  }

  /** Levels 0 .. n-1, each cut from the file after the ones before it. */
  function MipsUpTo(file: seq<u8>, width: u32, height: u32, n: nat): (mips: seq<seq<u8>>)
    requires HeaderSize + ChainSize(width, height, n) <= |file|
    ensures |mips| == n
  {
    if n == 0 then [] else MipsUpTo(file, width, height, n - 1) + [MipBytes(file, width, height, n - 1)]
  }

  /** Level m of the chain is the slice that follows levels 0 .. m-1. */
  lemma {:induction false} MipsUpToSlices(file: seq<u8>, width: u32, height: u32, n: nat)
    requires HeaderSize + ChainSize(width, height, n) <= |file|
    ensures forall m :: 0 <= m <= n ==> HeaderSize + ChainSize(width, height, m) <= |file|
    ensures forall m :: 0 <= m < n ==>
      MipsUpTo(file, width, height, n)[m] == MipBytes(file, width, height, m)
  {
    forall m | 0 <= m <= n
      ensures HeaderSize + ChainSize(width, height, m) <= |file|
    {
      ChainSizeMono(width, height, m, n);
    }
    if n > 0 {
      var prefix := MipsUpTo(file, width, height, n - 1);
      MipsUpToSlices(file, width, height, n - 1);
      assert MipsUpTo(file, width, height, n) == prefix + [MipBytes(file, width, height, n - 1)];
    }
  }

  /** The mip loop of the loader (lines 311-345): for each level, `fread`
      its size from the current position (getting fewer bytes only at the
      end of the file) and stop with an error when the read comes up short.
      It succeeds exactly when the whole chain fits after the header, and
      each level is then the slice of the file that follows the previous
      ones; otherwise it fails at the first level that does not fit. */
  method ReadMipChain(file: seq<u8>, width: u32, height: u32, levels: nat) returns (r: Result<seq<seq<u8>>>)
    requires HeaderSize <= |file|
    ensures r.Ok? <==> HeaderSize + ChainSize(width, height, levels) <= |file|
    ensures r.Ok? ==> |r.value| == levels
    ensures r.Ok? ==> forall m :: 0 <= m <= levels ==> HeaderSize + ChainSize(width, height, m) <= |file|
    ensures r.Ok? ==> forall m :: 0 <= m < levels ==> r.value[m] == MipBytes(file, width, height, m)
    ensures r.Err? ==>
      && r.error.MipReadFailed? && r.error.mip < levels
      && HeaderSize + ChainSize(width, height, r.error.mip) <= |file|
      && |file| < HeaderSize + ChainSize(width, height, r.error.mip + 1)
  {
    var data: seq<seq<u8>> := [];
    var pos := HeaderSize;
    var mip := 0;
    while mip < levels
      invariant mip <= levels
      invariant pos == HeaderSize + ChainSize(width, height, mip) <= |file|
      invariant |data| == mip
      invariant data == MipsUpTo(file, width, height, mip)
    {
      var level := MipLevelAt(width, height, mip);
      var mipSizeInBytes := level.sizeInBytes;
      var bytesRead := if |file| - pos < mipSizeInBytes then |file| - pos else mipSizeInBytes;
      var mipData := file[pos .. pos + bytesRead];
      if bytesRead != mipSizeInBytes {
        ChainSizeMono(width, height, mip + 1, levels);
        return Err(MipReadFailed(mip));
      }
      assert ChainSize(width, height, mip + 1) == ChainSize(width, height, mip) + mipSizeInBytes;
      assert mipData == MipBytes(file, width, height, mip);
      data := data + [mipData];
      pos := pos + bytesRead;
      mip := mip + 1;
    }
    MipsUpToSlices(file, width, height, levels);
    return Ok(data);
  }

  /** A loaded texture: its header and the bytes of each level read. */
  datatype Texture = Texture(header: Header, mips: seq<seq<u8>>)

  /** The loader (lines 256-345) on the file's bytes: read the header, check
      it, then read the mip chain. */
  method LoadDds(file: seq<u8>) returns (r: Result<Texture>)
    ensures |file| < HeaderSize ==> r == Err(FileTooSmall)
    ensures HeaderSize <= |file| && CheckHeader(ParseHeader(file)).Err? ==>
      r == Err(CheckHeader(ParseHeader(file)).error)
    ensures HeaderSize <= |file| && CheckHeader(ParseHeader(file)).Ok? ==>
      var h := ParseHeader(file);
      (r.Ok? <==> HeaderSize + ChainSize(h.width, h.height, LevelCount(h)) <= |file|)
    ensures HeaderSize <= |file| && CheckHeader(ParseHeader(file)).Ok? && r.Err? ==>
      var h := ParseHeader(file);
      && r.error.MipReadFailed? && r.error.mip < LevelCount(h)
      && HeaderSize + ChainSize(h.width, h.height, r.error.mip) <= |file|
      && |file| < HeaderSize + ChainSize(h.width, h.height, r.error.mip + 1)
    ensures r.Ok? ==>
      && HeaderSize <= |file| && r.value.header == ParseHeader(file)
      && CheckHeader(r.value.header).Ok?
      && |r.value.mips| == LevelCount(r.value.header) >= 1
      && HeaderSize + ChainSize(r.value.header.width, r.value.header.height, 1) <= |file|
      && r.value.mips[0] == MipBytes(file, r.value.header.width, r.value.header.height, 0)
  {
    if |file| < HeaderSize {
      return Err(FileTooSmall);
    }
    var header := ParseHeader(file);
    var checked := CheckHeader(header);
    if checked.Err? {
      return Err(checked.error);
    }
    var chain := ReadMipChain(file, header.width, header.height, LevelCount(header));
    if chain.Err? {
      return Err(chain.error);
    }
    ChainSizeMono(header.width, header.height, 1, LevelCount(header));
    return Ok(Texture(header, chain.value));
  }
}
