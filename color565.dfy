/** RGB565 endpoint colours and their shift-expansion to 8 bits per channel
    (`unpackColor565`). */
module Color565 {
  import opened Bits

  /** One pixel. The source's struct stores blue, green, red in that order,
      which is also the order of its brace initialisers. */
  datatype RGB = RGB(b: u8, g: u8, r: u8)

  /** The value-initialised pixel a fresh `std::vector<RGB>` holds. */
  const Black: RGB := RGB(0, 0, 0)

  /** The defensive clamp applied to each channel. */
  function Clamp255(v: nat): (c: u8)
    ensures v <= 255 ==> c == v
    ensures v > 255 ==> c == 255 && c < v
  {
    if v > 255 then 255 else v
  }

  /** Expands a packed RGB565 word: red from bits 11-15, green from bits 5-10,
      blue from bits 0-4, each shifted left (3, 2 and 3 bits) without
      replicating high bits, then clamped to 255. The result lies on the
      565 grid: red and blue are multiples of 8, green a multiple of 4. */
  function UnpackColor565(color: u16): (c: RGB)
    ensures c.r % 8 == 0 && c.g % 4 == 0 && c.b % 8 == 0
    ensures c.r <= 248 && c.g <= 252 && c.b <= 248
  {
    var b := (color % 0x20) * 8;          // (color & 0x1f) << 3
    var g := (color / 0x20 % 0x40) * 4;   // ((color >> 5) & 0x3f) << 2
    var r := (color / 0x800 % 0x20) * 8;  // ((color >> 11) & 0x1f) << 3
    RGB(Clamp255(b), Clamp255(g), Clamp255(r))
  }

  /** Re-quantisation to RGB565: ((r >> 3) << 11) | ((g >> 2) << 5) | (b >> 3).
      The three fields occupy disjoint bits, so the `|` is a sum. */
  function Pack565(c: RGB): u16
  {
    (c.r / 8) * 0x800 + (c.g / 4) * 0x20 + c.b / 8
  }

  /** The colours UnpackColor565 can produce: every channel on the 565 grid. */
  predicate OnGrid565(c: RGB)
  {
    c.r % 8 == 0 && c.g % 4 == 0 && c.b % 8 == 0
  }

  /** The clamps never fire: each channel is exactly its shifted bit field. */
  lemma UnpackColor565NeverClamps(color: u16)
    ensures UnpackColor565(color).r == (color / 0x800) * 8
    ensures UnpackColor565(color).g == (color / 0x20 % 0x40) * 4
    ensures UnpackColor565(color).b == (color % 0x20) * 8
  {
    assert color / 0x800 < 0x20;
  }

  /** Re-quantising an unpacked colour recovers the packed word exactly. */
  lemma PackUnpack(color: u16)
    ensures Pack565(UnpackColor565(color)) == color
  {
    var c := UnpackColor565(color);
    UnpackColor565NeverClamps(color);
    DivDiv(color, 0x20, 0x40);
    assert color / 0x20 == (color / 0x800) * 0x40 + color / 0x20 % 0x40;
    assert color == (color / 0x20) * 0x20 + color % 0x20;
    assert c.r / 8 == color / 0x800;
    assert c.g / 4 == color / 0x20 % 0x40;
    assert c.b / 8 == color % 0x20;
  }

  /** Conversely, every colour on the 565 grid is the unpacking of its
      re-quantisation, so UnpackColor565 is a bijection between 16-bit words
      and grid colours. */
  lemma UnpackPack(c: RGB)
    requires OnGrid565(c)
    ensures UnpackColor565(Pack565(c)) == c
  {
    var p := Pack565(c);
    var hi := (c.r / 8) * 0x40 + c.g / 4;
    assert p == hi * 0x20 + c.b / 8;
    DivModUnique(p, 0x20, hi, c.b / 8);
    DivModUnique(hi, 0x40, c.r / 8, c.g / 4);
    DivDiv(p, 0x20, 0x40);
    UnpackColor565NeverClamps(p);
  }

  /** Distinct packed words give distinct colours. */
  lemma UnpackColor565Injective(c1: u16, c2: u16)
    requires c1 != c2
    ensures UnpackColor565(c1) != UnpackColor565(c2)
  {
    PackUnpack(c1);
    PackUnpack(c2);
  }

  /** Any 8-bit colour survives a trip through RGB565 to within one
      quantisation step per channel (8 for red and blue, 4 for green). */
  lemma RequantiseWithinStep(c: RGB)
    ensures var u := UnpackColor565(Pack565(c));
      c.r - 8 < u.r <= c.r && c.g - 4 < u.g <= c.g && c.b - 8 < u.b <= c.b
  {
    var p := Pack565(c);
    var hi := (c.r / 8) * 0x40 + c.g / 4;
    assert p == hi * 0x20 + c.b / 8;
    DivModUnique(p, 0x20, hi, c.b / 8);
    DivModUnique(hi, 0x40, c.r / 8, c.g / 4);
    DivDiv(p, 0x20, 0x40);
    UnpackColor565NeverClamps(p);
  }

  /** Pure red and pure blue endpoints expand by shifting only: 0xF800 gives
      red 248, not 255. */
  lemma UnpackPureColours()
    ensures UnpackColor565(0xF800) == RGB(0, 0, 248)
    ensures UnpackColor565(0x001F) == RGB(248, 0, 0)
    ensures UnpackColor565(0xFFFF) == RGB(248, 252, 248)
  {
  }
}
