/** Packed 32-bit RGBA colours of the framebuffer: red in the low byte, alpha in the high byte. */
module Color {

  /** pack_color: (a << 24) + (b << 16) + (g << 8) + r. The sum never carries,
      so every channel comes back out of its byte by shift-and-mask. */
  function PackColor(r: bv8, g: bv8, b: bv8, a: bv8): (c: bv32)
    ensures (c >> 24) & 0xFF == a as bv32
    ensures (c >> 16) & 0xFF == b as bv32
    ensures (c >> 8) & 0xFF == g as bv32
    ensures c & 0xFF == r as bv32
  {
    ((a as bv32) << 24) + ((b as bv32) << 16) + ((g as bv32) << 8) + r as bv32
  }

  /** pack_color with its default, fully opaque alpha. */
  function PackOpaque(r: bv8, g: bv8, b: bv8): (c: bv32)
    ensures (c >> 24) & 0xFF == 0xFF
  {
    PackColor(r, g, b, 0xFF)
  }

  /** The opacity byte of a packed colour. */
  function Opacity(c: bv32): bv8 {
    ((c >> 24) & 0xFF) as bv8
  }

  /** is_transparent_pixel: the opacity byte is zero, that is, the packed value is below 2^24. */
  predicate IsTransparent(c: bv32)
    ensures IsTransparent(c) <==> c < 0x100_0000
  {
    Opacity(c) == 0
  }

  /** The packed value, read as an unsigned number, is a*2^24 + b*2^16 + g*2^8 + r
      (no channel overflows into the next, and the total fits in 32 bits). */
  lemma PackColorValue(r: bv8, g: bv8, b: bv8, a: bv8)
    ensures PackColor(r, g, b, a) as int
         == a as int * 0x100_0000 + b as int * 0x1_0000 + g as int * 0x100 + r as int
  {
    var (r32, g32, b32, a32) := (r as bv32, g as bv32, b as bv32, a as bv32);
    var low8 := r32;
    var low16 := g32 * 0x100 + low8;
    var low24 := b32 * 0x1_0000 + low16;
    assert PackColor(r, g, b, a) == a32 * 0x100_0000 + low24;
    NoCarry8(g32, low8);
    NoCarry16(b32, low16);
    NoCarry24(a32, low24);
  }

  // Adding a byte shifted to position 8, 16 or 24 to a value that fits below
  // that position neither wraps nor carries.

  lemma NoCarry8(hi: bv32, lo: bv32)
    requires hi < 0x100 && lo < 0x100
    ensures hi * 0x100 + lo < 0x1_0000
    ensures (hi * 0x100 + lo) as int == hi as int * 0x100 + lo as int
  {
  }

  lemma NoCarry16(hi: bv32, lo: bv32)
    requires hi < 0x100 && lo < 0x1_0000
    ensures hi * 0x1_0000 + lo < 0x100_0000
    ensures (hi * 0x1_0000 + lo) as int == hi as int * 0x1_0000 + lo as int
  {
  }

  lemma NoCarry24(hi: bv32, lo: bv32)
    requires hi < 0x100 && lo < 0x100_0000
    ensures (hi * 0x100_0000 + lo) as int == hi as int * 0x100_0000 + lo as int
  {
  }

  /** A packed colour is transparent exactly when it was packed with alpha 0. */
  lemma TransparentIffAlphaZero(r: bv8, g: bv8, b: bv8, a: bv8)
    ensures IsTransparent(PackColor(r, g, b, a)) <==> a == 0
  {
  }

  /** Colours packed with the default alpha are never skipped as transparent. */
  lemma OpaqueIsNotTransparent(r: bv8, g: bv8, b: bv8)
    ensures !IsTransparent(PackOpaque(r, g, b))
  {
  }
}
