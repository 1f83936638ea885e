/** How many bits one palette index takes and how many indices share a byte
    (the two numbers `main` derives from the palette size). */
module BitWidth {
  import opened Bits

  /** `ceil(log2(len))` computed on integers: the fewest bits whose patterns
      cover `len` indices. Sizes 0 and 1 give 0, as the floating-point
      expression does after its conversion to `usize`. */
  function BitsPerColour(len: nat): (b: nat)
    ensures Pow2(b) >= len
    ensures b > 0 ==> Pow2(b - 1) < len
  {
    if len <= 1 then 0 else 1 + BitsPerColour((len + 1) / 2)
  }

  /** `8 / bits_per_colour`: how many indices fit in one byte. */
  function PixelsPerByte(b: nat): nat
    requires b >= 1
  {
    8 / b
  }

  /** `BitsPerColour` is the least width that covers the palette. */
  lemma BitsPerColourIsLeast(len: nat, k: nat)
    requires Pow2(k) >= len
    ensures BitsPerColour(len) <= k
  {
    var b := BitsPerColour(len);
    if b > 0 && k <= b - 1 {
      Pow2Monotonic(k, b - 1);
    }
  }

  /** Palettes of one colour or none need no bits at all, so `8 / bits_per_colour` divides by zero. */
  lemma NoBitsForTrivialPalette(len: nat)
    ensures BitsPerColour(len) == 0 <==> len <= 1
  {
  }

  /** Which palette sizes give which widths: up to 128 colours fit in 7 bits,
      up to 256 in 8; more than 256 leave no whole index per byte. */
  lemma WidthRanges(len: nat)
    ensures BitsPerColour(len) <= 7 <==> len <= 128
    ensures BitsPerColour(len) <= 8 <==> len <= 256
  {
    var b := BitsPerColour(len);
    assert Pow2(7) == 128 && Pow2(8) == 256;
    if len <= 128 { BitsPerColourIsLeast(len, 7); }
    if len <= 256 { BitsPerColourIsLeast(len, 8); }
    if b <= 7 { Pow2Monotonic(b, 7); }
    if b <= 8 { Pow2Monotonic(b, 8); }
  }

  /** For a palette of at least two colours every index fits in `b` bits and
      `pixels_per_byte` indices of `b` bits fit in one byte. */
  lemma EncodingFits(len: nat)
    requires len >= 2
    ensures BitsPerColour(len) >= 1
    ensures PixelsPerByte(BitsPerColour(len)) * BitsPerColour(len) <= 8
    ensures PixelsPerByte(BitsPerColour(len)) >= 1 <==> len <= 256
  {
    var b := BitsPerColour(len);
    WidthRanges(len);
    FullIndicesPerByte(b);
  }

  /** `8 / b` indices of `b` bits never overflow a byte, and at least one fits iff `b <= 8`. */
  lemma FullIndicesPerByte(b: nat)
    requires b >= 1
    ensures PixelsPerByte(b) * b <= 8
    ensures PixelsPerByte(b) >= 1 <==> b <= 8
  {
    if b > 8 {
      assert PixelsPerByte(b) == 0;
    } else {
      assert b == 1 || b == 2 || b == 3 || b == 4 || b == 5 || b == 6 || b == 7 || b == 8;
    }
  }

  /** The widths for the smallest palettes. */
  lemma SmallPaletteWidths()
    ensures BitsPerColour(2) == 1 && PixelsPerByte(1) == 8
    ensures BitsPerColour(3) == 2 && BitsPerColour(4) == 2 && PixelsPerByte(2) == 4
    ensures forall len :: 5 <= len <= 8 ==> BitsPerColour(len) == 3 && PixelsPerByte(3) == 2
  {
    assert BitsPerColour(2) == 1 + BitsPerColour(1);
    assert BitsPerColour(3) == 1 + BitsPerColour(2);
    assert BitsPerColour(4) == 1 + BitsPerColour(2);
    forall len | 5 <= len <= 8 ensures BitsPerColour(len) == 3 {
      assert BitsPerColour(len) == 1 + BitsPerColour((len + 1) / 2);
      assert BitsPerColour((len + 1) / 2) == 1 + BitsPerColour(((len + 1) / 2 + 1) / 2);
    }
  }
}
