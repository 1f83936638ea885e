/** Packing an image's pixels into bytes (the `packed` computation of
    `Image::to_asm`): each pixel becomes its palette index, the indices are cut
    into chunks of `pixels_per_byte`, and each chunk is folded into one byte
    with the first index in the lowest bits. */
module Packing {
  import opened Assets
  import opened Bits
  import opened Slices
  import opened Palettes

  /** The byte one chunk of indices packs into:
      `chunk.iter().rev().fold(0u8, |acc, i| (acc << b) | i as u8)`.
      Folding the reversed chunk ORs the later indices in first and shifts them
      up, so the first index ends in the lowest `b` bits. */
  function FoldChunk(chunk: seq<nat>, b: nat): Byte
    requires b < 8
  {
    if chunk == [] then 0
    else
      var acc := Shl8(FoldChunk(chunk[1..], b), b);
      assert Pow2(8) == 256;
      OrBound(acc, chunk[0] % 256, 8);
      Or(acc, chunk[0] % 256)
  }

  /** The digits read as one number, `b` bits per digit, least significant first. */
  function Value(digits: seq<nat>, b: nat): nat
  {
    if digits == [] then 0 else digits[0] + Pow2(b) * Value(digits[1..], b)
  }

  /** `digits[0] << 0 + digits[1] << b + ... + digits[n-1] << (n-1)*b`, summed term by term. */
  function ShiftedSum(digits: seq<nat>, b: nat): nat
  {
    if digits == [] then 0
    else ShiftedSum(digits[..|digits| - 1], b) + digits[|digits| - 1] * Pow2((|digits| - 1) * b)
  }

  predicate FitIn(digits: seq<nat>, b: nat)
  {
    forall j :: 0 <= j < |digits| ==> digits[j] < Pow2(b)
  }

  lemma {:induction false} ValueSnoc(digits: seq<nat>, x: nat, b: nat)
    ensures Value(digits + [x], b) == Value(digits, b) + x * Pow2(|digits| * b)
  {
    if digits == [] {
      assert Value([x], b) == x + Pow2(b) * Value([], b);
    } else {
      var rest := digits[1..];
      assert (digits + [x])[1..] == rest + [x];
      ValueSnoc(rest, x, b);
      var p, q, v := Pow2(b), Pow2(|rest| * b), Value(rest, b);
      Pow2Add(b, |rest| * b);
      MulSucc(|rest|, b);
      assert Pow2(|digits| * b) == p * q;
      MulDistributes(p, v, x * q);
      MulSwap(p, x, q);
      assert Value(digits + [x], b) == digits[0] + p * (v + x * q);
    }
  }

  /** The positional value is the sum of the digits shifted into place. */
  lemma {:induction false} ValueIsShiftedSum(digits: seq<nat>, b: nat)
    ensures Value(digits, b) == ShiftedSum(digits, b)
  {
    if digits != [] {
      var init := digits[..|digits| - 1];
      ValueIsShiftedSum(init, b);
      ValueSnoc(init, digits[|digits| - 1], b);
      assert init + [digits[|digits| - 1]] == digits;
    }
  }

  /** A chunk of `n` digits sets no bit at or above bit `n * b`. */
  lemma {:induction false} ValueBound(digits: seq<nat>, b: nat)
    requires FitIn(digits, b)
    ensures Value(digits, b) < Pow2(|digits| * b)
  {
    if digits != [] {
      var rest := digits[1..];
      assert FitIn(rest, b);
      ValueBound(rest, b);
      var p, q, v := Pow2(b), Pow2(|rest| * b), Value(rest, b);
      MulMonotonic(v, q - 1, p);
      MulSwap(1, v, p);
      MulDistributes(p, q, -1);
      assert (q - 1) * p == p * q - p;
      Pow2Add(b, |rest| * b);
      MulSucc(|rest|, b);
      assert Value(digits, b) == digits[0] + p * v;
    }
  }

  /** `v << b` on a `u8` loses nothing when `v` uses at most `8 - b` bits. */
  lemma ShiftWithinByte(v: nat, b: nat, r: nat)
    requires b < 8 && v < Pow2(r * b) && r * b + b <= 8
    ensures Shl8(v, b) == v * Pow2(b)
  {
    var e := r * b;
    Pow2Add(e, b);
    Pow2Monotonic(e + b, 8);
    Pow2Eight();
    ProductBelow(v, Pow2(e), Pow2(b), 256);
  }

  /** An index below `2^b` with `b < 8` survives the cast `as u8`. */
  lemma IndexWithinByte(i: nat, b: nat)
    requires b < 8 && i < Pow2(b)
    ensures i % 256 == i
  {
    Pow2Monotonic(b, 8);
    Pow2Eight();
  }

  /** When the digits fit, the `u8` fold neither loses bits to the shift nor
      mixes digits in the OR: it computes the positional value. */
  lemma {:induction false} FoldChunkValue(chunk: seq<nat>, b: nat)
    requires b < 8 && FitIn(chunk, b) && |chunk| * b <= 8
    ensures FoldChunk(chunk, b) == Value(chunk, b)
  {
    if chunk != [] {
      var rest := chunk[1..];
      assert FitIn(rest, b);
      MulSucc(|rest|, b);
      FoldChunkValue(rest, b);
      var v := Value(rest, b);
      ValueBound(rest, b);
      ShiftWithinByte(v, b, |rest|);
      IndexWithinByte(chunk[0], b);
      OrShifted(v, chunk[0], b);
    }
  }

  /** Shifting right by `t` digits leaves the digits from `t` on. */
  lemma {:induction false} ShrValue(digits: seq<nat>, b: nat, t: nat)
    requires FitIn(digits, b) && t <= |digits|
    ensures Shr(Value(digits, b), t * b) == Value(digits[t..], b)
  {
    if t > 0 {
      var rest := digits[1..];
      assert FitIn(rest, b);
      ShrAdd(Value(digits, b), b, (t - 1) * b);
      assert b + (t - 1) * b == t * b;
      ShrShifted(digits[0], Value(rest, b), b);
      ShrValue(rest, b, t - 1);
      assert rest[t - 1..] == digits[t..];
    }
  }

  /** Digit `t` is recovered by shifting it down and masking the low `b` bits. */
  lemma DigitAt(digits: seq<nat>, b: nat, t: nat)
    requires FitIn(digits, b) && t < |digits|
    ensures And(Shr(Value(digits, b), t * b), Pow2(b) - 1) == digits[t]
  {
    ShrValue(digits, b, t);
    var rest := digits[t..];
    assert rest[1..] == digits[t + 1..];
    AndLowMask(digits[t], Value(rest[1..], b), b);
  }

  /** The packed bytes: one folded byte per chunk of `ppb` indices, the last chunk possibly short. */
  function PackIndices(indices: seq<nat>, ppb: nat, b: nat): seq<Byte>
    requires ppb >= 1 && b < 8
  {
    var cs := Chunks(indices, ppb);
    seq(|cs|, k requires 0 <= k < |cs| => FoldChunk(cs[k], b))
  }

  /** Every pixel's palette index, or `None` when some pixel has no index. */
  function LookupAll(p: Palette, pixels: seq<Pixel>): (r: Option<seq<nat>>)
    ensures r.Some? <==> forall j :: 0 <= j < |pixels| ==> pixels[j] in p.colours
    ensures r.Some? ==> |r.value| == |pixels|
    ensures r.Some? ==> forall j :: 0 <= j < |pixels| ==> p.Index(pixels[j]) == Some(r.value[j])
  {
    if pixels == [] then Some([])
    else match p.Index(pixels[0])
      case None => None
      case Some(i) =>
        match LookupAll(p, pixels[1..])
        case None =>
          assert forall j :: 1 <= j < |pixels| ==> pixels[1..][j - 1] == pixels[j];
          None
        case Some(rest) =>
          assert forall j :: 1 <= j < |pixels| ==> pixels[1..][j - 1] == pixels[j];
          Some([i] + rest)
  }

  /** The `packed` bytes of one image, or the panic that stops the packing:
      `chunks(0)` when no index fits in a byte, the shift `u8 << 8` (which a
      debug build rejects as an overflow) when an index takes the whole byte,
      and the `expect` on a colour the palette lacks. An empty image has no
      chunks and packs to no bytes. */
  function Pack(p: Palette, pixels: seq<Pixel>, ppb: nat, b: nat): (r: Result<seq<Byte>>)
    ensures r.Err? <==>
      ppb == 0 || (pixels != [] && b >= 8) || exists j :: 0 <= j < |pixels| && pixels[j] !in p.colours
    ensures r.Err? ==>
      r.failure == (if ppb == 0 then ZeroChunkSize else if b >= 8 then ShiftOverflow else MissingColour)
  {
    if ppb == 0 then Err(ZeroChunkSize)
    else if pixels == [] then Ok([])
    else if b >= 8 then Err(ShiftOverflow)
    else match LookupAll(p, pixels)
      case None => Err(MissingColour)
      case Some(indices) => Ok(PackIndices(indices, ppb, b))
  }

  /** One byte per chunk of `ppb` pixels: the pixel count divided by `ppb`, rounded up. */
  lemma PackLength(p: Palette, pixels: seq<Pixel>, ppb: nat, b: nat)
    requires Pack(p, pixels, ppb, b).Ok?
    ensures |Pack(p, pixels, ppb, b).value| == (|pixels| + ppb - 1) / ppb
  {
    if pixels == [] {
      DivUnique(ppb - 1, ppb, 0, ppb - 1);
    } else {
      var indices := LookupAll(p, pixels).value;
      ChunkCount(indices, ppb);
    }
  }

  /** Where chunk `k` of `n` pixels starts and ends. */
  function ChunkStart(k: nat, ppb: nat): nat
  {
    k * ppb
  }

  function ChunkEnd(k: nat, ppb: nat, n: nat): nat
  {
    Min(k * ppb + ppb, n)
  }

  /** A successful packing of a non-empty image is `PackIndices` of its indices. */
  lemma PackedIndices(p: Palette, pixels: seq<Pixel>, ppb: nat, b: nat, packed: seq<Byte>)
    requires Pack(p, pixels, ppb, b) == Ok(packed) && pixels != []
    ensures ppb >= 1 && b < 8 && LookupAll(p, pixels).Some?
    ensures packed == PackIndices(LookupAll(p, pixels).value, ppb, b)
  {
  }

  /** Byte `k` of the packed bytes is the fold of chunk `k`. */
  lemma PackedChunk(indices: seq<nat>, ppb: nat, b: nat, k: nat)
    requires ppb >= 1 && b < 8 && k < |PackIndices(indices, ppb, b)|
    ensures ChunkStart(k, ppb) < ChunkEnd(k, ppb, |indices|) <= |indices|
    ensures ChunkEnd(k, ppb, |indices|) - ChunkStart(k, ppb) <= ppb
    ensures PackIndices(indices, ppb, b)[k]
         == FoldChunk(indices[ChunkStart(k, ppb) .. ChunkEnd(k, ppb, |indices|)], b)
  {
    ChunkCount(indices, ppb);
    DivBound(|indices| + ppb - 1, ppb, k);
    ChunkAt(indices, ppb, k);
  }

  /** Indices of a palette of at most `2^b` colours fit in `b` bits. */
  lemma IndicesFit(p: Palette, pixels: seq<Pixel>, b: nat)
    requires LookupAll(p, pixels).Some? && |p.colours| <= Pow2(b)
    ensures FitIn(LookupAll(p, pixels).value, b)
  {
    var indices := LookupAll(p, pixels).value;
    forall j | 0 <= j < |indices| ensures indices[j] < Pow2(b) {
      assert p.Index(pixels[j]) == Some(indices[j]);
    }
  }

  /** On indices that fit: byte `k` is its chunk's shifted sum, with nothing above it. */
  lemma PackIndicesByte(indices: seq<nat>, ppb: nat, b: nat, k: nat)
    requires ppb >= 1 && b < 8 && ppb * b <= 8 && FitIn(indices, b)
    requires k < |PackIndices(indices, ppb, b)|
    ensures var lo, hi := ChunkStart(k, ppb), ChunkEnd(k, ppb, |indices|);
      && lo < hi <= |indices|
      && PackIndices(indices, ppb, b)[k] == ShiftedSum(indices[lo..hi], b)
      && PackIndices(indices, ppb, b)[k] < Pow2((hi - lo) * b)
  {
    PackedChunk(indices, ppb, b, k);
    var chunk := indices[ChunkStart(k, ppb) .. ChunkEnd(k, ppb, |indices|)];
    assert FitIn(chunk, b);
    MulMonotonic(|chunk|, ppb, b);
    FoldChunkValue(chunk, b);
    ValueIsShiftedSum(chunk, b);
    ValueBound(chunk, b);
  }

  /** On indices that fit: every index is read back from its byte. */
  lemma PackIndicesRoundTrip(indices: seq<nat>, ppb: nat, b: nat, m: nat)
    requires ppb >= 1 && b < 8 && ppb * b <= 8 && FitIn(indices, b) && m < |indices|
    ensures m / ppb < |PackIndices(indices, ppb, b)|
    ensures UnpackAt(PackIndices(indices, ppb, b), m, ppb, b) == indices[m]
  {
    var k, t := m / ppb, m % ppb;
    DivMod(m, ppb);
    ChunkAt(indices, ppb, k);
    PackedChunk(indices, ppb, b, k);
    var chunk := indices[ChunkStart(k, ppb) .. ChunkEnd(k, ppb, |indices|)];
    assert FitIn(chunk, b);
    MulMonotonic(|chunk|, ppb, b);
    FoldChunkValue(chunk, b);
    DigitAt(chunk, b, t);
    assert chunk[t] == indices[m];
  }

  /** Byte `k` is the sum of its chunk's indices, each shifted by `b` bits per
      position, and the bits above the chunk's last index are zero. */
  lemma PackedByte(p: Palette, pixels: seq<Pixel>, ppb: nat, b: nat, packed: seq<Byte>, k: nat)
    requires Pack(p, pixels, ppb, b) == Ok(packed) && k < |packed|
    requires |p.colours| <= Pow2(b) && ppb * b <= 8
    ensures LookupAll(p, pixels).Some?
    ensures ChunkStart(k, ppb) < ChunkEnd(k, ppb, |pixels|) <= |pixels|
    ensures packed[k] == ShiftedSum(LookupAll(p, pixels).value[ChunkStart(k, ppb) .. ChunkEnd(k, ppb, |pixels|)], b)
    ensures packed[k] < Pow2(|LookupAll(p, pixels).value[ChunkStart(k, ppb) .. ChunkEnd(k, ppb, |pixels|)]| * b)
  {
    PackedIndices(p, pixels, ppb, b, packed);
    IndicesFit(p, pixels, b);
    var indices := LookupAll(p, pixels).value;
    assert |indices| == |pixels|;
    PackIndicesByte(indices, ppb, b, k);
  }

  /** `(packed[m / ppb] >> ((m % ppb) * b)) & (2^b - 1)`: the index of pixel `m` read back. */
  function UnpackAt(packed: seq<Byte>, m: nat, ppb: nat, b: nat): nat
    requires ppb >= 1 && m / ppb < |packed|
  {
    And(Shr(packed[m / ppb], (m % ppb) * b), Pow2(b) - 1)
  }

  /** Unpacking reverses packing for every pixel, the short last chunk included:
      the index read back is the pixel's palette index, and the palette entry
      there is the pixel itself. */
  lemma PackRoundTrip(p: Palette, pixels: seq<Pixel>, ppb: nat, b: nat, packed: seq<Byte>, m: nat)
    requires Pack(p, pixels, ppb, b) == Ok(packed) && m < |pixels|
    requires |p.colours| <= Pow2(b) && ppb * b <= 8
    ensures ppb >= 1 && m / ppb < |packed|
    ensures Some(UnpackAt(packed, m, ppb, b)) == p.Index(pixels[m])
    ensures p.colours[UnpackAt(packed, m, ppb, b)] == pixels[m]
  {
    PackedIndices(p, pixels, ppb, b, packed);
    IndicesFit(p, pixels, b);
    var indices := LookupAll(p, pixels).value;
    PackIndicesRoundTrip(indices, ppb, b, m);
    assert p.Index(pixels[m]) == Some(indices[m]);
  }
}
