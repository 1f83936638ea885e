# image2arm, modelled in Dafny

image2arm reads a set of RGBA images and writes one assembler source file,
`assets.s`. The file holds:

- a palette of every distinct colour the images use;
- the two encoding constants `bits_per_colour` and `pixels_per_byte`;
- each image as palette indices packed several to a byte, written as `DEFB` rows under the label `_<name>`;
- an aligned address table with one `DEFW` entry per image, the entry count `ASSET_MAX`, and one `ASSET<label>` constant per image.

This project models that pipeline from the decoded images onwards. It proves
what the palette, the packing and the text contain.

The modules follow the program's parts:

- `Assets` (assets.dfy): pixels, images, results, and the failures that end a run.
- `Bits` (bits.dfy): the `u8` shift, `>>`, `|` and `&` on naturals, with their arithmetic.
- `Text` (text.dfy): the `{:02X}`, `{}` and `{:<N}` formats, `writeln!` as lines, and a `DEFB` line reader.
- `Slices` (slices.dfy): `slice::chunks` and `slice::chunks_exact`.
- `Palettes` (palette.dfy): `Palette::new_from_images`, `index` and `len`.
- `BitWidth` (bitwidth.dfy): `bits_per_colour` and `pixels_per_byte`.
- `Packing` (packing.dfy): the `packed` computation of `Image::to_asm`, and unpacking.
- `Emit` (emit.dfy): `Palette::to_asm`, `Image::to_asm` and the address-table lines.
- `Driver` (driver.dfy): `main` from the palette onwards.

A panic of the program is a `Failure` value:

- `NoImages`: the `ensure!` on an empty image list.
- `DivideByZero`: `8 / 0` when the palette has at most one colour.
- `ZeroChunkSize`: `chunks(0)` when the palette has more than 256 colours.
- `ShiftOverflow`: `u8 << 8` in a debug build when the palette has 129 to 256 colours.
- `MissingColour`: the `expect` on a colour the palette lacks. The lemmas prove that this one never happens in a run.

The `HashSet` gives the palette an arbitrary order. So `NewFromImages` is a
method that picks the colours in some order. Its contract fixes only that the
result lists each colour of the images exactly once. Everything proved about
the later stages holds for every such order.

Each text block is specified as a sequence of lines. `Unlines` turns that
sequence into the text that one `writeln!` per line produces. The methods build
the text one write at a time, as the program does, and are proved equal to
those lines.

For a palette of one colour, `bits_per_colour` is 0, and `8 / bits_per_colour`
at src/main.rs:113 then divides by zero (`BitWidth.NoBitsForTrivialPalette`,
`Driver.RunOutcome`).

## Model

| member | source | states |
|---|---|---|
| Text.Hex2 | src/main.rs:199-201 | `{:02X}` of a byte is two upper-case hex digits whose value is that byte |
| Text.Hex2RoundTrip | src/main.rs:240-241 | reading the two digits back gives the byte |
| Text.DecimalRoundTrip | src/main.rs:114-115 | `{}` of a number reads back as that number |
| Text.PadRight | src/main.rs:134 | `{:<N}` keeps the text, pads it with spaces to `N` characters, and never truncates |
| Text.DefbRoundTrip | src/main.rs:199-203 | a `DEFB` line reads back as exactly the bytes it was written from, in order |
| Slices.ChunkCount | src/main.rs:185 | `chunks(n)` yields `ceil(len / n)` pieces |
| Slices.ChunkAt | src/main.rs:185 | piece `k` of `chunks(n)` is elements `k*n` up to `min(k*n + n, len)` |
| Slices.ChunkSizes | src/main.rs:185 | no piece of `chunks(n)` is empty or longer than `n` |
| Slices.FlattenChunks | src/main.rs:185 | the pieces of `chunks(n)` concatenate back to the whole slice |
| Slices.ChunkExactSizes | src/main.rs:198 | every piece of `chunks_exact(n)` has exactly `n` elements |
| Slices.ChunkExactCount | src/main.rs:198 | `chunks_exact(n)` yields `floor(len / n)` pieces |
| Slices.ChunkExactAt | src/main.rs:198 | piece `k` of `chunks_exact(n)` is elements `k*n` to `k*n + n` |
| Slices.FlattenChunksExact | src/main.rs:198 | the pieces of `chunks_exact(n)` concatenate to the slice minus its last `len % n` elements |
| Palettes.ColourSetMember | src/main.rs:218-221 | a colour is in the collected set exactly when some image has a pixel of that colour |
| Palettes.NewFromImages | src/main.rs:216-226 | the palette has no duplicates, and a colour is in it exactly when some image uses it |
| Palettes.PaletteSize | src/main.rs:252-255 | the palette's length is the number of distinct colours across the images |
| Palettes.Palette.Index | src/main.rs:248-250 | `index(c)` is `None` exactly when `c` is not in the palette, and otherwise a place in the palette that holds `c` |
| Palettes.Palette.Len | src/main.rs:252-255 | every colour of the palette has an index below `len()` |
| Palettes.Position | src/main.rs:248-250 | `position` is `None` exactly when the colour is absent, and otherwise the first place that holds it |
| Palettes.IndexIsPosition | src/main.rs:248-250 | in a palette without duplicates, `index(c) == Some(i)` exactly when `i < len` and entry `i` is `c` |
| Palettes.IndexOfOccurring | src/main.rs:216-225 | every colour an image uses has an index, and the entry at that index is that colour |
| BitWidth.BitsPerColour | src/main.rs:112 | `2^b` is at least the palette length, and `2^(b-1)` is below it |
| BitWidth.BitsPerColourIsLeast | src/main.rs:112 | no smaller width than `bits_per_colour` holds every index |
| BitWidth.NoBitsForTrivialPalette | src/main.rs:112-113 | the width is 0, so line 113 divides by zero, exactly when the palette has at most one colour |
| BitWidth.WidthRanges | src/main.rs:112 | the width is at most 7 exactly up to 128 colours, and at most 8 exactly up to 256 |
| BitWidth.EncodingFits | src/main.rs:112-113 | from two colours on, the width is at least 1 and `pixels_per_byte * b <= 8`; `pixels_per_byte` is nonzero exactly up to 256 colours |
| BitWidth.SmallPaletteWidths | src/main.rs:112-113 | 2 colours give 1 bit and 8 pixels a byte; 3 or 4 give 2 and 4; 5 to 8 give 3 and 2 |
| Packing.FoldChunk | src/main.rs:187-193 | one chunk folded in reverse with `(acc << b)` OR `index as u8` on a `u8`, starting from 0; `FoldChunkValue` states what the fold computes |
| Packing.FoldChunkValue | src/main.rs:186-193 | the reversed shift-and-or fold of a chunk is its indices read as base-`2^b` digits, the first digit lowest |
| Packing.ValueIsShiftedSum | src/main.rs:187-188 | that number is the sum of `index_j << (j*b)` over the chunk |
| Packing.ValueBound | src/main.rs:187-188 | indices below `2^b` give a value below `2^(len*b)`, so nothing lies above the last index |
| Packing.DigitAt | src/main.rs:187-188 | shifting right by `t*b` and masking with `2^b - 1` recovers index `t` |
| Packing.PackIndices | src/main.rs:183-195 | the indices cut by `chunks(pixels_per_byte)`, one folded byte per chunk; `PackedChunk`, `PackLength` and `PackIndicesRoundTrip` state what it holds |
| Packing.LookupAll | src/main.rs:189-192 | every pixel gets an index exactly when every pixel is in the palette, and each index is that pixel's `index` |
| Packing.Pack | src/main.rs:183-195 | packing fails exactly on a zero chunk size, on a width of 8 or more for a non-empty image, or on a missing colour, with that failure |
| Packing.PackLength | src/main.rs:183-195 | a successful packing of `n` pixels gives `ceil(n / pixels_per_byte)` bytes, one per chunk |
| Packing.PackedByte | src/main.rs:183-195 | byte `k` is the sum of its chunk's indices shifted `j*b`, and its bits above the chunk's last index are zero |
| Packing.PackIndicesRoundTrip | src/main.rs:186-193 | for indices that fit, `(packed[m / ppb] >> ((m % ppb) * b)) & (2^b - 1)` is index `m` |
| Packing.PackRoundTrip | src/main.rs:186-193 | for every pixel, the short last chunk included, the unpacked value is the pixel's palette index, and the entry there is the pixel |
| Emit.PaletteLine | src/main.rs:238-242 | one palette entry, `\tDEFB 0xRR, 0xGG, 0xBB, 0xAA`; `PaletteLineIsDefb` proves it is the `DEFB` line of the four channels |
| Emit.PaletteLines | src/main.rs:228-246 | the palette block as lines: `Palette`, then one entry per colour in palette order; `PaletteEntryDeclaresIndex` states what it declares |
| Emit.PaletteToAsm | src/main.rs:228-246 | the buffer is the line `Palette`, then one `DEFB` line per colour in palette order |
| Emit.PaletteLineIsDefb | src/main.rs:238-242 | a palette entry is the `DEFB` line of the channels red, green, blue, alpha |
| Emit.PaletteEntryDeclaresIndex | src/main.rs:228-250 | entry line `i + 1` declares a colour's channels exactly when that colour's index is `i` |
| Emit.AppendRow | src/main.rs:199-203 | one row is written as its `DEFB` line and a newline |
| Emit.RowLines | src/main.rs:198-203 | as written: one `DEFB` line per piece of `chunks_exact(5)`; `ImageBlockRows`, `FullRowAt` and `FullRowsBytes` state what the lines declare |
| Emit.ImageLines | src/main.rs:175-204 | an image block as written: the label, then the rows of `RowLines` |
| Emit.ImageToAsm | src/main.rs:175-206 | the result is the label `_<name>` and the text of the block as written (one row per full group of five packed bytes), or the packing failure |
| Emit.ImageBlockRows | src/main.rs:175-204 | the block is the label, then `floor(n/5)` rows; row `k` reads back as packed bytes `5k` to `5k+4` |
| Emit.FullRowAt | src/main.rs:198-203 | row `k` as written reads back as the five packed bytes from `5k` |
| Emit.ShortBlock | src/main.rs:198 | as written, an image that packs into fewer than five bytes is written as its label alone |
| Emit.FullRowsBytes | src/main.rs:198-204 | as written, the rows read back as the packed bytes minus the last `n % 5` |
| Emit.CompleteRowLines | src/main.rs:198 | corrected: one `DEFB` line per piece of `chunks(5)`, the last holding the 1 to 4 bytes that remain |
| Emit.CompleteRowAt | src/main.rs:198 | corrected: row `k` of the `chunks(5)` rows reads back as packed bytes `5k` up to `min(5k+5, n)` |
| Emit.CompleteRowsDeclareAll | src/main.rs:198-204 | corrected: the `chunks(5)` rows read back as every packed byte exactly once, in order |
| Emit.TrailingBytesDropped | src/main.rs:198 | as written, when `n % 5 != 0` the rows declare fewer bytes than were packed and differ from the complete rows; one packed byte gives no row |
| Emit.AddressLine | src/main.rs:134 | one table entry, `_ADR` and the label padded to 28, then `DEFW\t` and the label; `AddressLineShape` states its shape |
| Emit.AssetMaxLine | src/main.rs:139 | the entry count: the table's length in bytes divided by four |
| Emit.ConstantLine | src/main.rs:143-147 | one position constant, `ASSET` and the label padded to 27, `EQU\t(`, `_ADR` and the label padded to 24, then ` - AssetAddressTable) / 4`; `ConstantLineShape` and `ConstantNamesEntry` state its shape |
| Emit.AddressLineShape | src/main.rs:134 | an entry starts with `_ADR<label>` and ends with `DEFW\t<label>` |
| Emit.ConstantLineShape | src/main.rs:143-147 | a constant starts with `ASSET<label>` and ends with ` - AssetAddressTable) / 4` |
| Emit.ConstantNamesEntry | src/main.rs:143-147 | right after the padded name and `EQU\t`, a constant names `(_ADR<label>`, the entry of the same label |
| Emit.TableShape | src/main.rs:127-147 | the table is `ALIGN`, a blank line, `AssetAddressTable`, one entry per label in order, `AssetAddressTableEnd`, the `ASSET_MAX` line, then one constant per label in the same order |
| Driver.FileLines | src/main.rs:87-148 | the lines written after the header: the palette block, a blank line, the settings, each image block and a blank line, then the table; or the failure that stops the run. `RunOutcome`, `FileStartsWithPalette` and `FileEndsWithTable` state what it holds |
| Driver.WriteLine | src/main.rs:132 | `writeln!` appends the line and a newline |
| Driver.WriteSettings | src/main.rs:114-115 | the two constants are written as `bits_per_colour\tEQU <b>`, `pixels_per_byte\tEQU <ppb>` and a blank line |
| Driver.SettingsReadBack | src/main.rs:114-115 | the numbers in the two constant lines read back as the bit width and the pixels per byte |
| Driver.WriteImages | src/main.rs:118-124 | the image loop writes every block followed by a blank line and keeps the labels, or stops with the first failure |
| Driver.WriteAddresses | src/main.rs:133-135 | the entry loop writes one entry per label, in order |
| Driver.WriteConstants | src/main.rs:142-148 | the constant loop writes one constant per label, in order |
| Driver.WriteTable | src/main.rs:127-148 | the text after the image blocks is the table lines of the labels |
| Driver.Run | src/main.rs:87-148 | with images, the palette is a palette of the images; the text is the file's lines, or the failure the program panics with |
| Driver.AddBlockOutcome | src/main.rs:119-123 | one turn of the image loop succeeds exactly when the run so far and this image's block do, and adds this image's label |
| Driver.FailurePersists | src/main.rs:119-120 | once an image fails, the run fails the same way |
| Driver.SectionSucceeds | src/main.rs:118-124 | the image loop succeeds exactly when every image packs |
| Driver.SectionLabels | src/main.rs:118-124 | a successful image loop keeps one label `_<name>` per image, in input order |
| Driver.SectionStopsAtFirstFailure | src/main.rs:119-120 | a failing image loop fails with the failure of the first image that cannot be packed |
| Driver.PixelsInPalette | src/main.rs:216-225 | every pixel of every image is a palette colour |
| Driver.RunOutcome | src/main.rs:87-113 | the file is written exactly for 2 to 128 colours; no images, at most one colour, 129 to 256 colours and more than 256 colours each give their own failure; a missing colour never stops a run |
| Driver.RunRoundTrip | src/main.rs:112-123 | in a complete run every image packs with the run's width, and every pixel unpacks to its own palette index and colour |
| Driver.FileStartsWithPalette | src/main.rs:108-115 | a complete file starts with the palette block; the next constants read back as the bit width and as `8 /` that width |
| Driver.FileEndsWithTable | src/main.rs:127-148 | a complete file ends with the table lines of the images' labels, in input order |
| Driver.ExamplePalette | src/main.rs:216-226 | a red-green image and a green-blue image give a palette of three colours |
| Driver.TwoImagesBlocks | src/main.rs:175-204 | a red-green image and a green-blue image make 3 colours, 2 bits and 4 pixels a byte; each image packs into one byte, so its block is its label alone |
| Driver.TwoImagesSection | src/main.rs:118-124 | the image loop over these images writes `_a`, a blank line, `_b`, a blank line, and keeps both labels |
| Driver.TwoImagesExample | src/main.rs:87-148 | the whole file for these images: the palette, the settings for 2 bits and 4 pixels a byte, the two labels with no data rows, and the table of both labels |

## Left out

- PNG decoding, reading the image files and creating `assets.s` (src/main.rs:25-43, 100-102) are I/O and foreign library code. Images are given as names and pixel sequences, and the file's text is returned as a string.
- The unsafe reinterpretation of the decoded bytes as pixels (src/main.rs:46-67) rebuilds a vector from its raw parts, which is unsafe memory work. Its second `ensure!` checks the length where the capacity was evidently meant, and this is not modelled either.
- Taking the image name from the file stem (src/main.rs:70-81) is standard-library path handling. Names are given strings.
- The `f64` `log2().ceil()` (src/main.rs:112) is floating point. `BitWidth.BitsPerColour` is the integer ceiling of the base-2 logarithm, and it is 0 for an empty palette, where the saturating cast also gives 0.
- The ASCII-art header (src/main.rs:16-22, 105) has no behaviour. The modelled text is what the program writes after it.
- `anyhow` contexts and the `?` on writes are left out. Writing to a `String` cannot fail, and the output file's write errors are I/O.
- Driver.Run: when the program panics, the bytes already written to the `BufWriter` may still reach the file. The model returns only the failure.
- Driver.Run: a release build masks the shift at src/main.rs:188 instead of panicking on it. The model follows the debug build, so 129 to 256 colours give `ShiftOverflow`.
- Palettes.NewFromImages: the model promises no particular order, as the `HashSet` gives none. It does not model a given hash function's order.

## Findings

| source | as written | input that shows it | evidently intended | confidence | as-written member | corrected member |
|---|---|---|---|---|---|---|
| src/main.rs:198 | `packed.chunks_exact(5)` emits only full rows of five bytes | an image whose packing gives 1 byte (for example up to 8 pixels with a 2-colour palette) is written as its label with no data row | every packed byte appears in a row, the last row holding the remaining 1 to 4 bytes (`chunks(5)`) | not executed | Emit.TrailingBytesDropped | Emit.CompleteRowsDeclareAll |

The model writes the rows as the program does: `Emit.RowLines`,
`Emit.ImageToAsm` and `Driver.FileLines` use `chunks_exact(5)`, and
`Emit.FullRowsBytes` states exactly which bytes the rows lose.
`Driver.TwoImagesExample` shows a whole file where no packed byte is written.
`Emit.CompleteRowLines` is the corrected rendering with `chunks(5)`.
`Emit.CompleteRowsDeclareAll` proves that it declares every packed byte once,
in order.
