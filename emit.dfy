/** The assembler text for the palette and for each image (`Palette::to_asm`
    and `Image::to_asm`), and the lines of the asset address table. Each block
    is specified as a sequence of lines; the methods build the text the way the
    source does, one `write!` at a time. */
module Emit {
  import opened Assets
  import opened Text
  import opened Slices
  import opened Palettes
  import opened Packing
  import opened Bits

  // ---------------------------------------------------------------- palette

  /** The four channels of a colour, in the order the palette block lists them. */
  function Channels(c: Pixel): seq<Byte>
  {
    [c.r, c.g, c.b, c.a]
  }

  /** One palette entry: `\tDEFB 0xRR, 0xGG, 0xBB, 0xAA`. */
  function PaletteLine(c: Pixel): string
  {
    "\tDEFB 0x" + Hex2(c.r) + ", 0x" + Hex2(c.g) + ", 0x" + Hex2(c.b) + ", 0x" + Hex2(c.a)
  }

  /** The palette block: the label `Palette`, then one entry per colour in palette order. */
  function PaletteLines(colours: seq<Pixel>): seq<string>
  {
    ["Palette"] + seq(|colours|, i requires 0 <= i < |colours| => PaletteLine(colours[i]))
  }

  method PaletteToAsm(p: Palette) returns (buf: string)
    ensures buf == Unlines(PaletteLines(p.colours))
  {
    ghost var lines := PaletteLines(p.colours);
    buf := "";
    buf := buf + "Palette" + "\n";
    UnlinesTake(lines, 0);
    for i := 0 to |p.colours|
      invariant buf == Unlines(lines[..i + 1])
    {
      var line := PaletteLine(p.colours[i]);
      buf := buf + line + "\n";
      assert lines[i + 1] == line;
      UnlinesTake(lines, i + 1);
    }
    assert lines[..|p.colours| + 1] == lines;
  }

  lemma PaletteLineIsDefb(c: Pixel)
    ensures PaletteLine(c) == DefbLine(Channels(c))
  {
    var ch := Channels(c);
    assert ch[1..] == [c.g, c.b, c.a];
    assert [c.g, c.b, c.a][..2] == [c.g, c.b] && [c.g, c.b][..1] == [c.g] && [c.g][..0] == [];
    assert HexList([c.g]) == ", 0x" + Hex2(c.g);
    assert HexList([c.g, c.b]) == ", 0x" + Hex2(c.g) + ", 0x" + Hex2(c.b);
    assert HexList([c.g, c.b, c.a]) == ", 0x" + Hex2(c.g) + ", 0x" + Hex2(c.b) + ", 0x" + Hex2(c.a);
  }

  /** The palette block lists the colours in index order: entry line `i + 1`
      declares the channels of exactly the colour whose index is `i`. */
  lemma PaletteEntryDeclaresIndex(p: Palette, i: nat, c: Pixel)
    requires Distinct(p.colours) && i < p.Len()
    ensures |PaletteLines(p.colours)| == p.Len() + 1 && PaletteLines(p.colours)[0] == "Palette"
    ensures ParseDefb(PaletteLines(p.colours)[i + 1]) == Some(Channels(c)) <==> p.Index(c) == Some(i)
  {
    PaletteLineIsDefb(p.colours[i]);
    DefbRoundTrip(Channels(p.colours[i]));
    IndexIsPosition(p, c, i);
  }

  // ----------------------------------------------------------------- images

  /** The label of an image block: `_` followed by the image name. */
  function Label(image: Image): string
  {
    "_" + image.name
  }

  /** The data lines as written: one `DEFB` line per full row of five bytes
      (`chunks_exact(5)`); the last `|packed| % 5` bytes get no line. */
  function RowLines(packed: seq<Byte>): seq<string>
  {
    var rows := ChunksExact(packed, 5);
    ChunkExactSizes(packed, 5);
    seq(|rows|, k requires 0 <= k < |rows| => (assert rows[k] in rows; DefbLine(rows[k])))
  }

  /** The data lines as evidently intended (`chunks(5)`): one `DEFB` line per
      row of five bytes, the last row holding the remaining one to four. */
  function CompleteRowLines(packed: seq<Byte>): seq<string>
  {
    var rows := Chunks(packed, 5);
    ChunkSizes(packed, 5);
    seq(|rows|, k requires 0 <= k < |rows| => (assert rows[k] in rows; DefbLine(rows[k])))
  }

  /** An image block as written: its label, then its full rows. */
  function ImageLines(symbol: string, packed: seq<Byte>): seq<string>
  {
    [symbol] + RowLines(packed)
  }

  /** The block for one image, or the failure that stops its packing. */
  function ImageBlock(image: Image, p: Palette, ppb: nat, b: nat): Result<seq<string>>
  {
    match Pack(p, image.pixels, ppb, b)
    case Err(f) => Err(f)
    case Ok(packed) => Ok(ImageLines(Label(image), packed))
  }

  lemma AppendAssoc<T>(a: seq<T>, b: seq<T>, c: seq<T>)
    ensures a + b + c == a + (b + c)
  {
  }

  lemma HexListSnoc(bytes: seq<Byte>, j: nat)
    requires 1 <= j < |bytes|
    ensures HexList(bytes[1..j + 1]) == HexList(bytes[1..j]) + (", 0x" + Hex2(bytes[j]))
  {
    assert bytes[1..j + 1][..j - 1] == bytes[1..j];
  }

  /** The inner loop of `Image::to_asm`: one row written as `\tDEFB 0x..`
      followed by `, 0x..` for each further byte, then the line break. */
  method AppendRow(buf: string, row: seq<Byte>) returns (out: string)
    requires row != []
    ensures out == buf + DefbLine(row) + "\n"
  {
    out := buf + "\tDEFB 0x" + Hex2(row[0]);
    ghost var start := out;
    assert row[1..1] == [];
    for j := 1 to |row|
      invariant out == start + HexList(row[1..j])
    {
      HexListSnoc(row, j);
      AppendAssoc(start, HexList(row[1..j]), ", 0x" + Hex2(row[j]));
      out := out + (", 0x" + Hex2(row[j]));
    }
    assert row[1..|row|] == row[1..];
    out := out + "\n";
  }

  method ImageToAsm(image: Image, p: Palette, ppb: nat, b: nat) returns (r: Result<(string, string)>)
    ensures r == match ImageBlock(image, p, ppb, b)
      case Err(f) => Err(f)
      case Ok(lines) => Ok((Label(image), Unlines(lines)))
  {
    var symbol := "_" + image.name;
    var buf := "";
    buf := buf + symbol + "\n";
    var packing := Pack(p, image.pixels, ppb, b);
    if packing.Err? {
      return Err(packing.failure);
    }
    var packed := packing.value;
    var rows := ChunksExact(packed, 5);
    ChunkExactSizes(packed, 5);
    ghost var lines := ImageLines(symbol, packed);
    assert buf == Unlines(lines[..1]);
    for k := 0 to |rows|
      invariant buf == Unlines(lines[..k + 1])
    {
      assert rows[k] in rows;
      buf := AppendRow(buf, rows[k]);
      RowStep(lines, k, rows[k]);
    }
    assert lines[..|rows| + 1] == lines;
    r := Ok((symbol, buf));
  }

  lemma RowStep(lines: seq<string>, k: nat, row: seq<Byte>)
    requires row != [] && k + 1 < |lines| && lines[k + 1] == DefbLine(row)
    ensures Unlines(lines[..k + 2]) == Unlines(lines[..k + 1]) + DefbLine(row) + "\n"
  {
    UnlinesTake(lines, k + 1);
  }

  /** Every byte that the data lines of a block declare, line after line. */
  function DeclaredBytes(lines: seq<string>): seq<Byte>
  {
    if lines == [] then []
    else
      var rest := DeclaredBytes(lines[..|lines| - 1]);
      match ParseDefb(lines[|lines| - 1])
      case Some(bytes) => rest + bytes
      case None => rest
  }

  lemma {:induction false} DeclaredRows(rows: seq<seq<Byte>>, lines: seq<string>)
    requires forall k :: 0 <= k < |rows| ==> rows[k] != []
    requires |lines| == |rows| && forall k :: 0 <= k < |rows| ==> lines[k] == DefbLine(rows[k])
    ensures DeclaredBytes(lines) == Flatten(rows)
  {
    if rows != [] {
      var n := |rows|;
      DefbRoundTrip(rows[n - 1]);
      DeclaredRows(rows[..n - 1], lines[..n - 1]);
      FlattenSnoc(rows[..n - 1], rows[n - 1]);
      assert rows[..n - 1] + [rows[n - 1]] == rows;
    }
  }

  lemma {:induction false} FlattenSnoc<T>(cs: seq<seq<T>>, c: seq<T>)
    ensures Flatten(cs + [c]) == Flatten(cs) + c
  {
    if cs != [] {
      assert (cs + [c])[1..] == cs[1..] + [c];
      FlattenSnoc(cs[1..], c);
    }
  }

  /** An image block is its label and `floor(|packed| / 5)` rows; row `k`
      declares bytes `5k` up to `5k + 4`. */
  lemma ImageBlockRows(symbol: string, packed: seq<Byte>)
    ensures |ImageLines(symbol, packed)| == 1 + |packed| / 5
    ensures ImageLines(symbol, packed)[0] == symbol
    ensures forall k :: 0 <= k < |packed| / 5 ==>
      ParseDefb(ImageLines(symbol, packed)[k + 1]) == Some(packed[5 * k .. 5 * k + 5])
  {
    var lines := ImageLines(symbol, packed);
    ChunkExactCount(packed, 5);
    forall k | 0 <= k < |packed| / 5
      ensures ParseDefb(lines[k + 1]) == Some(packed[5 * k .. 5 * k + 5])
    {
      DivBound(|packed|, 5, k);
      FullRowAt(packed, k);
    }
  }

  /** As written, an image that packs into fewer than five bytes gets no row:
      its block is the label alone. */
  lemma ShortBlock(symbol: string, packed: seq<Byte>)
    requires |packed| < 5
    ensures ImageLines(symbol, packed) == [symbol]
  {
    assert ChunksExact(packed, 5) == [];
  }

  /** Row `k` of the rows as written declares the five bytes from `5k` on. */
  lemma FullRowAt(packed: seq<Byte>, k: nat)
    requires 5 * k + 5 <= |packed|
    ensures k < |RowLines(packed)|
    ensures ParseDefb(RowLines(packed)[k]) == Some(packed[5 * k .. 5 * k + 5])
  {
    var rows := ChunksExact(packed, 5);
    ChunkExactSizes(packed, 5);
    ChunkExactAt(packed, 5, k);
    assert rows[k] in rows;
    DefbRoundTrip(rows[k]);
  }

  /** Row `k` of the complete rows declares the bytes from `5k` on, five or up to the end. */
  lemma CompleteRowAt(packed: seq<Byte>, k: nat)
    requires 5 * k < |packed|
    ensures k < |CompleteRowLines(packed)|
    ensures ParseDefb(CompleteRowLines(packed)[k]) == Some(packed[5 * k .. Min(5 * k + 5, |packed|)])
  {
    var rows := Chunks(packed, 5);
    ChunkSizes(packed, 5);
    ChunkAt(packed, 5, k);
    assert rows[k] in rows;
    DefbRoundTrip(rows[k]);
  }

  /** With complete rows every packed byte is declared exactly once, in order. */
  lemma CompleteRowsDeclareAll(packed: seq<Byte>)
    ensures DeclaredBytes(CompleteRowLines(packed)) == packed
  {
    var rows := Chunks(packed, 5);
    ChunkSizes(packed, 5);
    forall k | 0 <= k < |rows| ensures rows[k] != [] {
      assert rows[k] in rows;
    }
    DeclaredRows(rows, CompleteRowLines(packed));
    FlattenChunks(packed, 5);
  }

  /** The rows as written declare the packed bytes except the last
      `|packed| % 5`, which appear nowhere. */
  lemma FullRowsBytes(packed: seq<Byte>)
    ensures DeclaredBytes(RowLines(packed)) == packed[..|packed| - |packed| % 5]
  {
    var rows := ChunksExact(packed, 5);
    ChunkExactSizes(packed, 5);
    forall k | 0 <= k < |rows| ensures rows[k] != [] {
      assert rows[k] in rows;
    }
    DeclaredRows(rows, RowLines(packed));
    FlattenChunksExact(packed, 5);
  }

  /** As written, a packed length that is not a multiple of five loses its
      last bytes: reading the rows back yields fewer bytes than were packed,
      where the complete rows yield all of them. One packed byte, for
      instance, gets no row at all. */
  lemma TrailingBytesDropped(packed: seq<Byte>)
    requires |packed| % 5 != 0
    ensures |DeclaredBytes(RowLines(packed))| < |packed|
    ensures DeclaredBytes(RowLines(packed)) != DeclaredBytes(CompleteRowLines(packed))
    ensures |packed| == 1 ==> RowLines(packed) == []
  {
    FullRowsBytes(packed);
    CompleteRowsDeclareAll(packed);
  }

  // ---------------------------------------------------------- address table

  const TableLabel: string := "AssetAddressTable"
  const AddressPrefix: string := "_ADR"

  /** `{}{1:<28}DEFW\t{1}`: the entry `_ADR<label>`, padded, holding the address of `label`. */
  function AddressLine(symbol: string): string
  {
    AddressPrefix + PadRight(symbol, 28) + "DEFW\t" + symbol
  }

  /** `ASSET{:<27}EQU\t({}{:<24} - {}) / 4`: the position of `label`'s entry in the table. */
  function ConstantLine(symbol: string): string
  {
    "ASSET" + PadRight(symbol, 27) + "EQU\t" + ("(" + AddressPrefix + PadRight(symbol, 24)) + (" - " + TableLabel + ") / 4")
  }

  /** The number of entries: the table's length in bytes over the four bytes of one `DEFW`. */
  function AssetMaxLine(): string
  {
    "ASSET_MAX\tEQU\t(" + TableLabel + "End - " + TableLabel + ") / 4"
  }

  function AddressLines(labels: seq<string>): seq<string>
  {
    seq(|labels|, k requires 0 <= k < |labels| => AddressLine(labels[k]))
  }

  function ConstantLines(labels: seq<string>): seq<string>
  {
    seq(|labels|, k requires 0 <= k < |labels| => ConstantLine(labels[k]))
  }

  /** Everything after the image blocks: the alignment, the table between its
      start and end labels, the entry count and one position constant per label. */
  function TableLines(labels: seq<string>): seq<string>
  {
    TableHead() + AddressLines(labels) + TableTail() + ConstantLines(labels)
  }

  function TableHead(): seq<string>
  {
    ["ALIGN", "", TableLabel]
  }

  function TableTail(): seq<string>
  {
    [TableLabel + "End", "", AssetMaxLine(), ""]
  }

  /** An entry defines the symbol `_ADR<label>` and holds the address of `label`. */
  lemma AddressLineShape(symbol: string)
    ensures AddressLine(symbol)[..4 + |symbol|] == AddressPrefix + symbol
    ensures EndsWith(AddressLine(symbol), "DEFW\t" + symbol)
  {
    var padded := PadRight(symbol, 28);
    assert AddressLine(symbol) == (AddressPrefix + padded) + ("DEFW\t" + symbol);
    assert (AddressPrefix + padded)[..4 + |symbol|] == AddressPrefix + padded[..|symbol|];
  }

  /** A constant defines `ASSET<label>` as an offset into the table, over four. */
  lemma ConstantLineShape(symbol: string)
    ensures ConstantLine(symbol)[..5 + |symbol|] == "ASSET" + symbol
    ensures EndsWith(ConstantLine(symbol), " - " + TableLabel + ") / 4")
  {
    var head := "ASSET" + PadRight(symbol, 27) + "EQU\t";
    var middle := "(" + AddressPrefix + PadRight(symbol, 24);
    var tail := " - " + TableLabel + ") / 4";
    Parts3(head, middle, tail);
    assert head[..5 + |symbol|] == "ASSET" + symbol;
  }

  /** The offset a constant names is that of the entry `_ADR<label>`. */
  lemma ConstantNamesEntry(symbol: string)
    ensures OccursAt(ConstantLine(symbol), 9 + Max(|symbol|, 27), "(" + AddressPrefix + symbol)
  {
    var head := "ASSET" + PadRight(symbol, 27) + "EQU\t";
    var middle := "(" + AddressPrefix + PadRight(symbol, 24);
    var tail := " - " + TableLabel + ") / 4";
    Parts3(head, middle, tail);
    assert middle[..5 + |symbol|] == "(" + AddressPrefix + symbol;
    assert |head| == 9 + Max(|symbol|, 27);
  }

  /** Where the three parts of a concatenation lie in it. */
  lemma Parts3<T>(a: seq<T>, b: seq<T>, c: seq<T>)
    ensures (a + b + c)[..|a|] == a
    ensures forall i :: 0 <= i <= |b| ==> (a + b + c)[|a|..|a| + i] == b[..i]
    ensures (a + b + c)[|a| + |b|..] == c
  {
    forall i | 0 <= i <= |b| ensures (a + b + c)[|a|..|a| + i] == b[..i] {
      assert (a + b + c)[|a|..|a| + i] == b[..i];
    }
  }

  function Max(x: nat, y: nat): nat
  {
    if x < y then y else x
  }

  predicate EndsWith(s: string, suffix: string)
  {
    |suffix| <= |s| && s[|s| - |suffix|..] == suffix
  }

  predicate OccursAt(s: string, i: nat, part: string)
  {
    i + |part| <= |s| && s[i..i + |part|] == part
  }

  /** The table has one entry per label, in order, between its start and end
      labels; after it come the entry count and one constant per label, in the
      same order. */
  lemma TableShape(labels: seq<string>)
    ensures var lines, n := TableLines(labels), |labels|;
      && |lines| == 2 * n + 7
      && lines[..3] == TableHead() && lines[2] == TableLabel
      && lines[3 + n .. 7 + n] == TableTail() && lines[3 + n] == TableLabel + "End" && lines[5 + n] == AssetMaxLine()
      && (forall k :: 0 <= k < n ==> lines[3 + k] == AddressLine(labels[k]))
      && (forall k :: 0 <= k < n ==> lines[7 + n + k] == ConstantLine(labels[k]))
  {
  }
}
