/** `main` once the images are decoded: the palette block, the two encoding
    constants, one block per image and the asset address table, in that
    order, or the failure that stops the run. */
module Driver {
  import opened Assets
  import opened Text
  import opened Palettes
  import opened BitWidth
  import opened Packing
  import opened Emit

  /** The encoding constants, then a blank line. */
  function SettingsLines(b: nat, ppb: nat): seq<string>
  {
    ["bits_per_colour\tEQU " + Decimal(b), "pixels_per_byte\tEQU " + Decimal(ppb), ""]
  }

  /** The image blocks written so far, each followed by a blank line, and their labels. */
  datatype Section = Section(labels: seq<string>, lines: seq<string>)

  /** The blocks of `images` in order; the first image that cannot be packed stops the run. */
  function ImageSection(images: seq<Image>, p: Palette, ppb: nat, b: nat): Result<Section>
  {
    if images == [] then Ok(Section([], []))
    else AddBlock(ImageSection(images[..|images| - 1], p, ppb, b), images[|images| - 1], p, ppb, b)
  }

  /** One more turn of the image loop: the image's block and a blank line, and its label. */
  function AddBlock(section: Result<Section>, image: Image, p: Palette, ppb: nat, b: nat): Result<Section>
  {
    match section
    case Err(f) => Err(f)
    case Ok(s) =>
      match ImageBlock(image, p, ppb, b)
      case Err(f) => Err(f)
      case Ok(block) => Ok(Section(s.labels + [Label(image)], s.lines + block + [""]))
  }

  lemma AddBlockOutcome(section: Result<Section>, image: Image, p: Palette, ppb: nat, b: nat)
    ensures AddBlock(section, image, p, ppb, b).Ok? <==> section.Ok? && ImageBlock(image, p, ppb, b).Ok?
    ensures section.Err? ==> AddBlock(section, image, p, ppb, b) == section
    ensures section.Ok? && ImageBlock(image, p, ppb, b).Err? ==>
      AddBlock(section, image, p, ppb, b) == Err(ImageBlock(image, p, ppb, b).failure)
    ensures AddBlock(section, image, p, ppb, b).Ok? ==>
      AddBlock(section, image, p, ppb, b).value.labels == section.value.labels + [Label(image)]
  {
  }

  /** The lines written after the file header, given the palette the run built. */
  function FileLines(images: seq<Image>, p: Palette): Result<seq<string>>
  {
    if images == [] then Err(NoImages)
    else
      var b := BitsPerColour(p.Len());
      if b == 0 then Err(DivideByZero)
      else
        var ppb := PixelsPerByte(b);
        match ImageSection(images, p, ppb, b)
        case Err(f) => Err(f)
        case Ok(section) =>
          Ok(PaletteLines(p.colours) + [""] + SettingsLines(b, ppb) + section.lines + TableLines(section.labels))
  }

  lemma BlockWritten(head: seq<string>, blocks: seq<string>, block: seq<string>)
    ensures Unlines(head + (blocks + block + [""])) == Unlines(head + blocks) + Unlines(block) + "\n"
  {
    assert head + (blocks + block + [""]) == (head + blocks + block) + [""];
    UnlinesSnoc(head + blocks + block, "");
    UnlinesAppend(head + blocks, block);
  }

  lemma SectionStep(images: seq<Image>, i: nat, p: Palette, ppb: nat, b: nat)
    requires i < |images|
    ensures images[..i + 1][..i] == images[..i] && images[..i + 1][i] == images[i]
    ensures ImageSection(images[..i + 1], p, ppb, b) == AddBlock(ImageSection(images[..i], p, ppb, b), images[i], p, ppb, b)
  {
    assert images[..i + 1][..i] == images[..i];
  }

  /** Once a prefix of the images fails, the whole run fails the same way. */
  lemma {:induction false} FailurePersists(images: seq<Image>, i: nat, p: Palette, ppb: nat, b: nat)
    requires i <= |images| && ImageSection(images[..i], p, ppb, b).Err?
    ensures ImageSection(images, p, ppb, b) == ImageSection(images[..i], p, ppb, b)
    decreases |images| - i
  {
    if i < |images| {
      SectionStep(images, i, p, ppb, b);
      FailurePersists(images, i + 1, p, ppb, b);
    } else {
      assert images[..i] == images;
    }
  }

  /** The loop of `main` over the images: each block is written and its label kept. */
  method WriteImages(file: string, ghost head: seq<string>, images: seq<Image>, p: Palette, ppb: nat, b: nat)
    returns (r: Result<(string, seq<string>)>)
    requires file == Unlines(head)
    ensures ImageSection(images, p, ppb, b).Err? ==> r == Err(ImageSection(images, p, ppb, b).failure)
    ensures ImageSection(images, p, ppb, b).Ok? ==>
      r == Ok((Unlines(head + ImageSection(images, p, ppb, b).value.lines), ImageSection(images, p, ppb, b).value.labels))
  {
    var out := file;
    var labels: seq<string> := [];
    ghost var blocks: seq<string> := [];
    assert head + blocks == head;
    for i := 0 to |images|
      invariant ImageSection(images[..i], p, ppb, b) == Ok(Section(labels, blocks))
      invariant out == Unlines(head + blocks)
    {
      var res := ImageToAsm(images[i], p, ppb, b);
      SectionStep(images, i, p, ppb, b);
      if res.Err? {
        FailurePersists(images, i + 1, p, ppb, b);
        return Err(res.failure);
      }
      var symbol := res.value.0;
      var asm := res.value.1;
      ghost var block := ImageBlock(images[i], p, ppb, b).value;
      labels := labels + [symbol];
      out := out + asm + "\n";
      BlockWritten(head, blocks, block);
      blocks := blocks + block + [""];
    }
    assert images[..|images|] == images;
    r := Ok((out, labels));
  }

  /** `writeln!` to the output: the line, then a newline. A literal `\n` at the
      end of a format string is written as a further, empty line. */
  method WriteLine(file: string, ghost lines: seq<string>, line: string) returns (out: string)
    requires file == Unlines(lines)
    ensures out == Unlines(lines + [line])
  {
    out := file + line + "\n";
    UnlinesSnoc(lines, line);
  }

  lemma AddressLinesSnoc(labels: seq<string>, j: nat)
    requires j < |labels|
    ensures AddressLines(labels[..j + 1]) == AddressLines(labels[..j]) + [AddressLine(labels[j])]
  {
  }

  lemma ConstantLinesSnoc(labels: seq<string>, j: nat)
    requires j < |labels|
    ensures ConstantLines(labels[..j + 1]) == ConstantLines(labels[..j]) + [ConstantLine(labels[j])]
  {
  }

  /** The loop writing one table entry per label. */
  method WriteAddresses(file: string, ghost lines: seq<string>, labels: seq<string>) returns (out: string)
    requires file == Unlines(lines)
    ensures out == Unlines(lines + AddressLines(labels))
  {
    out := file;
    assert lines + AddressLines(labels[..0]) == lines;
    for j := 0 to |labels|
      invariant out == Unlines(lines + AddressLines(labels[..j]))
    {
      out := WriteLine(out, lines + AddressLines(labels[..j]), AddressLine(labels[j]));
      AddressLinesSnoc(labels, j);
      assert lines + AddressLines(labels[..j + 1]) == lines + AddressLines(labels[..j]) + [AddressLine(labels[j])];
    }
    assert labels[..|labels|] == labels;
  }

  /** The loop writing one position constant per label. */
  method WriteConstants(file: string, ghost lines: seq<string>, labels: seq<string>) returns (out: string)
    requires file == Unlines(lines)
    ensures out == Unlines(lines + ConstantLines(labels))
  {
    out := file;
    assert lines + ConstantLines(labels[..0]) == lines;
    for j := 0 to |labels|
      invariant out == Unlines(lines + ConstantLines(labels[..j]))
    {
      out := WriteLine(out, lines + ConstantLines(labels[..j]), ConstantLine(labels[j]));
      ConstantLinesSnoc(labels, j);
      assert lines + ConstantLines(labels[..j + 1]) == lines + ConstantLines(labels[..j]) + [ConstantLine(labels[j])];
    }
    assert labels[..|labels|] == labels;
  }

  /** The end of `main`: the aligned address table, the entry count and the constants. */
  method WriteTable(file: string, ghost lines: seq<string>, labels: seq<string>) returns (out: string)
    requires file == Unlines(lines)
    ensures out == Unlines(lines + TableLines(labels))
  {
    ghost var written := lines;
    out := WriteLine(file, written, "ALIGN");
    written := written + ["ALIGN"];
    out := WriteLine(out, written, "");
    written := written + [""];
    out := WriteLine(out, written, TableLabel);
    written := written + [TableLabel];
    out := WriteAddresses(out, written, labels);
    written := written + AddressLines(labels);
    out := WriteLine(out, written, TableLabel + "End");
    written := written + [TableLabel + "End"];
    out := WriteLine(out, written, "");
    written := written + [""];
    out := WriteLine(out, written, AssetMaxLine());
    written := written + [AssetMaxLine()];
    out := WriteLine(out, written, "");
    written := written + [""];
    out := WriteConstants(out, written, labels);
    written := written + ConstantLines(labels);
    TableAssembled(lines, AddressLines(labels), ConstantLines(labels));
  }

  lemma TableAssembled(lines: seq<string>, entries: seq<string>, constants: seq<string>)
    ensures lines + ["ALIGN"] + [""] + [TableLabel] + entries + [TableLabel + "End"] + [""] + [AssetMaxLine()] + [""] + constants
      == lines + (TableHead() + entries + TableTail() + constants)
  {
    var head, tail := TableHead(), TableTail();
    assert lines + ["ALIGN"] + [""] + [TableLabel] == lines + head;
    assert lines + head + entries + [TableLabel + "End"] + [""] + [AssetMaxLine()] + [""] == lines + head + entries + tail;
  }

  /** The two encoding constants and a blank line. */
  method WriteSettings(file: string, ghost lines: seq<string>, b: nat, ppb: nat) returns (out: string)
    requires file == Unlines(lines)
    ensures out == Unlines(lines + SettingsLines(b, ppb))
  {
    var bitsLine := "bits_per_colour\tEQU " + Decimal(b);
    var ppbLine := "pixels_per_byte\tEQU " + Decimal(ppb);
    out := WriteLine(file, lines, bitsLine);
    out := WriteLine(out, lines + [bitsLine], ppbLine);
    out := WriteLine(out, lines + [bitsLine] + [ppbLine], "");
    assert lines + [bitsLine] + [ppbLine] + [""] == lines + SettingsLines(b, ppb);
  }

  method Run(images: seq<Image>) returns (p: Palette, r: Result<string>)
    ensures images != [] ==> IsPaletteOf(p.colours, images)
    ensures FileLines(images, p).Err? ==> r == Err(FileLines(images, p).failure)
    ensures FileLines(images, p).Ok? ==> r == Ok(Unlines(FileLines(images, p).value))
  {
    p := Palette([]);
    if images == [] {
      r := Err(NoImages);
      return;
    }
    p := NewFromImages(images);
    var paletteAsm := PaletteToAsm(p);
    var file := WriteLine(paletteAsm, PaletteLines(p.colours), "");
    ghost var written := PaletteLines(p.colours) + [""];
    var b := BitsPerColour(p.Len());
    if b == 0 {
      r := Err(DivideByZero);
      return;
    }
    var ppb := PixelsPerByte(b);
    file := WriteSettings(file, written, b, ppb);
    written := written + SettingsLines(b, ppb);
    var imagesWritten := WriteImages(file, written, images, p, ppb, b);
    if imagesWritten.Err? {
      r := Err(imagesWritten.failure);
      return;
    }
    var labels := imagesWritten.value.1;
    ghost var section := ImageSection(images, p, ppb, b).value;
    file := WriteTable(imagesWritten.value.0, written + section.lines, labels);
    r := Ok(file);
  }

  /** The labels of the images, in input order. */
  function Labels(images: seq<Image>): seq<string>
  {
    seq(|images|, k requires 0 <= k < |images| => Label(images[k]))
  }

  lemma LabelsSnoc(images: seq<Image>)
    requires images != []
    ensures Labels(images) == Labels(images[..|images| - 1]) + [Label(images[|images| - 1])]
  {
  }

  /** The image loop succeeds exactly when every image can be packed. */
  lemma {:induction false} SectionSucceeds(images: seq<Image>, p: Palette, ppb: nat, b: nat)
    ensures ImageSection(images, p, ppb, b).Ok? <==>
      forall i :: 0 <= i < |images| ==> ImageBlock(images[i], p, ppb, b).Ok?
  {
    if images != [] {
      var n := |images|;
      var init := images[..n - 1];
      SectionSucceeds(init, p, ppb, b);
      SectionStep(images, n - 1, p, ppb, b);
      assert images[..n] == images;
      AddBlockOutcome(ImageSection(init, p, ppb, b), images[n - 1], p, ppb, b);
      if ImageSection(images, p, ppb, b).Ok? {
        forall i | 0 <= i < n ensures ImageBlock(images[i], p, ppb, b).Ok? {
          if i < n - 1 {
            assert init[i] == images[i];
          }
        }
      } else if ImageSection(init, p, ppb, b).Ok? {
        assert !ImageBlock(images[n - 1], p, ppb, b).Ok?;
      } else {
        var i :| 0 <= i < n - 1 && !ImageBlock(init[i], p, ppb, b).Ok?;
        assert init[i] == images[i];
      }
    }
  }

  /** A successful image loop keeps one label per image, in order. */
  lemma {:induction false} SectionLabels(images: seq<Image>, p: Palette, ppb: nat, b: nat)
    requires ImageSection(images, p, ppb, b).Ok?
    ensures ImageSection(images, p, ppb, b).value.labels == Labels(images)
  {
    if images != [] {
      var n := |images|;
      var init := images[..n - 1];
      SectionStep(images, n - 1, p, ppb, b);
      assert images[..n] == images;
      AddBlockOutcome(ImageSection(init, p, ppb, b), images[n - 1], p, ppb, b);
      SectionLabels(init, p, ppb, b);
      LabelsSnoc(images);
    }
  }

  /** When the image loop fails, it fails with the failure of the first image
      that cannot be packed. */
  lemma {:induction false} SectionStopsAtFirstFailure(images: seq<Image>, p: Palette, ppb: nat, b: nat)
    requires ImageSection(images, p, ppb, b).Err?
    ensures exists i :: 0 <= i < |images| && ImageBlock(images[i], p, ppb, b) == Err(ImageSection(images, p, ppb, b).failure)
                     && forall j :: 0 <= j < i ==> ImageBlock(images[j], p, ppb, b).Ok?
  {
    var n := |images|;
    var init := images[..n - 1];
    SectionStep(images, n - 1, p, ppb, b);
    assert images[..n] == images;
    AddBlockOutcome(ImageSection(init, p, ppb, b), images[n - 1], p, ppb, b);
    assert forall i :: 0 <= i < n - 1 ==> init[i] == images[i];
    if ImageSection(init, p, ppb, b).Err? {
      SectionStopsAtFirstFailure(init, p, ppb, b);
      var i :| 0 <= i < n - 1 && ImageBlock(init[i], p, ppb, b) == Err(ImageSection(init, p, ppb, b).failure)
        && forall j :: 0 <= j < i ==> ImageBlock(init[j], p, ppb, b).Ok?;
      assert ImageBlock(images[i], p, ppb, b).Err?;
    } else {
      SectionSucceeds(init, p, ppb, b);
      assert ImageBlock(images[n - 1], p, ppb, b).Err?;
    }
  }

  /** Every pixel of every image is a colour of a palette of the images. */
  lemma PixelsInPalette(p: Palette, images: seq<Image>)
    requires IsPaletteOf(p.colours, images)
    ensures forall i, j :: 0 <= i < |images| && 0 <= j < |images[i].pixels| ==> images[i].pixels[j] in p.colours
  {
    forall i, j | 0 <= i < |images| && 0 <= j < |images[i].pixels|
      ensures images[i].pixels[j] in p.colours
    {
      ColourSetMember(images, images[i].pixels[j]);
    }
  }

  /** Some image has a pixel whenever the palette has a colour. */
  lemma SomePixel(p: Palette, images: seq<Image>) returns (i: nat)
    requires IsPaletteOf(p.colours, images) && p.Len() > 0
    ensures i < |images| && images[i].pixels != []
  {
    ColourSetMember(images, p.colours[0]);
    var k, j :| 0 <= k < |images| && 0 <= j < |images[k].pixels| && images[k].pixels[j] == p.colours[0];
    i := k;
  }

  /** How a run ends, given the palette it built: it writes the whole file
      exactly when there is an image and the images have between 2 and 128
      colours. No images, one colour or none, more than 256 colours, and 129
      to 256 colours each stop it with their own failure; a missing colour
      never does. */
  lemma RunOutcome(images: seq<Image>, p: Palette)
    requires IsPaletteOf(p.colours, images)
    ensures FileLines(images, p).Ok? <==> images != [] && 2 <= p.Len() <= 128
    ensures images == [] ==> FileLines(images, p) == Err(NoImages)
    ensures images != [] && p.Len() <= 1 ==> FileLines(images, p) == Err(DivideByZero)
    ensures images != [] && 128 < p.Len() <= 256 ==> FileLines(images, p) == Err(ShiftOverflow)
    ensures images != [] && 256 < p.Len() ==> FileLines(images, p) == Err(ZeroChunkSize)
  {
    if images != [] {
      var len := p.Len();
      var b := BitsPerColour(len);
      NoBitsForTrivialPalette(len);
      if len >= 2 {
        WidthRanges(len);
        EncodingFits(len);
        var ppb := PixelsPerByte(b);
        SectionSucceeds(images, p, ppb, b);
        if len <= 128 {
          PixelsInPalette(p, images);
          forall i | 0 <= i < |images|
            ensures ImageBlock(images[i], p, ppb, b).Ok?
          {
            assert forall j :: 0 <= j < |images[i].pixels| ==> images[i].pixels[j] in p.colours;
          }
        } else if len <= 256 {
          var i := SomePixel(p, images);
          assert ImageBlock(images[i], p, ppb, b).Err?;
          SectionStopsAtFirstFailure(images, p, ppb, b);
        } else {
          assert ImageBlock(images[0], p, ppb, b).Err?;
          SectionStopsAtFirstFailure(images, p, ppb, b);
        }
      }
    }
  }

  /** In a complete run every image packs, with the run's own bit width and
      pixels per byte, and every pixel reads back from the packed bytes as its
      own colour. */
  lemma RunRoundTrip(images: seq<Image>, p: Palette, i: nat, m: nat)
    requires IsPaletteOf(p.colours, images) && FileLines(images, p).Ok?
    requires i < |images| && m < |images[i].pixels|
    ensures BitsPerColour(p.Len()) >= 1 && PixelsPerByte(BitsPerColour(p.Len())) >= 1
    ensures Pack(p, images[i].pixels, PixelsPerByte(BitsPerColour(p.Len())), BitsPerColour(p.Len())).Ok?
    ensures m / PixelsPerByte(BitsPerColour(p.Len()))
      < |Pack(p, images[i].pixels, PixelsPerByte(BitsPerColour(p.Len())), BitsPerColour(p.Len())).value|
    ensures Some(UnpackAt(Pack(p, images[i].pixels, PixelsPerByte(BitsPerColour(p.Len())), BitsPerColour(p.Len())).value,
      m, PixelsPerByte(BitsPerColour(p.Len())), BitsPerColour(p.Len()))) == p.Index(images[i].pixels[m])
    ensures p.colours[UnpackAt(Pack(p, images[i].pixels, PixelsPerByte(BitsPerColour(p.Len())), BitsPerColour(p.Len())).value,
      m, PixelsPerByte(BitsPerColour(p.Len())), BitsPerColour(p.Len()))] == images[i].pixels[m]
  {
    var b := BitsPerColour(p.Len());
    var ppb := PixelsPerByte(b);
    RunOutcome(images, p);
    EncodingFits(p.Len());
    WidthRanges(p.Len());
    PixelsInPalette(p, images);
    assert forall j :: 0 <= j < |images[i].pixels| ==> images[i].pixels[j] in p.colours;
    var packed := Pack(p, images[i].pixels, ppb, b).value;
    PackRoundTrip(p, images[i].pixels, ppb, b, packed, m);
  }

  /** The lines of a complete file, split where the image blocks begin and end. */
  lemma FileParts(images: seq<Image>, p: Palette) returns (front: seq<string>, blocks: seq<string>)
    requires FileLines(images, p).Ok?
    ensures BitsPerColour(p.Len()) >= 1
    ensures front == PaletteLines(p.colours) + [""] + SettingsLines(BitsPerColour(p.Len()), PixelsPerByte(BitsPerColour(p.Len())))
    ensures FileLines(images, p).value == front + blocks + TableLines(Labels(images))
  {
    var b := BitsPerColour(p.Len());
    var ppb := PixelsPerByte(b);
    SectionLabels(images, p, ppb, b);
    front := PaletteLines(p.colours) + [""] + SettingsLines(b, ppb);
    blocks := ImageSection(images, p, ppb, b).value.lines;
  }

  /** A complete file starts with the palette block and the encoding constants,
      whose values read back as the bit width and the pixels per byte. */
  lemma FileStartsWithPalette(images: seq<Image>, p: Palette)
    requires FileLines(images, p).Ok?
    ensures |FileLines(images, p).value| >= p.Len() + 5
    ensures FileLines(images, p).value[..p.Len() + 1] == PaletteLines(p.colours)
    ensures FileLines(images, p).value[p.Len() + 2][..20] == "bits_per_colour\tEQU "
    ensures IsDecimal(FileLines(images, p).value[p.Len() + 2][20..])
    ensures ParseDecimal(FileLines(images, p).value[p.Len() + 2][20..]) == BitsPerColour(p.Len())
    ensures FileLines(images, p).value[p.Len() + 3][..20] == "pixels_per_byte\tEQU "
    ensures IsDecimal(FileLines(images, p).value[p.Len() + 3][20..])
    ensures ParseDecimal(FileLines(images, p).value[p.Len() + 3][20..]) == PixelsPerByte(BitsPerColour(p.Len()))
  {
    var n := p.Len();
    var b := BitsPerColour(n);
    var front, blocks := FileParts(images, p);
    var lines := FileLines(images, p).value;
    var palette := PaletteLines(p.colours);
    var settings := SettingsLines(b, PixelsPerByte(b));
    SettingsReadBack(b, PixelsPerByte(b));
    assert |palette| == n + 1;
    assert |front| == n + 5;
    PrefixOfConcat(front + blocks, TableLines(Labels(images)), n + 5);
    PrefixOfConcat(front, blocks, n + 5);
    assert front[..n + 5] == front;
    FrontParts(palette, settings);
  }

  /** The palette block, a blank line, then the settings lines, at their positions. */
  lemma FrontParts(palette: seq<string>, settings: seq<string>)
    ensures (palette + [""] + settings)[..|palette|] == palette
    ensures forall k :: 0 <= k < |settings| ==> (palette + [""] + settings)[|palette| + 1 + k] == settings[k]
  {
    PrefixOfConcat(palette + [""], settings, |palette|);
    Split(palette, [""]);
  }

  /** The settings lines read back as the two constants they declare. */
  lemma SettingsReadBack(b: nat, ppb: nat)
    ensures |SettingsLines(b, ppb)| == 3 && SettingsLines(b, ppb)[2] == ""
    ensures SettingsLines(b, ppb)[0][..20] == "bits_per_colour\tEQU "
    ensures IsDecimal(SettingsLines(b, ppb)[0][20..])
    ensures ParseDecimal(SettingsLines(b, ppb)[0][20..]) == b
    ensures SettingsLines(b, ppb)[1][..20] == "pixels_per_byte\tEQU "
    ensures IsDecimal(SettingsLines(b, ppb)[1][20..])
    ensures ParseDecimal(SettingsLines(b, ppb)[1][20..]) == ppb
  {
    var settings := SettingsLines(b, ppb);
    assert settings[0][20..] == Decimal(b);
    assert settings[1][20..] == Decimal(ppb);
    DecimalRoundTrip(b);
    DecimalRoundTrip(ppb);
  }

  /** A complete file ends with the address table of the images' labels, in input order. */
  lemma FileEndsWithTable(images: seq<Image>, p: Palette)
    requires FileLines(images, p).Ok?
    ensures |FileLines(images, p).value| >= |TableLines(Labels(images))|
    ensures FileLines(images, p).value[|FileLines(images, p).value| - |TableLines(Labels(images))|..]
      == TableLines(Labels(images))
  {
    var front, blocks := FileParts(images, p);
    Split(front + blocks, TableLines(Labels(images)));
  }

  lemma Split<T>(a: seq<T>, b: seq<T>)
    ensures (a + b)[..|a|] == a && (a + b)[|a|..] == b
  {
  }

  lemma PrefixOfConcat<T>(a: seq<T>, b: seq<T>, k: nat)
    requires k <= |a|
    ensures (a + b)[..k] == a[..k]
  {
  }

  /** Two images, one red and green, one green and blue. */
  function ExampleImages(): seq<Image>
  {
    [Image("a", [Pixel(255, 0, 0, 255), Pixel(0, 255, 0, 255)]),
     Image("b", [Pixel(0, 255, 0, 255), Pixel(0, 0, 255, 255)])]
  }

  /** The example images use three colours. */
  lemma ExamplePalette(p: Palette)
    requires IsPaletteOf(p.colours, ExampleImages())
    ensures p.Len() == 3
  {
    var red, green, blue := Pixel(255, 0, 0, 255), Pixel(0, 255, 0, 255), Pixel(0, 0, 255, 255);
    var images := ExampleImages();
    assert AllPixels(images) == [red, green, green, blue];
    assert ColourSet(images) == {red, green, blue};
    PaletteSize(p, images);
  }

  /** For the example images the palette has three colours, so each index
      takes two bits, four fit in a byte, and each image packs into a single
      byte. Rows are written only for full groups of five bytes, so each
      image block is its label alone. */
  lemma TwoImagesBlocks(p: Palette)
    requires IsPaletteOf(p.colours, ExampleImages())
    ensures p.Len() == 3 && BitsPerColour(3) == 2 && PixelsPerByte(2) == 4
    ensures Pack(p, ExampleImages()[0].pixels, 4, 2).Ok?
    ensures |Pack(p, ExampleImages()[0].pixels, 4, 2).value| == 1
    ensures Pack(p, ExampleImages()[1].pixels, 4, 2).Ok?
    ensures |Pack(p, ExampleImages()[1].pixels, 4, 2).value| == 1
    ensures ImageBlock(ExampleImages()[0], p, 4, 2) == Ok(["_a"])
    ensures ImageBlock(ExampleImages()[1], p, 4, 2) == Ok(["_b"])
  {
    var images := ExampleImages();
    ExamplePalette(p);
    SmallPaletteWidths();
    PixelsInPalette(p, images);
    assert forall j :: 0 <= j < 2 ==> images[0].pixels[j] in p.colours;
    assert forall j :: 0 <= j < 2 ==> images[1].pixels[j] in p.colours;
    PackLength(p, images[0].pixels, 4, 2);
    PackLength(p, images[1].pixels, 4, 2);
    ShortBlock(Label(images[0]), Pack(p, images[0].pixels, 4, 2).value);
    ShortBlock(Label(images[1]), Pack(p, images[1].pixels, 4, 2).value);
    assert Label(images[0]) == "_a" && Label(images[1]) == "_b";
  }

  /** The image loop over the example images keeps both labels and writes
      each label followed by a blank line. */
  lemma TwoImagesSection(p: Palette)
    requires IsPaletteOf(p.colours, ExampleImages())
    ensures ImageSection(ExampleImages(), p, 4, 2) == Ok(Section(["_a", "_b"], ["_a", "", "_b", ""]))
  {
    var images := ExampleImages();
    TwoImagesBlocks(p);
    var first := Section(["_a"], ["_a", ""]);
    assert Label(images[0]) == "_a" && Label(images[1]) == "_b";
    assert ImageSection(images[..1], p, 4, 2) == Ok(first) by {
      SectionStep(images, 0, p, 4, 2);
      assert images[..0] == [];
      assert ImageSection(images[..0], p, 4, 2) == Ok(Section([], []));
      assert AddBlock(Ok(Section([], [])), images[0], p, 4, 2) == Ok(Section([] + ["_a"], [] + ["_a"] + [""]));
      assert [] + ["_a"] == ["_a"] && [] + ["_a"] + [""] == ["_a", ""];
    }
    SectionStep(images, 1, p, 4, 2);
    assert images[..2] == images;
    assert AddBlock(Ok(first), images[1], p, 4, 2) == Ok(Section(["_a"] + ["_b"], ["_a", ""] + ["_b"] + [""]));
    assert ["_a"] + ["_b"] == ["_a", "_b"] && ["_a", ""] + ["_b"] + [""] == ["_a", "", "_b", ""];
  }

  /** The whole file for the example images: the palette, the settings for two
      bits and four pixels a byte, the two labels without any data rows, and
      the table of the two labels. The packed bytes appear nowhere. */
  lemma TwoImagesExample(p: Palette)
    requires IsPaletteOf(p.colours, ExampleImages())
    ensures FileLines(ExampleImages(), p)
      == Ok(PaletteLines(p.colours) + [""] + SettingsLines(2, 4) + ["_a", "", "_b", ""] + TableLines(["_a", "_b"]))
  {
    TwoImagesBlocks(p);
    TwoImagesSection(p);
  }
}
