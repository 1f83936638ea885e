/** The colour palette shared by every image (`Palette` in src/main.rs): the
    distinct colours of all images, in an order the hash set chooses, and the
    lookup from a colour to its position. */
module Palettes {
  import opened Assets

  /** Every pixel of every image, image after image: the stream the palette is collected from. */
  function AllPixels(images: seq<Image>): seq<Pixel>
  {
    if images == [] then [] else images[0].pixels + AllPixels(images[1..])
  }

  /** The set of colours the images use. */
  function ColourSet(images: seq<Image>): set<Pixel>
  {
    set c | c in AllPixels(images)
  }

  /** Some image has colour `c` at some position. */
  ghost predicate Occurs(images: seq<Image>, c: Pixel)
  {
    exists i, j :: 0 <= i < |images| && 0 <= j < |images[i].pixels| && images[i].pixels[j] == c
  }

  lemma {:induction false} ColourSetMember(images: seq<Image>, c: Pixel)
    ensures c in ColourSet(images) <==> Occurs(images, c)
  {
    if images != [] {
      ColourSetMember(images[1..], c);
      if c in images[0].pixels {
        var j :| 0 <= j < |images[0].pixels| && images[0].pixels[j] == c;
        assert images[0].pixels[j] == c;
      } else if Occurs(images, c) {
        var i, j :| 0 <= i < |images| && 0 <= j < |images[i].pixels| && images[i].pixels[j] == c;
        assert i != 0;
        assert images[1..][i - 1].pixels[j] == c;
      }
      if Occurs(images[1..], c) {
        var i, j :| 0 <= i < |images| - 1 && 0 <= j < |images[1..][i].pixels| && images[1..][i].pixels[j] == c;
        assert images[i + 1].pixels[j] == c;
      }
    }
  }

  predicate Distinct(s: seq<Pixel>)
  {
    forall i, j :: 0 <= i < j < |s| ==> s[i] != s[j]
  }

  /** `colours` lists each colour of the images exactly once, in some order. */
  ghost predicate IsPaletteOf(colours: seq<Pixel>, images: seq<Image>)
  {
    Distinct(colours) && forall c :: c in colours <==> c in ColourSet(images)
  }

  /** The position of the first occurrence of `c` in `s` (`Iterator::position`). */
  function Position(s: seq<Pixel>, c: Pixel): (r: Option<nat>)
    ensures r.None? <==> c !in s
    ensures r.Some? ==> r.value < |s| && s[r.value] == c && c !in s[..r.value]
  {
    if s == [] then None
    else if s[0] == c then Some(0)
    else match Position(s[1..], c)
      case None => None
      case Some(i) =>
        assert s[..i + 1] == [s[0]] + s[1..][..i];
        Some(i + 1)
  }

  datatype Palette = Palette(colours: seq<Pixel>) {

    /** The index a colour is encoded with: its position in `colours`. */
    function Index(c: Pixel): (r: Option<nat>)
      ensures r.None? <==> c !in colours
      ensures r.Some? ==> r.value < |colours| && colours[r.value] == c
    {
      Position(colours, c)
    }

    /** The number of colours: every colour of the palette has an index below it. */
    function Len(): (n: nat)
      ensures forall c :: c in colours ==> Index(c).Some? && Index(c).value < n
    {
      |colours|
    }
  }

  /** Collects the colours of all images into a set, then lists the set in the
      order its iteration yields, which the model leaves open. */
  method NewFromImages(images: seq<Image>) returns (p: Palette)
    ensures IsPaletteOf(p.colours, images)
  {
    var colourSet := ColourSet(images);
    var colours := [];
    var rest := colourSet;
    while rest != {}
      invariant Distinct(colours)
      invariant forall c :: c in colours ==> c !in rest
      invariant forall c :: c in colours || c in rest <==> c in colourSet
      decreases |rest|
    {
      var c :| c in rest;
      colours := colours + [c];
      rest := rest - {c};
    }
    p := Palette(colours);
  }

  lemma {:induction false} DistinctCardinality(s: seq<Pixel>)
    requires Distinct(s)
    ensures |set c | c in s| == |s|
  {
    if s != [] {
      var tail := s[1..];
      assert Distinct(tail) by {
        forall i, j | 0 <= i < j < |tail| ensures tail[i] != tail[j] {
          assert tail[i] == s[i + 1] && tail[j] == s[j + 1];
        }
      }
      DistinctCardinality(tail);
      assert s[0] !in tail by {
        forall k | 0 <= k < |tail| ensures tail[k] != s[0] {
          assert tail[k] == s[k + 1];
        }
      }
      assert (set c | c in s) == {s[0]} + (set c | c in tail) by {
        assert s == [s[0]] + tail;
      }
    }
  }

  /** The palette has as many entries as the images have distinct colours. */
  lemma PaletteSize(p: Palette, images: seq<Image>)
    requires IsPaletteOf(p.colours, images)
    ensures p.Len() == |ColourSet(images)|
  {
    DistinctCardinality(p.colours);
    assert (set c | c in p.colours) == ColourSet(images);
  }

  /** In a palette without duplicates the index of a colour is its only position. */
  lemma IndexIsPosition(p: Palette, c: Pixel, i: nat)
    requires Distinct(p.colours)
    ensures p.Index(c) == Some(i) <==> i < p.Len() && p.colours[i] == c
  {
  }

  /** Every colour of every image has an index, and the index names that colour. */
  lemma IndexOfOccurring(p: Palette, images: seq<Image>, c: Pixel)
    requires IsPaletteOf(p.colours, images)
    ensures p.Index(c).Some? <==> Occurs(images, c)
    ensures p.Index(c).Some? ==> p.colours[p.Index(c).value] == c
  {
    ColourSetMember(images, c);
  }
}
