/** How the two stages meet: the caption file stage 1 writes for an image is the text file
    stage 2 pairs back with that image, and the renames it plans keep the pair together. */
module Pipeline {
  import opened Wrappers
  import opened Text
  import opened Paths
  import opened Inference
  import opened Discovery
  import opened Captions
  import opened Renamer

  /** Every allowed extension is a dot followed by plain letters. */
  lemma AllowedAreExtensions(e: int)
    requires 0 <= e < |ImageExtensions|
    ensures |ImageExtensions[e]| > 1 && IsExtension(ImageExtensions[e])
  {
  }

  lemma LowerSlice(s: string, d: int)
    requires 0 <= d <= |s|
    ensures Lower(s)[d..] == Lower(s[d..])
    ensures Lower(s)[..d] == Lower(s[..d])
  {
  }

  /** An image name whose allowed extension has something other than dots in front of it splits,
      under `splitext`, into that extension (in whatever case the file uses) and the rest. */
  lemma ImageNameSplits(image: string, e: int)
    requires '/' !in image
    requires 0 <= e < |ImageExtensions| && EndsWith(Lower(image), ImageExtensions[e])
    requires HasNonDot(image, 0, |image| - |ImageExtensions[e]|)
    ensures Stem(image) == image[..|image| - |ImageExtensions[e]|]
    ensures Lower(Ext(image)) == ImageExtensions[e]
  {
    var x := ImageExtensions[e];
    var d := |image| - |x|;
    AllowedAreExtensions(e);
    LowerSlice(image, d);
    var low := Lower(image);
    assert low[d..] == x;
    assert low[d] == x[0] == '.';
    assert image[d] == '.';
    forall k | d < k < |image| ensures image[k] != '.' {
      assert low[k] == x[k - d];
    }
    RFindAbsent(image, '/');
    assert RFind(image, '.') == d;
  }

  /** Nothing in the listing but `image` itself spells, ignoring case, the stem of `image`
      followed by an allowed extension. */
  predicate OnlyImageOfStem(all: seq<string>, image: string) {
    forall q, e :: 0 <= q < |all| && all[q] != image && 0 <= e < |ImageExtensions| ==>
      Lower(all[q]) != Lower(Stem(image)) + ImageExtensions[e]
  }

  /** The caption file of an image pairs back with that image: its name ends in `.txt`, cutting
      the four characters off gives the image's stem, and the pairing scan over a listing in
      which no other file competes for that stem finds the image. */
  lemma CaptionFilePairsBack(all: seq<string>, image: string, e: int)
    requires image in all
    requires 0 <= e < |ImageExtensions| && Lower(Ext(image)) == ImageExtensions[e]
    requires OnlyImageOfStem(all, image)
    ensures EndsWith(TextFileName(image), ".txt")
    ensures TextBase(TextFileName(image)) == Stem(image)
    ensures FindImage(TextBase(TextFileName(image)), all) == Some(image)
  {
    var stem := Stem(image);
    var t := TextFileName(image);
    assert t[..|t| - 4] == stem;
    assert image == stem + Ext(image);
    LowerAppend(stem, Ext(image));
    var q :| 0 <= q < |all| && all[q] == image;
    assert HasFileNamed(all, Lower(stem) + ImageExtensions[e]);
    var found := FindImage(stem, all);
    assert found.Some?;
    var m := FindImageFrom(stem, all, 0).value;
    assert Lower(all[m.pos]) == Lower(stem) + ImageExtensions[m.ext];
  }

  /** The round trip from discovery: an image that passes the filter on extension `e`, with
      something other than dots in front of the extension and no competitor for its stem, gets a
      caption file that stage 2 pairs back with exactly that image. */
  lemma DiscoveredImagePairsBack(all: seq<string>, image: string, e: int)
    requires image in all && '/' !in image
    requires 0 <= e < |ImageExtensions| && EndsWith(Lower(image), ImageExtensions[e])
    requires HasNonDot(image, 0, |image| - |ImageExtensions[e]|)
    requires OnlyImageOfStem(all, image)
    ensures IsImageName(image)
    ensures FindImage(TextBase(TextFileName(image)), all) == Some(image)
  {
    ImageNameSplits(image, e);
    CaptionFilePairsBack(all, image, e);
  }

  /** Stage 2 then plans the rename of exactly that image and caption file, whenever the
      summariser answers with status 200. */
  lemma CaptionedImageRenamed(folder: string, all: seq<string>, image: string, e: int,
                              summarise: string -> Response, existing: set<string>)
    requires image in all
    requires 0 <= e < |ImageExtensions| && Lower(Ext(image)) == ImageExtensions[e]
    requires OnlyImageOfStem(all, image)
    requires summarise(TextFileName(image)).status == Ok
    ensures var r := PlanOne(folder, all, TextFileName(image), summarise, existing);
      && r.Some?
      && r.value.oldImage == Join(folder, image)
      && r.value.oldText == Join(folder, TextFileName(image))
  {
    CaptionFilePairsBack(all, image, e);
  }

  /** A hidden file named only by its extension is discovered and captioned, but its caption
      file, named after the whole name, pairs with no image: `splitext` sees no extension. */
  lemma HiddenImageNotPaired(image: string, all: seq<string>)
    requires image == ".png" && all == [".png", ".png.txt"]
    ensures IsImageName(image)
    ensures TextFileName(image) == ".png.txt"
    ensures FindImage(TextBase(TextFileName(image)), all).None?
  {
    assert EndsWith(Lower(image), ImageExtensions[2]);
    SplitExtOfDotName(image);
    var base := TextBase(TextFileName(image));
    assert base == ".png";
    forall e, q | 0 <= e < |ImageExtensions| && 0 <= q < |all|
      ensures Lower(all[q]) != Lower(base) + ImageExtensions[e]
    {
      assert |Lower(all[q])| == |all[q]|;
      if q == 0 {
        assert |Lower(base) + ImageExtensions[e]| > 4;
      } else {
        assert Lower(all[q])[4] == '.';
        assert (Lower(base) + ImageExtensions[e])[4] == ImageExtensions[e][0];
        assert ImageExtensions[e][0] == '.';
        assert Lower(all[q])[5] == 't';
        assert (Lower(base) + ImageExtensions[e])[5] == ImageExtensions[e][1];
      }
    }
  }
}
