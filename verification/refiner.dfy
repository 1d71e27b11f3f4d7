/** The label refiner: `refine_caption` followed by the character filter and the
    15-character cut that `rename_images_based_on_captions` applies to its result. */
module Refiner {
  import opened Seqs
  import opened Text

  /** Matched exactly and case-sensitively: `a` is dropped, `A` is kept. */
  const StopWords: set<string> := {"a", "an", "the", "are", "is", "in", "of", "to", "with", "on"}

  /** How many non-stop-words a label keeps. */
  const MaxLabelWords: nat := 3

  /** How many characters survive the cut. */
  const MaxLabelLength: nat := 15

  predicate IsContentWord(w: string) {
    w !in StopWords
  }

  /** The characters allowed in a label. */
  predicate IsLabelChar(c: char) {
    IsAsciiAlnum(c) || c == '_' || c == '-'
  }

  /** A string made of label characters only. */
  predicate IsLabel(l: string) {
    forall i :: 0 <= i < |l| ==> IsLabelChar(l[i])
  }

  /** The tokens `refine_caption` keeps: the first three whitespace-separated words that are
      not stop words, in their original order. */
  function RefineTokens(caption: string): (ws: seq<string>)
    ensures |ws| <= MaxLabelWords
    ensures forall k :: 0 <= k < |ws| ==> IsWord(ws[k]) && ws[k] !in StopWords
    ensures IsSubseq(ws, Split(caption))
    ensures |ws| <= |Filter(IsContentWord, Split(caption))| && ws == Filter(IsContentWord, Split(caption))[..|ws|]
    ensures |ws| == MaxLabelWords || ws == Filter(IsContentWord, Split(caption))
  {
    var kept := Filter(IsContentWord, Split(caption));
    var ws := Take(kept, MaxLabelWords);
    SubseqPrefix(kept, Split(caption), |ws|);
    ws
  }

  /** `refine_caption`: the kept tokens joined with `_`. The result has no whitespace, and it
      is empty exactly when no token survives. */
  function RefineCaption(caption: string): (r: string)
    ensures forall i :: 0 <= i < |r| ==> !IsSpace(r[i])
    ensures |r| == 0 <==> |RefineTokens(caption)| == 0
  {
    var ws := RefineTokens(caption);
    var r := JoinWith(ws, "_");
    forall i | 0 <= i < |r| ensures !IsSpace(r[i]) {
      JoinWithChars(ws, "_", r[i]);
    }
    r
  }

  /** Refining a caption made of words separated by single spaces keeps the first three
      non-stop-words of that word list. */
  lemma RefineWordwise(ws: seq<string>)
    requires forall k :: 0 <= k < |ws| ==> IsWord(ws[k])
    ensures RefineTokens(JoinWith(ws, " ")) == Take(Filter(IsContentWord, ws), MaxLabelWords)
  {
    SplitJoin(ws);
  }

  /** Once three non-stop-words have been seen, nothing after them matters. */
  lemma RefineIgnoresTail(a: string, sp: char, b: string)
    requires IsSpace(sp)
    requires |Filter(IsContentWord, Split(a))| >= MaxLabelWords
    ensures RefineTokens(a + [sp] + b) == RefineTokens(a)
  {
    SplitAround(a, sp, b);
    FilterAppend(IsContentWord, Split(a), Split(b));
    var ka := Filter(IsContentWord, Split(a));
    var kb := Filter(IsContentWord, Split(b));
    assert (ka + kb)[..MaxLabelWords] == ka[..MaxLabelWords];
  }

  /** The sanitiser: keep only label characters, then cut to 15. The result is the longest
      prefix of at most 15 characters of the filtered string. */
  function Sanitize(s: string): (r: string)
    ensures |r| <= MaxLabelLength
    ensures IsLabel(r)
    ensures |r| <= |Filter(IsLabelChar, s)| && r == Filter(IsLabelChar, s)[..|r|]
    ensures |r| == MaxLabelLength || r == Filter(IsLabelChar, s)
  {
    Take(Filter(IsLabelChar, s), MaxLabelLength)
  }

  /** The strings the sanitiser leaves alone are exactly the short, clean ones; in
      particular sanitising twice is sanitising once. */
  lemma SanitizeFixpoints(s: string)
    ensures Sanitize(s) == s <==> |s| <= MaxLabelLength && IsLabel(s)
    ensures Sanitize(Sanitize(s)) == Sanitize(s)
  {
    var t := Sanitize(s);
    FilterKeepsAll(IsLabelChar, t);
    if |s| <= MaxLabelLength && IsLabel(s) {
      FilterKeepsAll(IsLabelChar, s);
    }
  }

  /** The label derived from the summariser's raw answer. */
  function ShortLabel(raw: string): (r: string)
    ensures |r| <= MaxLabelLength
    ensures IsLabel(r)
    ensures |r| <= |Filter(IsLabelChar, RefineCaption(raw))| && r == Filter(IsLabelChar, RefineCaption(raw))[..|r|]
  {
    Sanitize(RefineCaption(raw))
  }

  /** Refining the words `ws` written with single spaces. */
  lemma RefineOfWords(ws: seq<string>, text: string)
    requires forall k :: 0 <= k < |ws| ==> IsWord(ws[k])
    requires text == JoinWith(ws, " ")
    ensures RefineCaption(text) == JoinWith(Take(Filter(IsContentWord, ws), MaxLabelWords), "_")
  {
    RefineWordwise(ws);
  }

  lemma JoinTwo(x: string, y: string, sep: string)
    ensures JoinWith([x, y], sep) == x + sep + y
  {
    assert [x, y][1..] == [y];
  }

  lemma JoinThree(x: string, y: string, z: string, sep: string)
    ensures JoinWith([x, y, z], sep) == x + sep + y + sep + z
  {
    assert [x, y, z][1..] == [y, z];
    JoinTwo(y, z, sep);
  }

  /** A caption of at most three words, none a stop word, refines to those words joined by `_`. */
  lemma RefineContentWords(ws: seq<string>)
    requires |ws| <= MaxLabelWords
    requires forall k :: 0 <= k < |ws| ==> IsWord(ws[k]) && IsContentWord(ws[k])
    ensures RefineCaption(JoinWith(ws, " ")) == JoinWith(ws, "_")
  {
    FilterKeepsAll(IsContentWord, ws);
    assert Take(Filter(IsContentWord, ws), MaxLabelWords) == ws;
    RefineOfWords(ws, JoinWith(ws, " "));
  }

  lemma WordsADog()
    ensures JoinWith(["A", "dog"], " ") == "A dog" && JoinWith(["A", "dog"], "_") == "A_dog"
    ensures JoinWith(["a", "dog"], " ") == "a dog" && JoinWith(["dog"], " ") == "dog"
    ensures IsWord("A") && IsWord("a") && IsWord("dog")
    ensures IsContentWord("A") && IsContentWord("dog") && !IsContentWord("a")
  {
    JoinTwo("A", "dog", " ");
    JoinTwo("A", "dog", "_");
    JoinTwo("a", "dog", " ");
  }

  /** Stop words match case-sensitively: lower-case `a` is dropped... */
  lemma LowerStopWordExample(raw: string)
    requires raw == "a dog"
    ensures RefineCaption(raw) == "dog"
  {
    WordsADog();
    RefineOfWords(["a", "dog"], raw);
    assert Filter(IsContentWord, ["a", "dog"]) == Filter(IsContentWord, ["dog"]);
    RefineContentWords(["dog"]);
    RefineOfWords(["dog"], "dog");
  }

  /** ...while upper-case `A` is kept. */
  lemma UpperStopWordExample(raw: string)
    requires raw == "A dog"
    ensures RefineCaption(raw) == "A_dog"
  {
    WordsADog();
    RefineContentWords(["A", "dog"]);
  }

  lemma WordsTheOfA()
    ensures JoinWith(["the", "of", "a"], " ") == "the of a"
    ensures IsWord("the") && IsWord("of") && IsWord("a")
    ensures !IsContentWord("the") && !IsContentWord("of") && !IsContentWord("a")
  {
    JoinThree("the", "of", "a", " ");
  }

  /** A caption made only of stop words refines to the empty label. */
  lemma AllStopWordsExample(raw: string)
    requires raw == "the of a"
    ensures RefineCaption(raw) == ""
  {
    WordsTheOfA();
    RefineOfWords(["the", "of", "a"], raw);
  }

  lemma WordsDogRunningFast()
    ensures JoinWith(["dog", "running", "fast"], " ") == "dog running fast"
    ensures JoinWith(["dog", "running", "fast"], "_") == "dog_running_fast"
    ensures IsWord("dog") && IsWord("running") && IsWord("fast")
    ensures IsContentWord("dog") && IsContentWord("running") && IsContentWord("fast")
  {
    JoinThree("dog", "running", "fast", " ");
    JoinThree("dog", "running", "fast", "_");
  }

  /** Three content words are all kept... */
  lemma ThreeWordsExample(raw: string)
    requires raw == "dog running fast"
    ensures RefineCaption(raw) == "dog_running_fast"
  {
    WordsDogRunningFast();
    RefineContentWords(["dog", "running", "fast"]);
  }

  /** ...but their 16-character join is cut to 15 characters. */
  lemma TruncationExample(raw: string)
    requires raw == "dog running fast"
    ensures ShortLabel(raw) == "dog_running_fas"
  {
    ThreeWordsExample(raw);
    CutExample(RefineCaption(raw));
  }

  /** A string of label characters is only cut by the sanitiser. */
  lemma CleanLabel(r: string)
    requires IsLabel(r)
    ensures Sanitize(r) == Take(r, MaxLabelLength)
  {
    FilterKeepsAll(IsLabelChar, r);
  }

  lemma CutExample(r: string)
    requires r == "dog_running_fast"
    ensures Sanitize(r) == "dog_running_fas"
  {
    LabelCharsExample(r);
    CleanLabel(r);
    assert Take(r, MaxLabelLength) == r[..15];
  }

  lemma LabelCharsExample(r: string)
    requires r == "dog_running_fast"
    ensures IsLabel(r)
  {
    forall i | 0 <= i < |r| ensures IsLabelChar(r[i]) {
      assert r[i] == '_' || 'a' <= r[i] <= 'z';
    }
  }
}
