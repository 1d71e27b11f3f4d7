/** Stage 2 (`rename_images_based_on_captions`) as a plan: the pairing of each `.txt` file of
    the listing snapshot with an image, and the renames the pass would perform. The summariser
    call is an oracle `summarise` from the text file name to the server's response. */
module Renamer {
  import opened Wrappers
  import opened Text
  import opened Paths
  import opened Inference
  import opened Discovery
  import opened Refiner
  import opened Resolver

  /** Some listing entry has the lower-cased name `target`. */
  predicate HasFileNamed(all: seq<string>, target: string) {
    exists q :: 0 <= q < |all| && Lower(all[q]) == target
  }

  /** Position of the first entry at or after `p` whose lower-cased name is `target`: the
      head of `[f for f in all_files if f.lower() == target]`. */
  function FirstNamedFrom(all: seq<string>, target: string, p: nat): (r: Option<nat>)
    requires p <= |all|
    ensures r.Some? ==> p <= r.value < |all| && Lower(all[r.value]) == target
    ensures r.Some? ==> forall q :: p <= q < r.value ==> Lower(all[q]) != target
    ensures r.None? ==> forall q :: p <= q < |all| ==> Lower(all[q]) != target
    decreases |all| - p
  {
    if p == |all| then None
    else if Lower(all[p]) == target then Some(p)
    else FirstNamedFrom(all, target, p + 1)
  }

  /** Where the pairing scan found an image: which allowed extension, and which entry. */
  datatype Match = Match(ext: nat, pos: nat)

  /** The pairing scan from the `i`-th allowed extension on: the first extension, in allow-list
      order, that any entry matches, and the first entry that matches it. */
  function FindImageFrom(base: string, all: seq<string>, i: nat): (r: Option<Match>)
    requires i <= |ImageExtensions|
    ensures r.Some? ==> i <= r.value.ext < |ImageExtensions| && r.value.pos < |all|
    ensures r.Some? ==> Lower(all[r.value.pos]) == Lower(base) + ImageExtensions[r.value.ext]
    ensures r.Some? ==> forall q :: 0 <= q < r.value.pos ==> Lower(all[q]) != Lower(base) + ImageExtensions[r.value.ext]
    ensures r.Some? ==> forall e :: i <= e < r.value.ext ==> !HasFileNamed(all, Lower(base) + ImageExtensions[e])
    ensures r.None? ==> forall e :: i <= e < |ImageExtensions| ==> !HasFileNamed(all, Lower(base) + ImageExtensions[e])
    decreases |ImageExtensions| - i
  {
    if i == |ImageExtensions| then None
    else
      match FirstNamedFrom(all, Lower(base) + ImageExtensions[i], 0)
      case Some(pos) => Some(Match(i, pos))
      case None => FindImageFrom(base, all, i + 1)
  }

  /** The image paired with the base name `base`, if any. */
  function FindImage(base: string, all: seq<string>): (r: Option<string>)
    ensures r.Some? <==> exists e :: 0 <= e < |ImageExtensions| && HasFileNamed(all, Lower(base) + ImageExtensions[e])
    ensures r.Some? ==> r.value in all
  {
    match FindImageFrom(base, all, 0)
    case Some(m) => Some(all[m.pos])
    case None => None
  }

  /** `file[:-4]` for a name ending in `.txt`. */
  function TextBase(file: string): (base: string)
    requires EndsWith(file, ".txt")
    ensures base + ".txt" == file
  {
    file[..|file| - 4]
  }

  /** One planned rename: the paired image and text file and their new names. */
  datatype Rename = Rename(oldImage: string, oldText: string, newImage: string, newText: string, stem: string)

  /** The loop body for one listing entry. Entries that are not `.txt` files, `.txt` files with
      no paired image, and failed summaries plan nothing; otherwise the label is resolved
      against the set of names assigned so far, comes out new to that set, and both files are
      renamed to it. */
  function PlanOne(folder: string, all: seq<string>, file: string, summarise: string -> Response,
                   existing: set<string>): (r: Option<Rename>)
    ensures r.None? <==>
      || !EndsWith(file, ".txt")
      || FindImage(TextBase(file), all).None?
      || SummaryOf(summarise(file)).None?
    ensures r.Some? ==>
      && r.value.oldImage == Join(folder, FindImage(TextBase(file), all).value)
      && r.value.oldText == Join(folder, file)
      && r.value.stem == ResolveName(ShortLabel(SummaryOf(summarise(file)).value), existing)
    ensures r.Some? ==> r.value.stem !in existing
    ensures r.Some? ==> RenamesToStem(folder, r.value)
  {
    if !EndsWith(file, ".txt") then None
    else
      match FindImage(TextBase(file), all)
      case None => None
      case Some(image) =>
        match SummaryOf(summarise(file))
        case None => None
        case Some(raw) =>
          var unique := ResolveName(ShortLabel(raw), existing);
          var imagePath := Join(folder, image);
          Some(Rename(imagePath, Join(folder, file), Join(folder, unique + Ext(imagePath)),
                      Join(folder, unique + ".txt"), unique))
  }

  /** The image keeps its extension and the text file gets `.txt`, both under the new stem. */
  predicate RenamesToStem(folder: string, r: Rename) {
    && r.newImage == Join(folder, r.stem + Ext(r.oldImage))
    && r.newText == Join(folder, r.stem + ".txt")
  }

  /** The name set after one entry: it grows by the planned stem, if any, and by nothing else. */
  function Assign(existing: set<string>, planned: Option<Rename>): set<string> {
    if planned.Some? then existing + {planned.value.stem} else existing
  }

  /** The planning step of one loop iteration, given the entry and the names assigned so far. */
  type Step = (string, set<string>) -> Option<Rename>

  /** The loop over the entries `pending`, threading the name set through `step`. */
  function Pass(step: Step, pending: seq<string>, existing: set<string>): (res: (seq<Rename>, set<string>))
    ensures |res.0| <= |pending|
    decreases |pending|
  {
    if |pending| == 0 then ([], existing)
    else
      var planned := step(pending[0], existing);
      var res := Pass(step, pending[1..], Assign(existing, planned));
      ((if planned.Some? then [planned.value] else []) + res.0, res.1)
  }

  /** The step of the rename loop: `PlanOne` against the snapshot `all`, which is never
      refreshed, so every pairing looks at the listing taken before the first rename. */
  function Planner(folder: string, all: seq<string>, summarise: string -> Response): (step: Step)
    ensures forall f, existing :: step(f, existing) == PlanOne(folder, all, f, summarise, existing)
  {
    (f: string, existing: set<string>) => PlanOne(folder, all, f, summarise, existing)
  }

  /** The whole rename pass: every entry of the snapshot in listing order, starting from an
      empty name set. It plans at most one rename per entry, each to a label made of label
      characters that renames both files of its pair, and no label twice. */
  function RenamePass(folder: string, all: seq<string>, summarise: string -> Response): (rs: seq<Rename>)
    ensures |rs| <= |all|
    ensures StemsDistinct(rs)
    ensures forall i :: 0 <= i < |rs| ==> WellFormed(folder, rs[i])
  {
    var step := Planner(folder, all, summarise);
    PlannerFresh(folder, all, summarise);
    PlannerWellFormed(folder, all, summarise);
    PassDistinct(step, all, {});
    PassAll(step, r => WellFormed(folder, r), all, {});
    Pass(step, all, {}).0
  }

  function Labels(rs: seq<Rename>): set<string> {
    set i | 0 <= i < |rs| :: rs[i].stem
  }

  /** The step never plans a label already in the name set it is given. */
  ghost predicate PlansFresh(step: Step) {
    forall f, existing :: step(f, existing).Some? ==> step(f, existing).value.stem !in existing
  }

  predicate StemsDistinct(rs: seq<Rename>) {
    forall i, j :: 0 <= i < j < |rs| ==> rs[i].stem != rs[j].stem
  }

  /** Over one pass of a step that plans only fresh labels, the assigned labels are pairwise
      distinct and new to the set the pass started from, and the set ends up holding exactly
      those labels in addition. */
  lemma {:induction false} PassDistinct(step: Step, pending: seq<string>, existing: set<string>)
    requires PlansFresh(step)
    ensures var (rs, names) := Pass(step, pending, existing);
      && StemsDistinct(rs)
      && (forall i :: 0 <= i < |rs| ==> rs[i].stem !in existing)
      && names == existing + Labels(rs)
    decreases |pending|
  {
    if |pending| > 0 {
      var planned := step(pending[0], existing);
      var names := Assign(existing, planned);
      PassDistinct(step, pending[1..], names);
      var res := Pass(step, pending[1..], names);
      if planned.Some? {
        ConsDistinct(planned.value, res.0, existing, res.1);
      } else {
        assert [] + res.0 == res.0;
      }
    }
  }

  /** A new label in front of distinct labels that avoid it keeps the labels distinct. */
  lemma ConsDistinct(r: Rename, rest: seq<Rename>, existing: set<string>, names: set<string>)
    requires r.stem !in existing
    requires StemsDistinct(rest)
    requires forall i :: 0 <= i < |rest| ==> rest[i].stem !in existing + {r.stem}
    requires names == existing + {r.stem} + Labels(rest)
    ensures StemsDistinct([r] + rest)
    ensures forall i :: 0 <= i < |[r] + rest| ==> ([r] + rest)[i].stem !in existing
    ensures names == existing + Labels([r] + rest)
  {
    var rs := [r] + rest;
    LabelsCons(r, rest);
    forall i, j | 0 <= i < j < |rs| ensures rs[i].stem != rs[j].stem {
      assert rs[j] == rest[j - 1];
      if i > 0 { assert rs[i] == rest[i - 1]; }
    }
    forall i | 0 <= i < |rs| ensures rs[i].stem !in existing {
      if i > 0 { assert rs[i] == rest[i - 1]; }
    }
  }

  lemma LabelsCons(r: Rename, rest: seq<Rename>)
    ensures Labels([r] + rest) == {r.stem} + Labels(rest)
  {
    var rs := [r] + rest;
    forall x | x in Labels(rs) ensures x in {r.stem} + Labels(rest) {
      var i :| 0 <= i < |rs| && rs[i].stem == x;
      if i > 0 { assert rs[i] == rest[i - 1]; }
    }
    forall x | x in Labels(rest) ensures x in Labels(rs) {
      var i :| 0 <= i < |rest| && rest[i].stem == x;
      assert rs[i + 1] == rest[i];
    }
    assert rs[0].stem == r.stem;
  }

  /** Running the pass over two consecutive stretches of the snapshot is running it over their
      concatenation, with the name set handed from the first to the second. */
  lemma {:induction false} PassAppend(step: Step, p1: seq<string>, p2: seq<string>, existing: set<string>)
    ensures var mid := Pass(step, p1, existing).1;
      Pass(step, p1 + p2, existing)
        == (Pass(step, p1, existing).0 + Pass(step, p2, mid).0, Pass(step, p2, mid).1)
    decreases |p1|
  {
    if |p1| == 0 {
      assert p1 + p2 == p2;
      var b := Pass(step, p2, existing).0;
      assert [] + b == b;
    } else {
      var whole := p1 + p2;
      assert whole[0] == p1[0] && whole[1..] == p1[1..] + p2;
      var planned := step(p1[0], existing);
      var names := Assign(existing, planned);
      PassAppend(step, p1[1..], p2, names);
      var head := if planned.Some? then [planned.value] else [];
      var a := Pass(step, p1[1..], names);
      var b := Pass(step, p2, a.1);
      assert head + (a.0 + b.0) == (head + a.0) + b.0;
    }
  }

  predicate AllGood(good: Rename -> bool, rs: seq<Rename>) {
    forall i :: 0 <= i < |rs| ==> good(rs[i])
  }

  /** A property every planned rename has is had by every rename of the pass. */
  lemma {:induction false} PassAll(step: Step, good: Rename -> bool, pending: seq<string>, existing: set<string>)
    requires forall f, ex :: step(f, ex).Some? ==> good(step(f, ex).value)
    ensures AllGood(good, Pass(step, pending, existing).0)
    decreases |pending|
  {
    if |pending| > 0 {
      var planned := step(pending[0], existing);
      var names := Assign(existing, planned);
      PassAll(step, good, pending[1..], names);
      var rest := Pass(step, pending[1..], names).0;
      var rs := Pass(step, pending, existing).0;
      if planned.Some? {
        assert rs == [planned.value] + rest;
        assert good(planned.value);
        forall i | 0 <= i < |rs| ensures good(rs[i]) {
          if i > 0 {
            assert rs[i] == rest[i - 1];
          }
        }
      } else {
        assert rs == [] + rest;
      }
    }
  }

  /** A label followed by an extension determines the label, as long as labels carry no dot. */
  lemma LabelExtInjective(a: string, e1: string, b: string, e2: string)
    requires '.' !in a && '.' !in b
    requires IsExtension(e1) && IsExtension(e2)
    requires a + e1 == b + e2
    ensures a == b
  {
    if |a| < |b| {
      ConcatAt(b, e2, |a|);
      assert false;
    } else if |b| < |a| {
      ConcatAt(a, e1, |b|);
      assert false;
    } else {
      assert a == (a + e1)[..|a|];
      assert b == (b + e2)[..|b|];
    }
  }

  lemma ConcatAt(x: string, y: string, i: int)
    ensures 0 <= i < |x| ==> (x + y)[i] == x[i]
    ensures |x| <= i < |x| + |y| ==> (x + y)[i] == y[i - |x|]
  {
  }

  /** A planned rename with a label stem that renames both files to it. */
  predicate WellFormed(folder: string, r: Rename) {
    IsLabel(r.stem) && RenamesToStem(folder, r)
  }

  /** No two planned renames target the same image path or the same text path. */
  lemma TargetsDistinct(folder: string, all: seq<string>, summarise: string -> Response)
    ensures var rs := RenamePass(folder, all, summarise);
      forall i, j :: 0 <= i < j < |rs| ==> rs[i].newImage != rs[j].newImage && rs[i].newText != rs[j].newText
    ensures var rs := RenamePass(folder, all, summarise);
      forall i, j :: 0 <= i < |rs| && 0 <= j < |rs| && i != j ==> rs[i].newImage != rs[j].newText
  {
    var rs := RenamePass(folder, all, summarise);
    forall i, j | 0 <= i < j < |rs| ensures rs[i].newImage != rs[j].newImage && rs[i].newText != rs[j].newText {
      DistinctStemsDistinctTargets(folder, rs[i], rs[j]);
    }
    forall i, j | 0 <= i < |rs| && 0 <= j < |rs| && i != j ensures rs[i].newImage != rs[j].newText {
      ImageNotOtherText(folder, rs[i], rs[j]);
    }
  }

  /** The new image path of a rename is never the new text path of a rename to another label. */
  lemma ImageNotOtherText(folder: string, r1: Rename, r2: Rename)
    requires IsLabel(r1.stem) && IsLabel(r2.stem) && r1.stem != r2.stem
    requires RenamesToStem(folder, r1) && RenamesToStem(folder, r2)
    ensures r1.newImage != r2.newText
  {
    var a, b := r1.stem, r2.stem;
    NoDotNoSlash(a);
    NoDotNoSlash(b);
    var ea := Ext(r1.oldImage);
    if r1.newImage == r2.newText {
      assert |a + ea| == 0 || (a + ea)[0] != '/';
      JoinInjective(folder, a + ea, b + ".txt");
      LabelExtInjective(a, ea, b, ".txt");
      assert false;
    }
  }

  lemma PlannerFresh(folder: string, all: seq<string>, summarise: string -> Response)
    ensures PlansFresh(Planner(folder, all, summarise))
  {
  }

  lemma PlannerWellFormed(folder: string, all: seq<string>, summarise: string -> Response)
    ensures var step := Planner(folder, all, summarise);
      forall f, ex :: step(f, ex).Some? ==> WellFormed(folder, step(f, ex).value)
  {
    var step := Planner(folder, all, summarise);
    forall f, ex | step(f, ex).Some? ensures WellFormed(folder, step(f, ex).value) {
      var raw := SummaryOf(summarise(f)).value;
      ResolvedChars(ShortLabel(raw), ex);
    }
  }

  /** Renames to different label stems never share a target. */
  lemma DistinctStemsDistinctTargets(folder: string, r1: Rename, r2: Rename)
    requires IsLabel(r1.stem) && IsLabel(r2.stem) && r1.stem != r2.stem
    requires RenamesToStem(folder, r1) && RenamesToStem(folder, r2)
    ensures r1.newImage != r2.newImage && r1.newText != r2.newText
  {
    var a, b := r1.stem, r2.stem;
    NoDotNoSlash(a);
    NoDotNoSlash(b);
    var ea, eb := Ext(r1.oldImage), Ext(r2.oldImage);
    if r1.newText == r2.newText {
      JoinInjective(folder, a + ".txt", b + ".txt");
      LabelExtInjective(a, ".txt", b, ".txt");
      assert false;
    }
    if r1.newImage == r2.newImage {
      assert |a + ea| == 0 || (a + ea)[0] != '/';
      assert |b + eb| == 0 || (b + eb)[0] != '/';
      JoinInjective(folder, a + ea, b + eb);
      LabelExtInjective(a, ea, b, eb);
      assert false;
    }
  }

  lemma NoDotNoSlash(l: string)
    requires IsLabel(l)
    ensures '.' !in l && '/' !in l
    ensures |l + ".txt"| == 0 || (l + ".txt")[0] != '/'
  {
    assert forall c :: 0 <= c < |l| ==> l[c] != '.' && l[c] != '/';
  }

  /** After the renames, image and caption file again share a stem, the label, and the image
      keeps its extension, so a later pass pairs them once more. This needs a non-empty label. */
  lemma RenamedPairShareStem(folder: string, r: Rename)
    requires WellFormed(folder, r) && |r.stem| > 0
    ensures SplitExt(Basename(r.newImage)) == (r.stem, Ext(r.oldImage))
    ensures SplitExt(Basename(r.newText)) == (r.stem, ".txt")
  {
    var l := r.stem;
    var ext := Ext(r.oldImage);
    NoDotNoSlash(l);
    SlashFree(l, ext);
    SlashFree(l, ".txt");
    BasenameOfJoin(folder, l + ext);
    BasenameOfJoin(folder, l + ".txt");
    SplitExtOfPlain(l, ext);
    SplitExtOfPlain(l, ".txt");
  }

  lemma SlashFree(l: string, ext: string)
    requires '/' !in l && IsExtension(ext)
    ensures '/' !in l + ext
  {
    forall i | 0 <= i < |l + ext| ensures (l + ext)[i] != '/' {
      if i >= |l| { assert (l + ext)[i] == ext[i - |l|]; }
    }
  }

  /** With an empty label the caption file becomes the hidden file `.txt`, whose `splitext`
      stem is `.txt` itself and not the label of its image. */
  lemma EmptyLabelLosesPair(folder: string, r: Rename)
    requires WellFormed(folder, r) && r.stem == ""
    ensures Basename(r.newText) == ".txt"
    ensures SplitExt(Basename(r.newText)) == (".txt", "")
  {
    assert r.stem + ".txt" == ".txt";
    BasenameOfJoin(folder, ".txt");
    SplitExtOfDotName(".txt");
  }
}
