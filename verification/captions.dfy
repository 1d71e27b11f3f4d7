/** Stage 1 without the network and the disk: the caption dictionary built by
    `generate_image_captions` and the text files `save_captions_to_text` plans to write. */
module Captions {
  import opened Wrappers
  import opened Seqs
  import opened Text
  import opened Paths
  import opened Inference
  import opened Discovery

  /** A Python dict from image basename to caption, as its entries in insertion order. */
  type Dict = seq<(string, string)>

  predicate DistinctKeys(d: Dict) {
    forall i, j :: 0 <= i < j < |d| ==> d[i].0 != d[j].0
  }

  function Keys(d: Dict): set<string> {
    set i | 0 <= i < |d| :: d[i].0
  }

  lemma KeysCons(x: (string, string), d: Dict)
    ensures Keys([x] + d) == {x.0} + Keys(d)
  {
    var c := [x] + d;
    forall key | key in Keys(c) ensures key in {x.0} + Keys(d) {
      var i :| 0 <= i < |c| && c[i].0 == key;
      if i > 0 { assert d[i - 1].0 == key; }
    }
    forall key | key in Keys(d) ensures key in Keys(c) {
      var i :| 0 <= i < |d| && d[i].0 == key;
      assert c[i + 1].0 == key;
    }
    assert c[0].0 == x.0;
  }

  /** The value stored under `k`. */
  function Lookup(d: Dict, k: string): Option<string> {
    if |d| == 0 then None
    else if d[0].0 == k then Some(d[0].1)
    else Lookup(d[1..], k)
  }

  /** `d[k] = v`: an existing key keeps its position and takes the new value; a new key goes last. */
  function Put(d: Dict, k: string, v: string): (r: Dict)
    ensures Lookup(r, k) == Some(v)
    ensures forall k' :: k' != k ==> Lookup(r, k') == Lookup(d, k')
    ensures Keys(r) == Keys(d) + {k}
    ensures k !in Keys(d) ==> r == d + [(k, v)]
    ensures k in Keys(d) ==> |r| == |d| && forall i :: 0 <= i < |d| ==> r[i].0 == d[i].0
  {
    if |d| == 0 then [(k, v)]
    else if d[0].0 == k then
      var r := [(k, v)] + d[1..];
      KeysCons((k, v), d[1..]);
      KeysCons(d[0], d[1..]);
      assert d == [d[0]] + d[1..];
      assert r[1..] == d[1..];
      r
    else
      var rest := Put(d[1..], k, v);
      var r := [d[0]] + rest;
      KeysCons(d[0], rest);
      KeysCons(d[0], d[1..]);
      assert d == [d[0]] + d[1..];
      assert r[0] == d[0] && r[1..] == rest;
      assert k !in Keys(d) ==> rest == d[1..] + [(k, v)];
      r
  }

  /** Assigning keeps the keys of the dictionary distinct. */
  lemma {:induction false} PutDistinct(d: Dict, k: string, v: string)
    requires DistinctKeys(d)
    ensures DistinctKeys(Put(d, k, v))
  {
    var r := Put(d, k, v);
    if |d| > 0 && d[0].0 != k {
      var tail := d[1..];
      assert DistinctKeys(tail) by {
        forall i, j | 0 <= i < j < |tail| ensures tail[i].0 != tail[j].0 {
          assert tail[i] == d[i + 1] && tail[j] == d[j + 1];
        }
      }
      PutDistinct(tail, k, v);
      var rest := Put(tail, k, v);
      assert r == [d[0]] + rest;
      assert d[0].0 !in Keys(tail) by {
        forall i | 0 <= i < |tail| ensures tail[i].0 != d[0].0 {
          assert tail[i] == d[i + 1];
        }
      }
      forall i, j | 0 <= i < j < |r| ensures r[i].0 != r[j].0 {
        if i == 0 {
          assert r[j] == rest[j - 1];
          assert rest[j - 1].0 in Keys(rest);
        } else {
          assert r[i] == rest[i - 1] && r[j] == rest[j - 1];
        }
      }
    } else if |d| > 0 {
      assert r == [(k, v)] + d[1..];
      forall i, j | 0 <= i < j < |r| ensures r[i].0 != r[j].0 {
        assert r[j] == d[j];
        if i > 0 { assert r[i] == d[i]; }
      }
    }
  }

  /** A key is found exactly when some entry carries it. */
  lemma {:induction false} LookupKeys(d: Dict, k: string)
    ensures Lookup(d, k).Some? <==> k in Keys(d)
  {
    if |d| > 0 {
      LookupKeys(d[1..], k);
      KeysCons(d[0], d[1..]);
      assert d == [d[0]] + d[1..];
    }
  }

  /** The dictionary left by assigning `entries` one after the other, starting empty. */
  function BuildDict(entries: Dict): (d: Dict)
    ensures DistinctKeys(d)
    ensures Keys(d) == Keys(entries)
    decreases |entries|
  {
    if |entries| == 0 then []
    else
      var n := |entries| - 1;
      var d := BuildDict(entries[..n]);
      KeysSnoc(entries);
      PutDistinct(d, entries[n].0, entries[n].1);
      Put(d, entries[n].0, entries[n].1)
  }

  lemma KeysSnoc(entries: Dict)
    requires |entries| > 0
    ensures Keys(entries) == Keys(entries[..|entries| - 1]) + {entries[|entries| - 1].0}
  {
    var n := |entries| - 1;
    var init := entries[..n];
    forall key | key in Keys(entries) ensures key in Keys(init) + {entries[n].0} {
      var i :| 0 <= i < |entries| && entries[i].0 == key;
      if i < n { assert init[i] == entries[i]; }
    }
    forall key | key in Keys(init) ensures key in Keys(entries) {
      var i :| 0 <= i < |init| && init[i].0 == key;
      assert init[i] == entries[i];
    }
  }

  /** Assigning entries whose keys are already distinct reproduces them in order. */
  lemma {:induction false} BuildDictInOrder(entries: Dict)
    requires DistinctKeys(entries)
    ensures BuildDict(entries) == entries
    decreases |entries|
  {
    if |entries| > 0 {
      var n := |entries| - 1;
      var init := entries[..n];
      var last := entries[n];
      DistinctInit(entries);
      BuildDictInOrder(init);
      calc {
        BuildDict(entries);
        Put(BuildDict(init), last.0, last.1);
        Put(init, last.0, last.1);
        init + [last];
        entries;
      }
    }
  }

  /** Dropping the last of distinct-keyed entries keeps the keys distinct and frees its key. */
  lemma DistinctInit(entries: Dict)
    requires DistinctKeys(entries) && |entries| > 0
    ensures DistinctKeys(entries[..|entries| - 1])
    ensures entries[|entries| - 1].0 !in Keys(entries[..|entries| - 1])
  {
    var n := |entries| - 1;
    var init := entries[..n];
    forall i, j | 0 <= i < j < |init| ensures init[i].0 != init[j].0 {
      assert init[i] == entries[i] && init[j] == entries[j];
    }
    forall i | 0 <= i < |init| ensures init[i].0 != entries[n].0 {
      assert init[i] == entries[i];
    }
  }

  /** The value of the last entry carrying `k`: the reference meaning of assigning the
      entries one after the other. */
  function LastValue(entries: Dict, k: string): Option<string>
    decreases |entries|
  {
    if |entries| == 0 then None
    else if entries[|entries| - 1].0 == k then Some(entries[|entries| - 1].1)
    else LastValue(entries[..|entries| - 1], k)
  }

  /** Later assignments win: every key maps to the value of its last entry. */
  lemma {:induction false} BuildDictLastWins(entries: Dict, k: string)
    ensures Lookup(BuildDict(entries), k) == LastValue(entries, k)
    decreases |entries|
  {
    if |entries| > 0 {
      BuildDictLastWins(entries[..|entries| - 1], k);
    }
  }

  /** One dictionary entry per path: the basename and the caption for that path. */
  function Entries(paths: seq<string>, respond: string -> Response): (e: Dict)
    ensures |e| == |paths|
  {
    seq(|paths|, i requires 0 <= i < |paths| => (Basename(paths[i]), CaptionOf(respond(paths[i]))))
  }

  /** `generate_image_captions`: one request per image path, in order, the caption keyed by the
      path's basename. `respond` stands for the vision model's answer to that image. A later
      path with the same basename overwrites the earlier caption in place. */
  function GenerateCaptions(paths: seq<string>, respond: string -> Response): (d: Dict)
    ensures DistinctKeys(d)
    ensures Keys(d) == Basenames(paths)
  {
    var e := Entries(paths, respond);
    assert Keys(e) == Basenames(paths) by {
      forall b | b in Basenames(paths) ensures b in Keys(e) {
        var i :| 0 <= i < |paths| && Basename(paths[i]) == b;
        assert e[i].0 == b;
      }
    }
    BuildDict(e)
  }

  function Basenames(paths: seq<string>): set<string> {
    set i | 0 <= i < |paths| :: Basename(paths[i])
  }

  /** The caption file name of an image: its `splitext` stem plus `.txt`. */
  function TextFileName(imageName: string): (t: string)
    ensures EndsWith(t, ".txt")
  {
    Stem(imageName) + ".txt"
  }

  datatype Write = Write(path: string, content: string)

  /** `save_captions_to_text`: one write per dictionary entry, in dictionary order, to the
      entry's caption file in `folder`. */
  function SaveCaptions(captions: Dict, folder: string): (ws: seq<Write>)
    ensures |ws| == |captions|
    ensures forall i :: 0 <= i < |ws| ==> ws[i].content == captions[i].1
    ensures forall i :: 0 <= i < |ws| && '/' !in captions[i].0 ==>
      Basename(ws[i].path) == TextFileName(captions[i].0)
    ensures forall i, j :: 0 <= i < |ws| && 0 <= j < |ws| && '/' !in captions[i].0 && '/' !in captions[j].0 ==>
      (ws[i].path == ws[j].path <==> Stem(captions[i].0) == Stem(captions[j].0))
  {
    var ws := seq(|captions|, i requires 0 <= i < |captions| =>
      Write(Join(folder, TextFileName(captions[i].0)), captions[i].1));
    WritePaths(captions, folder, ws);
    ws
  }

  /** The caption file name of a slash-free image name is slash-free. */
  lemma TextFileNamePlain(k: string)
    requires '/' !in k
    ensures '/' !in TextFileName(k)
  {
    var t := TextFileName(k);
    var stem := Stem(k);
    assert k == stem + Ext(k);
    forall i | 0 <= i < |t| ensures t[i] != '/' {
      if i < |stem| {
        assert t[i] == k[i];
      } else {
        assert t[i] == ".txt"[i - |stem|];
      }
    }
  }

  /** Two slash-free image names get the same caption file in a folder exactly when they
      have the same `splitext` stem. */
  lemma SamePathSameStem(folder: string, a: string, b: string)
    requires '/' !in a && '/' !in b
    ensures Join(folder, TextFileName(a)) == Join(folder, TextFileName(b)) <==> Stem(a) == Stem(b)
  {
    var ta, tb := TextFileName(a), TextFileName(b);
    if Join(folder, ta) == Join(folder, tb) {
      TextFileNamePlain(a);
      TextFileNamePlain(b);
      JoinInjective(folder, ta, tb);
      assert Stem(a) == ta[..|ta| - 4];
      assert Stem(b) == tb[..|tb| - 4];
    }
  }

  /** Where the writes of `SaveCaptions` land. */
  lemma WritePaths(captions: Dict, folder: string, ws: seq<Write>)
    requires |ws| == |captions|
    requires forall i :: 0 <= i < |ws| ==> ws[i] == Write(Join(folder, TextFileName(captions[i].0)), captions[i].1)
    ensures forall i :: 0 <= i < |ws| && '/' !in captions[i].0 ==>
      Basename(ws[i].path) == TextFileName(captions[i].0)
    ensures forall i, j :: 0 <= i < |ws| && 0 <= j < |ws| && '/' !in captions[i].0 && '/' !in captions[j].0 ==>
      (ws[i].path == ws[j].path <==> Stem(captions[i].0) == Stem(captions[j].0))
  {
    forall i | 0 <= i < |ws| && '/' !in captions[i].0
      ensures Basename(ws[i].path) == TextFileName(captions[i].0)
    {
      TextFileNamePlain(captions[i].0);
      BasenameOfJoin(folder, TextFileName(captions[i].0));
    }
    forall i, j | 0 <= i < |ws| && 0 <= j < |ws| && '/' !in captions[i].0 && '/' !in captions[j].0
      ensures ws[i].path == ws[j].path <==> Stem(captions[i].0) == Stem(captions[j].0)
    {
      SamePathSameStem(folder, captions[i].0, captions[j].0);
    }
  }

  lemma {:induction false} FilterDistinct<T>(p: T -> bool, s: seq<T>)
    requires forall i, j :: 0 <= i < j < |s| ==> s[i] != s[j]
    ensures forall i, j :: 0 <= i < j < |Filter(p, s)| ==> Filter(p, s)[i] != Filter(p, s)[j]
  {
    if |s| > 0 {
      FilterDistinct(p, s[1..]);
      if p(s[0]) {
        var r := Filter(p, s);
        assert r == [s[0]] + Filter(p, s[1..]);
        assert s[0] !in s[1..];
        assert s[0] !in Filter(p, s[1..]);
      }
    }
  }

  /** When the paths have distinct basenames, the dictionary holds exactly one entry per path,
      in path order, with that image's caption. */
  lemma CaptionsInOrder(paths: seq<string>, respond: string -> Response)
    requires forall i, j :: 0 <= i < j < |paths| ==> Basename(paths[i]) != Basename(paths[j])
    ensures |GenerateCaptions(paths, respond)| == |paths|
    ensures forall i :: 0 <= i < |paths| ==>
      GenerateCaptions(paths, respond)[i] == (Basename(paths[i]), CaptionOf(respond(paths[i])))
  {
    BuildDictInOrder(Entries(paths, respond));
  }

  /** Stage 1 end to end for one listing of distinct plain file names: exactly one caption
      file per discovered image, in listing order, named after the image's stem and holding
      that image's caption (the failure text when the model answered with an error). */
  lemma Stage1Writes(folder: string, names: seq<string>, respond: string -> Response)
    requires forall k :: 0 <= k < |names| ==> '/' !in names[k]
    requires forall i, j :: 0 <= i < j < |names| ==> names[i] != names[j]
    ensures var images := Filter(IsImageName, names);
      var ws := SaveCaptions(GenerateCaptions(ListImageFiles(folder, Some(names)).value, respond), folder);
      && |ws| == |images|
      && forall i :: 0 <= i < |images| ==>
           && ws[i].path == Join(folder, TextFileName(images[i]))
           && ws[i].content == CaptionOf(respond(Join(folder, images[i])))
           && (respond(Join(folder, images[i])).status != Ok ==> ws[i].content == CaptionFailed)
  {
    var images := Filter(IsImageName, names);
    var paths := ListImageFiles(folder, Some(names)).value;
    assert paths == JoinAll(folder, images);
    FilterDistinct(IsImageName, names);
    forall i | 0 <= i < |images| ensures Basename(paths[i]) == images[i] {
      assert images[i] in names;
      BasenameOfJoin(folder, images[i]);
    }
    CaptionsInOrder(paths, respond);
  }
}
