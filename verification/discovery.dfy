/** Image discovery (`list_image_files`): the image files of one directory listing. */
module Discovery {
  import opened Wrappers
  import opened Seqs
  import opened Text
  import opened Paths

  /** The allow-list, in the order the script writes it; the pairing scan relies on this order. */
  const ImageExtensions: seq<string> := [".jpg", ".jpeg", ".png", ".gif", ".bmp", ".webp", ".avif"]

  /** The lower-cased name ends with one of the allowed extensions; the shortest of them has
      four characters. */
  predicate IsImageName(name: string)
    ensures IsImageName(name) ==> |name| >= 4
  {
    exists i :: 0 <= i < |ImageExtensions| && EndsWith(Lower(name), ImageExtensions[i])
  }

  /** The test ignores case: a name and its lower-cased form are both images or both not. */
  lemma ImageNameIgnoresCase(name: string)
    ensures IsImageName(name) <==> IsImageName(Lower(name))
  {
    LowerIdempotent(name);
  }

  datatype DiscoveryError = DirectoryNotFound

  /** Every name joined onto the folder, in order. */
  function JoinAll(folder: string, names: seq<string>): (r: seq<string>)
    ensures |r| == |names|
    ensures forall i :: 0 <= i < |names| ==> r[i] == Join(folder, names[i])
  {
    seq(|names|, i requires 0 <= i < |names| => Join(folder, names[i]))
  }

  /** `list_image_files(path)`. `listing` is what `os.listdir` reports: `None` when the folder
      does not exist, which yields the error value rather than a list. */
  function ListImageFiles(folder: string, listing: Option<seq<string>>): (r: Result<seq<string>, DiscoveryError>)
    ensures listing.None? <==> r.Failure?
    ensures r.Success? ==> |r.value| <= |listing.value|
    ensures r.Success? && (forall k :: 0 <= k < |listing.value| ==> '/' !in listing.value[k]) ==>
      forall n :: '/' !in n ==> (Join(folder, n) in r.value <==> n in listing.value && IsImageName(n))
  {
    match listing
    case None => Failure(DirectoryNotFound)
    case Some(names) =>
      DiscoveredMembership(folder, IsImageName, names);
      Success(JoinAll(folder, Filter(IsImageName, names)))
  }

  /** When the listing is slash-free, joining onto the folder keeps exactly the slash-free
      names that pass the filter. */
  lemma DiscoveredMembership(folder: string, keep: string -> bool, names: seq<string>)
    ensures (forall k :: 0 <= k < |names| ==> '/' !in names[k]) ==>
      forall n :: '/' !in n ==>
        (Join(folder, n) in JoinAll(folder, Filter(keep, names)) <==> n in names && keep(n))
  {
    if forall k :: 0 <= k < |names| ==> '/' !in names[k] {
      forall n | '/' !in n
        ensures Join(folder, n) in JoinAll(folder, Filter(keep, names)) <==> n in names && keep(n)
      {
        DiscoveredOnlyKept(folder, keep, names, n);
        if n in names && keep(n) {
          DiscoveredEveryKept(folder, keep, names, n);
        }
      }
    }
  }

  lemma DiscoveredOnlyKept(folder: string, keep: string -> bool, names: seq<string>, n: string)
    requires forall k :: 0 <= k < |names| ==> '/' !in names[k]
    requires '/' !in n
    ensures Join(folder, n) in JoinAll(folder, Filter(keep, names)) ==> n in names && keep(n)
  {
    var kept := Filter(keep, names);
    var r := JoinAll(folder, kept);
    if Join(folder, n) in r {
      var i :| 0 <= i < |r| && r[i] == Join(folder, n);
      assert kept[i] in names;
      JoinInjective(folder, kept[i], n);
    }
  }

  lemma DiscoveredEveryKept(folder: string, keep: string -> bool, names: seq<string>, n: string)
    requires n in names && keep(n)
    ensures Join(folder, n) in JoinAll(folder, Filter(keep, names))
  {
    var kept := Filter(keep, names);
    assert n in kept;
    var i :| 0 <= i < |kept| && kept[i] == n;
    assert JoinAll(folder, kept)[i] == Join(folder, n);
  }

  /** Discovery is exact and order-preserving: a listing split in two is discovered part by
      part, and a single entry is kept, joined onto the folder, exactly when it is an image name. */
  lemma DiscoveryIsExact(folder: string, a: seq<string>, b: seq<string>, n: string)
    ensures ListImageFiles(folder, Some(a + b)).value
         == ListImageFiles(folder, Some(a)).value + ListImageFiles(folder, Some(b)).value
    ensures ListImageFiles(folder, Some([n])).value == if IsImageName(n) then [Join(folder, n)] else []
  {
    FilterAppend(IsImageName, a, b);
    JoinAllAppend(folder, Filter(IsImageName, a), Filter(IsImageName, b));
    FilterOne(IsImageName, n);
  }

  lemma JoinAllAppend(folder: string, a: seq<string>, b: seq<string>)
    ensures JoinAll(folder, a + b) == JoinAll(folder, a) + JoinAll(folder, b)
  {
  }
}
