/** The uniqueness resolver: the run-scoped set of assigned names and the loop that tries
    `short`, `short_1`, `short_2`, ... until a name is free. */
module Resolver {
  import opened Text
  import opened Refiner

  /** The `k`-th name tried for `short`: `short` itself, then `short_k`. The suffix goes after
      the 15-character cut, so a candidate can be longer than 15 characters. */
  function Candidate(short: string, k: nat): string {
    if k == 0 then short else short + "_" + Decimal(k)
  }

  /** Different attempts never produce the same name. */
  lemma CandidateInjective(short: string, j: nat, k: nat)
    requires Candidate(short, j) == Candidate(short, k)
    ensures j == k
  {
    if j != 0 && k != 0 {
      var cj := Candidate(short, j);
      assert cj[|short| + 1..] == Decimal(j);
      assert Candidate(short, k)[|short| + 1..] == Decimal(k);
      DecimalInjective(j, k);
    }
  }

  /** The first `n` candidates, as a set. */
  function Tried(short: string, n: nat): set<string> {
    set j | 0 <= j < n :: Candidate(short, j)
  }

  lemma {:induction false} TriedSize(short: string, n: nat)
    ensures |Tried(short, n)| == n
  {
    if n > 0 {
      TriedSize(short, n - 1);
      assert Tried(short, n) == Tried(short, n - 1) + {Candidate(short, n - 1)};
      if Candidate(short, n - 1) in Tried(short, n - 1) {
        var j :| 0 <= j < n - 1 && Candidate(short, j) == Candidate(short, n - 1);
        CandidateInjective(short, j, n - 1);
      }
    }
  }

  /** If the first `n` candidates are all taken, the set holds at least `n` names: this bounds
      the search. */
  lemma CandidatesBound(short: string, existing: set<string>, n: nat)
    requires forall j :: 0 <= j < n ==> Candidate(short, j) in existing
    ensures n <= |existing|
  {
    TriedSize(short, n);
    SubsetSize(Tried(short, n), existing);
  }

  lemma {:induction false} SubsetSize(a: set<string>, b: set<string>)
    requires a <= b
    ensures |a| <= |b|
    decreases |a|
  {
    if a != {} {
      var x :| x in a;
      SubsetSize(a - {x}, b - {x});
    }
  }

  /** The index of the first free candidate at or after `k`, given that those before `k`
      are taken. */
  function FirstFreeFrom(short: string, existing: set<string>, k: nat): (r: nat)
    requires forall j :: 0 <= j < k ==> Candidate(short, j) in existing
    ensures k <= r <= |existing|
    ensures Candidate(short, r) !in existing
    ensures forall j :: 0 <= j < r ==> Candidate(short, j) in existing
    decreases |existing| - k
  {
    CandidatesBound(short, existing, k);
    if Candidate(short, k) !in existing then k
    else
      CandidatesBound(short, existing, k + 1);
      FirstFreeFrom(short, existing, k + 1)
  }

  /** The index of the first free candidate. */
  function FirstFree(short: string, existing: set<string>): (r: nat)
    ensures r <= |existing|
    ensures Candidate(short, r) !in existing
    ensures forall j :: 0 <= j < r ==> Candidate(short, j) in existing
  {
    FirstFreeFrom(short, existing, 0)
  }

  /** The name the resolver assigns: `short` when it is free, otherwise `short_k` for the
      smallest `k >= 1` whose name is free. */
  function ResolveName(short: string, existing: set<string>): (u: string)
    ensures u !in existing
    ensures short !in existing ==> u == short
    ensures short in existing ==>
      exists k :: 1 <= k <= |existing| && u == short + "_" + Decimal(k)
        && forall j :: 1 <= j < k ==> short + "_" + Decimal(j) in existing
  {
    var k := FirstFree(short, existing);
    var u := Candidate(short, k);
    assert short in existing ==> k >= 1 && u == short + "_" + Decimal(k);
    assert forall j :: 1 <= j < k ==> short + "_" + Decimal(j) == Candidate(short, j);
    u
  }

  /** Resolving a label made of label characters gives a name made of label characters; only
      the length can grow past the cut. */
  lemma ResolvedChars(short: string, existing: set<string>)
    requires IsLabel(short)
    ensures IsLabel(ResolveName(short, existing))
  {
    var k := FirstFree(short, existing);
    if k > 0 {
      var u := Candidate(short, k);
      var d := Decimal(k);
      assert u == short + "_" + d;
      forall i | 0 <= i < |u| ensures IsLabelChar(u[i]) {
        if i > |short| { assert u[i] == d[i - |short| - 1]; }
      }
    }
  }

  /** The loop of the source: tries `short`, then `short_1`, `short_2`, ... and records the
      name it settles on. The set grows by that name and nothing else. */
  method Resolve(short: string, existing: set<string>) returns (unique: string, names: set<string>)
    ensures unique !in existing
    ensures names == existing + {unique}
    ensures unique == ResolveName(short, existing)
  {
    var counter := 1;
    unique := short;
    while unique in existing
      invariant 1 <= counter <= |existing| + 1
      invariant unique == Candidate(short, counter - 1)
      invariant forall j :: 0 <= j < counter - 1 ==> Candidate(short, j) in existing
      decreases |existing| - counter
    {
      CandidatesBound(short, existing, counter);
      unique := short + "_" + Decimal(counter);
      counter := counter + 1;
    }
    names := existing + {unique};
  }

  /** Two labels that refine alike get the plain name and then the `_1` name. */
  lemma DuplicateLabelExample(short: string)
    ensures ResolveName(short, {}) == short
    ensures ResolveName(short, {short}) == short + "_1"
  {
    assert Decimal(1) == "1";
  }

  /** The resolved name can be longer than the 15-character label limit. */
  lemma ResolvedMayExceedLimit(short: string)
    requires short == "abcdefghijklmno"
    ensures |short| == MaxLabelLength
    ensures |ResolveName(short, {short})| == MaxLabelLength + 2
  {
    DuplicateLabelExample(short);
  }
}
