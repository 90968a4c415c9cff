/**
 * What the manifest update of `repo:align` guarantees: replacement in place,
 * insertion of exactly one descriptor next to its anchor, unique names, the
 * order of the packages a release does not name, and idempotence.
 */
module AlignProofs {
  import opened Manifest
  import opened Align
  import AlignText

  /**
   * Every package of the release that the manifest does not hold yet carries
   * no `default` flag: a package already present is replaced by its descriptor
   * without the flag, but a new one is inserted with the flag as it is.
   */
  predicate NewWithoutDefault(dirs: seq<Descriptor>, pkgs: seq<Package>)
  {
    forall j :: 0 <= j < |pkgs| && !Present(dirs, pkgs[j].packageName) ==> pkgs[j].descriptor.default == None
  }

  /** Every package of the release is named in `touched`. */
  predicate Covers(touched: set<string>, pkgs: seq<Package>)
  {
    forall j :: 0 <= j < |pkgs| ==> pkgs[j].packageName in touched
  }

  /** The package is in the manifest, and every entry of its name is its descriptor without `default`. */
  ghost predicate EntryAligned(dirs: seq<Descriptor>, p: Package)
  {
    && Present(dirs, p.packageName)
    && forall k :: 0 <= k < |dirs| && dirs[k].package == p.packageName ==> dirs[k] == WithoutDefault(p.descriptor)
  }

  // ---------------------------------------------------------------------
  // The two rewrites a step performs, on plain manifests

  /** Pointwise shape of a splice that inserts `d` at `pos`. */
  lemma InsertAt(dirs: seq<Descriptor>, pos: int, d: Descriptor)
    requires 0 <= pos <= |dirs|
    ensures |dirs[..pos] + [d] + dirs[pos..]| == |dirs| + 1
    ensures forall k :: 0 <= k < |dirs| + 1 ==>
      (dirs[..pos] + [d] + dirs[pos..])[k] == if k < pos then dirs[k] else if k == pos then d else dirs[k - 1]
  {
  }

  /** Replacing entries by a descriptor of the same name moves no name. */
  lemma {:induction false} FindIndexAfterReplace(dirs: seq<Descriptor>, name: string, d: Descriptor, x: string)
    requires d.package == name
    ensures FindIndex(ReplaceNamed(dirs, name, d), x) == FindIndex(dirs, x)
  {
    if dirs != [] {
      FindIndexAfterReplace(dirs[1..], name, d, x);
      assert ReplaceNamed(dirs, name, d)[1..] == ReplaceNamed(dirs[1..], name, d);
    }
  }

  /** A splice keeps every name present and adds the inserted one. */
  lemma PresentAfterInsert(dirs: seq<Descriptor>, pos: int, d: Descriptor, x: string)
    requires 0 <= pos <= |dirs|
    requires Present(dirs, x) || x == d.package
    ensures Present(dirs[..pos] + [d] + dirs[pos..], x)
  {
    InsertAt(dirs, pos, d);
    var r := dirs[..pos] + [d] + dirs[pos..];
    if x == d.package {
      assert r[pos].package == x;
    } else {
      var k := FindIndex(dirs, x);
      var k' := if k < pos then k else k + 1;
      assert r[k'].package == x;
    }
    FindIndexFirst(r, x);
  }

  /** Taking the spliced entry out again gives back the manifest. */
  lemma InsertRemoves(dirs: seq<Descriptor>, pos: int, d: Descriptor)
    requires 0 <= pos <= |dirs|
    ensures (dirs[..pos] + [d] + dirs[pos..])[pos] == d
    ensures (dirs[..pos] + [d] + dirs[pos..])[..pos] + (dirs[..pos] + [d] + dirs[pos..])[pos + 1..] == dirs
  {
    var r := dirs[..pos] + [d] + dirs[pos..];
    assert r[..pos] == dirs[..pos];
    assert r[pos + 1..] == dirs[pos..];
    assert dirs[..pos] + dirs[pos..] == dirs;
  }

  lemma ReplaceKeepsUnique(dirs: seq<Descriptor>, name: string, d: Descriptor)
    requires Unique(dirs) && d.package == name
    ensures Unique(ReplaceNamed(dirs, name, d))
  {
    ReplaceNamedAt(dirs, name, d);
  }

  lemma InsertKeepsUnique(dirs: seq<Descriptor>, pos: int, d: Descriptor)
    requires 0 <= pos <= |dirs|
    requires Unique(dirs) && !Present(dirs, d.package)
    ensures Unique(dirs[..pos] + [d] + dirs[pos..])
  {
    InsertAt(dirs, pos, d);
    FindIndexFirst(dirs, d.package);
  }

  lemma InsertKeepsUntouched(dirs: seq<Descriptor>, pos: int, d: Descriptor, touched: set<string>)
    requires 0 <= pos <= |dirs|
    requires d.package in touched
    ensures Untouched(dirs[..pos] + [d] + dirs[pos..], touched) == Untouched(dirs, touched)
  {
    var front, back := dirs[..pos], dirs[pos..];
    assert dirs == front + back;
    UntouchedConcat(front + [d], back, touched);
    UntouchedConcat(front, [d], touched);
    UntouchedConcat(front, back, touched);
    UntouchedOne(d, touched);
  }

  lemma ReplaceKeepsAligned(dirs: seq<Descriptor>, name: string, d: Descriptor, q: Package)
    requires d.package == name && q.packageName != name
    requires EntryAligned(dirs, q)
    ensures EntryAligned(ReplaceNamed(dirs, name, d), q)
  {
    FindIndexAfterReplace(dirs, name, d, q.packageName);
    ReplaceNamedAt(dirs, name, d);
  }

  lemma InsertKeepsAligned(dirs: seq<Descriptor>, pos: int, d: Descriptor, q: Package)
    requires 0 <= pos <= |dirs|
    requires d.package != q.packageName
    requires EntryAligned(dirs, q)
    ensures EntryAligned(dirs[..pos] + [d] + dirs[pos..], q)
  {
    PresentAfterInsert(dirs, pos, d, q.packageName);
    InsertAt(dirs, pos, d);
  }

  lemma ReplaceAlignsOwn(dirs: seq<Descriptor>, p: Package)
    requires p.descriptor.package == p.packageName
    requires Present(dirs, p.packageName)
    ensures EntryAligned(ReplaceNamed(dirs, p.packageName, WithoutDefault(p.descriptor)), p)
  {
    FindIndexAfterReplace(dirs, p.packageName, WithoutDefault(p.descriptor), p.packageName);
    ReplaceNamedAt(dirs, p.packageName, WithoutDefault(p.descriptor));
  }

  lemma InsertAlignsOwn(dirs: seq<Descriptor>, pos: int, p: Package)
    requires 0 <= pos <= |dirs|
    requires p.descriptor.package == p.packageName && p.descriptor.default == None
    requires !Present(dirs, p.packageName)
    ensures EntryAligned(dirs[..pos] + [p.descriptor] + dirs[pos..], p)
  {
    PresentAfterInsert(dirs, pos, p.descriptor, p.packageName);
    InsertAt(dirs, pos, p.descriptor);
    FindIndexFirst(dirs, p.packageName);
    assert WithoutDefault(p.descriptor) == p.descriptor;
  }

  /** The step on a package already in the manifest. */
  lemma StepWhenPresent(dirs: seq<Descriptor>, pkgs: seq<Package>, i: int)
    requires 0 <= i < |pkgs|
    requires Present(dirs, pkgs[i].packageName)
    ensures Step(dirs, pkgs, i) == ReplaceNamed(dirs, pkgs[i].packageName, WithoutDefault(pkgs[i].descriptor))
  {
  }

  /** The step on a package not yet in the manifest. */
  lemma StepWhenAbsent(dirs: seq<Descriptor>, pkgs: seq<Package>, i: int)
    requires 0 <= i < |pkgs|
    requires !Present(dirs, pkgs[i].packageName)
    ensures Step(dirs, pkgs, i) ==
      dirs[..InsertionPoint(dirs, pkgs, i)] + [pkgs[i].descriptor] + dirs[InsertionPoint(dirs, pkgs, i)..]
  {
  }

  // ---------------------------------------------------------------------
  // One package

  /**
   * A package already in a manifest with unique names: the length and order
   * stay, its entry becomes the artifact's descriptor without `default`, and
   * every other entry is unchanged.
   */
  lemma StepReplacesInPlace(dirs: seq<Descriptor>, pkgs: seq<Package>, i: int)
    requires 0 <= i < |pkgs|
    requires Unique(dirs)
    requires FindIndex(dirs, pkgs[i].packageName) != -1
    ensures |Step(dirs, pkgs, i)| == |dirs|
    ensures Step(dirs, pkgs, i)[FindIndex(dirs, pkgs[i].packageName)] == WithoutDefault(pkgs[i].descriptor)
    ensures forall j :: 0 <= j < |dirs| && j != FindIndex(dirs, pkgs[i].packageName) ==>
      Step(dirs, pkgs, i)[j] == dirs[j]
  {
    StepWhenPresent(dirs, pkgs, i);
    ReplaceNamedAt(dirs, pkgs[i].packageName, WithoutDefault(pkgs[i].descriptor));
  }

  /** A new package none of whose release predecessors is in the manifest goes to index 0. */
  lemma StepInsertsAtHead(dirs: seq<Descriptor>, pkgs: seq<Package>, i: int)
    requires 0 <= i < |pkgs|
    requires !Present(dirs, pkgs[i].packageName)
    requires forall j :: 0 <= j < i ==> !Present(dirs, pkgs[j].packageName)
    ensures Step(dirs, pkgs, i) == [pkgs[i].descriptor] + dirs
  {
    NearestPresentNearest(dirs, pkgs, i);
    StepWhenAbsent(dirs, pkgs, i);
  }

  /**
   * A new package whose nearest release predecessor in the manifest is
   * `pkgs[a]` is inserted right after that predecessor's entry; nothing else
   * moves.
   */
  lemma StepInsertsAfterAnchor(dirs: seq<Descriptor>, pkgs: seq<Package>, i: int, a: int)
    requires 0 <= a < i < |pkgs|
    requires !Present(dirs, pkgs[i].packageName)
    requires Present(dirs, pkgs[a].packageName)
    requires forall j :: a < j < i ==> !Present(dirs, pkgs[j].packageName)
    ensures FindIndex(dirs, pkgs[a].packageName) >= 0
    ensures Step(dirs, pkgs, i) ==
      dirs[..FindIndex(dirs, pkgs[a].packageName) + 1] + [pkgs[i].descriptor] + dirs[FindIndex(dirs, pkgs[a].packageName) + 1..]
  {
    NearestPresentNearest(dirs, pkgs, i);
    assert NearestPresent(dirs, pkgs, i) == a;
    StepWhenAbsent(dirs, pkgs, i);
  }

  /** A new package adds exactly one entry, and the previous entries keep their relative order. */
  lemma StepInsertsOne(dirs: seq<Descriptor>, pkgs: seq<Package>, i: int)
    requires 0 <= i < |pkgs|
    requires FindIndex(dirs, pkgs[i].packageName) == -1
    ensures |Step(dirs, pkgs, i)| == |dirs| + 1
    ensures exists pos ::
      && 0 <= pos <= |dirs|
      && Step(dirs, pkgs, i)[pos] == pkgs[i].descriptor
      && Step(dirs, pkgs, i)[..pos] + Step(dirs, pkgs, i)[pos + 1..] == dirs
  {
    var pos := InsertionPoint(dirs, pkgs, i);
    StepWhenAbsent(dirs, pkgs, i);
    InsertRemoves(dirs, pos, pkgs[i].descriptor);
  }

  /** A package whose descriptor carries its own name keeps manifest names unique. */
  lemma StepKeepsUnique(dirs: seq<Descriptor>, pkgs: seq<Package>, i: int)
    requires 0 <= i < |pkgs|
    requires Unique(dirs)
    requires pkgs[i].descriptor.package == pkgs[i].packageName
    ensures Unique(Step(dirs, pkgs, i))
  {
    var p := pkgs[i];
    if Present(dirs, p.packageName) {
      StepWhenPresent(dirs, pkgs, i);
      ReplaceKeepsUnique(dirs, p.packageName, WithoutDefault(p.descriptor));
    } else {
      StepWhenAbsent(dirs, pkgs, i);
      InsertKeepsUnique(dirs, InsertionPoint(dirs, pkgs, i), p.descriptor);
    }
  }

  /** Every name of the manifest survives the step, and the package's own name is added. */
  lemma StepKeepsPresent(dirs: seq<Descriptor>, pkgs: seq<Package>, i: int, name: string)
    requires 0 <= i < |pkgs|
    requires pkgs[i].descriptor.package == pkgs[i].packageName
    requires Present(dirs, name) || name == pkgs[i].packageName
    ensures Present(Step(dirs, pkgs, i), name)
  {
    var p := pkgs[i];
    if Present(dirs, p.packageName) {
      StepWhenPresent(dirs, pkgs, i);
      FindIndexAfterReplace(dirs, p.packageName, WithoutDefault(p.descriptor), name);
    } else {
      StepWhenAbsent(dirs, pkgs, i);
      PresentAfterInsert(dirs, InsertionPoint(dirs, pkgs, i), p.descriptor, name);
    }
  }

  /** Entries whose names the release does not touch keep their relative order. */
  lemma StepKeepsUntouched(dirs: seq<Descriptor>, pkgs: seq<Package>, i: int, touched: set<string>)
    requires 0 <= i < |pkgs|
    requires pkgs[i].packageName in touched
    requires pkgs[i].descriptor.package == pkgs[i].packageName
    ensures Untouched(Step(dirs, pkgs, i), touched) == Untouched(dirs, touched)
  {
    var p := pkgs[i];
    if Present(dirs, p.packageName) {
      StepWhenPresent(dirs, pkgs, i);
      UntouchedReplace(dirs, p.packageName, WithoutDefault(p.descriptor), touched);
    } else {
      StepWhenAbsent(dirs, pkgs, i);
      InsertKeepsUntouched(dirs, InsertionPoint(dirs, pkgs, i), p.descriptor, touched);
    }
  }

  /** A step leaves the entry of another package as it was aligned. */
  lemma StepKeepsAligned(dirs: seq<Descriptor>, pkgs: seq<Package>, i: int, q: Package)
    requires 0 <= i < |pkgs|
    requires pkgs[i].descriptor.package == pkgs[i].packageName
    requires q.packageName != pkgs[i].packageName
    requires EntryAligned(dirs, q)
    ensures EntryAligned(Step(dirs, pkgs, i), q)
  {
    var p := pkgs[i];
    if Present(dirs, p.packageName) {
      StepWhenPresent(dirs, pkgs, i);
      ReplaceKeepsAligned(dirs, p.packageName, WithoutDefault(p.descriptor), q);
    } else {
      StepWhenAbsent(dirs, pkgs, i);
      InsertKeepsAligned(dirs, InsertionPoint(dirs, pkgs, i), p.descriptor, q);
    }
  }

  /** A step aligns the entry of its own package, when the package is present already or its descriptor has no `default`. */
  lemma StepAlignsOwn(dirs: seq<Descriptor>, pkgs: seq<Package>, i: int)
    requires 0 <= i < |pkgs|
    requires pkgs[i].descriptor.package == pkgs[i].packageName
    requires Present(dirs, pkgs[i].packageName) || pkgs[i].descriptor.default == None
    ensures EntryAligned(Step(dirs, pkgs, i), pkgs[i])
  {
    var p := pkgs[i];
    if Present(dirs, p.packageName) {
      StepWhenPresent(dirs, pkgs, i);
      ReplaceAlignsOwn(dirs, p);
    } else {
      StepWhenAbsent(dirs, pkgs, i);
      InsertAlignsOwn(dirs, InsertionPoint(dirs, pkgs, i), p);
    }
  }

  /** A step on a package already aligned changes nothing. */
  lemma StepOnAligned(dirs: seq<Descriptor>, pkgs: seq<Package>, i: int)
    requires 0 <= i < |pkgs|
    requires EntryAligned(dirs, pkgs[i])
    ensures Step(dirs, pkgs, i) == dirs
  {
    var p := pkgs[i];
    StepWhenPresent(dirs, pkgs, i);
    ReplaceNamedNoop(dirs, p.packageName, WithoutDefault(p.descriptor));
  }

  // ---------------------------------------------------------------------
  // One release

  /** A release keeps the manifest's names unique. */
  lemma {:induction false} ApplyKeepsUnique(dirs: seq<Descriptor>, pkgs: seq<Package>, n: int)
    requires 0 <= n <= |pkgs|
    requires Unique(dirs) && Named(pkgs)
    ensures Unique(ApplyPackages(dirs, pkgs, n))
    decreases n
  {
    if n > 0 {
      ApplyKeepsUnique(dirs, pkgs, n - 1);
      StepKeepsUnique(ApplyPackages(dirs, pkgs, n - 1), pkgs, n - 1);
    }
  }

  // The step from the first n - 1 packages to the first n, one lemma per fact.

  lemma ApplyStepKeepsPresent(dirs: seq<Descriptor>, pkgs: seq<Package>, n: int, name: string)
    requires 0 < n <= |pkgs|
    requires pkgs[n - 1].descriptor.package == pkgs[n - 1].packageName
    requires Present(ApplyPackages(dirs, pkgs, n - 1), name) || name == pkgs[n - 1].packageName
    ensures Present(ApplyPackages(dirs, pkgs, n), name)
  {
    StepKeepsPresent(ApplyPackages(dirs, pkgs, n - 1), pkgs, n - 1, name);
  }

  lemma ApplyStepAlignsOwn(dirs: seq<Descriptor>, pkgs: seq<Package>, n: int)
    requires 0 < n <= |pkgs|
    requires pkgs[n - 1].descriptor.package == pkgs[n - 1].packageName
    requires Present(ApplyPackages(dirs, pkgs, n - 1), pkgs[n - 1].packageName) || pkgs[n - 1].descriptor.default == None
    ensures EntryAligned(ApplyPackages(dirs, pkgs, n), pkgs[n - 1])
  {
    StepAlignsOwn(ApplyPackages(dirs, pkgs, n - 1), pkgs, n - 1);
  }

  lemma ApplyStepKeepsAligned(dirs: seq<Descriptor>, pkgs: seq<Package>, n: int, q: Package)
    requires 0 < n <= |pkgs|
    requires pkgs[n - 1].descriptor.package == pkgs[n - 1].packageName
    requires q.packageName != pkgs[n - 1].packageName
    requires EntryAligned(ApplyPackages(dirs, pkgs, n - 1), q)
    ensures EntryAligned(ApplyPackages(dirs, pkgs, n), q)
  {
    StepKeepsAligned(ApplyPackages(dirs, pkgs, n - 1), pkgs, n - 1, q);
  }

  lemma ApplyStepOnAligned(dirs: seq<Descriptor>, pkgs: seq<Package>, n: int)
    requires 0 < n <= |pkgs|
    requires ApplyPackages(dirs, pkgs, n - 1) == dirs
    requires EntryAligned(dirs, pkgs[n - 1])
    ensures ApplyPackages(dirs, pkgs, n) == dirs
  {
    StepOnAligned(dirs, pkgs, n - 1);
  }

  lemma ApplyStepKeepsUntouched(dirs: seq<Descriptor>, pkgs: seq<Package>, n: int, touched: set<string>)
    requires 0 < n <= |pkgs|
    requires pkgs[n - 1].packageName in touched
    requires pkgs[n - 1].descriptor.package == pkgs[n - 1].packageName
    ensures Untouched(ApplyPackages(dirs, pkgs, n), touched) == Untouched(ApplyPackages(dirs, pkgs, n - 1), touched)
  {
    StepKeepsUntouched(ApplyPackages(dirs, pkgs, n - 1), pkgs, n - 1, touched);
  }

  /** A name in the manifest before a release is still there after it. */
  lemma {:induction false} ApplyKeepsPresent(dirs: seq<Descriptor>, pkgs: seq<Package>, n: int, name: string)
    requires 0 <= n <= |pkgs|
    requires Named(pkgs)
    requires Present(dirs, name)
    ensures Present(ApplyPackages(dirs, pkgs, n), name)
    decreases n
  {
    if n > 0 {
      ApplyKeepsPresent(dirs, pkgs, n - 1, name);
      ApplyStepKeepsPresent(dirs, pkgs, n, name);
    }
  }

  /** Every package of the release is in the manifest after the release. */
  lemma {:induction false} ApplyIncludesRelease(dirs: seq<Descriptor>, pkgs: seq<Package>, n: int, j: int)
    requires 0 <= j < n <= |pkgs|
    requires Named(pkgs)
    ensures Present(ApplyPackages(dirs, pkgs, n), pkgs[j].packageName)
    decreases n
  {
    if j < n - 1 {
      ApplyIncludesRelease(dirs, pkgs, n - 1, j);
    }
    ApplyStepKeepsPresent(dirs, pkgs, n, pkgs[j].packageName);
  }

  /**
   * Every earlier package of the release is in the manifest by the time a
   * later one is handled, so the anchor of any package but the first is the
   * package just before it: the backward scan looks only one step back.
   */
  lemma AnchorIsPrevious(dirs: seq<Descriptor>, pkgs: seq<Package>, i: int)
    requires 0 < i <= |pkgs|
    requires Named(pkgs)
    ensures NearestPresent(ApplyPackages(dirs, pkgs, i), pkgs, i) == i - 1
  {
    ApplyIncludesRelease(dirs, pkgs, i, i - 1);
  }

  /** The entries of packages the release does not name keep their relative order. */
  lemma {:induction false} ApplyKeepsUntouched(dirs: seq<Descriptor>, pkgs: seq<Package>, n: int, touched: set<string>)
    requires 0 <= n <= |pkgs|
    requires Named(pkgs) && Covers(touched, pkgs)
    ensures Untouched(ApplyPackages(dirs, pkgs, n), touched) == Untouched(dirs, touched)
    decreases n
  {
    if n > 0 {
      ApplyKeepsUntouched(dirs, pkgs, n - 1, touched);
      ApplyStepKeepsUntouched(dirs, pkgs, n, touched);
    }
  }

  /**
   * After a release, a package of it has its entry aligned, when it was in the
   * manifest before the release or its descriptor has no `default`.
   */
  lemma {:induction false} ApplyAligns(dirs: seq<Descriptor>, pkgs: seq<Package>, n: int, j: int)
    requires 0 <= j < n <= |pkgs|
    requires Named(pkgs) && DistinctPackages(pkgs)
    requires Present(dirs, pkgs[j].packageName) || pkgs[j].descriptor.default == None
    ensures EntryAligned(ApplyPackages(dirs, pkgs, n), pkgs[j])
    decreases n
  {
    if j == n - 1 {
      if Present(dirs, pkgs[j].packageName) {
        ApplyKeepsPresent(dirs, pkgs, n - 1, pkgs[j].packageName);
      }
      ApplyStepAlignsOwn(dirs, pkgs, n);
    } else {
      ApplyAligns(dirs, pkgs, n - 1, j);
      ApplyStepKeepsAligned(dirs, pkgs, n, pkgs[j]);
    }
  }

  /** A manifest already aligned with the release is left as it is by the release. */
  lemma {:induction false} AlignedIsFixpoint(dirs: seq<Descriptor>, pkgs: seq<Package>, n: int)
    requires 0 <= n <= |pkgs|
    requires forall j :: 0 <= j < |pkgs| ==> EntryAligned(dirs, pkgs[j])
    ensures ApplyPackages(dirs, pkgs, n) == dirs
    decreases n
  {
    if n > 0 {
      AlignedIsFixpoint(dirs, pkgs, n - 1);
      ApplyStepOnAligned(dirs, pkgs, n);
    }
  }

  /**
   * Running a release a second time changes nothing, for a release that names
   * each package once and whose packages new to the manifest carry no
   * `default` flag.
   */
  lemma AlignIdempotent(dirs: seq<Descriptor>, pkgs: seq<Package>)
    requires Named(pkgs) && DistinctPackages(pkgs) && NewWithoutDefault(dirs, pkgs)
    ensures ApplyRelease(ApplyRelease(dirs, pkgs), pkgs) == ApplyRelease(dirs, pkgs)
  {
    forall j | 0 <= j < |pkgs| ensures EntryAligned(ApplyRelease(dirs, pkgs), pkgs[j]) {
      ApplyAligns(dirs, pkgs, |pkgs|, j);
    }
    AlignedIsFixpoint(ApplyRelease(dirs, pkgs), pkgs, |pkgs|);
  }

  // ---------------------------------------------------------------------
  // All releases

  /** Every name any release touches. */
  predicate CoversAll(touched: set<string>, releases: seq<Release>)
  {
    forall r :: 0 <= r < |releases| ==> Covers(touched, releases[r].packages)
  }

  predicate AllNamed(releases: seq<Release>)
  {
    forall r :: 0 <= r < |releases| ==> Named(releases[r].packages)
  }

  /**
   * The run succeeds exactly when every release has artifacts; otherwise it
   * reports the artifact directory of the first release without any.
   */
  lemma {:induction false} AlignReleasesOutcome(dirs: seq<Descriptor>, releases: seq<Release>)
    ensures AlignReleases(dirs, releases).outcome == Aligned <==>
      forall r :: 0 <= r < |releases| ==> |releases[r].packages| > 0
    ensures AlignReleases(dirs, releases).outcome.NoArtifacts? ==>
      exists r :: 0 <= r < |releases| && |releases[r].packages| == 0 &&
        (forall q :: 0 <= q < r ==> |releases[q].packages| > 0) &&
        AlignReleases(dirs, releases).outcome.directory == AlignText.ArtifactDirectory(releases[r].release)
    decreases |releases|
  {
    if releases != [] && |releases[0].packages| > 0 {
      var next := ApplyRelease(dirs, releases[0].packages);
      AlignReleasesOutcome(next, releases[1..]);
      if AlignReleases(next, releases[1..]).outcome.NoArtifacts? {
        var r :| 0 <= r < |releases[1..]| && |releases[1..][r].packages| == 0 &&
          (forall q :: 0 <= q < r ==> |releases[1..][q].packages| > 0) &&
          AlignReleases(next, releases[1..]).outcome.directory == AlignText.ArtifactDirectory(releases[1..][r].release);
        assert forall q :: 0 <= q < r + 1 ==> |releases[q].packages| > 0 by {
          forall q | 0 <= q < r + 1 ensures |releases[q].packages| > 0 {
            if q > 0 { assert releases[q] == releases[1..][q - 1]; }
          }
        }
      } else {
        assert forall r :: 0 <= r < |releases| ==> |releases[r].packages| > 0 by {
          forall r | 0 <= r < |releases| ensures |releases[r].packages| > 0 {
            if r > 0 { assert releases[r] == releases[1..][r - 1]; }
          }
        }
      }
    }
  }

  /** The whole run keeps manifest names unique, whether it succeeds or stops early. */
  lemma {:induction false} AlignReleasesKeepsUnique(dirs: seq<Descriptor>, releases: seq<Release>)
    requires Unique(dirs) && AllNamed(releases)
    ensures Unique(AlignReleases(dirs, releases).dirs)
    decreases |releases|
  {
    if releases != [] && |releases[0].packages| > 0 {
      ApplyKeepsUnique(dirs, releases[0].packages, |releases[0].packages|);
      assert AllNamed(releases[1..]) by {
        forall r | 0 <= r < |releases[1..]| ensures Named(releases[1..][r].packages) {
          assert releases[1..][r] == releases[r + 1];
        }
      }
      AlignReleasesKeepsUnique(ApplyRelease(dirs, releases[0].packages), releases[1..]);
    }
  }

  /** Packages no release names keep their relative order through the whole run. */
  lemma {:induction false} AlignReleasesKeepsUntouched(dirs: seq<Descriptor>, releases: seq<Release>, touched: set<string>)
    requires AllNamed(releases) && CoversAll(touched, releases)
    ensures Untouched(AlignReleases(dirs, releases).dirs, touched) == Untouched(dirs, touched)
    decreases |releases|
  {
    if releases != [] && |releases[0].packages| > 0 {
      ApplyKeepsUntouched(dirs, releases[0].packages, |releases[0].packages|, touched);
      assert AllNamed(releases[1..]) && CoversAll(touched, releases[1..]) by {
        forall r | 0 <= r < |releases[1..]|
          ensures Named(releases[1..][r].packages) && Covers(touched, releases[1..][r].packages)
        {
          assert releases[1..][r] == releases[r + 1];
        }
      }
      AlignReleasesKeepsUntouched(ApplyRelease(dirs, releases[0].packages), releases[1..], touched);
    }
  }

  // ---------------------------------------------------------------------
  // Worked cases

  function Dir(name: string): Descriptor
  {
    Descriptor(name, "src/" + name, "1.0.0.NEXT", None)
  }

  function Pkg(name: string): Package
  {
    Package(name, "1.0.0-1", Dir(name))
  }

  /** Manifest `[A, C]` and release `[A, B, C]` give `[A, B, C]`. */
  lemma AnchorAfterPredecessor()
    ensures ApplyRelease([Dir("A"), Dir("C")], [Pkg("A"), Pkg("B"), Pkg("C")]) == [Dir("A"), Dir("B"), Dir("C")]
  {
    var pkgs := [Pkg("A"), Pkg("B"), Pkg("C")];
    var s0 := [Dir("A"), Dir("C")];
    assert WithoutDefault(Dir("A")) == Dir("A") && WithoutDefault(Dir("C")) == Dir("C");
    ReplaceNamedNoop(s0, "A", Dir("A"));
    assert FindIndex(s0, "A") == 0;
    var s1 := ApplyPackages(s0, pkgs, 1);
    assert s1 == s0;
    assert FindIndex(s1, "B") == -1;
    assert NearestPresent(s1, pkgs, 1) == 0;
    var s2 := ApplyPackages(s0, pkgs, 2);
    assert s2 == [Dir("A"), Dir("B"), Dir("C")];
    assert s2[2].package == "C";
    FindIndexFirst(s2, "C");
    ReplaceNamedNoop(s2, "C", Dir("C"));
    assert ApplyPackages(s0, pkgs, 3) == Step(s2, pkgs, 2);
  }

  /** An empty manifest and release `[X, Y]` give `[X, Y]`. */
  lemma HeadThenAnchor()
    ensures ApplyRelease([], [Pkg("X"), Pkg("Y")]) == [Dir("X"), Dir("Y")]
  {
    var pkgs := [Pkg("X"), Pkg("Y")];
    assert ApplyPackages([], pkgs, 1) == [Dir("X")];
  }

  /** A new descriptor keeps its `default` flag; the next run deletes it, so the run is not idempotent then. */
  lemma DefaultFlagBreaksIdempotence()
    ensures var d := Descriptor("X", "src/X", "1.0.0.NEXT", Some(true));
      var pkgs := [Package("X", "1.0.0-1", d)];
      ApplyRelease([], pkgs) == [d] &&
      ApplyRelease(ApplyRelease([], pkgs), pkgs) == [WithoutDefault(d)]
  {
    var d := Descriptor("X", "src/X", "1.0.0.NEXT", Some(true));
    var pkgs := [Package("X", "1.0.0-1", d)];
    assert ApplyRelease([], pkgs) == [d];
    assert FindIndex([d], "X") == 0;
  }
}
