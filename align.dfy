/**
 * The manifest update of `repo:align` (`overwriteModules`): for every package
 * of every release, in the order the artifacts are found, the package's
 * descriptor either replaces the same-named entry of `packageDirectories` in
 * place, or is inserted right after the nearest earlier package of that
 * sequence already in the manifest (at the head when there is none).
 */
module Align {
  import opened Manifest
  import AlignText

  /** A package built from an artifact: its name, version and its own descriptor. */
  datatype Package = Package(packageName: string, versionNumber: string, descriptor: Descriptor)

  /** A release definition together with the packages found in its artifact directory, in the order the artifacts are found. */
  datatype Release = Release(release: string, packages: seq<Package>)

  datatype Outcome = Aligned | NoArtifacts(directory: string)

  /** The manifest after a run, and whether the run stopped at a release without artifacts. */
  datatype Alignment = Alignment(dirs: seq<Descriptor>, outcome: Outcome)

  /** Every package's descriptor carries the package's own name. */
  predicate Named(pkgs: seq<Package>)
  {
    forall j :: 0 <= j < |pkgs| ==> pkgs[j].descriptor.package == pkgs[j].packageName
  }

  /** The release names no package twice. */
  predicate DistinctPackages(pkgs: seq<Package>)
  {
    forall i, j :: 0 <= i < j < |pkgs| ==> pkgs[i].packageName != pkgs[j].packageName
  }

  /**
   * The release position of the nearest package before position `i` whose
   * name is already in the manifest, or -1 when none of them is.
   */
  function NearestPresent(dirs: seq<Descriptor>, pkgs: seq<Package>, i: int): (a: int)
    requires 0 <= i <= |pkgs|
    ensures -1 <= a < i
    ensures a >= 0 ==> Present(dirs, pkgs[a].packageName)
    decreases i
  {
    if i == 0 then -1
    else if FindIndex(dirs, pkgs[i - 1].packageName) >= 0 then i - 1
    else NearestPresent(dirs, pkgs, i - 1)
  }

  /** NearestPresent finds the nearest earlier package in the manifest, and -1 only when none is. */
  lemma {:induction false} NearestPresentNearest(dirs: seq<Descriptor>, pkgs: seq<Package>, i: int)
    requires 0 <= i <= |pkgs|
    ensures NearestPresent(dirs, pkgs, i) == -1 <==> forall j :: 0 <= j < i ==> !Present(dirs, pkgs[j].packageName)
    ensures forall j :: NearestPresent(dirs, pkgs, i) < j < i ==> !Present(dirs, pkgs[j].packageName)
    decreases i
  {
    if i > 0 && FindIndex(dirs, pkgs[i - 1].packageName) < 0 {
      NearestPresentNearest(dirs, pkgs, i - 1);
    }
  }

  /** Where the package at release position `i` is inserted when it is new: right after its anchor, or 0. */
  function InsertionPoint(dirs: seq<Descriptor>, pkgs: seq<Package>, i: int): (pos: int)
    requires 0 <= i <= |pkgs|
    ensures 0 <= pos <= |dirs|
    ensures pos == 0 <==> NearestPresent(dirs, pkgs, i) == -1
    ensures pos > 0 ==> dirs[pos - 1].package == pkgs[NearestPresent(dirs, pkgs, i)].packageName
  {
    var a := NearestPresent(dirs, pkgs, i);
    if a == -1 then 0 else FindIndex(dirs, pkgs[a].packageName) + 1
  }

  /** The manifest after processing the package at release position `i`. */
  function Step(dirs: seq<Descriptor>, pkgs: seq<Package>, i: int): seq<Descriptor>
    requires 0 <= i < |pkgs|
  {
    var p := pkgs[i];
    if FindIndex(dirs, p.packageName) != -1 then
      ReplaceNamed(dirs, p.packageName, WithoutDefault(p.descriptor))
    else
      var pos := InsertionPoint(dirs, pkgs, i);
      dirs[..pos] + [p.descriptor] + dirs[pos..]
  }

  /** The manifest after processing the first `n` packages of a release. */
  function ApplyPackages(dirs: seq<Descriptor>, pkgs: seq<Package>, n: int): seq<Descriptor>
    requires 0 <= n <= |pkgs|
    decreases n
  {
    if n == 0 then dirs else Step(ApplyPackages(dirs, pkgs, n - 1), pkgs, n - 1)
  }

  /** The manifest after processing every package of a release. */
  function ApplyRelease(dirs: seq<Descriptor>, pkgs: seq<Package>): seq<Descriptor>
  {
    ApplyPackages(dirs, pkgs, |pkgs|)
  }

  /** The releases in order; a release without artifacts stops the run with an error. */
  function AlignReleases(dirs: seq<Descriptor>, releases: seq<Release>): Alignment
    decreases |releases|
  {
    if releases == [] then Alignment(dirs, Aligned)
    else if |releases[0].packages| == 0 then
      Alignment(dirs, NoArtifacts(AlignText.ArtifactDirectory(releases[0].release)))
    else AlignReleases(ApplyRelease(dirs, releases[0].packages), releases[1..])
  }

  /** The project configuration of the source branch, whose `packageDirectories` the command rewrites. */
  class ProjectConfig {
    var packageDirectories: seq<Descriptor>

    constructor (dirs: seq<Descriptor>)
      ensures packageDirectories == dirs
    {
      packageDirectories := dirs;
    }

    /** `getPackageIndex`, as an index lookup that answers -1 for an absent name. */
    method PackageIndex(name: string) returns (idx: int)
      ensures idx == FindIndex(packageDirectories, name)
    {
      idx := 0;
      while idx < |packageDirectories| && packageDirectories[idx].package != name
        invariant 0 <= idx <= |packageDirectories|
        invariant forall k :: 0 <= k < idx ==> packageDirectories[k].package != name
      {
        idx := idx + 1;
      }
      FindIndexFirst(packageDirectories, name);
      if idx == |packageDirectories| {
        idx := -1;
      }
    }

    /**
     * The backward scan of `overwriteModules` for the package at release
     * position `i`: the manifest index of its anchor, or -1 when no earlier
     * release package is in the manifest.
     */
    method FindAnchor(pkgs: seq<Package>, i: int) returns (anchorIndex: int)
      requires 0 <= i < |pkgs|
      ensures anchorIndex + 1 == InsertionPoint(packageDirectories, pkgs, i)
    {
      var currentIdx := i - 1;
      anchorIndex := -1;
      while currentIdx != -1
        invariant -1 <= currentIdx < i
        invariant anchorIndex == -1
        invariant NearestPresent(packageDirectories, pkgs, i) == NearestPresent(packageDirectories, pkgs, currentIdx + 1)
        decreases currentIdx + 1
      {
        anchorIndex := PackageIndex(pkgs[currentIdx].packageName);
        if anchorIndex >= 0 {
          return;
        }
        currentIdx := currentIdx - 1;
      }
    }

    /** The body of the per-package loop of `overwriteModules`, for the package at release position `i`. */
    method OverwritePackage(pkgs: seq<Package>, i: int)
      requires 0 <= i < |pkgs|
      modifies this
      ensures packageDirectories == Step(old(packageDirectories), pkgs, i)
    {
      var p := pkgs[i];
      var packageIndex := PackageIndex(p.packageName);
      if packageIndex != -1 {
        packageDirectories := ReplaceNamed(packageDirectories, p.packageName, WithoutDefault(p.descriptor));
      } else {
        // Not in the manifest: insert right after the anchor, or at the head.
        var anchorIndex := FindAnchor(pkgs, i);
        packageDirectories := packageDirectories[..anchorIndex + 1] + [p.descriptor] + packageDirectories[anchorIndex + 1..];
      }
    }

    /** The loop over the packages of one release. */
    method OverwriteRelease(pkgs: seq<Package>)
      modifies this
      ensures packageDirectories == ApplyRelease(old(packageDirectories), pkgs)
    {
      for i := 0 to |pkgs|
        invariant packageDirectories == ApplyPackages(old(packageDirectories), pkgs, i)
      {
        OverwritePackage(pkgs, i);
      }
    }

    /** `overwriteModules` without its file and git effects: the loop over the release definitions. */
    method OverwriteModules(releases: seq<Release>) returns (outcome: Outcome)
      modifies this
      ensures AlignReleases(old(packageDirectories), releases) == Alignment(packageDirectories, outcome)
    {
      for r := 0 to |releases|
        invariant AlignReleases(old(packageDirectories), releases) == AlignReleases(packageDirectories, releases[r..])
      {
        var release := releases[r];
        var revisedArtifactDirectory := AlignText.ArtifactDirectory(release.release);
        assert releases[r..][1..] == releases[r + 1..];
        if |release.packages| == 0 {
          return NoArtifacts(revisedArtifactDirectory);
        }
        OverwriteRelease(release.packages);
      }
      outcome := Aligned;
    }
  }
}
