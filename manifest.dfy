/**
 * The `packageDirectories` list of an sfdx-project.json manifest: an ordered
 * sequence of package descriptors, looked up and rewritten by package name.
 */
module Manifest {

  datatype Option<T> = None | Some(value: T)

  /** One entry of `packageDirectories`. `default` is the optional JSON flag. */
  datatype Descriptor = Descriptor(package: string, path: string, versionNumber: string, default: Option<bool>)

  /** The descriptor with its `default` key deleted. */
  function WithoutDefault(d: Descriptor): Descriptor
  {
    d.(default := None)
  }

  /** No two entries of the manifest carry the same package name. */
  predicate Unique(dirs: seq<Descriptor>)
  {
    forall i, j :: 0 <= i < j < |dirs| ==> dirs[i].package != dirs[j].package
  }

  /**
   * Index of the first entry named `name`, or -1 when there is none
   * (the lookup `getPackageIndex` is meant to perform).
   */
  function FindIndex(dirs: seq<Descriptor>, name: string): (r: int)
    ensures -1 <= r < |dirs|
    ensures r >= 0 ==> dirs[r].package == name
    decreases |dirs|
  {
    if |dirs| == 0 then -1
    else if dirs[0].package == name then 0
    else
      var t := FindIndex(dirs[1..], name);
      if t == -1 then -1 else t + 1
  }

  /** FindIndex answers the first entry of that name, and -1 only when there is none. */
  lemma {:induction false} FindIndexFirst(dirs: seq<Descriptor>, name: string)
    ensures forall k :: 0 <= k < |dirs| && dirs[k].package == name ==> 0 <= FindIndex(dirs, name) <= k
    decreases |dirs|
  {
    if |dirs| > 0 && dirs[0].package != name {
      FindIndexFirst(dirs[1..], name);
      assert forall k :: 1 <= k < |dirs| ==> dirs[k] == dirs[1..][k - 1];
    }
  }

  /** Some entry of the manifest is named `name`. */
  predicate Present(dirs: seq<Descriptor>, name: string)
  {
    FindIndex(dirs, name) != -1
  }

  /** `packageDirectories.map(...)`: every entry named `name` becomes `d`. */
  function ReplaceNamed(dirs: seq<Descriptor>, name: string, d: Descriptor): seq<Descriptor>
  {
    if dirs == [] then []
    else [if dirs[0].package == name then d else dirs[0]] + ReplaceNamed(dirs[1..], name, d)
  }

  /** The entries whose names are not in `touched`, in manifest order. */
  function Untouched(dirs: seq<Descriptor>, touched: set<string>): seq<Descriptor>
  {
    if dirs == [] then []
    else (if dirs[0].package in touched then [] else [dirs[0]]) + Untouched(dirs[1..], touched)
  }

  /** Pointwise meaning of ReplaceNamed. */
  lemma {:induction false} ReplaceNamedAt(dirs: seq<Descriptor>, name: string, d: Descriptor)
    ensures |ReplaceNamed(dirs, name, d)| == |dirs|
    ensures forall k :: 0 <= k < |dirs| ==>
      ReplaceNamed(dirs, name, d)[k] == if dirs[k].package == name then d else dirs[k]
  {
    if dirs != [] {
      ReplaceNamedAt(dirs[1..], name, d);
    }
  }

  /** Replacing entries that already equal `d` changes nothing. */
  lemma {:induction false} ReplaceNamedNoop(dirs: seq<Descriptor>, name: string, d: Descriptor)
    requires forall k :: 0 <= k < |dirs| && dirs[k].package == name ==> dirs[k] == d
    ensures ReplaceNamed(dirs, name, d) == dirs
  {
    if dirs != [] {
      ReplaceNamedNoop(dirs[1..], name, d);
    }
  }

  /** Filtering distributes over concatenation. */
  lemma {:induction false} UntouchedConcat(a: seq<Descriptor>, b: seq<Descriptor>, touched: set<string>)
    ensures Untouched(a + b, touched) == Untouched(a, touched) + Untouched(b, touched)
  {
    if a == [] {
      assert a + b == b;
    } else {
      assert (a + b)[1..] == a[1..] + b;
      UntouchedConcat(a[1..], b, touched);
    }
  }

  /** A single touched entry is filtered out. */
  lemma UntouchedOne(d: Descriptor, touched: set<string>)
    requires d.package in touched
    ensures Untouched([d], touched) == []
  {
    assert [d][1..] == [];
  }

  /** Replacing a touched name by a descriptor of that same name leaves the untouched entries as they were. */
  lemma {:induction false} UntouchedReplace(dirs: seq<Descriptor>, name: string, d: Descriptor, touched: set<string>)
    requires name in touched && d.package == name
    ensures Untouched(ReplaceNamed(dirs, name, d), touched) == Untouched(dirs, touched)
  {
    if dirs != [] {
      UntouchedReplace(dirs[1..], name, d, touched);
    }
  }
}
