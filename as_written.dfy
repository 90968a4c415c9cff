/**
 * The defects of the manifest update of `overwriteModules`, each as the code
 * reads with the others fixed, next to the corrected model in `Align`: the
 * lookup that can never answer -1, the anchor scan that cannot leave its
 * loop, and the splice that lands in front of the anchor.
 */
module AsWritten {
  import opened Manifest
  import opened Align
  import AlignProofs

  /** The JavaScript values the lookup and the comparison against -1 see. */
  datatype JsValue = Number(n: int) | Object(d: Descriptor) | Undefined

  /** `packageDirectories.find(...)`: the first entry of that name itself, or `undefined`. */
  function FindAsWritten(dirs: seq<Descriptor>, name: string): (v: JsValue)
    ensures v.Object? <==> Present(dirs, name)
    ensures v.Object? ==> v.d == dirs[FindIndex(dirs, name)]
    ensures !v.Number?
  {
    var k := FindIndex(dirs, name);
    if k == -1 then Undefined else Object(dirs[k])
  }

  /** JavaScript's loose `v != -1`: only the number -1 compares equal; an object or `undefined` never does. */
  function NotMinusOne(v: JsValue): bool
  {
    match v
    case Number(n) => n != -1
    case Object(_) => true
    case Undefined => true
  }

  /** One package of the release as the code reads: the test on the lookup decides between map and anchor scan. */
  function StepAsWritten(dirs: seq<Descriptor>, pkgs: seq<Package>, i: int): seq<Descriptor>
    requires 0 <= i < |pkgs|
  {
    var p := pkgs[i];
    if NotMinusOne(FindAsWritten(dirs, p.packageName)) then
      ReplaceNamed(dirs, p.packageName, WithoutDefault(p.descriptor))
    else
      // The anchor scan: unreachable, the lookup is never the number -1.
      assert false; dirs
  }

  /**
   * The lookup never yields -1, so the map always runs; for a package not
   * yet in the manifest the map matches nothing and the package is lost,
   * where the corrected step adds exactly one entry.
   */
  lemma NewPackageIsDropped(dirs: seq<Descriptor>, pkgs: seq<Package>, i: int)
    requires 0 <= i < |pkgs|
    requires !Present(dirs, pkgs[i].packageName)
    ensures StepAsWritten(dirs, pkgs, i) == dirs
    ensures |Step(dirs, pkgs, i)| == |dirs| + 1
  {
    var p := pkgs[i];
    FindIndexFirst(dirs, p.packageName);
    ReplaceNamedNoop(dirs, p.packageName, WithoutDefault(p.descriptor));
    AlignProofs.StepInsertsOne(dirs, pkgs, i);
  }

  /** The state of the anchor scan loop: the scan index and the manifest. */
  datatype ScanState = ScanState(currentIdx: int, dirs: seq<Descriptor>)

  /**
   * One pass of the `while (true)` body as written: `currentIdx = -1` assigns
   * and is truthy, so every pass splices the descriptor in at index 0, and no
   * branch leaves the loop.
   */
  function ScanPassAsWritten(s: ScanState, d: Descriptor): ScanState
  {
    ScanState(-1, [d] + s.dirs)
  }

  /** The loop state after `n` passes. */
  function ScanAsWritten(s: ScanState, d: Descriptor, n: nat): ScanState
    decreases n
  {
    if n == 0 then s else ScanPassAsWritten(ScanAsWritten(s, d, n - 1), d)
  }

  /** After any number of passes the manifest holds that many more copies of the descriptor in front: the loop never ends. */
  lemma {:induction false} ScanNeverEnds(s: ScanState, d: Descriptor, n: nat)
    ensures ScanAsWritten(s, d, n).dirs == seq(n, _ => d) + s.dirs
    ensures n > 0 ==> ScanAsWritten(s, d, n).currentIdx == -1
    decreases n
  {
    if n > 0 {
      ScanNeverEnds(s, d, n - 1);
      assert [d] + seq(n - 1, _ => d) == seq(n, _ => d);
    }
  }

  /** `splice(packageIndex, 0, d)` with the anchor's own index: the descriptor lands in front of the anchor. */
  function InsertAtAnchorAsWritten(dirs: seq<Descriptor>, anchorIndex: int, d: Descriptor): (r: seq<Descriptor>)
    requires 0 <= anchorIndex < |dirs|
    ensures |r| == |dirs| + 1
    ensures r[anchorIndex] == d && r[anchorIndex + 1] == dirs[anchorIndex]
  {
    dirs[..anchorIndex] + [d] + dirs[anchorIndex..]
  }

  /**
   * Manifest `[A, C]`, release `[A, B, C]`: with anchor A at index 0 the
   * splice as written gives `[B, A, C]`, the corrected step `[A, B, C]`.
   */
  lemma SpliceLandsBeforeAnchor()
    ensures InsertAtAnchorAsWritten([AlignProofs.Dir("A"), AlignProofs.Dir("C")], 0, AlignProofs.Dir("B"))
      == [AlignProofs.Dir("B"), AlignProofs.Dir("A"), AlignProofs.Dir("C")]
    ensures Step([AlignProofs.Dir("A"), AlignProofs.Dir("C")], [AlignProofs.Pkg("A"), AlignProofs.Pkg("B"), AlignProofs.Pkg("C")], 1)
      == [AlignProofs.Dir("A"), AlignProofs.Dir("B"), AlignProofs.Dir("C")]
  {
    var dirs := [AlignProofs.Dir("A"), AlignProofs.Dir("C")];
    var pkgs := [AlignProofs.Pkg("A"), AlignProofs.Pkg("B"), AlignProofs.Pkg("C")];
    assert FindIndex(dirs, "A") == 0;
    assert FindIndex(dirs, "B") == -1;
    AlignProofs.StepInsertsAfterAnchor(dirs, pkgs, 1, 0);
  }
}
