/**
 * The string helpers of the align command: the git tag for a package version,
 * the artifact directory for a release name, and the `--scope` flag parser.
 */
module AlignText {

  /** `s.replace(c, d)` with a one-character string pattern: only the first `c` becomes `d`. */
  function ReplaceFirst(s: string, c: char, d: char): (r: string)
    ensures |r| == |s|
    ensures forall k :: 0 <= k < |s| ==> r[k] == if s[k] == c && c !in s[..k] then d else s[k]
  {
    if s == [] then []
    else if s[0] == c then [d] + s[1..]
    else
      var rest := ReplaceFirst(s[1..], c, d);
      assert forall k :: 1 <= k < |s| ==> s[..k] == [s[0]] + s[1..][..k - 1];
      [s[0]] + rest
  }

  /** `getTag`: the package name, `_v`, and the version with its first `-` turned into `.`. */
  function Tag(packageName: string, packageVersionNumber: string): (tag: string)
    ensures |tag| == |packageName| + 2 + |packageVersionNumber|
    ensures tag[..|packageName|] == packageName
    ensures tag[|packageName|..|packageName| + 2] == "_v"
    ensures forall k :: 0 <= k < |packageVersionNumber| ==>
      tag[|packageName| + 2 + k] ==
        if packageVersionNumber[k] == '-' && '-' !in packageVersionNumber[..k] then '.'
        else packageVersionNumber[k]
  {
    packageName + "_v" + ReplaceFirst(packageVersionNumber, '-', '.')
  }

  /** The characters the release-name regular expression `[/\\?%*:|"<>]` matches. */
  const ForbiddenInPath: set<char> := {'/', '\\', '?', '%', '*', ':', '|', '"', '<', '>'}

  /** `release.replace(/[/\\?%*:|"<>]/g, '-')`. */
  function SanitizeReleaseName(release: string): (r: string)
    ensures |r| == |release|
    ensures forall k :: 0 <= k < |release| ==>
      r[k] == if release[k] in ForbiddenInPath then '-' else release[k]
  {
    if release == [] then []
    else [if release[0] in ForbiddenInPath then '-' else release[0]] + SanitizeReleaseName(release[1..])
  }

  /** `path.join('artifacts', <sanitised release>)`: the release becomes one path segment under `artifacts`. */
  function ArtifactDirectory(release: string): (dir: string)
    ensures |dir| == |"artifacts/"| + |release|
    ensures dir[..|"artifacts/"|] == "artifacts/"
    ensures forall k :: |"artifacts/"| <= k < |dir| ==> dir[k] !in ForbiddenInPath
    ensures forall k :: 0 <= k < |release| ==>
      dir[|"artifacts/"| + k] == if release[k] in ForbiddenInPath then '-' else release[k]
  {
    "artifacts/" + SanitizeReleaseName(release)
  }

  /** ASCII lower-casing of one character. */
  function LowerChar(c: char): char
  {
    if 'A' <= c <= 'Z' then (c as int - 'A' as int + 'a' as int) as char else c
  }

  /** `scope.replace(/@/g, '').toLowerCase()`. */
  function NormaliseScope(scope: string): (r: string)
    ensures '@' !in r
    ensures forall k :: 0 <= k < |r| ==> !('A' <= r[k] <= 'Z')
    ensures |r| == |scope| - multiset(scope)['@']
  {
    if scope == [] then []
    else
      assert scope == [scope[0]] + scope[1..];
      (if scope[0] == '@' then [] else [LowerChar(scope[0])]) + NormaliseScope(scope[1..])
  }

  /** The two shapes of a tag: a version without `-`, and one whose first `-` separates `head` from `tail`. */
  lemma {:induction false} TagOfVersion(packageName: string, head: string, tail: string)
    requires '-' !in head
    ensures Tag(packageName, head) == packageName + "_v" + head
    ensures Tag(packageName, head + "-" + tail) == packageName + "_v" + head + "." + tail
  {
    ReplaceFirstAbsent(head, '-', '.');
    ReplaceFirstSplit(head, tail, '-', '.');
  }

  lemma {:induction false} ReplaceFirstAbsent(s: string, c: char, d: char)
    requires c !in s
    ensures ReplaceFirst(s, c, d) == s
  {
    if s != [] {
      ReplaceFirstAbsent(s[1..], c, d);
    }
  }

  lemma {:induction false} ReplaceFirstSplit(head: string, tail: string, c: char, d: char)
    requires c !in head
    ensures ReplaceFirst(head + [c] + tail, c, d) == head + [d] + tail
  {
    if head != [] {
      assert (head + [c] + tail)[1..] == head[1..] + [c] + tail;
      ReplaceFirstSplit(head[1..], tail, c, d);
    }
  }

  /** A sanitised release name is left alone by a second sanitisation. */
  lemma SanitizeIdempotent(release: string)
    ensures SanitizeReleaseName(SanitizeReleaseName(release)) == SanitizeReleaseName(release)
  {
  }

  /** A scope that is already normal is its own normal form. */
  lemma {:induction false} NormaliseScopeFixes(scope: string)
    requires '@' !in scope
    requires forall k :: 0 <= k < |scope| ==> !('A' <= scope[k] <= 'Z')
    ensures NormaliseScope(scope) == scope
  {
    if scope != [] {
      NormaliseScopeFixes(scope[1..]);
    }
  }

  /** One character: `@` is dropped, any other character is kept, lower-cased. */
  lemma NormaliseScopeChar(c: char)
    ensures NormaliseScope([c]) == if c == '@' then [] else [LowerChar(c)]
  {
    assert [c][1..] == [];
  }

  /**
   * The normalisation works character by character and keeps their order:
   * with `NormaliseScopeChar` this determines the result of every scope.
   */
  lemma {:induction false} NormaliseScopeAppend(a: string, b: string)
    ensures NormaliseScope(a + b) == NormaliseScope(a) + NormaliseScope(b)
    decreases |a|
  {
    if a == [] {
      assert a + b == b;
    } else {
      assert (a + b)[0] == a[0];
      assert (a + b)[1..] == a[1..] + b;
      NormaliseScopeAppend(a[1..], b);
    }
  }

  /** A scope as written in a project's configuration. */
  lemma NormaliseScopeExample()
    ensures NormaliseScope("@Ab") == "ab"
  {
    assert "@Ab"[1..] == "Ab";
    assert "Ab"[1..] == "b";
    assert "b"[1..] == "";
    assert NormaliseScope("b") == "b";
    assert NormaliseScope("Ab") == "ab";
  }

  /** Parsing the scope twice gives the same result as parsing it once. */
  lemma NormaliseScopeIdempotent(scope: string)
    ensures NormaliseScope(NormaliseScope(scope)) == NormaliseScope(scope)
  {
    NormaliseScopeFixes(NormaliseScope(scope));
  }
}
