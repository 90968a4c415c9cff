# sfpowerscripts `repo:align` and `pool:seed:roles`, modelled in Dafny

`repo:align` resets a target branch to the package versions of one or more
release definitions. Its only real logic is how it rewrites the manifest, the
`packageDirectories` list of `sfdx-project.json`. It processes every package
of every release, in the order the artifacts of the release are found:

- If the manifest already has an entry with the package's name, that entry
  is replaced in place by the artifact's descriptor, with `default` deleted.
- Otherwise the descriptor is inserted next to an anchor. The anchor is the
  nearest earlier package of the same release, in that order, that is
  already in the manifest. With no anchor, the descriptor goes to the head.

A release without artifacts stops the run with an error that names its
artifact directory. The command also has three string helpers: the git tag
of a package version, the artifact directory of a release name, and the
parser of the `--scope` flag.

`pool:seed:roles` counts the pool's scratch orgs by exact status. Its method
`logTagCount` builds a histogram of their tags; the command as written does
not call it.

Layout:

- `manifest.dfy` (`Manifest`): descriptors, the index lookup, the in-place
  map, and the filter of untouched entries.
- `align.dfy` (`Align`): the manifest update as functions (`Step`,
  `ApplyRelease`, `AlignReleases`), and the class `ProjectConfig`, whose
  methods perform the update in place and are proved equal to those
  functions.
- `align_lemmas.dfy` (`AlignProofs`): what the update guarantees.
- `align_text.dfy` (`AlignText`): the string helpers.
- `as_written.dfy` (`AsWritten`): each defect of the update as the code
  reads it, with the other defects fixed, for the findings below. As the
  code reads, `packageIndex` at align.ts:244 is also a `find` result, an
  entry or `undefined`, so the test `packageIndex >= 0` at align.ts:248 never
  holds either; that, and the lag of the `idx` counter, are not modelled
  there.
- `pool.dfy` (`PoolCounts`): the status counts and the tag histogram.

The corrected update differs from the code in four places:

- The lookup answers -1 for an absent name.
- The anchor scan stops at -1.
- The scan starts at the release position just before the package.
- The new descriptor goes right after its anchor. The code puts it in
  front of the anchor. Placing it after is this model's choice: the anchor
  is the nearest package before it in the release, so the manifest then
  keeps the release's order for the two.

Every package handled earlier in a release is in the manifest by the time
a later one is handled. So a new package always goes right after the
previous package of its release, and only the first package of a release
can go to the head (`AlignProofs.AnchorIsPrevious`).

The first, second and fourth are listed under Findings. Insertions keep the
artifact's `default` flag, as the code does. The next run then deletes the
flag, so idempotence holds only when the packages new to the manifest have
descriptors without `default`.

## Model

| member | source | states |
|---|---|---|
| Manifest.FindIndex | packages/sfpowerscripts-cli/src/commands/sfpowerscripts/repo/align.ts:299-301 | the lookup answers -1 or the index of an entry carrying the name |
| Manifest.FindIndexFirst | packages/sfpowerscripts-cli/src/commands/sfpowerscripts/repo/align.ts:299-301 | the answer is the first entry of that name, and -1 only when no entry has it |
| Manifest.ReplaceNamedAt | packages/sfpowerscripts-cli/src/commands/sfpowerscripts/repo/align.ts:222-231 | the map keeps the length; every entry of the name becomes the descriptor, every other entry stays |
| Manifest.ReplaceNamedNoop | packages/sfpowerscripts-cli/src/commands/sfpowerscripts/repo/align.ts:222-231 | mapping entries that already equal the descriptor changes nothing |
| Align.NearestPresent | packages/sfpowerscripts-cli/src/commands/sfpowerscripts/repo/align.ts:244-254 | the anchor found lies before the package and is in the manifest |
| Align.NearestPresentNearest | packages/sfpowerscripts-cli/src/commands/sfpowerscripts/repo/align.ts:234-256 | no release package between the anchor and the package is in the manifest; -1 exactly when no earlier one is |
| Align.InsertionPoint | packages/sfpowerscripts-cli/src/commands/sfpowerscripts/repo/align.ts:236-253 | the position is within the manifest, is 0 exactly without an anchor, and otherwise follows the anchor's entry |
| Align.ProjectConfig.constructor | packages/sfpowerscripts-cli/src/commands/sfpowerscripts/repo/align.ts:167 | the loaded configuration holds the given manifest |
| Align.ProjectConfig.PackageIndex | packages/sfpowerscripts-cli/src/commands/sfpowerscripts/repo/align.ts:299-301 | the linear search answers the lookup: the first index of the name, or -1 |
| Align.ProjectConfig.FindAnchor | packages/sfpowerscripts-cli/src/commands/sfpowerscripts/repo/align.ts:234-256 | the backward scan terminates, and one past its answer is the insertion point of the package |
| Align.ProjectConfig.OverwritePackage | packages/sfpowerscripts-cli/src/commands/sfpowerscripts/repo/align.ts:219-257 | the manifest after one package is the step function applied to the old one |
| Align.ProjectConfig.OverwriteRelease | packages/sfpowerscripts-cli/src/commands/sfpowerscripts/repo/align.ts:185-283 | the manifest after a release is the release function applied to the old one |
| Align.ProjectConfig.OverwriteModules | packages/sfpowerscripts-cli/src/commands/sfpowerscripts/repo/align.ts:165-288 | manifest and outcome after all releases agree with the whole-run function, stopping at a release without artifacts |
| AlignProofs.StepReplacesInPlace | packages/sfpowerscripts-cli/src/commands/sfpowerscripts/repo/align.ts:220-231 | a present package keeps length and order; only its entry becomes the descriptor without `default` |
| AlignProofs.StepInsertsOne | packages/sfpowerscripts-cli/src/commands/sfpowerscripts/repo/align.ts:232-256 | an absent package adds exactly one entry, its descriptor; removing it gives back the old manifest in order |
| AlignProofs.StepInsertsAtHead | packages/sfpowerscripts-cli/src/commands/sfpowerscripts/repo/align.ts:236-242 | with no earlier release package in the manifest the descriptor goes to index 0 |
| AlignProofs.StepInsertsAfterAnchor | packages/sfpowerscripts-cli/src/commands/sfpowerscripts/repo/align.ts:243-253 | with nearest present predecessor `a`, the descriptor is spliced in right after `a`'s entry |
| AlignProofs.StepKeepsUnique | packages/sfpowerscripts-cli/src/commands/sfpowerscripts/repo/align.ts:220-256 | a step keeps manifest names unique, since it inserts only when the lookup reports absence |
| AlignProofs.StepKeepsPresent | packages/sfpowerscripts-cli/src/commands/sfpowerscripts/repo/align.ts:220-256 | a step loses no name and adds the package's own |
| AlignProofs.StepKeepsUntouched | packages/sfpowerscripts-cli/src/commands/sfpowerscripts/repo/align.ts:220-256 | entries of other names keep their relative order through a step |
| AlignProofs.StepKeepsAligned | packages/sfpowerscripts-cli/src/commands/sfpowerscripts/repo/align.ts:220-256 | an entry of another package that was aligned stays aligned: present, and every entry of its name is its descriptor without `default` |
| AlignProofs.StepAlignsOwn | packages/sfpowerscripts-cli/src/commands/sfpowerscripts/repo/align.ts:220-256 | after a step, the package is present and every entry of it is its descriptor without `default`, when it was present before or its descriptor has no `default` |
| AlignProofs.StepOnAligned | packages/sfpowerscripts-cli/src/commands/sfpowerscripts/repo/align.ts:220-231 | a step on a package that is present and whose entries already are its descriptor without `default` changes nothing |
| AlignProofs.ApplyKeepsUnique | packages/sfpowerscripts-cli/src/commands/sfpowerscripts/repo/align.ts:186-283 | a release keeps manifest names unique |
| AlignProofs.ApplyKeepsPresent | packages/sfpowerscripts-cli/src/commands/sfpowerscripts/repo/align.ts:186-283 | a release removes no name from the manifest |
| AlignProofs.ApplyIncludesRelease | packages/sfpowerscripts-cli/src/commands/sfpowerscripts/repo/align.ts:186-283 | after a release every one of its packages is in the manifest |
| AlignProofs.AnchorIsPrevious | packages/sfpowerscripts-cli/src/commands/sfpowerscripts/repo/align.ts:234-256 | within a release, the nearest present predecessor of any package but the first is the package just before it |
| AlignProofs.ApplyKeepsUntouched | packages/sfpowerscripts-cli/src/commands/sfpowerscripts/repo/align.ts:186-283 | entries the release does not name keep their relative order |
| AlignProofs.ApplyAligns | packages/sfpowerscripts-cli/src/commands/sfpowerscripts/repo/align.ts:186-283 | after a release, a package of it that was in the manifest before, or whose descriptor has no `default`, is present and every entry of its name is its descriptor without `default` |
| AlignProofs.AlignedIsFixpoint | packages/sfpowerscripts-cli/src/commands/sfpowerscripts/repo/align.ts:186-283 | a manifest already aligned with a release is unchanged by it |
| AlignProofs.AlignIdempotent | packages/sfpowerscripts-cli/src/commands/sfpowerscripts/repo/align.ts:186-283 | running a release twice gives the same manifest as once, when the release names each package once and its packages new to the manifest have no `default` |
| AlignProofs.AlignReleasesOutcome | packages/sfpowerscripts-cli/src/commands/sfpowerscripts/repo/align.ts:168-176 | the run succeeds iff every release has artifacts; otherwise it reports the first empty release's directory |
| AlignProofs.AlignReleasesKeepsUnique | packages/sfpowerscripts-cli/src/commands/sfpowerscripts/repo/align.ts:168-285 | the whole run keeps manifest names unique |
| AlignProofs.AlignReleasesKeepsUntouched | packages/sfpowerscripts-cli/src/commands/sfpowerscripts/repo/align.ts:168-285 | packages no release names keep their relative order through the run |
| AlignProofs.AnchorAfterPredecessor | packages/sfpowerscripts-cli/src/commands/sfpowerscripts/repo/align.ts:232-256 | manifest `[A, C]` with release `[A, B, C]` becomes `[A, B, C]` |
| AlignProofs.HeadThenAnchor | packages/sfpowerscripts-cli/src/commands/sfpowerscripts/repo/align.ts:236-253 | an empty manifest with release `[X, Y]` becomes `[X, Y]` |
| AlignProofs.DefaultFlagBreaksIdempotence | packages/sfpowerscripts-cli/src/commands/sfpowerscripts/repo/align.ts:225-242 | an inserted descriptor keeps `default`, and a second run deletes it |
| AlignText.ReplaceFirst | packages/sfpowerscripts-cli/src/commands/sfpowerscripts/repo/align.ts:136 | a string-pattern `replace` changes only the first occurrence and keeps the length |
| AlignText.Tag | packages/sfpowerscripts-cli/src/commands/sfpowerscripts/repo/align.ts:135-139 | the tag is the name, `_v`, then the version with only its first `-` turned into `.` |
| AlignText.TagOfVersion | packages/sfpowerscripts-cli/src/commands/sfpowerscripts/repo/align.ts:135-138 | `Tag(n, h)` is `n + "_v" + h`, and `Tag(n, h + "-" + t)` is `n + "_v" + h + "." + t`, for `h` without `-` |
| AlignText.SanitizeReleaseName | packages/sfpowerscripts-cli/src/commands/sfpowerscripts/repo/align.ts:171 | same length; each character of the path-forbidden class (slash, backslash, `?`, `%`, `*`, colon, bar, double quote, `<`, `>`) becomes `-`, every other character stays |
| AlignText.ArtifactDirectory | packages/sfpowerscripts-cli/src/commands/sfpowerscripts/repo/align.ts:169-172 | the directory is `artifacts/` followed by the release name, character by character, with each forbidden character turned into `-`; that segment holds no forbidden character |
| AlignText.SanitizeIdempotent | packages/sfpowerscripts-cli/src/commands/sfpowerscripts/repo/align.ts:171 | sanitising twice equals sanitising once |
| AlignText.NormaliseScope | packages/sfpowerscripts-cli/src/commands/sfpowerscripts/repo/align.ts:59 | the result has no `@` and no upper-case letter, and is shorter by exactly the number of `@` |
| AlignText.NormaliseScopeFixes | packages/sfpowerscripts-cli/src/commands/sfpowerscripts/repo/align.ts:59 | a scope without `@` and upper case is left unchanged |
| AlignText.NormaliseScopeChar | packages/sfpowerscripts-cli/src/commands/sfpowerscripts/repo/align.ts:59 | a lone `@` is dropped; any other character is kept, lower-cased |
| AlignText.NormaliseScopeAppend | packages/sfpowerscripts-cli/src/commands/sfpowerscripts/repo/align.ts:59 | the parse of a concatenation is the concatenation of the parses, so characters keep their order |
| AlignText.NormaliseScopeExample | packages/sfpowerscripts-cli/src/commands/sfpowerscripts/repo/align.ts:59 | the scope `@Ab` parses to `ab` |
| AlignText.NormaliseScopeIdempotent | packages/sfpowerscripts-cli/src/commands/sfpowerscripts/repo/align.ts:59 | parsing a parsed scope changes nothing |
| AsWritten.FindAsWritten | packages/sfpowerscripts-cli/src/commands/sfpowerscripts/repo/align.ts:299-301 | `find` yields the first entry of the name or `undefined`, never a number |
| AsWritten.NewPackageIsDropped | packages/sfpowerscripts-cli/src/commands/sfpowerscripts/repo/align.ts:220-232 | as written, a package absent from the manifest leaves it unchanged, while the corrected step adds one entry |
| AsWritten.ScanNeverEnds | packages/sfpowerscripts-cli/src/commands/sfpowerscripts/repo/align.ts:234-256 | as written, after n passes of the scan the descriptor has been prepended n times and the loop is still running |
| AsWritten.InsertAtAnchorAsWritten | packages/sfpowerscripts-cli/src/commands/sfpowerscripts/repo/align.ts:249-253 | splicing at the anchor's index puts the descriptor at that index and the anchor right after it |
| AsWritten.SpliceLandsBeforeAnchor | packages/sfpowerscripts-cli/src/commands/sfpowerscripts/repo/align.ts:249-253 | manifest `[A, C]`, anchor A: as written `[B, A, C]`, corrected `[A, B, C]` |
| PoolCounts.WithStatus | packages/sfp-cli/src/commands/pool/seed/roles.ts:62-64 | the filter keeps exactly the orgs with that exact status, each as often as in the input; its length is the count of that status |
| PoolCounts.Summarise | packages/sfp-cli/src/commands/pool/seed/roles.ts:108-112 | `inuse`, `unused` and `inprovision` are the counts of the three statuses, `total` is their sum and at most the number of orgs |
| PoolCounts.ThreeCountsBounded | packages/sfp-cli/src/commands/pool/seed/roles.ts:109 | three distinct statuses together occur at most as often as there are orgs |
| PoolCounts.CountsOfAppend | packages/sfp-cli/src/commands/pool/seed/roles.ts:125 | the callback's update of `obj[v.tag]` turns the counts of the tags seen into those with one more tag |
| PoolCounts.TallySeen | packages/sfp-cli/src/commands/pool/seed/roles.ts:124-127 | the `reduce` callback on a known tag keeps the accumulator equal to the counts of the tags seen |
| PoolCounts.TallyNew | packages/sfp-cli/src/commands/pool/seed/roles.ts:124-127 | the `reduce` callback on a new tag adds its key once, after the others, and keeps the counts exact |
| PoolCounts.CountTags | packages/sfp-cli/src/commands/pool/seed/roles.ts:124-127 | the accumulator maps each tag to the number of orgs carrying it, its keys listed once each, and the counts sum to the number of orgs |
| PoolCounts.Rows | packages/sfp-cli/src/commands/pool/seed/roles.ts:129-136 | one row per key, in key order, carrying the key and its count |
| PoolCounts.RowsOfTally | packages/sfp-cli/src/commands/pool/seed/roles.ts:124-136 | the rows carry each distinct tag once, each with how often it occurs (at least 1), and their counts add up to the number of orgs |
| PoolCounts.LogTagCount | packages/sfp-cli/src/commands/pool/seed/roles.ts:123-136 | each row's count is the number of orgs with its tag and at least 1; the tags are exactly the orgs' tags, none twice; counts sum to the number of orgs |

## Left out

- Git plumbing is not modelled: the temporary repository, branch creation, commits with their swallowed errors, and the force push (align.ts:108-109, 130-132, 268-275, 287). It is process and remote I/O.
- File-system effects are not modelled: `removeSync`, `mkdirpSync`, `copySync` and `writeJSONSync` (align.ts:196, 205-211, 259-265). The descriptor lookup at align.ts:190-196 is left out too, because it only chooses which directory to delete. The fallback lookup in its `catch` (align.ts:197-202) discards its result; when the leading artifact's configuration lacks the package as well, it fails like the first lookup and that error ends the run. This error exit is not modelled.
- Artifact fetching, package building and release-definition loading are not modelled (align.ts:141-163, 174, 179-183, 290-297). The packages found for a release are an input of the model.
- Flag definitions, messages, logging and the `ux.table` output (roles.ts:138) are not modelled.
- Hub authentication and the pool query (roles.ts:54-60) are not modelled. The org list is an input.
- The unused metadata branch and the `'yoo'` return (roles.ts:97-116) are not modelled. `Summarise` returns the counts of the output object, without `scratchOrgDetails`.
- `activate.ts` and `build.ts` are not part of this model. They only wrap calls into code that is not shown.
- Align.Release: `packages` is the listing order of the artifact fetcher (align.ts:174, 290-296), taken as given. The fetcher is given only the artifact directory, never the release definition, so the anchor is the nearest earlier package in that sequence; it is the definition's declared order only if the fetcher keeps it.
- PoolCounts.LogTagCount: the command as written never builds the histogram, because its only call (roles.ts:73) sits in a commented-out block (roles.ts:66-93). The model covers the method itself.
- Align.ProjectConfig.FindAnchor: the scan starts at the release position just before the package. The code starts it from its `idx` counter (align.ts:234, 282), which begins at the package's own position. After each insertion, `idx--` followed by `idx++` leaves the counter behind the loop position.
- Align.ProjectConfig.OverwritePackage: manifest entries are values. The code deletes `default` from the artifact's own descriptor object and puts that one object into every matching slot; this aliasing is not modelled.
- AlignProofs.AlignIdempotent: the contract needs the release's packages that are new to the manifest to have no `default`, because an inserted descriptor keeps its flag and the next run deletes it (`AlignProofs.DefaultFlagBreaksIdempotence`). It also needs a release that names each package once.
- Align.Named: the lemmas assume that each package's descriptor names the package itself (`descriptor.package == packageName`). The code looks entries up by `packageName` (align.ts:224, 300) but stores `packageDescriptor`, and nothing in it checks that the two agree; a package whose descriptor named another package would make the stored entry invisible to the next lookup.
- Manifest.Descriptor: `package` is a string, so a manifest entry without a `package` key is not represented. In the code such an entry compares unequal to every name (`undefined == name` is false at align.ts:224 and 300), as an entry with a name unlike every package would here.
- AlignText.NormaliseScope: lower-cases ASCII letters only. JavaScript's `toLowerCase` also maps non-ASCII letters.
- AlignText.ArtifactDirectory: joins with `/`. It does not model how `path.join` normalises a release name of `""`, `.` or `..`, or the Windows separator.
- PoolCounts.LogTagCount: keys are listed in order of first occurrence. JavaScript's `Object.keys` lists integer-like keys first, in ascending order.
- PoolCounts.LogTagCount: tags are strings. An `undefined` tag, which JavaScript would count under the key `"undefined"`, is not modelled. Nor are tags that clash with `Object.prototype` members (`constructor`, `__proto__`), where `obj[tag] || 0` does not start from 0.

## Findings

| source | as written | input that shows it | evidently intended | confidence | as-written member | corrected member |
|---|---|---|---|---|---|---|
| packages/sfpowerscripts-cli/src/commands/sfpowerscripts/repo/align.ts:299-301 | `getPackageIndex` uses `find`, which yields an entry or `undefined`, so `packageIndex != -1` at line 221 always holds and the insertion branch never runs | manifest `[]`, release `[X]`: the map matches nothing and X is never added | an index lookup answering -1 for an absent name, so that new packages are inserted | high; not executed | AsWritten.NewPackageIsDropped | Align.ProjectConfig.PackageIndex |
| packages/sfpowerscripts-cli/src/commands/sfpowerscripts/repo/align.ts:235-256 | `if ((currentIdx = -1))` assigns and is truthy, and no branch leaves `while (true)`: every pass prepends the descriptor again | any package absent from the manifest once the lookup is fixed: the manifest grows by one entry per pass, forever | compare with -1 and stop the scan once it passes the head or finds an anchor | high; not executed | AsWritten.ScanNeverEnds | Align.ProjectConfig.FindAnchor |
| packages/sfpowerscripts-cli/src/commands/sfpowerscripts/repo/align.ts:249-253 | `splice(packageIndex, 0, d)` at the anchor's own index puts the new descriptor in front of its anchor | once the lookup and the scan are fixed, manifest `[A, C]`, release `[A, B, C]`: `[B, A, C]` | the descriptor right after its anchor: `[A, B, C]` | medium; not executed | AsWritten.SpliceLandsBeforeAnchor | AlignProofs.StepInsertsAfterAnchor |
