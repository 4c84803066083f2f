# CRAN dependency resolver, modelled in Dafny

This project models the dependency resolver of the shiny package updater
(`app.py:130-249`), together with the manifest it feeds (`app.py:70-92`). The
resolver takes a CRAN `PACKAGES` index and a list of requested packages. It
returns one record per package reached, depth first. Each record carries the
package's source, its repository and a descriptor built from the package's
block of the index.

The model is split into one module per piece of the source:

- `Text` (text.dfy) holds the Python string operations the code relies on,
  over `string`:
  - `str.isspace`, which is also the regex class `\s`;
  - `startswith`, `strip`, `replace`, `split(",")` and `split(": ", 1)[1]`.
- `PackageIndex` (index.dfy) models `get_package_lines`. The index is the
  sequence of its lines. The block of `pkg` starts at the first line beginning
  with `"Package: " + pkg`. Because that is a prefix test, the block of `foo`
  can be the block of `foobar`. The block runs up to and including the first
  blank or whitespace-only line.
- `Descriptors` (descriptor.dfy) models the line state machine of
  `get_package`:
  - The descriptor is a map from a `Key` datatype (one constructor per
    dictionary key the source uses) to the field's text.
  - The pending multi-value field (`last_key`/`last_value`) is an explicit
    `Pending` state.
  - A field still pending when the block ends is dropped, as in the source.
  - The loop body of `BuildDescriptor` is the method `ScanLine`: the
    continuation test, then `TestLine`, the seven header tests in source order.
- `DependencyNames` (dependencies.dfy) models `get_dependencies` and
  `get_package_name`.
  - The pattern `\s*([^ \(]+).*\s*`, matched at the start of the token, is
    modelled with its backtracking. The trailing `.*\s*` always matches and
    does not shorten the greedy group. The greedy `\s*` hands back whitespace
    when that lets the group match, so in `"\t("` the tab itself is the name.
  - A token the pattern cannot match yields the name `""`. That name is then
    resolved like any other name.
- `Resolver` (resolver.dfy) models `get_package` and `get_packages`. The source
  shares one mutable list `so_far` across the whole walk. Here it is threaded as
  a value: each call takes it and returns it, extended.
  - `Resolve` and `ResolveList` are the reference definition of the walk.
  - The method `GetPackage` builds the descriptor and the dependency list.
    Its loop over the dependencies is the method `VisitDeps`, which calls
    `GetPackage` for each new name. The two methods are proved equal to
    `Resolve` and `ResolveList`.
  - Termination uses a finite pool of candidate names: every dependency name
    any block of the index can produce, plus the requested names. Each visit
    adds a pool name that `so_far` did not yet contain.
- `Manifests` (manifest.dfy) models the packages map built from the records.
  When a key repeats, the last record wins. The other manifest fields are
  constants.

The first requested package is never added to `so_far` (`app.py:167`). So when
it is reached again, it is resolved a second time, unless it is a base R
package: base R names are in `so_far` from the start (`app.py:145-161`) and are
never resolved. The result then holds two records with its key, so it is not
free of duplicate keys, although `so_far` is meant to resolve each package
once. `Resolver.FirstPackageRevisited` states when the duplicate occurs, and
`Resolver.PackagesFacts` proves distinct keys only for the records after the
first.

## Model

| member | source | states |
|---|---|---|
| Text.Strip | app.py:140 | `strip()` removes exactly the leading and trailing whitespace: the result is empty iff the line is blank, it neither starts nor ends with whitespace, and it sits in the input with only whitespace on either side |
| Text.JoinSplit | app.py:227 | joining the pieces of `split(sep)` with `sep` gives back the string |
| Text.SplitJoin | app.py:227 | splitting a join of separator-free pieces gives back the pieces |
| Text.Replace | app.py:226 | `replace` keeps the length, puts `to` wherever `from` was and keeps every other character |
| Text.Split | app.py:227 | `split(sep)` always gives at least one piece and no piece holds the separator; `JoinSplit` and `SplitJoin` state the round trips |
| Text.AfterSeparator | app.py:187 | the result is a suffix of the line; `HeaderValue` states that on a header line it is the text after `key + ": "` |
| Text.HeaderValue | app.py:187 | on a line starting with `key + ": "`, the value is the rest of the line after that header |
| PackageIndex.Block | app.py:130-142 | the block is a contiguous run of the index that starts at the first line with the package header; it is empty iff no line has that header; only its last line can be blank, and that line is blank unless the block reaches the end of the index |
| PackageIndex.GetPackageLines | app.py:130-142 | the scan with the `in_block` flag and the early `break` returns exactly `Block` |
| PackageIndex.BlockAt | app.py:138-141 | from its opening line, a block runs to and includes the first blank line, or to the end of the index |
| PackageIndex.BlockStart | app.py:136 | the block opens at the first line with the package header, and no earlier line has it |
| Descriptors.Describe | app.py:170-203 | every descriptor has `Package` = pkg and `Type` = "package", and no keys besides those and the seven fields |
| Descriptors.BuildDescriptor | app.py:170-203 | the loop over the block's lines, with `last_key`/`last_value`, builds exactly `Describe` |
| Descriptors.ScanLine | app.py:178-203 | one line of the block changes `desc`, `last_key` and `last_value` exactly as one step of the scan `Describe` runs |
| Descriptors.TestLine | app.py:186-203 | the seven header tests, in source order, change the state exactly as testing the fields of `Fields` one after the other |
| Descriptors.RunWellFormed | app.py:170-203 | every state of the scan keeps `Package`, `Type` and the key set, and only a multi-value field is ever pending |
| Descriptors.SingleField | app.py:186-189 | `Version`, `License` and `NeedsCompilation` are present iff some block line starts with their header, and then hold the text after the header on the last such line |
| Descriptors.MultiFieldCommitted | app.py:178-201 | a multi-value field is stored as its header remainder followed by each continuation line, stripped and joined with newlines, once a line not starting with a space follows, and it keeps that value unless its header reappears |
| Descriptors.MultiFieldDropped | app.py:178-203 | a multi-value field still pending at the end of the block is never stored |
| Descriptors.MultiFieldAbsent | app.py:190-201 | a multi-value field whose header starts no line is absent |
| Descriptors.RunContinuations | app.py:179-180 | continuation lines append their stripped text, each after a newline, to the pending value |
| Descriptors.StepOpens | app.py:181-201 | a multi-value header stores the previous pending field and opens its own with the text after the header |
| Descriptors.DescribeRenames | app.py:170-174 | the package name only sets `Package`: the same block gives the same descriptor under any name |
| DependencyNames.GetPackageName | app.py:243-249 | see `PackageNameMatch`, `NameAfterSpaces` and `TabBeforeParenthesis`, which carry its contract |
| DependencyNames.PackageNameMatch | app.py:243-249 | the name holds no space or `(`; it is empty iff the pattern can put its group nowhere; otherwise it is the maximal run of name characters at the last position the anchored `\s*` can hand over |
| DependencyNames.NameAfterSpaces | app.py:243-249 | for a token of whitespace, then a run of name characters not starting with whitespace, then a non-name character or the end, the name is that run |
| DependencyNames.TabBeforeParenthesis | app.py:245-246 | the pattern's backtracking makes the tab of `"\t("` the name |
| DependencyNames.Dependencies | app.py:223-241 | see `DependenciesInOrder`, `FieldTokensSplit`, `SuggestsIgnored`, `NoDependencyFields`, `NamesAreBare` and `ThreeDependencies`, which carry its contract |
| DependencyNames.GetDependencies | app.py:223-241 | the three field tests and the name loop return exactly `Dependencies` |
| DependencyNames.PackageNames | app.py:235-240 | the loop over the tokens returns one name per token, in order |
| DependencyNames.FieldTokensSplit | app.py:225-233 | the tokens of a field joined with commas give back its value with newlines turned into spaces, and no token holds a comma |
| DependencyNames.DependenciesInOrder | app.py:224-233 | the names are those of `Depends`, then `Imports`, then `LinkingTo`, token by token |
| DependencyNames.SuggestsIgnored | app.py:223-233 | setting or removing `Suggests` does not change the dependencies |
| DependencyNames.NoDependencyFields | app.py:223-241 | a descriptor with none of the three fields has no dependencies |
| DependencyNames.NamesAreBare | app.py:226-227 | no dependency name holds a space, `(`, a comma or a newline |
| DependencyNames.ThreeDependencies | app.py:223-249 | a `Depends` value `a, b (version), c`, with no `Imports` or `LinkingTo`, gives exactly `[a, b, c]`; the example `"A, B (>= 1.0), C"` is one instance |
| Resolver.Resolve | app.py:169-221 | a call of `get_package` only appends to `so_far` |
| Resolver.ResolveList | app.py:217-220 | the loop over the dependencies only appends to `so_far` |
| Resolver.ResolveFacts | app.py:205-221 | the first record is the one for `pkg`; each record after it has a key that was new when it was appended to `so_far`, in the order of appending; every record is the one built for its key; every name of the dependencies and `more_deps`, and every dependency of every record, is in the final `so_far`; and each appended name is in `more_deps` or a dependency of a record |
| Resolver.ResolveListFacts | app.py:217-220 | the same facts for the loop over a dependency list |
| Resolver.GetPackage | app.py:169-221 | the descriptor, the dependency list and the loop return exactly the records and the `so_far` of `Resolve` |
| Resolver.VisitDeps | app.py:217-220 | the loop that skips names already in `so_far`, appends the others and recurses returns exactly the records and the `so_far` of `ResolveList` |
| Resolver.Packages | app.py:144-167 | see `PackagesFacts` and `FirstPackageRevisited`, which carry its contract |
| Resolver.GetPackages | app.py:144-167 | the head/tail split, started from the base R list, returns exactly `Packages` |
| Resolver.PackagesFacts | app.py:144-167 | the result is empty iff no package is requested; the first record is the first package's; every record is the one built for its key; the records after the first have distinct keys, none of them base R; every other requested package and every dependency of every record is base R or one of those keys; and each such key is requested or a dependency of a record |
| Resolver.FreshKeys | app.py:217-220 | the keys appended to `so_far` are distinct and were not in it before, and the final `so_far` is the initial one followed by them |
| Resolver.FirstPackageRevisited | app.py:164-167 | a first package that is not base R, and that is among the other requested packages or its own dependencies, gets a second record |
| Resolver.MissingPackage | app.py:170-175 | a package with no block gets only `Package` and `Type`, and has no dependencies |
| Resolver.DepsInPool | app.py:217-220 | every dependency name of a package is in the finite pool that bounds the walk |
| Manifests.PackagesMap | app.py:71 | the map has a key iff some record has it |
| Manifests.LastRecordWins | app.py:71 | the entry of a key is the value of its last record |
| Manifests.DistinctKeysSize | app.py:71 | records with distinct keys give one entry per record |
| Manifests.FaithfulMap | app.py:71 | when every record is the one built for its key, so is every entry |
| Manifests.ManifestOf | app.py:70-92 | see `ManifestPackages`, which carries its contract |
| Manifests.ManifestPackages | app.py:70-92 | the manifest lists every package the app requests and every package the walk reached, nothing else, and each entry is the record built for its key |

## Left out

- `content.splitlines()` (app.py:131) is not modelled: the index is given as its sequence of lines.
- `read_packages` (app.py:122-128) is left out: it is an HTTP download and gzip decompression.
- `update_manifest` is left out: it is GitHub API I/O.
- The Shiny UI and the server reactives (app.py:11-120) are left out, except the manifest literal at app.py:70-92. This includes the button-click tab switching and the Python package listing.
- `json.dumps` (app.py:95) is left out. The manifest is a value, and dictionary key order is not modelled.
- The debug flag and debug prints (app.py:213-216, 237-238) are left out: they do not change any result.
- Python's recursion limit is not modelled: `get_package` recurses once per newly visited name (app.py:220), so a dependency chain deeper than about 1000 raises `RecursionError` in the source, while the model has no depth bound.
- The aliasing of the shared `so_far` list is not modelled: it is threaded through the calls as a value that each call returns.
- Text.AfterSeparator: a line without `": "` gives `""`, where Python raises `IndexError`. The resolver only asks this of lines that start with a field header, which always contain the separator.
- Descriptors.Continue: the text the source builds in `last_value` while no field is pending (`"None\n..."`) is not kept. It is never stored, so it cannot be observed.
- DependencyNames.ThreeDependencies: the `"A, B (>= 1.0), C"` example is proved for any bare names and version text, rather than for that literal string.
