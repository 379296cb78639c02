# konpac package manager: Dafny model of its install, remove and repository core

konpac is a small package manager. A package is a `.kpkg` archive (gzip'd tar). It holds a
`package.yml` manifest (name, version, `depens` queries such as `libfoo>=1.2`) and a `mask`
tree, which is copied onto `/`. Repositories are listed in an INI file. Each one serves a
SQLite index `packages.db` with rows `(name, version, path)`. The installer downloads that
index to `/tmp/<repo>.db` and queries it. It records installed packages in a local
database, and it writes a `package.list` of the installed files, which the remover reads back.

This project models that core in Dafny and proves its properties:

- **Dependencies** (`package/depencies.rs`): parsing a dependency query.
- **RepoUtils** (`repo/utils.rs`):
  - expanding repository URL templates;
  - the URL-scheme check of `fetch_url`;
  - the local index copy, held as a cache map;
  - the four index lookups: latest by SQL text order, greatest at-least-a-version, first
    satisfying an operator, and search.
- **Install** (`package/install.rs`):
  - manifest parsing, over an abstract YAML value;
  - the chunked hashing loop, over a 4096-byte array;
  - `package.list` generation.
  - The class `Install.Machine` models the recursive install procedures. Its state is the
    installed-package database, the index cache, the files on disk and a trace of side effects.
- **Remove** (`package/remove.rs`): the class `Remove.Machine` models `uninstall_package`
  over an abstract file system.
- **RepoGen** (`repo/gen.rs`):
  - file names become index rows;
  - `INSERT OR REPLACE` is an upsert on the `(name, version)` key;
  - the generation loop.
- **Support modules**:
  - `Text`: Rust's `contains`, `split`, `replace` and `trim`, and SQLite's BINARY text order;
  - `Paths`: `PathBuf::push`;
  - `PackageDb`: the installed-package database;
  - `Wrappers`: `Option`, `Result`, and `Exit` (`Done`, `Fail` or a process `Panic`).

## Outside inputs and modelling choices

- The outside world comes in as parameters:
  - the parsed repository config;
  - the host architecture;
  - what each URL serves;
  - the hash function;
  - what extraction of an archive yields;
  - the byte counts `read` returns;
  - the version order.
- `version_compare::Version` is a parameter `parse: string -> Option<real>`: a partial map
  into a total order.
- The SQL comparisons in queries are textual. They are modelled by code-point order (`TextLe`).
- A `panic!`, `unwrap` or `expect` on an error becomes `Panic(cause)`, which ends the process.
  A returned error becomes `Fail(error)`.
- The source imports `add_package`, `check_exist_pkg`, `get_package_dir`, `del_package` and
  `script_executor` from `package/utils.rs`, which shows only their signatures.
  - The four database helpers are modelled by a map from package name to
    `(version, directory)` (`PackageDb`).
  - A hook run is an event in the trace.
- `TMP_PATH` and `DB_PATH` (the `consts` module) are not part of this model.
  - The staging root is a parameter (`Env.tmpRoot`).
  - The database is the machine's `db` field.
- A `Table` is the sequence of rows in the order a query without `ORDER BY` returns them,
  not the order they were stored in. The table's `PRIMARY KEY (name, version)` lets SQLite
  answer `WHERE name = ?1 ...` through that key's index, and so in ascending version text.
  The lookups are proved for every row order. `RepoGen`, which builds the table, works in
  storage order: an upsert appends its row. `RepoUtils.FirstSatisfyingIsLowest` states what
  the index order gives.
- `repo/gen.rs` names the row type `DB_Package_Entry`, and `repo/utils.rs` declares
  `DbPackageEntry`. Both are taken to be the same row type, `RepoUtils.Entry`.

### Where the code and its apparent intent differ

The model follows the code in each case:

- `PackageQuery::parse` does not check the version.
- It picks the operator by list order (`<=`, `>=`, `=`, `<`, `>`), not by position.
- `find_package_by_version` returns the first row the query returns, not the highest. With the
  `(name, version)` index, that is the lowest matching version in text order.
- Version comparisons in SQL are textual: `9.0` is "later" than `10.0`.
- `search_pkg` fetches `url + "packages.db"` (no `/`), unlike the other fetches.
  - It ignores a failed fetch and reads whatever copy is already in `/tmp`.
- A dependency is installed by name (the repository's latest), not as the row that satisfied
  the query. A failed dependency install is skipped.
- `create_package_dir` pushes `name-version` onto the packages root, and `PathBuf::push`
  does not normalise the result. The directory can escape that root in two ways:
  - a name starting with `/` replaces the root;
  - a name with `..` segments, such as `../../etc`, stays under the root as path text but
    resolves outside it.
  The model composes path text only, so it states the first way and not the second.
- The remover trims each `package.list` line. It deletes the database record before it runs
  the `remove` hook.

## Model

| member | source | states |
|---|---|---|
| Dependencies.FindOperator | src/package/depencies.rs:15-18 | the result is the first operator of the list, in list order, that the query contains; `None` exactly when it contains none |
| Dependencies.ChosenOperatorUnique | src/package/depencies.rs:15-18 | the operator `parse` chooses is unique: two operators chosen for one query are equal |
| Dependencies.ParseNoOperator | src/package/depencies.rs:15-19 | `parse` returns `OperatorNotFound` iff the query contains none of the five operators |
| Dependencies.ParseMalformed | src/package/depencies.rs:21-24 | `parse` returns `MalformedQuery` iff the chosen operator occurs at two places in the query |
| Dependencies.ParseSuccess | src/package/depencies.rs:10-38 | a parsed query carries the chosen operator; its name and version are non-empty, trimmed and free of that operator, and they are the trimmed two sides of the operator in the query |
| Dependencies.OperatorsInside | src/package/depencies.rs:12-17 | around one operator, with no operator characters in the name and version, the query contains exactly the operators inside that one |
| Dependencies.FindOperatorSameContains | src/package/depencies.rs:15-17 | the operator chosen depends only on which operators the query contains |
| Dependencies.OperatorPicksItself | src/package/depencies.rs:12-17 | each operator alone is found as itself (`<=` wins over `<` and `=`) |
| Dependencies.RoundTripFinds | src/package/depencies.rs:12-18 | around a name and version with no operator characters, the operator found is the one placed there |
| Dependencies.RoundTripSplits | src/package/depencies.rs:21 | around a name and version with no operator characters, splitting at the operator gives exactly the name and the version |
| Dependencies.ParseAt | src/package/depencies.rs:21-37 | once the operator is found and its first character occurs nowhere else, the result is `EmptyField` iff a trimmed side is empty, and otherwise the two trimmed sides with that operator |
| Dependencies.ParseAround | src/package/depencies.rs:10-38 | around any one of the five operators, with no operator characters on either side, the result is `EmptyField` iff a trimmed side is empty, and otherwise the two trimmed sides with that operator |
| Dependencies.ParseRoundTrip | src/package/depencies.rs:10-38 | a query built from a clean name, an operator and a clean version parses back into exactly those parts |
| Dependencies.ParseDocExample | src/package/depencies.rs:9 | `example>=1.1.1alpha` parses to name `example`, version `1.1.1alpha`, operator `>=` |
| Dependencies.ParseRejectsRepeatedOperator | src/package/depencies.rs:21-24 | any query `a=b=c` (no operator characters in `a`, `b`, `c`) splits into three pieces and is `MalformedQuery` |
| Dependencies.ParseChoosesByListOrder | src/package/depencies.rs:12-18 | in any query `a>b<=c` with a non-blank `c`, the operator is `<=` although `>` comes first, and the name is the trimmed `a>b` |
| Dependencies.ParseRejectsBlankVersion | src/package/depencies.rs:26-32 | a version that is only whitespace is `EmptyField` after trimming |
| Text.Split | src/package/depencies.rs:21 | `str::split`: the pieces joined by the separator give back the text, no piece contains the separator, and there is a single piece iff the separator is absent |
| Text.SplitPieces | src/package/depencies.rs:21-22 | the split has three or more pieces iff the separator occurs at two places |
| Text.Trim | src/package/depencies.rs:26-27 | `str::trim`: the result is a slice with no whitespace at either end, and it is empty iff the text is all whitespace |
| Text.NotBlank | src/package/depencies.rs:26-32 | a text holding a non-whitespace character does not trim to nothing |
| Text.TrimTrimmed | src/package/remove.rs:35 | trimming a text with no whitespace at its ends changes nothing |
| Text.ReplaceAll | src/repo/utils.rs:46-49 | `str::replace`: with no occurrence of the pattern the text is unchanged |
| Text.ReplaceAllPieces | src/repo/utils.rs:46-49 | `str::replace` cuts the text into pieces, none holding the pattern, that the pattern joins back into the text, and joins those same pieces with the replacement |
| Text.ReplaceLeftmost | src/repo/utils.rs:46-49 | with a match, the result is the text before the leftmost match, then the replacement, then the rest replaced in turn: matches are replaced left to right, without overlap |
| Text.FindChar | src/repo/gen.rs:55-56 | the index of the first occurrence of a character, `None` iff it is absent |
| Text.RFindChar | src/repo/gen.rs:45-49 | the index of the last occurrence of a character, `None` iff it is absent |
| Text.TextLeTotal | src/repo/utils.rs:98 | SQLite's BINARY text order is total |
| Text.TextLeTransitive | src/repo/utils.rs:98 | the text order is transitive |
| Text.TextLeAntisymmetric | src/repo/utils.rs:98 | the text order is antisymmetric |
| RepoUtils.GetRepos | src/repo/utils.rs:38-58 | one repository per INI section, in order; a section without a name gets `""`; the URL is the section's `url` (or `""`) with `$repo` and then `$arch` replaced |
| RepoUtils.ExpandUrlWithoutPlaceholders | src/repo/utils.rs:46-49 | a template without `$` is used unchanged |
| RepoUtils.ExpandUrlBoth | src/repo/utils.rs:46-49 | `a$repob$archc` expands to `a` + repo + `b` + arch + `c` when no part holds `$` |
| RepoUtils.ExpandUrlSubstitutesIntoName | src/repo/utils.rs:46-49 | the replacements are sequential: a repository named `$arch` gets the architecture substituted into its own name |
| RepoUtils.FetchUrl | src/repo/utils.rs:64-87 | a URL without a valid scheme is `InvalidUrl`; a scheme other than `http`, `https` or `file` (in any case) is `UnsupportedScheme`; otherwise the transfer decides |
| RepoUtils.UrlSchemeOf | src/repo/utils.rs:66-68 | the scheme is the text before the first `:`, lower-cased |
| RepoUtils.FetchBySchemeCase | src/repo/utils.rs:68-83 | `ftp:` URLs are refused; `HTTPS:` URLs are accepted |
| RepoUtils.FetchIndex | src/repo/utils.rs:157-163 | the outcome is `fetch_url`'s; on success the destination holds what the URL serves; on failure the cache is unchanged; no other local copy changes and only the destination can be added |
| RepoUtils.IndexUrlsDiffer | src/repo/utils.rs:155 | the index URL of `find_package_by_version` differs from that of `search_pkg` |
| RepoUtils.Rows | src/repo/utils.rs:117 | a row is returned iff it is in the table and has the name; there are no more of them than rows in the table |
| RepoUtils.RowsOne | src/repo/utils.rs:117 | a one-row table yields its row iff the row has the name, and nothing otherwise |
| RepoUtils.RowsAppend | src/repo/utils.rs:117 | the rows of two tables in sequence are the rows of the first followed by those of the second: the order in which the query visits rows is kept |
| RepoUtils.LatestByText | src/repo/utils.rs:97-106 | `None` iff no row has the name; otherwise a row with that name whose version is greatest in text order |
| RepoUtils.FindPackage | src/repo/utils.rs:90-107 | `NoPackagesTable` iff there is no local copy; with a copy the result is `Ok` and is `LatestByText` of it |
| RepoUtils.LatestByTextIsNotNumeric | src/repo/utils.rs:98 | between versions `10.0` and `9.0` the query returns `9.0` |
| RepoUtils.ScanKeep | src/repo/utils.rs:125-139 | a row that is not greater than the current best (or is below the minimum) keeps the loop invariant: the best so far is the earliest row of greatest version at least the minimum |
| RepoUtils.ScanReplace | src/repo/utils.rs:129-137 | a row at least the minimum and greater than the current best becomes the new best and keeps the loop invariant |
| RepoUtils.ScanUnparsed | src/repo/utils.rs:126-131 | a row whose version does not parse means not every row parses |
| RepoUtils.ScanDone | src/repo/utils.rs:124-141 | at the end of the loop every row parses; no best iff every row is below the minimum; otherwise the best is the earliest row of greatest version at least the minimum |
| RepoUtils.FindPackageWithVer | src/repo/utils.rs:110-142 | the only errors are the two version-format ones; `InvalidVersionFormat` iff the minimum does not parse; `InvalidDbVersionFormat` iff some row of the name does not; `Ok(None)` iff all rows are below the minimum; otherwise the earliest row of greatest version at least the minimum |
| RepoUtils.FirstSatisfying | src/repo/utils.rs:179-195 | `None` iff no row has the name and satisfies the text comparison; otherwise the first such row |
| RepoUtils.FindPackageByVersion | src/repo/utils.rs:145-196 | a fetch error is returned with the cache unchanged; after a fetch, an operator outside the five is an error; otherwise the first satisfying row of the fetched index |
| RepoUtils.OperatorOfKnowsParserOperators | src/repo/utils.rs:179-185 | the SQL operator match accepts exactly the five operators the query parser knows |
| RepoUtils.ParsedOperatorIsAccepted | src/repo/utils.rs:179-185 | every parsed dependency's operator is accepted by the lookup |
| RepoUtils.FirstSatisfyingIsLowest | src/repo/utils.rs:179-192 | when the rows of the name are visited in ascending version text, as through the `(name, version)` index, the row returned has the lowest version of all satisfying rows |
| RepoUtils.FirstSatisfyingIsNotHighest | src/repo/utils.rs:188-192 | among `1.5.0`, `2.0.0`, `2.3.1`, the query `>= 2.0.0` returns `2.0.0`, not the highest |
| RepoUtils.SearchPkg | src/repo/utils.rs:199-225 | the fetch result is ignored; the only error is `NoPackagesTable`, returned iff no local copy exists, and it comes with the cache as it was; a panic iff the copy has no row of the name; otherwise `LatestByText` of the copy |
| RepoUtils.SearchPkgUsesStaleCopy | src/repo/utils.rs:205-213 | when the fetch fails, the result comes from the copy an earlier fetch left |
| RepoUtils.SearchPkgWithVer | src/repo/utils.rs:228-252 | the fetch updates the cache as `FetchIndex` does; the only errors are `NoPackagesTable` and the two version-format ones; with a copy, `InvalidVersionFormat` iff the minimum does not parse, `InvalidDbVersionFormat` iff it parses and some row of the name does not, and a panic naming the repository iff all rows parse and each is below the minimum; a found row is the earliest of the greatest version at least the minimum |
| Install.StringItems | src/package/install.rs:59-66 | the string elements of an array, in order: a string is kept iff it is an element |
| Install.StringItemsAppend | src/package/install.rs:62-64 | filtering distributes over concatenation |
| Install.ParseManifest | src/package/install.rs:29-74 | read and syntax failures are reported; success iff the first document has string `name` and `version`; then `depens` holds the string items of an array value, or nothing |
| Install.ManifestRoundTrip | src/package/install.rs:43-73 | the YAML of a manifest parses back to that manifest |
| Install.DependsDropsNonStrings | src/package/install.rs:59-66 | non-string entries of `depens` are dropped |
| Install.DependsWhenNotArray | src/package/install.rs:59-66 | a `depens` that is not an array yields no dependencies |
| Install.PackageDirUnderRoot | src/package/install.rs:95-99 | a package whose name is not absolute gets the path text `/var/lib/konpac/packages/name-version`, which starts with the root (as text: `..` segments are not resolved) |
| Install.PackageDirAbsoluteName | src/package/install.rs:97-99 | a name starting with `/` replaces the packages root |
| Install.ReadCount | src/package/install.rs:119-121 | a read returns at most 4096 bytes and at most what remains, and returns 0 exactly at end of file |
| Install.HashPackage | src/package/install.rs:113-130 | an unopenable file is an error; otherwise the digest of the whole content, whatever sizes the reads return |
| Install.ListLines | src/package/install.rs:165-178 | one line per regular file: `/` plus its relative path, and nothing else |
| Install.ListLinesAppend | src/package/install.rs:165-178 | the list of a concatenated walk is the concatenation of the lists |
| Install.ListLinesInvert | src/package/install.rs:177 | every line is absolute, and without its `/` it names a regular file of the mask |
| Install.CreatePackageList | src/package/install.rs:145-181 | no mask tree is an error; otherwise the list is `ListLines` of the walk |
| Install.VersionHitIsLookup | src/package/install.rs:224-237 | `find_package_by_version` finds a row exactly when the repository's served index has one for the query, and the same row |
| Install.FirstHitCons | src/package/install.rs:222-238 | a repository scan whose first repository has no hit finds what the scan of the rest finds, and the same first hit |
| Install.DependencyScan | src/package/install.rs:222-238 | the first repository with a satisfying row wins and the earlier ones had none; the result is `None` iff no repository has one |
| Install.RepoScan | src/package/install.rs:288-300 | a hit is the latest row of that name in some repository's copy; a miss leaves the cache as it was, with no copy for any of the repositories; an abort names a repository |
| Install.FirstNonFailCons | src/package/install.rs:289-299 | a scan over a list whose first element fails finds what the scan of the rest finds, and the first non-failing element is still the first |
| Install.RepoScanFirstWins | src/package/install.rs:288-300 | first repository wins: the scan misses iff `search_pkg` fails in every repository; otherwise its outcome is that of the first repository where `search_pkg` does not fail, every earlier one having failed |
| Install.Machine.FindDependency | src/package/install.rs:218-238 | the entry found and the new cache are those of `DependencyScan` |
| Install.Machine.SearchRepos | src/package/install.rs:285-300 | the outcome and the new cache are those of `RepoScan` |
| Install.Machine.InstallMissing | src/package/install.rs:212-256 | an installed dependency changes nothing; a missing config or a dependency no repository satisfies aborts; otherwise the state after is exactly that of `install_from_repo` for the found package's name, from the cache the search left (`FromRepo`), and its abort propagates while its returned error is skipped; on success the dependency is installed or some repository satisfies it |
| Install.HandledStep | src/package/install.rs:209-258 | one more handled dependency, in a database that only gained records, extends the handled prefix |
| Install.AllHandledGrows | src/package/install.rs:259-273 | records added after the loop keep every dependency handled |
| Install.Machine.InstallDependencies | src/package/install.rs:209-258 | success means every query parsed and each dependency is installed or satisfiable in some repository; an error is the parse error of the first bad query; when all dependencies are installed nothing changes |
| Install.Machine.Commit | src/package/install.rs:259-273 | the hook runs; without a mask tree the copy aborts; otherwise the mask is copied, the directory and its `package.list` are written, and the package is recorded with its version and directory |
| Install.Machine.InstallNew | src/package/install.rs:209-273 | an error is the first bad query; success means every query parsed, each dependency is installed or satisfiable, the five commit effects are the last on the trace and the package is recorded with its version and directory; the trace and the key sets only grow |
| Install.Machine.InstallPackageFromFile | src/package/install.rs:184-275 | a missing file aborts in hashing; a bad manifest aborts; an installed package changes nothing; the only returned error is the first bad query of a readable manifest; a successful fresh install handles every dependency, commits and records the package (`Committed`) |
| Install.Machine.InstallFetched | src/package/install.rs:309-324 | a failed download is returned with nothing changed; otherwise the download to `/tmp/<name>-<version>.kpkg` is the next effect, an unreadable manifest aborts after it, an installed package changes nothing more, a successful fresh install commits the archive's package (`Fetched`), and the nested install's errors are not returned |
| Install.Machine.InstallFromRepo | src/package/install.rs:278-325 | installed: nothing changes; no config: abort; `NotFoundInAnyRepo` iff the repository scan misses; a search abort propagates; a failed download is returned; a found and fetchable package is downloaded and installed as `InstallFetched` states; a returned error leaves database, files and trace unchanged |
| Install.FromRepoDownloads | src/package/install.rs:289-318 | when the scan finds the package and its archive can be fetched, the download is the next effect on the trace, its file is on disk and no error is returned |
| Install.FetchedRegisters | src/package/install.rs:318-321 | a downloaded archive of a new package whose queries all parse is, on success, registered with its version and directory, registration being the last effect, with every dependency handled |
| Remove.RemoveListed | src/package/remove.rs:33-46 | only listed (trimmed) paths are removed and the rest are unchanged; success means no listed path remains; an error names a listed path that still exists and whose removal failed |
| Remove.WithoutTree | src/package/remove.rs:64 | exactly the paths outside the directory remain, unchanged |
| Remove.TrimmedLinesRemoved | src/package/remove.rs:33-46 | with lines that are already trimmed, a successful loop removes every listed path and only listed paths |
| Remove.InstalledListRemovesMaskFiles | src/package/remove.rs:33-46 | reading back a `package.list` as the installer wrote it removes exactly the mask's files |
| Remove.Machine.RemoveFiles | src/package/remove.rs:33-46 | the loop's error and file system are those of `RemoveListed` |
| Remove.Machine.Purge | src/package/remove.rs:52-71 | a failed record deletion changes nothing; otherwise the record is deleted, and only if the directory still exists does the hook run and `remove_dir_all` remove the tree (or fail, leaving the files as they were) |
| Remove.Machine.UninstallPackage | src/package/remove.rs:7-78 | the result, file system, database and hook run are those of `Uninstall` |
| Remove.UninstallUnknown | src/package/remove.rs:20-23 | the package is reported unknown, with nothing changed, iff it has no record |
| Remove.UninstallEarly | src/package/remove.rs:11-34 | an unknown package, a missing directory or an unreadable list is reported, and nothing changes |
| Remove.UninstallReachesList | src/package/remove.rs:26-71 | otherwise removal runs the file loop over the listed lines and the steps after it |
| Remove.FinishShape | src/package/remove.rs:33-71 | after the list is read, the files left are those the loop leaves, or those without the package tree |
| Remove.FinishRecord | src/package/remove.rs:52-71 | after the list is read, the record is deleted only when the loop succeeded and the database accepted it; the hook runs in the package directory, only after the deletion |
| Remove.FinishSuccess | src/package/remove.rs:33-77 | after the list is read, success leaves no record, no directory and no listed path |
| Remove.WithoutTreeKeepsGone | src/package/remove.rs:64 | `remove_dir_all` removes the directory itself and brings back no removed path |
| Remove.UninstallShape | src/package/remove.rs:7-78 | the files left are untouched, those the file loop leaves, or those without the package tree |
| Remove.UninstallOnlyDeletes | src/package/remove.rs:26-71 | removal only deletes, files that remain are unchanged, and every deleted path is a listed line or lies under the package directory |
| Remove.DeletedListedOrTree | src/package/remove.rs:33-71 | deleting listed paths and then possibly the tree deletes only listed paths and paths under the tree |
| Remove.UninstallRecordOrder | src/package/remove.rs:33-71 | the record is deleted only after every listed file is gone and the database accepted it; the `remove` hook runs in the package directory only after the record is deleted |
| Remove.UninstallSuccess | src/package/remove.rs:7-78 | success means the package was known and its list readable, and leaves no record, no package directory and no listed path |
| RepoGen.Extension | src/repo/gen.rs:41 | `Path::extension`: `None` iff the name is `..` or has no `.` after its first character; otherwise the text after the last `.` that is not the first character |
| RepoGen.NameOf | src/repo/gen.rs:52-57 | the text before the first `-`, or the whole name |
| RepoGen.VersionOf | src/repo/gen.rs:42-50 | the result holds no `-` |
| RepoGen.ExtensionAt | src/repo/gen.rs:41 | a name with a last `.` after its first character has the text after that `.` as its extension |
| RepoGen.NameBeforeDash | src/repo/gen.rs:52-57 | the name is the text before the first `-` |
| RepoGen.VersionBeforeSuffix | src/repo/gen.rs:42-50 | the version of `p-v.kpkg`, with no `-` in `v`, is `v` |
| RepoGen.KpkgExtension | src/repo/gen.rs:41 | a non-empty stem followed by `.kpkg` has extension `kpkg` |
| RepoGen.FileNameRoundTrip | src/repo/gen.rs:41-57 | `name-version.kpkg`, with no `-` in either part, is indexed with exactly that name and version |
| RepoGen.MiddleSegmentsDropped | src/repo/gen.rs:42-57 | any `a-b-v.kpkg` (no `-` in `a` or `v`) is indexed as `a` at `v`, whatever `b` is: middle segments are lost |
| RepoGen.NoDashName | src/repo/gen.rs:42-57 | any `n.kpkg` without `-` is indexed as name `n.kpkg` at version `n` |
| RepoGen.OtherKeys | src/repo/gen.rs:21-23 | the rows kept are exactly the rows of other keys; none has the given key |
| RepoGen.OtherKeysUnique | src/repo/gen.rs:21-23 | dropping the rows of one key keeps the `(name, version)` key unique |
| RepoGen.Upsert | src/repo/gen.rs:16-29 | the new row comes last, no other row has its key, the rows with other keys are kept, and a unique key stays unique |
| RepoGen.UpsertOneRowPerKey | src/repo/gen.rs:21-23 | after the upsert the only row with the key is the new one |
| RepoGen.Offers | src/repo/gen.rs:36-67 | one offer per walk entry, in walk order: the row of an indexed entry, nothing for the rest |
| RepoGen.LastWithKeyExtend | src/repo/gen.rs:21-23 | after one more offer, an offer is the last of its key iff it was before and the new offer has another key |
| RepoGen.SurvivesExtend | src/repo/gen.rs:21-23 | one more offer survives and displaces the rows of its key; with no offer nothing changes |
| RepoGen.BuildIndexLastWins | src/repo/gen.rs:36-67 | the index holds exactly the rows of the last indexed file of each `(name, version)` |
| RepoGen.GenerateRepo | src/repo/gen.rs:34-68 | the truncated index, after the loop, has unique keys and holds exactly the last row per key |

## Left out

- I/O, the network, SQLite, the YAML and INI loaders, and tar/gzip extraction are not
  modelled. Their outcomes are parameters of the model.
- Logging, `println!` and the async runtime are left out.
- Partial writes are left out:
  - a failed transfer that left a truncated file;
  - a partial extraction;
  - a partial `remove_dir_all` (a failure leaves the tree as it was);
  - partial copies of the mask.
- `fetch_url`: URL parsing is modelled only as far as the scheme (the text before `:`).
  Other URL syntax errors are not distinguished.
- The order in which SQLite returns rows for a query without `ORDER BY` is not modelled. The
  row sequence of a `Table` stands for it, and the lookups are proved for any such order.
- SQL errors are not modelled:
  - the database cannot be opened;
  - a malformed row;
  - a `packages.db` that is not a database.
  - The index copy either exists, holding a table, or is missing, which gives `NoPackagesTable`.
- Install.HashPackage: read errors after a successful open are not modelled. The hex
  formatting of the digest is part of the `digest` parameter.
- Install.Machine.InstallPackageFromFile:
  - errors of the database helpers are not modelled: neither a failing `check_exist_pkg(..)?`
    nor a failing `add_package`, which the source only logs before it returns `Ok`, so the
    model always records the package;
  - `create_dir_all` failures are not modelled;
  - the `create_package_list` error after a successful mask copy is not modelled, because
    the copy needs the mask tree.
- The content of the mask copy is not modelled. The files a mask writes onto `/` are not
  part of the install file system, which holds only archives.
- Path normalisation is not modelled. Paths are text, so a package directory that a name
  with `..` segments moves outside `/var/lib/konpac/packages` still starts with that root
  in the model (Install.PackageDirUnderRoot is about the text).
- Install.Machine.InstallFromRepo: the nested install is bounded by a fuel count. When the
  fuel runs out it aborts with `RecursionLimit`. The program itself would recurse forever
  on a dependency cycle.
- `get_repos` reads `/etc/konpac/repos` again for every dependency. The model reads one
  fixed config, so a config changed between dependencies is not modelled.
- The remove hook's and the install hook's effects are events only. Their scripts are not
  modelled.
- `get_package_dir` and `del_package` are modelled by the database map and a flag that
  makes deletion fail. Their SQL is not modelled.
- Remove.Machine.UninstallPackage: errors while reading individual lines of `package.list`
  are not modelled. Only an unreadable list (a directory at that path) is.
- `canonicalize` failures and non-UTF-8 file names in `generate_repo` are not modelled.
  WalkDir errors are filtered out by the source and are absent from the model's walk.
- Text.ReplaceAll: its own contract states only that a text without the pattern is
  unchanged. Its full behaviour is stated by Text.ReplaceAllPieces and Text.ReplaceLeftmost,
  because an existential postcondition on the function itself is too costly for its callers.
- RepoUtils.Rows: its contract states membership and size only. Table order is stated by
  RepoUtils.RowsOne and RepoUtils.RowsAppend.
- Install.Machine.InstallDependencies: per dependency the contract states only that it
  parsed and is installed or satisfiable. What each nested install did is stated by
  Install.Machine.InstallMissing and is not collected across the loop.
- Install.Machine.InstallNew: like InstallDependencies, it states of each dependency only
  that it is installed or satisfiable, not what its nested install did.
- RepoGen.VersionOf: the contract states only that the result holds no `-`. The full
  behaviour is proved by the three file-name lemmas.
