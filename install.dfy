/** Installing a package (`package/install.rs`): the manifest, the naming of the staging
    and package directories, the content hash, the package file list, and the control flow
    of `install_package_from_file` and `install_from_repo` over an abstract machine state. */
module Install {
  import opened Wrappers
  import opened Text
  import opened Paths
  import opened Dependencies
  import opened RepoUtils
  import opened PackageDb

  // ---- parse_manifest ----

  /** A YAML value as the YAML loader returns it; a hash is indexed by string keys. */
  datatype Yaml =
    | Str(s: string)
    | Real(text: string)
    | Integer(i: int)
    | Boolean(b: bool)
    | Array(items: seq<Yaml>)
    | Hash(fields: map<string, Yaml>)
    | Null
    | BadValue

  /** The contents of `package.yml`: unreadable, not valid YAML, or a list of documents. */
  datatype ManifestFile = Unreadable | InvalidSyntax | Documents(docs: seq<Yaml>)

  datatype ManifestError = ReadFailed | InvalidYaml | EmptyDocument | MissingName | MissingVersion

  datatype Manifest = Manifest(name: string, version: string, depens: seq<string>)

  /** `value[key]`: the field of a hash, and `BadValue` for a missing key or a non-hash. */
  function Index(y: Yaml, key: string): Yaml {
    if y.Hash? && key in y.fields then y.fields[key] else BadValue
  }

  function AsStr(y: Yaml): Option<string> {
    if y.Str? then Some(y.s) else None
  }

  /** `filter_map(as_str)`: the string elements, in order. */
  function StringItems(items: seq<Yaml>): (r: seq<string>)
    ensures |r| <= |items|
    ensures forall s :: s in r <==> Str(s) in items
    decreases |items|
  {
    if |items| == 0 then []
    else
      assert forall y :: y in items <==> y == items[0] || y in items[1..];
      match items[0]
      case Str(s) => [s] + StringItems(items[1..])
      case _ => StringItems(items[1..])
  }

  lemma {:induction false} StringItemsAppend(a: seq<Yaml>, b: seq<Yaml>)
    ensures StringItems(a + b) == StringItems(a) + StringItems(b)
    decreases |a|
  {
    if |a| == 0 {
      assert a + b == b;
    } else {
      assert (a + b)[0] == a[0];
      assert (a + b)[1..] == a[1..] + b;
      StringItemsAppend(a[1..], b);
    }
  }

  /** The `depens` list: the string elements of the `depens` array, or empty. */
  function DependsOf(root: Yaml): seq<string> {
    match Index(root, "depens")
    case Array(items) => StringItems(items)
    case _ => []
  }

  /** `parse_manifest`: the first document must hold string fields `name` and `version`. */
  function ParseManifest(file: ManifestFile): (r: Result<Manifest, ManifestError>)
    ensures r.Ok? <==>
      && file.Documents? && |file.docs| > 0
      && Index(file.docs[0], "name").Str? && Index(file.docs[0], "version").Str?
    ensures r.Ok? ==> r.value == Manifest(Index(file.docs[0], "name").s, Index(file.docs[0], "version").s, DependsOf(file.docs[0]))
  {
    match file
    case Unreadable => Err(ReadFailed)
    case InvalidSyntax => Err(InvalidYaml)
    case Documents(docs) =>
      if |docs| == 0 then Err(EmptyDocument)
      else
        var root := docs[0];
        match AsStr(Index(root, "name"))
        case None => Err(MissingName)
        case Some(name) =>
          match AsStr(Index(root, "version"))
          case None => Err(MissingVersion)
          case Some(version) => Ok(Manifest(name, version, DependsOf(root)))
  }

  /** Strings as YAML string values. */
  function Strs(xs: seq<string>): (r: seq<Yaml>)
    ensures |r| == |xs|
    decreases |xs|
  {
    if |xs| == 0 then [] else [Str(xs[0])] + Strs(xs[1..])
  }

  lemma {:induction false} StringItemsOfStrs(xs: seq<string>)
    ensures StringItems(Strs(xs)) == xs
    decreases |xs|
  {
    if |xs| > 0 {
      assert Strs(xs)[1..] == Strs(xs[1..]);
      StringItemsOfStrs(xs[1..]);
    }
  }

  /** The manifest written out as a YAML hash. */
  function ManifestYaml(m: Manifest): Yaml {
    Hash(map["name" := Str(m.name), "version" := Str(m.version), "depens" := Array(Strs(m.depens))])
  }

  /** Round trip: a manifest written as the first YAML document parses back to itself. */
  lemma ManifestRoundTrip(m: Manifest, rest: seq<Yaml>)
    ensures ParseManifest(Documents([ManifestYaml(m)] + rest)) == Ok(m)
  {
    var root := ManifestYaml(m);
    assert Index(root, "name") == Str(m.name);
    assert Index(root, "version") == Str(m.version);
    assert Index(root, "depens") == Array(Strs(m.depens));
    StringItemsOfStrs(m.depens);
    assert ([root] + rest)[0] == root;
  }

  /** Non-string elements of `depens` are dropped: `[1, "a>=1", true]` gives `["a>=1"]`. */
  lemma DependsDropsNonStrings(name: string, version: string)
    ensures ParseManifest(Documents([Hash(map["name" := Str(name), "version" := Str(version),
      "depens" := Array([Integer(1), Str("a>=1"), Boolean(true)])])]))
      == Ok(Manifest(name, version, ["a>=1"]))
  {
    var items := [Integer(1), Str("a>=1"), Boolean(true)];
    var root := Hash(map["name" := Str(name), "version" := Str(version), "depens" := Array(items)]);
    assert Index(root, "name") == Str(name);
    assert Index(root, "version") == Str(version);
    assert Index(root, "depens") == Array(items);
    assert items[1..][1..] == [Boolean(true)];
    assert StringItems(items[1..][1..]) == [] by {
      assert items[1..][1..][1..] == [];
    }
    assert StringItems(items[1..]) == ["a>=1"];
    assert StringItems(items) == ["a>=1"];
  }

  /** A `depens` that is not an array, or is absent, gives no dependencies. */
  lemma DependsWhenNotArray(root: Yaml)
    requires !Index(root, "depens").Array?
    ensures DependsOf(root) == []
  {
  }

  // ---- naming ----

  const PackagesRoot: string := "/var/lib/konpac/packages"

  /** `create_package_dir`: the directory `name-version` pushed onto the packages root. */
  function PackageDir(m: Manifest): string {
    PathJoin(PackagesRoot, m.name + "-" + m.version)
  }

  /** A relative name lands directly under the packages root, as path text: `PathBuf::push`
      does not resolve `..`, so a name such as `../../etc` is under the root in this sense
      but names a directory outside it. */
  lemma PackageDirUnderRoot(m: Manifest)
    requires |m.name| == 0 || m.name[0] != '/'
    ensures PackageDir(m) == PackagesRoot + "/" + m.name + "-" + m.version
    ensures UnderDir(PackageDir(m), PackagesRoot)
  {
    var comp := m.name + "-" + m.version;
    assert comp[0] == if |m.name| == 0 then '-' else m.name[0];
    assert PackageDir(m)[..|PackagesRoot| + 1] == PackagesRoot + "/";
  }

  /** An absolute package name replaces the packages root altogether. */
  lemma PackageDirAbsoluteName(m: Manifest)
    requires |m.name| > 0 && m.name[0] == '/'
    ensures PackageDir(m) == m.name + "-" + m.version
  {
  }

  /** The unpack target and the manifest directory: `TMP_PATH/<hash>`. */
  function StagingDir(tmpRoot: string, hash: string): string {
    tmpRoot + "/" + hash
  }

  /** Where `install_from_repo` downloads a package. */
  function DownloadPath(e: Entry): string {
    "/tmp/" + e.name + "-" + e.version + ".kpkg"
  }

  // ---- hash_package ----

  const ChunkSize: nat := 4096

  function Min(a: nat, b: nat): nat {
    if a <= b then a else b
  }

  /** How many bytes one `read` into the 4096-byte buffer returns when `remaining` bytes are
      left at offset `pos`: `readSize` picks any count from 1 up to what fits, and the count
      is zero exactly at end of file. */
  function ReadCount(readSize: nat -> nat, pos: nat, remaining: nat): (n: nat)
    ensures n <= ChunkSize && n <= remaining
    ensures n == 0 <==> remaining == 0
  {
    if remaining == 0 then 0 else 1 + readSize(pos) % Min(ChunkSize, remaining)
  }

  datatype HashError = OpenFailed

  /** `hash_package`: read the file through a 4096-byte buffer and feed each chunk to the
      hasher until a read returns nothing. `digest` is the hash of a whole byte string; the
      result is therefore the digest of the content, whatever sizes the reads return. */
  method HashPackage(file: Option<seq<bv8>>, digest: seq<bv8> -> string, readSize: nat -> nat)
    returns (r: Result<string, HashError>)
    ensures file.None? <==> r == Err(OpenFailed)
    ensures file.Some? ==> r == Ok(digest(file.value))
  {
    if file.None? {
      return Err(OpenFailed);
    }
    var content := file.value;
    var buffer := new bv8[ChunkSize];
    var fed: seq<bv8> := [];
    var pos := 0;
    while true
      invariant pos <= |content|
      invariant fed == content[..pos]
      decreases |content| - pos
    {
      var n := ReadCount(readSize, pos, |content| - pos);
      forall k | 0 <= k < n {
        buffer[k] := content[pos + k];
      }
      if n == 0 {
        break;
      }
      assert buffer[..n] == content[pos..pos + n];
      fed := fed + buffer[..n];
      assert content[..pos + n] == content[..pos] + content[pos..pos + n];
      pos := pos + n;
    }
    assert pos == |content|;
    assert fed == content;
    return Ok(digest(fed));
  }

  // ---- create_package_list ----

  /** A walked entry of the mask tree, with its path relative to the mask root. */
  datatype MaskEntry = MaskEntry(rel: string, isFile: bool)

  /** The lines of `package.list`: `/` and the relative path of each regular file, in walk order. */
  function ListLines(entries: seq<MaskEntry>): (lines: seq<string>)
    ensures |lines| <= |entries|
    ensures forall l :: l in lines <==> exists e :: e in entries && e.isFile && l == "/" + e.rel
    decreases |entries|
  {
    if |entries| == 0 then []
    else
      var rest := ListLines(entries[1..]);
      assert forall e :: e in entries <==> e == entries[0] || e in entries[1..];
      if entries[0].isFile then ["/" + entries[0].rel] + rest else rest
  }

  lemma {:induction false} ListLinesAppend(a: seq<MaskEntry>, b: seq<MaskEntry>)
    ensures ListLines(a + b) == ListLines(a) + ListLines(b)
    decreases |a|
  {
    if |a| == 0 {
      assert a + b == b;
    } else {
      assert (a + b)[0] == a[0];
      assert (a + b)[1..] == a[1..] + b;
      ListLinesAppend(a[1..], b);
    }
  }

  /** Every line is absolute, and dropping its leading `/` gives back a file's relative path. */
  lemma ListLinesInvert(entries: seq<MaskEntry>, l: string)
    requires l in ListLines(entries)
    ensures |l| > 0 && l[0] == '/'
    ensures MaskEntry(l[1..], true) in entries
  {
    var e :| e in entries && e.isFile && l == "/" + e.rel;
    assert l[1..] == e.rel;
  }

  datatype ListError = MaskMissing

  /** `create_package_list`: no mask tree is an error; otherwise one line per regular file. */
  method CreatePackageList(mask: Option<seq<MaskEntry>>) returns (r: Result<seq<string>, ListError>)
    ensures mask.None? <==> r == Err(MaskMissing)
    ensures mask.Some? ==> r == Ok(ListLines(mask.value))
  {
    if mask.None? {
      return Err(MaskMissing);
    }
    var entries := mask.value;
    var lines: seq<string> := [];
    for i := 0 to |entries|
      invariant lines == ListLines(entries[..i])
    {
      ListLinesAppend(entries[..i], [entries[i]]);
      assert entries[..i + 1] == entries[..i] + [entries[i]];
      if entries[i].isFile {
        lines := lines + ["/" + entries[i].rel];
      }
    }
    assert entries[..|entries|] == entries;
    return Ok(lines);
  }

  // ---- repository scans ----

  /** What one repository offers for a dependency query in `find_package_by_version`, as a
      function of what its index URL serves. */
  function VersionHit(q: PackageQuery, repo: Repository, indexes: map<string, Table>): Option<Entry> {
    var url := VersionedIndexUrl(repo.url);
    if FetchUrl(url, url in indexes).Ok? && OperatorOf(q.comparisonOperator).Some?
    then FirstSatisfying(indexes[url], q.name, OperatorOf(q.comparisonOperator).value, q.version)
    else None
  }

  /** `find_package_by_version` finds a row exactly when `VersionHit` does, and the same one. */
  lemma VersionHitIsLookup(q: PackageQuery, repo: Repository, indexes: map<string, Table>, cache: Cache)
    ensures var looked := FindPackageByVersion(q.name, q.version, q.comparisonOperator, repo, indexes, cache);
      (looked.0.Ok? && looked.0.value.Some?) <==> VersionHit(q, repo, indexes).Some?
    ensures var looked := FindPackageByVersion(q.name, q.version, q.comparisonOperator, repo, indexes, cache);
      looked.0.Ok? && looked.0.value.Some? ==> looked.0.value == VersionHit(q, repo, indexes)
  {
  }

  /** The search loop for one dependency: repositories in order, the first `Ok(Some)`
      wins, and each lookup rewrites that repository's local index copy. */
  function DependencyScan(q: PackageQuery, repos: seq<Repository>, indexes: map<string, Table>, cache: Cache)
    : (out: (Option<Entry>, Cache))
    ensures out.0.Some? ==> exists k ::
      && 0 <= k < |repos| && VersionHit(q, repos[k], indexes) == out.0
      && forall j :: 0 <= j < k ==> VersionHit(q, repos[j], indexes).None?
    ensures out.0.None? <==> forall k :: 0 <= k < |repos| ==> VersionHit(q, repos[k], indexes).None?
    decreases |repos|
  {
    if |repos| == 0 then (None, cache)
    else
      var cache' := FetchIndex(VersionedIndexUrl(repos[0].url), CachePath(repos[0].name), indexes, cache).1;
      var hit := VersionHit(q, repos[0], indexes);
      if hit.Some? then (hit, cache')
      else
        var out := DependencyScan(q, repos[1..], indexes, cache');
        FirstHitCons(rp => VersionHit(q, rp, indexes), repos, out.0);
        out
  }

  /** The first element with a hit, found past a first element without one. */
  lemma FirstHitCons<X>(hit: X -> Option<Entry>, xs: seq<X>, r: Option<Entry>)
    requires |xs| > 0 && hit(xs[0]).None?
    requires r.Some? ==> exists k ::
      && 0 <= k < |xs| - 1 && hit(xs[1..][k]) == r
      && forall j :: 0 <= j < k ==> hit(xs[1..][j]).None?
    requires r.None? <==> forall k :: 0 <= k < |xs| - 1 ==> hit(xs[1..][k]).None?
    ensures r.Some? ==> exists k ::
      && 0 <= k < |xs| && hit(xs[k]) == r
      && forall j :: 0 <= j < k ==> hit(xs[j]).None?
    ensures r.None? <==> forall k :: 0 <= k < |xs| ==> hit(xs[k]).None?
  {
    assert forall j :: 1 <= j < |xs| ==> xs[j] == xs[1..][j - 1];
    if r.Some? {
      var k :|
        && 0 <= k < |xs| - 1 && hit(xs[1..][k]) == r
        && forall j :: 0 <= j < k ==> hit(xs[1..][j]).None?;
      assert hit(xs[k + 1]) == r;
    }
  }

  /** The outcome of the search loop of `install_from_repo`. */
  datatype Scan = Hit(entry: Entry) | Miss | Abort(cause: RepoError)

  /** The search loop of `install_from_repo`: repositories in order; a found package wins,
      a failed lookup moves on, and `search_pkg`'s abort ends the process. */
  function RepoScan(name: string, repos: seq<Repository>, indexes: map<string, Table>, cache: Cache)
    : (out: (Scan, Cache))
    ensures out.0 == Miss ==> out.1 == cache && forall k :: 0 <= k < |repos| ==> CachePath(repos[k].name) !in cache
    ensures out.0.Hit? ==> out.0.entry.name == name && exists k ::
      && 0 <= k < |repos| && CachePath(repos[k].name) in out.1
      && LatestByText(out.1[CachePath(repos[k].name)], name) == Some(out.0.entry)
    ensures out.0.Abort? ==> exists k :: 0 <= k < |repos| && out.0.cause == NotInRepository(name, repos[k].name)
    decreases |repos|
  {
    if |repos| == 0 then (Miss, cache)
    else
      var searched := SearchPkg(name, repos[0], indexes, cache);
      match searched.0
      case Done(e) => (Hit(e), searched.1)
      case Panic(cause) => (Abort(cause), searched.1)
      case Fail(_) =>
        var out := RepoScan(name, repos[1..], indexes, searched.1);
        assert forall j :: 1 <= j < |repos| ==> repos[j] == repos[1..][j - 1];
        assert out.0.Hit? ==> exists k ::
          && 0 <= k < |repos| && CachePath(repos[k].name) in out.1
          && LatestByText(out.1[CachePath(repos[k].name)], name) == Some(out.0.entry) by {
          if out.0.Hit? {
            var k :|
              && 0 <= k < |repos| - 1 && CachePath(repos[1..][k].name) in out.1
              && LatestByText(out.1[CachePath(repos[1..][k].name)], name) == Some(out.0.entry);
            assert repos[k + 1] == repos[1..][k];
          }
        }
        assert out.0.Abort? ==> exists k :: 0 <= k < |repos| && out.0.cause == NotInRepository(name, repos[k].name) by {
          if out.0.Abort? {
            var k :| 0 <= k < |repos| - 1 && out.0.cause == NotInRepository(name, repos[1..][k].name);
            assert repos[k + 1] == repos[1..][k];
          }
        }
        assert out.0 == Miss ==> searched.1 == cache && CachePath(repos[0].name) !in cache;
        out
  }

  /** The scan outcome one repository's `search_pkg` stands for. */
  function ScanOf(x: Exit<Entry, RepoError>): Scan {
    match x
    case Done(e) => Hit(e)
    case Panic(cause) => Abort(cause)
    case Fail(_) => Miss
  }

  /** The first element whose step does not fail, found past a first element whose step
      fails. */
  lemma FirstNonFailCons<X>(step: X -> Exit<Entry, RepoError>, xs: seq<X>, r: Scan)
    requires |xs| > 0 && step(xs[0]).Fail?
    requires r == Miss <==> forall k :: 0 <= k < |xs| - 1 ==> step(xs[1..][k]).Fail?
    requires r != Miss ==> exists k ::
      && 0 <= k < |xs| - 1
      && (forall j :: 0 <= j < k ==> step(xs[1..][j]).Fail?)
      && r == ScanOf(step(xs[1..][k]))
    ensures r == Miss <==> forall k :: 0 <= k < |xs| ==> step(xs[k]).Fail?
    ensures r != Miss ==> exists k ::
      && 0 <= k < |xs|
      && (forall j :: 0 <= j < k ==> step(xs[j]).Fail?)
      && r == ScanOf(step(xs[k]))
  {
    assert forall j :: 1 <= j < |xs| ==> xs[j] == xs[1..][j - 1];
    if r != Miss {
      var k :|
        && 0 <= k < |xs| - 1
        && (forall j :: 0 <= j < k ==> step(xs[1..][j]).Fail?)
        && r == ScanOf(step(xs[1..][k]));
      assert xs[k + 1] == xs[1..][k];
    }
  }

  /** First repository wins: the scan ends at the first repository whose `search_pkg` does
      not fail, with that repository's outcome; it misses exactly when every one fails.
      A failing `search_pkg` leaves the cache as it was, so every repository is searched
      against the initial cache. */
  lemma {:induction false} RepoScanFirstWins(name: string, repos: seq<Repository>, indexes: map<string, Table>, cache: Cache)
    ensures RepoScan(name, repos, indexes, cache).0 == Miss <==>
      forall k :: 0 <= k < |repos| ==> SearchPkg(name, repos[k], indexes, cache).0.Fail?
    ensures RepoScan(name, repos, indexes, cache).0 != Miss ==> exists k ::
      && 0 <= k < |repos|
      && (forall j :: 0 <= j < k ==> SearchPkg(name, repos[j], indexes, cache).0.Fail?)
      && RepoScan(name, repos, indexes, cache).0 == ScanOf(SearchPkg(name, repos[k], indexes, cache).0)
    decreases |repos|
  {
    if |repos| > 0 {
      var searched := SearchPkg(name, repos[0], indexes, cache);
      if searched.0.Fail? {
        RepoScanFirstWins(name, repos[1..], indexes, cache);
        var out := RepoScan(name, repos[1..], indexes, cache).0;
        assert RepoScan(name, repos, indexes, cache).0 == out;
        FirstNonFailCons(rp => SearchPkg(name, rp, indexes, cache).0, repos, out);
      } else {
        assert RepoScan(name, repos, indexes, cache).0 == ScanOf(searched.0);
      }
    }
  }

  // ---- the install machine ----

  /** What extracting an archive leaves in the staging directory: the manifest file and the
      walked mask tree (`None` when there is no `mask` directory). */
  datatype Staged = Staged(manifest: ManifestFile, mask: Option<seq<MaskEntry>>)

  /** Everything outside the machine's state: `TMP_PATH`, the host architecture, the parsed
      `/etc/konpac/repos` (`None` when it cannot be loaded), what each index URL and each
      package URL serves, the hash of a byte string, what extraction yields, and the sizes
      reads return. */
  datatype Env = Env(
    tmpRoot: string,
    arch: string,
    config: Option<seq<Section>>,
    indexes: map<string, Table>,
    archives: map<string, seq<bv8>>,
    digest: seq<bv8> -> string,
    unpack: seq<bv8> -> Staged,
    readSize: nat -> nat)

  /** Side effects, in the order they happen. */
  datatype Event =
    | Downloaded(url: string, dest: string)     // `fetch_url` of a package archive
    | HookRun(dir: string)                      // `script_executor` on the staging directory
    | MaskCopied(dir: string)                   // `mask_copyer` into `/`
    | DirCreated(dir: string)                   // `create_package_dir`
    | ListWritten(dir: string, lines: seq<string>)  // `package.list`
    | Registered(name: string)                  // `add_package`

  datatype InstallError =
    | HashFailed                          // `hash_package(..).unwrap()` aborts
    | ManifestUnreadable(ManifestError)   // "Error in read manifest" abort
    | BadQuery(QueryError)                // a dependency does not parse: returned
    | ConfigMissing                       // `Ini::load_from_file(..).unwrap()` aborts
    | DependencyNotFound(name: string)    // no repository has the dependency: abort
    | SearchAborted(cause: RepoError)     // `search_pkg` aborts
    | CopyFailed                          // `mask_copyer(..).expect(..)` aborts
    | NotFoundInAnyRepo(name: string)     // "Package not found in any repository": returned
    | DownloadFailed(RepoError)           // the archive fetch failed: returned
    | RecursionLimit                      // the fuel bound on nested installs ran out

  /** The five effects that commit an installation, in order. */
  function CommitEvents(staging: string, m: Manifest, lines: seq<string>): seq<Event> {
    [HookRun(staging), MaskCopied(staging), DirCreated(PackageDir(m)), ListWritten(PackageDir(m), lines), Registered(m.name)]
  }

  /** The manifest an archive carries. */
  function ManifestOf(env: Env, archive: seq<bv8>): Result<Manifest, ManifestError> {
    ParseManifest(env.unpack(archive).manifest)
  }

  /** Every dependency query parses. */
  predicate AllParsed(depens: seq<string>) {
    forall k :: 0 <= k < |depens| ==> Parse(depens[k]).Ok?
  }

  /** `e` reports the first dependency query that does not parse. */
  predicate FirstBadQuery(depens: seq<string>, e: InstallError) {
    exists k ::
      && 0 <= k < |depens| && Parse(depens[k]).Err? && e == BadQuery(Parse(depens[k]).error)
      && forall j :: 0 <= j < k ==> Parse(depens[j]).Ok?
  }

  /** Every dependency query parses and names an installed package. */
  predicate AllInstalled(depens: seq<string>, db: Db) {
    forall k :: 0 <= k < |depens| ==> Parse(depens[k]).Ok? && Parse(depens[k]).value.name in db
  }

  /** After the commit of `m` from `staging`: the five commit effects are the last ones, and
      the package is registered with its version and directory. */
  predicate CommitState(staging: string, m: Manifest, mask: Option<seq<MaskEntry>>, trace: seq<Event>, db: Db) {
    && mask.Some?
    && |trace| >= 5
    && trace[|trace| - 5..] == CommitEvents(staging, m, ListLines(mask.value))
    && m.name in db && db[m.name] == Record(m.version, PackageDir(m))
  }

  /** Some configured repository offers a row satisfying the query. */
  predicate Satisfiable(env: Env, q: PackageQuery) {
    && env.config.Some?
    && exists k :: 0 <= k < |RepoList(env.config.value, env.arch)|
         && VersionHit(q, RepoList(env.config.value, env.arch)[k], env.indexes).Some?
  }

  /** A dependency the loop got past: its query parsed, and the package it names is
      installed or some repository satisfies the query. */
  predicate Handled(env: Env, dep: string, db: Db) {
    Parse(dep).Ok? && (Parse(dep).value.name in db || Satisfiable(env, Parse(dep).value))
  }

  /** The first `i` dependencies are handled. */
  predicate HandledUpTo(env: Env, depens: seq<string>, i: nat, db: Db) {
    i <= |depens| && forall k :: 0 <= k < i ==> Handled(env, depens[k], db)
  }

  predicate AllHandled(env: Env, depens: seq<string>, db: Db) {
    HandledUpTo(env, depens, |depens|, db)
  }

  /** One more dependency handled, in a database that only gained records. */
  lemma HandledStep(env: Env, depens: seq<string>, i: nat, d0: Db, d1: Db)
    requires i < |depens| && HandledUpTo(env, depens, i, d0) && d0.Keys <= d1.Keys
    requires Handled(env, depens[i], d1)
    ensures HandledUpTo(env, depens, i + 1, d1)
  {
  }

  /** Records added later keep every dependency handled. */
  lemma AllHandledGrows(env: Env, depens: seq<string>, d0: Db, d1: Db)
    requires AllHandled(env, depens, d0) && d0.Keys <= d1.Keys
    ensures AllHandled(env, depens, d1)
  {
  }

  /** After installing `archive`: every dependency was handled and its manifest is
      committed. */
  predicate Committed(env: Env, archive: seq<bv8>, trace: seq<Event>, db: Db) {
    && ManifestOf(env, archive).Ok?
    && AllParsed(ManifestOf(env, archive).value.depens)
    && AllHandled(env, ManifestOf(env, archive).value.depens, db)
    && CommitState(StagingDir(env.tmpRoot, env.digest(archive)), ManifestOf(env, archive).value, env.unpack(archive).mask, trace, db)
  }

  /** The outcome of downloading `e` and installing the archive from the downloaded file,
      from state `(t0, d0, f0)` to `(t1, d1, f1)`: the download comes first and its file
      holds the archive; an unreadable manifest aborts with nothing else done; an installed
      package changes nothing more; otherwise, when every dependency query parses, the
      archive is committed. A returned error of the nested install is not returned. */
  predicate Fetched(env: Env, e: Entry, r: Exit<(), InstallError>,
                    t0: seq<Event>, d0: Db, f0: map<string, seq<bv8>>,
                    t1: seq<Event>, d1: Db, f1: map<string, seq<bv8>>) {
    var dest := DownloadPath(e);
    && e.url in env.archives
    && !r.Fail?
    && t0 + [Downloaded(e.url, dest)] <= t1
    && dest in f1
    && var a := env.archives[e.url];
       match ManifestOf(env, a)
       case Err(err) =>
         r == Panic(ManifestUnreadable(err)) && t1 == t0 + [Downloaded(e.url, dest)] && d1 == d0 && f1 == f0[dest := a]
       case Ok(m) =>
         && (m.name in d0 ==> r == Done(()) && t1 == t0 + [Downloaded(e.url, dest)] && d1 == d0 && f1 == f0[dest := a])
         && (m.name !in d0 && AllParsed(m.depens) && r.Done? ==> Committed(env, a, t1, d1))
  }

  /** The outcome of `install_from_repo(name)` from cache `c0` and state `(t0, d0, f0)` to
      `(t1, d1, f1)`: an installed package or a missing configuration changes nothing; the
      repository scan decides the rest; a returned error changes nothing. */
  predicate FromRepo(env: Env, name: string, c0: Cache, r: Exit<(), InstallError>,
                     t0: seq<Event>, d0: Db, f0: map<string, seq<bv8>>,
                     t1: seq<Event>, d1: Db, f1: map<string, seq<bv8>>) {
    && (name in d0 ==> r == Done(()) && t1 == t0 && d1 == d0 && f1 == f0)
    && (name !in d0 && env.config.None? ==> r == Panic(ConfigMissing) && t1 == t0 && d1 == d0 && f1 == f0)
    && (name !in d0 && env.config.Some? ==>
          var scan := RepoScan(name, RepoList(env.config.value, env.arch), env.indexes, c0).0;
          && (scan == Miss <==> r == Fail(NotFoundInAnyRepo(name)))
          && (scan.Abort? ==> r == Panic(SearchAborted(scan.cause)))
          && (scan.Hit? && FetchUrl(scan.entry.url, scan.entry.url in env.archives).Err? ==>
                r == Fail(DownloadFailed(FetchUrl(scan.entry.url, scan.entry.url in env.archives).error)))
          && (scan.Hit? && FetchUrl(scan.entry.url, scan.entry.url in env.archives).Ok? ==>
                Fetched(env, scan.entry, r, t0, d0, f0, t1, d1, f1)))
    && (r.Fail? ==> t1 == t0 && d1 == d0 && f1 == f0)
  }

  /** An install from a repository that finds the package and can fetch its archive does
      something: the download is the next effect on the trace and its file is on disk. */
  lemma FromRepoDownloads(env: Env, name: string, c0: Cache, r: Exit<(), InstallError>,
                          t0: seq<Event>, d0: Db, f0: map<string, seq<bv8>>,
                          t1: seq<Event>, d1: Db, f1: map<string, seq<bv8>>)
    requires FromRepo(env, name, c0, r, t0, d0, f0, t1, d1, f1)
    requires name !in d0 && env.config.Some?
    requires var scan := RepoScan(name, RepoList(env.config.value, env.arch), env.indexes, c0).0;
      scan.Hit? && FetchUrl(scan.entry.url, scan.entry.url in env.archives).Ok?
    ensures var e := RepoScan(name, RepoList(env.config.value, env.arch), env.indexes, c0).0.entry;
      && |t1| > |t0| && t1[|t0|] == Downloaded(e.url, DownloadPath(e))
      && DownloadPath(e) in f1 && !r.Fail?
  {
    var e := RepoScan(name, RepoList(env.config.value, env.arch), env.indexes, c0).0.entry;
    assert Fetched(env, e, r, t0, d0, f0, t1, d1, f1);
    assert (t0 + [Downloaded(e.url, DownloadPath(e))])[|t0|] == Downloaded(e.url, DownloadPath(e));
  }

  /** A downloaded archive whose package is new and whose dependency queries all parse is,
      on success, registered with its version and directory, the registration being the last
      effect. */
  lemma FetchedRegisters(env: Env, e: Entry, r: Exit<(), InstallError>,
                         t0: seq<Event>, d0: Db, f0: map<string, seq<bv8>>,
                         t1: seq<Event>, d1: Db, f1: map<string, seq<bv8>>)
    requires Fetched(env, e, r, t0, d0, f0, t1, d1, f1) && r.Done?
    requires var m := ManifestOf(env, env.archives[e.url]);
      m.Ok? && m.value.name !in d0 && AllParsed(m.value.depens)
    ensures var m := ManifestOf(env, env.archives[e.url]).value;
      && m.name in d1 && d1[m.name] == Record(m.version, PackageDir(m))
      && |t1| > 0 && t1[|t1| - 1] == Registered(m.name)
      && AllHandled(env, m.depens, d1)
  {
    var a := env.archives[e.url];
    assert Committed(env, a, t1, d1);
    var m := ManifestOf(env, a).value;
    var staging := StagingDir(env.tmpRoot, env.digest(a));
    assert t1[|t1| - 5..] == CommitEvents(staging, m, ListLines(env.unpack(a).mask.value));
    assert t1[|t1| - 1] == t1[|t1| - 5..][4];
  }

  /** The commit's effects appended to a trace, and its record added to a database, give
      the committed state. */
  lemma CommitStateAfter(staging: string, m: Manifest, mask: Option<seq<MaskEntry>>, before: seq<Event>, db: Db)
    requires mask.Some?
    ensures CommitState(staging, m, mask, before + CommitEvents(staging, m, ListLines(mask.value)),
                        db[m.name := Record(m.version, PackageDir(m))])
  {
    var added := CommitEvents(staging, m, ListLines(mask.value));
    assert (before + added)[|before + added| - 5..] == added;
  }

  /** The second state only adds to the first: its trace extends the first's, and it keeps
      every record and every file. */
  predicate Extends(t0: seq<Event>, d0: Db, f0: map<string, seq<bv8>>, t1: seq<Event>, d1: Db, f1: map<string, seq<bv8>>) {
    t0 <= t1 && d0.Keys <= d1.Keys && f0.Keys <= f1.Keys
  }

  lemma ExtendsTransitive(t0: seq<Event>, d0: Db, f0: map<string, seq<bv8>>,
                          t1: seq<Event>, d1: Db, f1: map<string, seq<bv8>>,
                          t2: seq<Event>, d2: Db, f2: map<string, seq<bv8>>)
    requires Extends(t0, d0, f0, t1, d1, f1) && Extends(t1, d1, f1, t2, d2, f2)
    ensures Extends(t0, d0, f0, t2, d2, f2)
  {
    assert t2[..|t0|] == t1[..|t0|];
  }

  /** Appending to a trace that extends `start` still extends it. */
  lemma AppendGrows(start: seq<Event>, before: seq<Event>, added: seq<Event>)
    requires start <= before
    ensures start <= before + added
  {
    assert (before + added)[..|start|] == before[..|start|];
  }

  class Machine {
    const env: Env
    /** The installed-package database. */
    var db: Db
    /** The local copies `/tmp/<repo>.db` of repository indexes. */
    var cache: Cache
    /** Package archive files on disk, by path. */
    var files: map<string, seq<bv8>>
    var trace: seq<Event>

    constructor (env: Env, db: Db, cache: Cache, files: map<string, seq<bv8>>)
      ensures this.env == env && this.db == db && this.cache == cache && this.files == files
      ensures trace == []
    {
      this.env := env;
      this.db := db;
      this.cache := cache;
      this.files := files;
      trace := [];
    }

    /** Installation only adds: effects are appended, and records and files are never removed. */
    twostate predicate Grown()
      reads this
    {
      Extends(old(trace), old(db), old(files), trace, db, files)
    }

    /** The search loop for one dependency. */
    method FindDependency(q: PackageQuery, repos: seq<Repository>) returns (found: Option<Entry>)
      modifies this`cache
      ensures (found, cache) == DependencyScan(q, repos, env.indexes, old(cache))
    {
      var i := 0;
      while i < |repos|
        invariant i <= |repos|
        invariant DependencyScan(q, repos, env.indexes, old(cache)) == DependencyScan(q, repos[i..], env.indexes, cache)
      {
        assert repos[i..][0] == repos[i] && repos[i..][1..] == repos[i + 1..];
        var looked := FindPackageByVersion(q.name, q.version, q.comparisonOperator, repos[i], env.indexes, cache);
        VersionHitIsLookup(q, repos[i], env.indexes, cache);
        cache := looked.1;
        if looked.0.Ok? && looked.0.value.Some? {
          return looked.0.value;
        }
        i := i + 1;
      }
      return None;
    }

    /** The search loop of `install_from_repo`. */
    method SearchRepos(name: string, repos: seq<Repository>) returns (scan: Scan)
      modifies this`cache
      ensures (scan, cache) == RepoScan(name, repos, env.indexes, old(cache))
    {
      var i := 0;
      while i < |repos|
        invariant i <= |repos|
        invariant RepoScan(name, repos, env.indexes, old(cache)) == RepoScan(name, repos[i..], env.indexes, cache)
      {
        assert repos[i..][0] == repos[i] && repos[i..][1..] == repos[i + 1..];
        var searched := SearchPkg(name, repos[i], env.indexes, cache);
        cache := searched.1;
        match searched.0
        case Done(e) => return Hit(e);
        case Panic(cause) => return Abort(cause);
        case Fail(_) =>
        i := i + 1;
      }
      return Miss;
    }

    /** One dependency of `install_package_from_file`: skipped when installed; otherwise
        searched for in the configured repositories and installed by name. A failed nested
        install is skipped, so the only non-`Done` outcome is an abort. */
    method InstallMissing(q: PackageQuery, fuel: nat) returns (r: Exit<(), InstallError>)
      modifies this
      decreases fuel, 0
      ensures Grown()
      ensures r.Done? || r.Panic?
      ensures q.name in old(db) ==> r == Done(()) && unchanged(this)
      ensures q.name !in old(db) && env.config.None? ==> r == Panic(ConfigMissing)
      ensures (q.name !in old(db) && env.config.Some?
        && DependencyScan(q, RepoList(env.config.value, env.arch), env.indexes, old(cache)).0.None?) ==>
        r == Panic(DependencyNotFound(q.name))
      ensures (q.name !in old(db) && env.config.Some?
        && DependencyScan(q, RepoList(env.config.value, env.arch), env.indexes, old(cache)).0.Some?) ==>
        var found := DependencyScan(q, RepoList(env.config.value, env.arch), env.indexes, old(cache));
        if fuel == 0 then r == Panic(RecursionLimit)
        else exists nested ::
          && FromRepo(env, found.0.value.name, found.1, nested, old(trace), old(db), old(files), trace, db, files)
          && r == (if nested.Panic? then nested else Done(()))
      ensures r.Done? ==> q.name in db || Satisfiable(env, q)
    {
      if q.name in db {
        return Done(());
      }
      if env.config.None? {
        return Panic(ConfigMissing);
      }
      var repos := GetRepos(env.config.value, env.arch);
      var found := FindDependency(q, repos);
      if found.None? {
        return Panic(DependencyNotFound(q.name));
      }
      if fuel == 0 {
        return Panic(RecursionLimit);
      }
      ghost var searched := cache;
      var nested := InstallFromRepo(found.value.name, fuel - 1);
      assert FromRepo(env, found.value.name, searched, nested, old(trace), old(db), old(files), trace, db, files);
      if nested.Panic? {
        return nested;
      }
      return Done(());
    }

    /** The dependency loop of `install_package_from_file`: queries in order; one that
        does not parse is returned as an error. */
    method InstallDependencies(depens: seq<string>, fuel: nat) returns (r: Exit<(), InstallError>)
      modifies this
      decreases fuel, 1
      ensures Grown()
      ensures r.Done? ==> AllParsed(depens) && AllHandled(env, depens, db)
      ensures r.Fail? ==> FirstBadQuery(depens, r.error)
      ensures AllInstalled(depens, old(db)) ==> r == Done(()) && unchanged(this)
    {
      var i := 0;
      while i < |depens|
        invariant i <= |depens|
        invariant Grown()
        invariant forall k :: 0 <= k < i ==> Parse(depens[k]).Ok?
        invariant HandledUpTo(env, depens, i, db)
        invariant AllInstalled(depens, old(db)) ==> unchanged(this)
      {
        var parsed := Parse(depens[i]);
        if parsed.Err? {
          return Fail(BadQuery(parsed.error));
        }
        ghost var before := db;
        var step := InstallMissing(parsed.value, fuel);
        if step.Panic? {
          return step;
        }
        HandledStep(env, depens, i, before, db);
        assert forall k :: 0 <= k < i + 1 ==> Parse(depens[k]).Ok? by {
          forall k | 0 <= k < i + 1 ensures Parse(depens[k]).Ok? {
            if k == i { assert Parse(depens[k]) == parsed; }
          }
        }
        i := i + 1;
      }
      return Done(());
    }

    /** The effects after the dependencies: the install hook on the staging directory, the
        mask copy (which aborts without a mask tree), the package directory, its
        `package.list`, and last the database record (whose errors are only reported). */
    method Commit(staging: string, m: Manifest, mask: Option<seq<MaskEntry>>) returns (r: Exit<(), InstallError>)
      modifies this`trace, this`db
      ensures mask.None? ==> r == Panic(CopyFailed) && trace == old(trace) + [HookRun(staging)] && db == old(db)
      ensures mask.Some? ==>
        && r == Done(())
        && trace == old(trace) + CommitEvents(staging, m, ListLines(mask.value))
        && db == old(db)[m.name := Record(m.version, PackageDir(m))]
    {
      trace := trace + [HookRun(staging)];
      if mask.None? {
        return Panic(CopyFailed);
      }
      trace := trace + [MaskCopied(staging)];
      var dir := PackageDir(m);
      trace := trace + [DirCreated(dir)];
      // The mask tree exists (the copy needed it), so the list is always built.
      var list := CreatePackageList(mask);
      trace := trace + [ListWritten(dir, list.value)];
      db := db[m.name := Record(m.version, dir)];
      trace := trace + [Registered(m.name)];
      return Done(());
    }

    /** The steps of `install_package_from_file` for a package not yet installed: the
        dependencies, then the commit. */
    method InstallNew(staging: string, m: Manifest, mask: Option<seq<MaskEntry>>, fuel: nat) returns (r: Exit<(), InstallError>)
      modifies this
      decreases fuel, 2
      ensures Grown()
      ensures r.Fail? ==> FirstBadQuery(m.depens, r.error)
      ensures r.Done? ==> AllParsed(m.depens) && AllHandled(env, m.depens, db) && CommitState(staging, m, mask, trace, db)
    {
      var deps := InstallDependencies(m.depens, fuel);
      if !deps.Done? {
        return deps;
      }
      ghost var before, db0 := trace, db;
      r := Commit(staging, m, mask);
      if mask.Some? {
        CommitStateAfter(staging, m, mask, before, db0);
        AllHandledGrows(env, m.depens, db0, db);
        AppendGrows(before, before, CommitEvents(staging, m, ListLines(mask.value)));
      } else {
        AppendGrows(before, before, [HookRun(staging)]);
      }
      ExtendsTransitive(old(trace), old(db), old(files), before, db0, files, trace, db, files);
    }

    /** `install_package_from_file`. */
    method InstallPackageFromFile(path: string, fuel: nat) returns (r: Exit<(), InstallError>)
      modifies this
      decreases fuel, 3
      ensures Grown()
      ensures path !in old(files) ==> r == Panic(HashFailed) && unchanged(this)
      ensures path in old(files) && ManifestOf(env, old(files)[path]).Err? ==>
        r == Panic(ManifestUnreadable(ManifestOf(env, old(files)[path]).error)) && unchanged(this)
      ensures path in old(files) && ManifestOf(env, old(files)[path]).Ok? && ManifestOf(env, old(files)[path]).value.name in old(db) ==>
        r == Done(()) && unchanged(this)
      ensures r.Fail? ==> r.error.BadQuery?
      ensures r.Fail? ==>
        && path in old(files) && ManifestOf(env, old(files)[path]).Ok?
        && FirstBadQuery(ManifestOf(env, old(files)[path]).value.depens, r.error)
      ensures r.Done? && path in old(files) && ManifestOf(env, old(files)[path]).Ok? && ManifestOf(env, old(files)[path]).value.name !in old(db) ==>
        Committed(env, old(files)[path], trace, db)
    {
      var content := if path in files then Some(files[path]) else None;
      var hashed := HashPackage(content, env.digest, env.readSize);
      if hashed.Err? {
        return Panic(HashFailed);
      }
      var staging := StagingDir(env.tmpRoot, hashed.value);
      // Extraction errors are only reported; the manifest is read from whatever it left.
      var staged := env.unpack(content.value);
      var manifest := ParseManifest(staged.manifest);
      if manifest.Err? {
        return Panic(ManifestUnreadable(manifest.error));
      }
      var m := manifest.value;
      if m.name in db {
        return Done(());
      }
      r := InstallNew(staging, m, staged.mask, fuel);
    }

    /** The download and install step of `install_from_repo`: fetch the archive to
        `/tmp/<name>-<version>.kpkg` (a failure is returned), install it, and report an
        error of the nested install without returning it. */
    method InstallFetched(entry: Entry, fuel: nat) returns (r: Exit<(), InstallError>)
      modifies this
      decreases fuel, 4
      ensures Grown()
      ensures FetchUrl(entry.url, entry.url in env.archives).Err? ==>
        r == Fail(DownloadFailed(FetchUrl(entry.url, entry.url in env.archives).error)) && unchanged(this)
      ensures FetchUrl(entry.url, entry.url in env.archives).Ok? ==>
        Fetched(env, entry, r, old(trace), old(db), old(files), trace, db, files)
    {
      var dest := DownloadPath(entry);
      var fetched := FetchUrl(entry.url, entry.url in env.archives);
      if fetched.Err? {
        return Fail(DownloadFailed(fetched.error));
      }
      files := files[dest := env.archives[entry.url]];
      trace := trace + [Downloaded(entry.url, dest)];
      ghost var downloaded := trace;
      var installed := InstallPackageFromFile(dest, fuel);
      assert downloaded <= trace;
      if installed.Panic? {
        return installed;
      }
      return Done(());
    }

    /** `install_from_repo`. */
    method InstallFromRepo(name: string, fuel: nat) returns (r: Exit<(), InstallError>)
      modifies this
      decreases fuel, 5
      ensures Grown()
      ensures name in old(db) || env.config.None? ==> unchanged(this)
      ensures FromRepo(env, name, old(cache), r, old(trace), old(db), old(files), trace, db, files)
    {
      if name in db {
        return Done(());
      }
      if env.config.None? {
        return Panic(ConfigMissing);
      }
      var repos := GetRepos(env.config.value, env.arch);
      var scan := SearchRepos(name, repos);
      match scan {
        case Miss => return Fail(NotFoundInAnyRepo(name));
        case Abort(cause) => return Panic(SearchAborted(cause));
        case Hit(entry) =>
          r := InstallFetched(entry, fuel);
      }
    }
  }
}
