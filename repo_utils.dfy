/** Repository configuration, index fetching and index queries (`repo/utils.rs`).
    An index table is a sequence of `(name, version, path)` rows in the order queries visit them;
    the local copy of each repository's index lives in a cache keyed by file path. */
module RepoUtils {
  import opened Wrappers
  import opened Text
  import Dependencies

  datatype Repository = Repository(name: string, url: string)

  /** `DbPackageEntry`: one index row; the `path` column is read into `url`. */
  datatype Entry = Entry(name: string, version: string, url: string)

  /** One INI section as the INI parser returns it: an optional name and its properties. */
  datatype Section = Section(name: Option<string>, props: map<string, string>)

  /** The rows of the `packages` table in the order a query without `ORDER BY` visits them.
      With the `(name, version)` primary key SQLite reads such a query through that key's
      index, so this is not the order rows were stored in; the model leaves it open. */
  type Table = seq<Entry>

  /** Local files holding a fetched index, by path. */
  type Cache = map<string, Table>

  datatype RepoError =
    | InvalidUrl                          // `Url::parse` found no scheme
    | UnsupportedScheme                   // "Unsupported URL scheme"
    | TransferFailed                      // the download or copy itself failed
    | NoPackagesTable                     // the local index file holds no `packages` table
    | InvalidVersionFormat                // "Invalid version format"
    | InvalidDbVersionFormat              // "Invalid version format in database"
    | UnsupportedOperator                 // the operator is none of the five
    | NotInRepository(package: string, repo: string)  // `search_pkg` panics with this

  // ---- configuration: get_repos ----

  function SectionName(s: Section): string {
    if s.name.Some? then s.name.value else ""
  }

  function SectionUrl(s: Section): string {
    if "url" in s.props then s.props["url"] else ""
  }

  /** The URL template with every `$repo` replaced, and then every `$arch`. */
  function ExpandUrl(template: string, repo: string, arch: string): string {
    ReplaceAll(ReplaceAll(template, "$repo", repo), "$arch", arch)
  }

  /** The repository list `get_repos` builds, in section order. */
  function RepoList(sections: seq<Section>, arch: string): seq<Repository> {
    seq(|sections|, i requires 0 <= i < |sections| =>
      Repository(SectionName(sections[i]), ExpandUrl(SectionUrl(sections[i]), SectionName(sections[i]), arch)))
  }

  /** `get_repos` over the sections of the loaded configuration: one repository per
      section, in section order. */
  method GetRepos(sections: seq<Section>, arch: string) returns (repos: seq<Repository>)
    ensures |repos| == |sections|
    ensures forall i :: 0 <= i < |sections| ==>
      && repos[i].name == SectionName(sections[i])
      && repos[i].url == ExpandUrl(SectionUrl(sections[i]), SectionName(sections[i]), arch)
    ensures repos == RepoList(sections, arch)
  {
    repos := [];
    for i := 0 to |sections|
      invariant |repos| == i
      invariant forall k :: 0 <= k < i ==>
        && repos[k].name == SectionName(sections[k])
        && repos[k].url == ExpandUrl(SectionUrl(sections[k]), SectionName(sections[k]), arch)
    {
      var repoName := SectionName(sections[i]);
      var repoUrl := ExpandUrl(SectionUrl(sections[i]), repoName, arch);
      repos := repos + [Repository(repoName, repoUrl)];
    }
  }

  /** A template without `$` is left as it is. */
  lemma ExpandUrlWithoutPlaceholders(template: string, repo: string, arch: string)
    requires '$' !in template
    ensures ExpandUrl(template, repo, arch) == template
  {
    NoFirstCharNoMatch(template, "$repo");
    NoFirstCharNoMatch(template, "$arch");
  }

  /** A `$` that does not start `pat` cannot start a match of it. */
  lemma LoneDollarNoMatch(b: string, mid: string, c: string, pat: string)
    requires |pat| > 0 && pat[0] == '$' && '$' !in b && '$' !in c
    requires |mid| > 0 && mid[0] == '$' && '$' !in mid[1..]
    requires !(|pat| <= |mid| + |c| && (mid + c)[..|pat|] == pat)
    ensures !Contains(b + mid + c, pat)
  {
    var s := b + mid + c;
    forall j: nat | j <= |s| ensures !StartsAt(s, pat, j) {
      if j == |b| {
        assert s[j..] == mid + c;
      } else if j < |s| {
        assert s[j] != '$' by {
          if j < |b| { assert s[j] == b[j]; }
          else if j < |b| + |mid| { assert s[j] == mid[1..][j - |b| - 1]; }
          else { assert s[j] == c[j - |b| - |mid|]; }
        }
      }
    }
  }

  lemma ArchTailHasNoRepo(b: string, c: string)
    requires '$' !in b && '$' !in c
    ensures !Contains(b + "$arch" + c, "$repo")
  {
    assert "$arch"[1..] == "arch";
    LoneDollarNoMatch(b, "$arch", c, "$repo");
  }

  /** Both placeholders are substituted, when neither the fixed text nor the repository
      name holds a `$`. */
  lemma ExpandUrlBoth(a: string, b: string, c: string, repo: string, arch: string)
    requires '$' !in a && '$' !in b && '$' !in c && '$' !in repo
    ensures ExpandUrl(a + "$repo" + b + "$arch" + c, repo, arch) == a + repo + b + arch + c
  {
    var tail := b + "$arch" + c;
    assert a + "$repo" + b + "$arch" + c == a + "$repo" + tail;
    ReplaceAtFirst(a, "$repo", repo, tail);
    ArchTailHasNoRepo(b, c);
    assert ReplaceAll(a + "$repo" + b + "$arch" + c, "$repo", repo) == (a + repo + b) + "$arch" + c;
    ReplaceAtFirst(a + repo + b, "$arch", arch, c);
    NoFirstCharNoMatch(c, "$arch");
  }

  /** `$repo` goes first, so a repository name that itself holds `$arch` gets the
      architecture substituted into it as well. */
  lemma ExpandUrlSubstitutesIntoName(a: string, c: string, arch: string)
    requires '$' !in a && '$' !in c && '$' !in arch
    ensures ExpandUrl(a + "$repo" + c, "$arch", arch) == a + arch + c
  {
    ReplaceAtFirst(a, "$repo", "$arch", c);
    NoFirstCharNoMatch(c, "$repo");
    ReplaceAtFirst(a, "$arch", arch, c);
    NoFirstCharNoMatch(c, "$arch");
  }

  // ---- fetch_url: scheme dispatch ----

  predicate IsAsciiAlpha(c: char) {
    ('a' <= c <= 'z') || ('A' <= c <= 'Z')
  }

  predicate IsSchemeChar(c: char) {
    IsAsciiAlpha(c) || ('0' <= c <= '9') || c == '+' || c == '-' || c == '.'
  }

  function AsciiLower(s: string): (r: string)
    ensures |r| == |s|
    ensures forall i :: 0 <= i < |s| ==> !('A' <= r[i] <= 'Z')
  {
    seq(|s|, i requires 0 <= i < |s| => if 'A' <= s[i] <= 'Z' then (s[i] as int + 32) as char else s[i])
  }

  /** The scheme `Url::parse` reads: the text before the first `:`, a letter followed by
      letters, digits, `+`, `-` or `.`, lower-cased. `None` when there is none. */
  function UrlScheme(url: string): (r: Option<string>)
    ensures r.Some? ==> |r.value| > 0 && ':' in url
  {
    match FindChar(url, ':')
    case None => None
    case Some(i) =>
      var p := url[..i];
      if |p| > 0 && IsAsciiAlpha(p[0]) && forall c | c in p :: IsSchemeChar(c)
      then Some(AsciiLower(p)) else None
  }

  /** `fetch_url` with the transfer itself abstracted to `transferOk`: only `http`, `https`
      and `file` are fetched; any other scheme is refused. */
  function FetchUrl(url: string, transferOk: bool): (r: Result<(), RepoError>)
    ensures r.Ok? <==> UrlScheme(url).Some? && UrlScheme(url).value in {"http", "https", "file"} && transferOk
    ensures r == Err(UnsupportedScheme) <==> UrlScheme(url).Some? && UrlScheme(url).value !in {"http", "https", "file"}
    ensures r == Err(InvalidUrl) <==> UrlScheme(url).None?
  {
    match UrlScheme(url)
    case None => Err(InvalidUrl)
    case Some(scheme) =>
      if scheme == "http" || scheme == "https" || scheme == "file" then
        if transferOk then Ok(()) else Err(TransferFailed)
      else Err(UnsupportedScheme)
  }

  /** The scheme of `p:rest` when `p` is a well-formed scheme. */
  lemma UrlSchemeOf(p: string, rest: string)
    requires |p| > 0 && IsAsciiAlpha(p[0]) && forall c | c in p :: IsSchemeChar(c)
    requires ':' !in p
    ensures UrlScheme(p + ":" + rest) == Some(AsciiLower(p))
  {
    var url := p + ":" + rest;
    assert url[|p|] == ':';
    assert url[..|p|] == p;
    var i := FindChar(url, ':').value;
    assert forall j :: 0 <= j < |p| ==> url[j] == p[j];
    assert forall j :: 0 <= j < i ==> url[..i][j] == url[j];
  }

  /** Only `http`, `https` and `file` are fetched, whatever their letter case. */
  lemma FetchBySchemeCase()
    ensures FetchUrl("ftp:" + "//mirror", true) == Err(UnsupportedScheme)
    ensures FetchUrl("HTTPS:" + "//mirror", true) == Ok(())
  {
    UrlSchemeOf("ftp", "//mirror");
    assert "ftp" + ":" + "//mirror" == "ftp:" + "//mirror";
    assert AsciiLower("ftp") == "ftp";
    UrlSchemeOf("HTTPS", "//mirror");
    assert "HTTPS" + ":" + "//mirror" == "HTTPS:" + "//mirror";
    assert AsciiLower("HTTPS") == "https";
  }

  /** Fetching an index to `dest`: on success the local file holds what the URL serves
      (`served`, the index table behind each URL that can be transferred); on failure the
      local file is left as it was. */
  function FetchIndex(url: string, dest: string, served: map<string, Table>, cache: Cache): (out: (Result<(), RepoError>, Cache))
    ensures out.0 == FetchUrl(url, url in served)
    ensures out.0.Ok? ==> url in served && dest in out.1 && out.1[dest] == served[url]
    ensures out.0.Err? ==> out.1 == cache
    ensures out.1.Keys == if out.0.Ok? then cache.Keys + {dest} else cache.Keys
    ensures forall p :: p in cache && p != dest ==> out.1[p] == cache[p]
  {
    var r := FetchUrl(url, url in served);
    if r.Ok? then (r, cache[dest := served[url]]) else (r, cache)
  }

  // ---- paths ----

  /** The local copy of a repository's index. */
  function CachePath(repoName: string): string {
    "/tmp/" + repoName + ".db"
  }

  /** The index URL `find_package_by_version` and `search_pkg_with_ver` fetch. */
  function VersionedIndexUrl(url: string): string {
    url + "/packages.db"
  }

  /** The index URL `search_pkg` fetches: no `/` is inserted. */
  function LatestIndexUrl(url: string): string {
    url + "packages.db"
  }

  /** The two index URLs of one repository are never the same. */
  lemma IndexUrlsDiffer(url: string)
    ensures VersionedIndexUrl(url) != LatestIndexUrl(url)
    ensures LatestIndexUrl(url + "/") == VersionedIndexUrl(url)
  {
    assert |VersionedIndexUrl(url)| == |LatestIndexUrl(url)| + 1;
    assert url + "/" + "packages.db" == url + "/packages.db";
  }

  // ---- queries ----

  /** `SELECT ... WHERE name = ?1`, in the order the query visits rows. */
  function Rows(table: Table, name: string): (r: Table)
    ensures forall e :: e in r <==> e in table && e.name == name
    ensures |r| <= |table|
    decreases |table|
  {
    if |table| == 0 then []
    else
      var rest := Rows(table[1..], name);
      assert forall e :: e in table <==> e == table[0] || e in table[1..];
      if table[0].name == name then [table[0]] + rest else rest
  }

  /** The query keeps a single row exactly when it has the name. */
  lemma RowsOne(e: Entry, name: string)
    ensures Rows([e], name) == if e.name == name then [e] else []
  {
    assert [e][1..] == [];
  }

  /** The query keeps the order in which rows are visited: the rows of a concatenation are
      the rows of the first part followed by those of the second. */
  lemma {:induction false} RowsAppend(a: Table, b: Table, name: string)
    ensures Rows(a + b, name) == Rows(a, name) + Rows(b, name)
    decreases |a|
  {
    if |a| > 0 {
      assert (a + b)[0] == a[0];
      assert (a + b)[1..] == a[1..] + b;
      RowsAppend(a[1..], b, name);
    } else {
      assert a + b == b;
    }
  }

  /** `ORDER BY version DESC LIMIT 1` over the rows named `name`: a row whose version is
      greatest in text order (the first such row when two versions are equal). */
  function LatestByText(table: Table, name: string): (r: Option<Entry>)
    ensures r.None? <==> forall e :: e in table ==> e.name != name
    ensures r.Some? ==> r.value in table && r.value.name == name
    ensures r.Some? ==> forall e :: e in table && e.name == name ==> TextLe(e.version, r.value.version)
    decreases |table|
  {
    if |table| == 0 then None
    else
      var rest := LatestByText(table[1..], name);
      assert forall e :: e in table <==> e == table[0] || e in table[1..];
      if table[0].name != name then rest
      else if rest.None? then
        TextLeReflexive(table[0].version);
        Some(table[0])
      else
        var best := rest.value;
        TextLeTotal(best.version, table[0].version);
        TextLeReflexive(table[0].version);
        if TextLe(best.version, table[0].version) then
          assert forall e :: e in table[1..] && e.name == name ==> TextLe(e.version, table[0].version) by {
            forall e | e in table[1..] && e.name == name ensures TextLe(e.version, table[0].version) {
              TextLeTransitive(e.version, best.version, table[0].version);
            }
          }
          Some(table[0])
        else
          rest
  }

  /** `find_package` on the local index file `dbPath`. */
  function FindPackage(cache: Cache, dbPath: string, name: string): (r: Result<Option<Entry>, RepoError>)
    ensures dbPath !in cache <==> r == Err(NoPackagesTable)
    ensures dbPath in cache ==> r.Ok?
    ensures r.Ok? ==> r.value == LatestByText(cache[dbPath], name)
  {
    if dbPath !in cache then Err(NoPackagesTable) else Ok(LatestByText(cache[dbPath], name))
  }

  /** Text order is not version order: `9.0` sorts above `10.0`, so it is the one picked. */
  lemma LatestByTextIsNotNumeric(u1: string, u2: string)
    ensures LatestByText([Entry("p", "10.0", u1), Entry("p", "9.0", u2)], "p") == Some(Entry("p", "9.0", u2))
  {
    var t := [Entry("p", "10.0", u1), Entry("p", "9.0", u2)];
    assert t[1..] == [Entry("p", "9.0", u2)];
    assert t[1..][1..] == [];
    assert !TextLe("9.0", "10.0");
  }

  // ---- find_package_with_ver ----

  /** The order of `version_compare::Version`, abstracted: `parse` maps a version string to a
      point of a total order, or to `None` when the string does not parse. */
  function Key(parse: string -> Option<real>, v: string): real {
    match parse(v)
    case Some(x) => x
    case None => 0.0
  }

  predicate AllParse(rows: Table, parse: string -> Option<real>) {
    forall j :: 0 <= j < |rows| ==> parse(rows[j].version).Some?
  }

  /** `rows[k]` is the row `find_package_with_ver` keeps: at least `min`, no row at least
      `min` above it, and every row at least `min` before it strictly below it. */
  predicate EarliestMax(rows: Table, k: nat, min: real, parse: string -> Option<real>)
    requires k < |rows|
  {
    && Key(parse, rows[k].version) >= min
    && (forall j :: 0 <= j < |rows| && Key(parse, rows[j].version) >= min ==> Key(parse, rows[j].version) <= Key(parse, rows[k].version))
    && (forall j :: 0 <= j < k && Key(parse, rows[j].version) >= min ==> Key(parse, rows[j].version) < Key(parse, rows[k].version))
  }

  /** What the scan of `find_package_with_ver` knows after the first `i` rows: they all
      parsed; nothing is kept when none reached `min`; otherwise `rows[best]` is kept. */
  predicate ScanInv(rows: Table, i: nat, latest: Option<Entry>, best: nat, min: real, parse: string -> Option<real>) {
    && i <= |rows|
    && AllParse(rows[..i], parse)
    && (latest.None? ==> forall j :: 0 <= j < i ==> Key(parse, rows[j].version) < min)
    && (latest.Some? ==> best < i && rows[best] == latest.value && EarliestMax(rows[..i], best, min, parse))
  }

  /** A row below `min`, or not above the kept one, leaves the kept row in place. */
  lemma ScanKeep(rows: Table, i: nat, latest: Option<Entry>, best: nat, min: real, parse: string -> Option<real>)
    requires ScanInv(rows, i, latest, best, min, parse) && i < |rows|
    requires parse(rows[i].version).Some?
    requires Key(parse, rows[i].version) < min
      || (latest.Some? && Key(parse, rows[i].version) <= Key(parse, latest.value.version))
    ensures ScanInv(rows, i + 1, latest, best, min, parse)
  {
    assert rows[..i + 1] == rows[..i] + [rows[i]];
  }

  /** A row at least `min` and above the kept one (or the first such row) is kept instead. */
  lemma ScanReplace(rows: Table, i: nat, latest: Option<Entry>, best: nat, min: real, parse: string -> Option<real>)
    requires ScanInv(rows, i, latest, best, min, parse) && i < |rows|
    requires parse(rows[i].version).Some? && Key(parse, rows[i].version) >= min
    requires latest.Some? ==> Key(parse, rows[i].version) > Key(parse, latest.value.version)
    ensures ScanInv(rows, i + 1, Some(rows[i]), i, min, parse)
  {
    assert rows[..i + 1] == rows[..i] + [rows[i]];
  }

  /** A row that does not parse means the rows do not all parse. */
  lemma ScanUnparsed(rows: Table, i: nat, parse: string -> Option<real>)
    requires i < |rows| && parse(rows[i].version).None?
    ensures !AllParse(rows, parse)
  {
  }

  /** At the end of the scan the kept row is the answer. */
  lemma ScanDone(rows: Table, latest: Option<Entry>, best: nat, min: real, parse: string -> Option<real>)
    requires ScanInv(rows, |rows|, latest, best, min, parse)
    ensures AllParse(rows, parse)
    ensures latest.None? <==> forall e :: e in rows ==> Key(parse, e.version) < min
    ensures latest.Some? ==> exists k :: 0 <= k < |rows| && rows[k] == latest.value && EarliestMax(rows, k, min, parse)
  {
    assert rows[..|rows|] == rows;
    if latest.Some? {
      assert Key(parse, rows[best].version) >= min;
    }
  }

  /** `find_package_with_ver`: scan the rows named `name` and keep the greatest version at
      least `version`; a later row replaces the kept one only when strictly greater. */
  method FindPackageWithVer(table: Table, name: string, version: string, parse: string -> Option<real>)
    returns (r: Result<Option<Entry>, RepoError>)
    ensures parse(version).None? <==> r == Err(InvalidVersionFormat)
    ensures r == Err(InvalidDbVersionFormat) <==> parse(version).Some? && !AllParse(Rows(table, name), parse)
    ensures r == Ok(None) <==>
      && parse(version).Some? && AllParse(Rows(table, name), parse)
      && forall e :: e in Rows(table, name) ==> Key(parse, e.version) < parse(version).value
    ensures r.Err? ==> r == Err(InvalidVersionFormat) || r == Err(InvalidDbVersionFormat)
    ensures r.Ok? && r.value.Some? ==> parse(version).Some? && exists k ::
      && 0 <= k < |Rows(table, name)| && Rows(table, name)[k] == r.value.value
      && EarliestMax(Rows(table, name), k, parse(version).value, parse)
  {
    var minVersion := parse(version);
    if minVersion.None? {
      return Err(InvalidVersionFormat);
    }
    var min := minVersion.value;
    var rows := Rows(table, name);
    var latest: Option<Entry> := None;
    ghost var best: nat := 0;
    var i := 0;
    while i < |rows|
      invariant ScanInv(rows, i, latest, best, min, parse)
    {
      var entry := rows[i];
      var entryVersion := parse(entry.version);
      if entryVersion.None? {
        ScanUnparsed(rows, i, parse);
        return Err(InvalidDbVersionFormat);
      }
      // A kept row parsed when it was kept, so parsing it again cannot fail.
      var replace := entryVersion.value >= min
        && (latest.None? || entryVersion.value > parse(latest.value.version).value);
      if replace {
        ScanReplace(rows, i, latest, best, min, parse);
        latest := Some(entry);
        best := i;
      } else {
        ScanKeep(rows, i, latest, best, min, parse);
      }
      i := i + 1;
    }
    ScanDone(rows, latest, best, min, parse);
    return Ok(latest);
  }

  // ---- find_package_by_version ----

  datatype CmpOp = Eq | Lt | Gt | Le | Ge

  /** The `match` on the operator text that selects the SQL query. */
  function OperatorOf(op: string): Option<CmpOp> {
    if op == "=" then Some(Eq)
    else if op == "<" then Some(Lt)
    else if op == ">" then Some(Gt)
    else if op == "<=" then Some(Le)
    else if op == ">=" then Some(Ge)
    else None
  }

  /** `version <op> ?2` in SQL, a comparison of TEXT values. */
  predicate TextSatisfies(o: CmpOp, rowVersion: string, wanted: string) {
    match o
    case Eq => rowVersion == wanted
    case Lt => TextLt(rowVersion, wanted)
    case Gt => TextLt(wanted, rowVersion)
    case Le => TextLe(rowVersion, wanted)
    case Ge => TextLe(wanted, rowVersion)
  }

  predicate Selected(e: Entry, name: string, o: CmpOp, wanted: string) {
    e.name == name && TextSatisfies(o, e.version, wanted)
  }

  /** The first row of the operator's query result, in the order the query visits rows. */
  function FirstSatisfying(table: Table, name: string, o: CmpOp, wanted: string): (r: Option<Entry>)
    ensures r.None? <==> forall j :: 0 <= j < |table| ==> !Selected(table[j], name, o, wanted)
    ensures r.Some? ==> exists k ::
      && 0 <= k < |table| && table[k] == r.value && Selected(table[k], name, o, wanted)
      && forall j :: 0 <= j < k ==> !Selected(table[j], name, o, wanted)
    decreases |table|
  {
    if |table| == 0 then None
    else if Selected(table[0], name, o, wanted) then Some(table[0])
    else
      var r := FirstSatisfying(table[1..], name, o, wanted);
      assert forall j :: 1 <= j < |table| ==> table[j] == table[1..][j - 1];
      assert r.Some? ==> exists k ::
        && 0 <= k < |table| && table[k] == r.value && Selected(table[k], name, o, wanted)
        && forall j :: 0 <= j < k ==> !Selected(table[j], name, o, wanted) by {
        if r.Some? {
          var k :|
            && 0 <= k < |table| - 1 && table[1..][k] == r.value && Selected(table[1..][k], name, o, wanted)
            && forall j :: 0 <= j < k ==> !Selected(table[1..][j], name, o, wanted);
          assert table[k + 1] == r.value;
        }
      }
      r
  }

  /** The rows named `name` are visited in ascending version text, as a scan of the
      `(name, version)` index visits them. */
  predicate AscendingVersions(table: Table, name: string) {
    forall i, j :: 0 <= i < j < |table| && table[i].name == name && table[j].name == name ==>
      TextLe(table[i].version, table[j].version)
  }

  /** When the rows of the name are visited in ascending version order, the first satisfying
      row has the lowest version among the satisfying rows. */
  lemma FirstSatisfyingIsLowest(table: Table, name: string, o: CmpOp, wanted: string)
    requires AscendingVersions(table, name)
    ensures var r := FirstSatisfying(table, name, o, wanted);
      r.Some? ==> forall j :: 0 <= j < |table| && Selected(table[j], name, o, wanted) ==>
        TextLe(r.value.version, table[j].version)
  {
    var r := FirstSatisfying(table, name, o, wanted);
    if r.Some? {
      var k :|
        && 0 <= k < |table| && table[k] == r.value && Selected(table[k], name, o, wanted)
        && forall j :: 0 <= j < k ==> !Selected(table[j], name, o, wanted);
      forall j | 0 <= j < |table| && Selected(table[j], name, o, wanted)
        ensures TextLe(r.value.version, table[j].version)
      {
        if j == k { TextLeReflexive(r.value.version); }
      }
    }
  }

  /** `find_package_by_version`: fetch the index (a failure is returned), then refuse an
      unknown operator, then take the first row named `name` whose version text satisfies
      the operator. */
  function FindPackageByVersion(name: string, version: string, op: string, repo: Repository,
                                served: map<string, Table>, cache: Cache)
    : (out: (Result<Option<Entry>, RepoError>, Cache))
    ensures FetchUrl(VersionedIndexUrl(repo.url), VersionedIndexUrl(repo.url) in served).Err? ==>
      && out.0 == Err(FetchUrl(VersionedIndexUrl(repo.url), VersionedIndexUrl(repo.url) in served).error)
      && out.1 == cache
    ensures FetchUrl(VersionedIndexUrl(repo.url), VersionedIndexUrl(repo.url) in served).Ok? ==>
      (out.0.Ok? <==> OperatorOf(op).Some?)
    ensures out.0.Ok? ==> OperatorOf(op).Some? && VersionedIndexUrl(repo.url) in served
    ensures out.0.Ok? ==> out.0.value == FirstSatisfying(served[VersionedIndexUrl(repo.url)], name, OperatorOf(op).value, version)
    ensures out.1 == FetchIndex(VersionedIndexUrl(repo.url), CachePath(repo.name), served, cache).1
  {
    var dbPath := CachePath(repo.name);
    var link := VersionedIndexUrl(repo.url);
    var (fetched, cache') := FetchIndex(link, dbPath, served, cache);
    if fetched.Err? then (Err(fetched.error), cache')
    else
      match OperatorOf(op)
      case None => (Err(UnsupportedOperator), cache')
      case Some(o) => (Ok(FirstSatisfying(cache'[dbPath], name, o, version)), cache')
  }

  /** The lookup accepts exactly the operators the query parser knows. */
  lemma OperatorOfKnowsParserOperators(op: string)
    ensures OperatorOf(op).Some? <==> op in Dependencies.Operators
  {
  }

  /** Every operator the query parser can produce is one the lookup accepts. */
  lemma ParsedOperatorIsAccepted(query: string)
    requires Dependencies.Parse(query).Ok?
    ensures OperatorOf(Dependencies.Parse(query).value.comparisonOperator).Some?
  {
    Dependencies.ParseSuccess(query);
    var op := Dependencies.Parse(query).value.comparisonOperator;
    assert Dependencies.ChosenOperator(query, op);
    var k :| 0 <= k < |Dependencies.Operators| && Dependencies.Operators[k] == op;
    OperatorOfKnowsParserOperators(op);
  }

  /** The lookup returns the first satisfying row, not the highest: over rows `1.5.0`,
      `2.0.0`, `2.3.1`, the constraint `>= 2.0.0` yields `2.0.0`. */
  lemma FirstSatisfyingIsNotHighest(u1: string, u2: string, u3: string)
    ensures FirstSatisfying([Entry("pkg", "1.5.0", u1), Entry("pkg", "2.0.0", u2), Entry("pkg", "2.3.1", u3)],
                            "pkg", Ge, "2.0.0") == Some(Entry("pkg", "2.0.0", u2))
  {
    var t := [Entry("pkg", "1.5.0", u1), Entry("pkg", "2.0.0", u2), Entry("pkg", "2.3.1", u3)];
    assert !TextLe("2.0.0", "1.5.0");
    TextLeReflexive("2.0.0");
    assert t[1..][0] == Entry("pkg", "2.0.0", u2);
  }

  // ---- search_pkg / search_pkg_with_ver ----

  /** `search_pkg`: fetch `url + "packages.db"` and ignore a failure, then look the name up in
      whatever the local index file holds; a missing name aborts the process. */
  function SearchPkg(name: string, repo: Repository, served: map<string, Table>, cache: Cache)
    : (out: (Exit<Entry, RepoError>, Cache))
    ensures out.1 == FetchIndex(LatestIndexUrl(repo.url), CachePath(repo.name), served, cache).1
    ensures out.0 == Fail(NoPackagesTable) <==> CachePath(repo.name) !in out.1
    ensures out.0.Fail? ==> out.0 == Fail(NoPackagesTable) && out.1 == cache
    ensures out.0.Panic? <==> CachePath(repo.name) in out.1 && forall e :: e in out.1[CachePath(repo.name)] ==> e.name != name
    ensures out.0.Done? ==> out.0.value == LatestByText(out.1[CachePath(repo.name)], name).value
  {
    var dbPath := CachePath(repo.name);
    var (_, cache') := FetchIndex(LatestIndexUrl(repo.url), dbPath, served, cache);
    match FindPackage(cache', dbPath, name)
    case Err(e) => (Fail(e), cache')
    case Ok(None) => (Panic(NotInRepository(name, repo.name)), cache')
    case Ok(Some(entry)) => (Done(entry), cache')
  }

  /** `search_pkg` reads a stale copy when its own fetch fails. */
  lemma SearchPkgUsesStaleCopy(name: string, repo: Repository, served: map<string, Table>, cache: Cache)
    requires LatestIndexUrl(repo.url) !in served && CachePath(repo.name) in cache
    requires exists e :: e in cache[CachePath(repo.name)] && e.name == name
    ensures SearchPkg(name, repo, served, cache).0 == Done(LatestByText(cache[CachePath(repo.name)], name).value)
  {
  }

  /** `search_pkg_with_ver`: as `search_pkg`, but over `url + "/packages.db"` and with a
      minimum version. */
  method SearchPkgWithVer(name: string, repo: Repository, version: string, served: map<string, Table>,
                          cache: Cache, parse: string -> Option<real>)
    returns (r: Exit<Entry, RepoError>, cache': Cache)
    ensures cache' == FetchIndex(VersionedIndexUrl(repo.url), CachePath(repo.name), served, cache).1
    ensures CachePath(repo.name) !in cache' ==> r == Fail(NoPackagesTable)
    ensures r.Done? ==> CachePath(repo.name) in cache' && exists k ::
      && 0 <= k < |Rows(cache'[CachePath(repo.name)], name)| && Rows(cache'[CachePath(repo.name)], name)[k] == r.value
      && parse(version).Some? && EarliestMax(Rows(cache'[CachePath(repo.name)], name), k, parse(version).value, parse)
    ensures r.Panic? ==> r.cause == NotInRepository(name, repo.name)
    ensures r.Fail? ==> r.error in {NoPackagesTable, InvalidVersionFormat, InvalidDbVersionFormat}
    ensures CachePath(repo.name) in cache' ==>
      var rows := Rows(cache'[CachePath(repo.name)], name);
      && (r == Fail(InvalidVersionFormat) <==> parse(version).None?)
      && (r == Fail(InvalidDbVersionFormat) <==> parse(version).Some? && !AllParse(rows, parse))
      && (r.Panic? <==>
            && parse(version).Some? && AllParse(rows, parse)
            && forall e :: e in rows ==> Key(parse, e.version) < parse(version).value)
  {
    var dbPath := CachePath(repo.name);
    var fetched := FetchIndex(VersionedIndexUrl(repo.url), dbPath, served, cache);
    cache' := fetched.1;
    if dbPath !in cache' {
      return Fail(NoPackagesTable), cache';
    }
    var found := FindPackageWithVer(cache'[dbPath], name, version, parse);
    match found
    case Err(e) => r := Fail(e);
    case Ok(None) => r := Panic(NotInRepository(name, repo.name));
    case Ok(Some(entry)) => r := Done(entry);
  }
}
