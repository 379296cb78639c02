/** Building a repository index (`repo/gen.rs`): the index row each package file yields,
    and the upsert of rows into the `packages` table keyed by `(name, version)`. */
module RepoGen {
  import opened Wrappers
  import opened Text
  import opened RepoUtils

  /** A walked directory entry: its file name, whether it is a regular file, and its
      canonical absolute path. */
  datatype WalkEntry = WalkEntry(fileName: string, isFile: bool, canonical: string)

  /** `Path::extension`: the text after the last `.`, unless there is no `.`, the only one
      starts the name, or the name is `..`. */
  function Extension(fileName: string): (r: Option<string>)
    ensures r.Some? ==> '.' in fileName && '.' !in r.value
    ensures r.None? <==> fileName == ".." || forall i :: 0 < i < |fileName| ==> fileName[i] != '.'
    ensures r.Some? ==> exists i ::
      && 0 < i < |fileName| && fileName[i] == '.' && '.' !in fileName[i + 1..]
      && r.value == fileName[i + 1..]
  {
    if fileName == ".." then None
    else match RFindChar(fileName, '.')
      case None => None
      case Some(i) =>
        assert forall j :: i < j < |fileName| ==> fileName[j] == fileName[i + 1..][j - i - 1];
        if i == 0 then None else Some(fileName[i + 1..])
  }

  /** Only regular files named `*.kpkg` are indexed. */
  predicate Indexed(e: WalkEntry) {
    e.isFile && Extension(e.fileName) == Some("kpkg")
  }

  /** `split('-').next()`: the text before the first `-`, or all of it. */
  function NameOf(fileName: string): (r: string)
    ensures '-' !in r
    ensures '-' !in fileName ==> r == fileName
    ensures '-' in fileName ==> |r| < |fileName| && fileName[|r|] == '-' && fileName[..|r|] == r
  {
    match FindChar(fileName, '-')
    case None => fileName
    case Some(i) => fileName[..i]
  }

  /** `rsplitn(2, '-').next()` then `rsplitn(2, '.').nth(1)`: in the text after the last
      `-`, the part before its last `.`, or `""` when it has no `.`. */
  function VersionOf(fileName: string): (r: string)
    ensures '-' !in r
  {
    var segment := match RFindChar(fileName, '-')
      case None => fileName
      case Some(i) => fileName[i + 1..];
    match RFindChar(segment, '.')
    case None => ""
    case Some(j) =>
      assert forall c :: c in segment[..j] ==> c in segment;
      segment[..j]
  }

  /** The index row of a package file; its path column is a `file://` URL. */
  function IndexRow(e: WalkEntry): Entry {
    Entry(NameOf(e.fileName), VersionOf(e.fileName), "file://" + e.canonical)
  }

  /** A `c` at `k` with none before it is what `FindChar` finds. */
  lemma FindCharAt(s: string, c: char, k: nat)
    requires k < |s| && s[k] == c && c !in s[..k]
    ensures FindChar(s, c) == Some(k)
  {
    var i := FindChar(s, c).value;
    assert forall j :: 0 <= j < i ==> s[..i][j] == s[j];
    assert forall j :: 0 <= j < k ==> s[..k][j] == s[j];
  }

  /** A `c` at `k` with none after it is what `RFindChar` finds. */
  lemma RFindCharAt(s: string, c: char, k: nat)
    requires k < |s| && s[k] == c && c !in s[k + 1..]
    ensures RFindChar(s, c) == Some(k)
  {
    var i := RFindChar(s, c).value;
    assert forall j :: i < j < |s| ==> s[i + 1..][j - i - 1] == s[j];
    assert forall j :: k < j < |s| ==> s[k + 1..][j - k - 1] == s[j];
  }

  /** A name whose last `.` is at `k > 0`, with text after it, has that text as extension. */
  lemma ExtensionAt(f: string, k: nat)
    requires 0 < k && k + 1 < |f| && f[k] == '.' && '.' !in f[k + 1..]
    ensures Extension(f) == Some(f[k + 1..])
  {
    RFindCharAt(f, '.', k);
    assert |f| != 2;
  }

  /** The name is whatever precedes the first `-`. */
  lemma NameBeforeDash(a: string, f: string)
    requires '-' !in a && |a| < |f| && f[..|a|] == a && f[|a|] == '-'
    ensures NameOf(f) == a
  {
    FindCharAt(f, '-', |a|);
  }

  /** The characters of the package suffix. */
  lemma SuffixChars()
    ensures ".kpkg"[0] == '.' && ".kpkg"[1..] == "kpkg"
    ensures '.' !in "kpkg" && '-' !in ".kpkg"
  {
  }

  /** The version is what lies between the last `-` and the `.kpkg` suffix. */
  lemma VersionBeforeSuffix(prefix: string, version: string)
    requires '-' !in version
    ensures VersionOf(prefix + "-" + version + ".kpkg") == version
  {
    var f := prefix + "-" + version + ".kpkg";
    var tail := version + ".kpkg";
    SuffixChars();
    assert f == prefix + "-" + tail;
    assert f[|prefix| + 1..] == tail;
    assert '-' !in tail;
    RFindCharAt(f, '-', |prefix|);
    assert tail[|version|] == '.' && tail[|version| + 1..] == "kpkg" && tail[..|version|] == version;
    RFindCharAt(tail, '.', |version|);
  }

  /** A non-empty stem followed by `.kpkg` has the extension `kpkg`. */
  lemma KpkgExtension(stem: string)
    requires stem != ""
    ensures Extension(stem + ".kpkg") == Some("kpkg")
  {
    var f := stem + ".kpkg";
    SuffixChars();
    assert f[|stem|] == '.' && f[|stem| + 1..] == "kpkg";
    ExtensionAt(f, |stem|);
  }

  /** Round trip: a file named `name-version.kpkg` (neither part holding `-`) is indexed
      and yields back that name and version. */
  lemma FileNameRoundTrip(name: string, version: string)
    requires '-' !in name && '-' !in version
    ensures Extension(name + "-" + version + ".kpkg") == Some("kpkg")
    ensures NameOf(name + "-" + version + ".kpkg") == name
    ensures VersionOf(name + "-" + version + ".kpkg") == version
  {
    var f := name + "-" + version + ".kpkg";
    assert f[..|name|] == name && f[|name|] == '-';
    NameBeforeDash(name, f);
    VersionBeforeSuffix(name, version);
    KpkgExtension(name + "-" + version);
  }

  /** Only the first and last dash-separated segments matter: `a-b-v.kpkg` is named `a`
      at version `v`, whatever `b` is. */
  lemma MiddleSegmentsDropped(a: string, b: string, version: string)
    requires '-' !in a && '-' !in version
    ensures NameOf(a + "-" + b + "-" + version + ".kpkg") == a
    ensures VersionOf(a + "-" + b + "-" + version + ".kpkg") == version
  {
    var f := a + "-" + b + "-" + version + ".kpkg";
    assert f[..|a|] == a && f[|a|] == '-';
    NameBeforeDash(a, f);
    VersionBeforeSuffix(a + "-" + b, version);
  }

  /** Without a `-` the whole file name is the name, and the version is what precedes its
      last `.`: `n.kpkg` is named `n.kpkg` at version `n`. */
  lemma NoDashName(n: string)
    requires '-' !in n
    ensures NameOf(n + ".kpkg") == n + ".kpkg"
    ensures VersionOf(n + ".kpkg") == n
  {
    var f := n + ".kpkg";
    SuffixChars();
    assert '-' !in f;
    assert f[|n|] == '.' && f[|n| + 1..] == "kpkg" && f[..|n|] == n;
    RFindCharAt(f, '.', |n|);
  }

  // ---- write_repo_db ----

  predicate SameKey(a: Entry, b: Entry) {
    a.name == b.name && a.version == b.version
  }

  /** The `(name, version)` primary key holds. */
  predicate UniqueKeys(t: Table) {
    forall i, j :: 0 <= i < j < |t| ==> !SameKey(t[i], t[j])
  }

  /** The rows whose key differs from `e`'s, in order. */
  function OtherKeys(t: Table, e: Entry): (r: Table)
    ensures forall x :: x in r <==> x in t && !SameKey(x, e)
    ensures forall k :: 0 <= k < |r| ==> !SameKey(r[k], e)
    decreases |t|
  {
    if |t| == 0 then []
    else
      var rest := OtherKeys(t[1..], e);
      assert forall x :: x in t <==> x == t[0] || x in t[1..];
      if SameKey(t[0], e) then rest else [t[0]] + rest
  }

  lemma TailUnique(t: Table)
    requires |t| > 0 && UniqueKeys(t)
    ensures UniqueKeys(t[1..])
  {
    forall i, j | 0 <= i < j < |t| - 1 ensures !SameKey(t[1..][i], t[1..][j]) {
      assert t[1..][i] == t[i + 1] && t[1..][j] == t[j + 1];
    }
  }

  /** A row whose key no other row has can go in front. */
  lemma ConsUnique(x: Entry, rest: Table)
    requires UniqueKeys(rest) && forall k :: 0 <= k < |rest| ==> !SameKey(x, rest[k])
    ensures UniqueKeys([x] + rest)
  {
    var r := [x] + rest;
    forall i, j | 0 <= i < j < |r| ensures !SameKey(r[i], r[j]) {
      assert r[j] == rest[j - 1];
      if i > 0 { assert r[i] == rest[i - 1]; }
    }
  }

  /** The first row's key is not among the later rows'. */
  lemma HeadKeyUnique(t: Table, rest: Table)
    requires |t| > 0 && UniqueKeys(t) && forall x :: x in rest ==> x in t[1..]
    ensures forall k :: 0 <= k < |rest| ==> !SameKey(t[0], rest[k])
  {
    forall k | 0 <= k < |rest| ensures !SameKey(t[0], rest[k]) {
      assert rest[k] in rest;
      var j :| 0 <= j < |t[1..]| && t[1..][j] == rest[k];
      assert t[j + 1] == rest[k];
    }
  }

  /** Dropping the rows of one key keeps the primary key. */
  lemma {:induction false} OtherKeysUnique(t: Table, e: Entry)
    requires UniqueKeys(t)
    ensures UniqueKeys(OtherKeys(t, e))
    decreases |t|
  {
    if |t| > 0 {
      TailUnique(t);
      OtherKeysUnique(t[1..], e);
      if !SameKey(t[0], e) {
        var rest := OtherKeys(t[1..], e);
        HeadKeyUnique(t, rest);
        ConsUnique(t[0], rest);
      }
    }
  }

  /** `INSERT OR REPLACE`: the row with `e`'s key, if any, is deleted and `e` appended. */
  function Upsert(t: Table, e: Entry): (r: Table)
    ensures |r| > 0 && r[|r| - 1] == e
    ensures forall k :: 0 <= k < |r| - 1 ==> !SameKey(r[k], e)
    ensures forall x :: x in r && !SameKey(x, e) <==> x in t && !SameKey(x, e)
    ensures UniqueKeys(t) ==> UniqueKeys(r)
  {
    var kept := OtherKeys(t, e);
    var r := kept + [e];
    assert forall k :: 0 <= k < |kept| ==> r[k] == kept[k];
    if UniqueKeys(t) then OtherKeysUnique(t, e); r else r
  }

  /** After the upsert exactly one row has `e`'s key, and it is `e`. */
  lemma UpsertOneRowPerKey(t: Table, e: Entry, x: Entry)
    requires x in Upsert(t, e) && SameKey(x, e)
    ensures x == e
  {
    var r := Upsert(t, e);
    var k :| 0 <= k < |r| && r[k] == x;
  }

  // ---- generate_repo ----

  /** The table after upserting the indexed entries of `walk`, in order, into an empty one. */
  function BuildIndex(walk: seq<WalkEntry>): (r: Table)
    ensures UniqueKeys(r)
    decreases |walk|
  {
    if |walk| == 0 then []
    else
      var t := BuildIndex(walk[..|walk| - 1]);
      if Indexed(walk[|walk| - 1]) then Upsert(t, IndexRow(walk[|walk| - 1])) else t
  }

  /** The row a walk entry offers to the index, if it is indexed. */
  function Offer(e: WalkEntry): Option<Entry> {
    if Indexed(e) then Some(IndexRow(e)) else None
  }

  /** The rows the entries of a walk offer, in walk order. */
  function Offers(walk: seq<WalkEntry>): (rows: seq<Option<Entry>>)
    ensures |rows| == |walk|
    ensures forall k :: 0 <= k < |walk| ==> rows[k] == Offer(walk[k])
    decreases |walk|
  {
    if |walk| == 0 then [] else Offers(walk[..|walk| - 1]) + [Offer(walk[|walk| - 1])]
  }

  /** Offer `k` is the last one with its key: no later offer overwrites its row. */
  predicate LastWithKey(rows: seq<Option<Entry>>, k: nat)
    requires k < |rows| && rows[k].Some?
  {
    forall j :: k < j < |rows| && rows[j].Some? ==> !SameKey(rows[j].value, rows[k].value)
  }

  /** `x` is offered by an entry whose row no later entry overwrites. */
  predicate Survives(rows: seq<Option<Entry>>, x: Entry) {
    exists k :: 0 <= k < |rows| && rows[k] == Some(x) && LastWithKey(rows, k)
  }

  lemma LastWithKeyExtend(rows: seq<Option<Entry>>, o: Option<Entry>, k: nat)
    requires k < |rows| && rows[k].Some?
    ensures LastWithKey(rows + [o], k) <==>
      LastWithKey(rows, k) && (o.Some? ==> !SameKey(o.value, rows[k].value))
  {
    var s := rows + [o];
    assert forall j :: 0 <= j < |rows| ==> s[j] == rows[j];
    assert s[|rows|] == o;
  }

  /** One more offer: its row, if any, survives and displaces the rows of its key. */
  lemma SurvivesExtend(rows: seq<Option<Entry>>, o: Option<Entry>, x: Entry)
    ensures Survives(rows + [o], x) <==>
      if o.Some? then x == o.value || (Survives(rows, x) && !SameKey(x, o.value))
      else Survives(rows, x)
  {
    var s := rows + [o];
    assert s[|rows|] == o;
    if Survives(s, x) {
      var k :| 0 <= k < |s| && s[k] == Some(x) && LastWithKey(s, k);
      if k < |rows| {
        assert s[k] == rows[k];
        LastWithKeyExtend(rows, o, k);
      }
    }
    if Survives(rows, x) && (o.Some? ==> !SameKey(x, o.value)) {
      var k :| 0 <= k < |rows| && rows[k] == Some(x) && LastWithKey(rows, k);
      LastWithKeyExtend(rows, o, k);
      assert s[k] == rows[k];
    }
    if o.Some? && x == o.value {
      assert LastWithKey(s, |rows|);
    }
  }

  /** Last wins: the index holds exactly the row of the last indexed entry of each key. */
  lemma {:induction false} BuildIndexLastWins(walk: seq<WalkEntry>)
    ensures forall x :: x in BuildIndex(walk) <==> Survives(Offers(walk), x)
    decreases |walk|
  {
    if |walk| > 0 {
      var w := walk[..|walk| - 1];
      var e := walk[|walk| - 1];
      BuildIndexLastWins(w);
      assert Offers(walk) == Offers(w) + [Offer(e)];
      forall x ensures x in BuildIndex(walk) <==> Survives(Offers(walk), x) {
        SurvivesExtend(Offers(w), Offer(e), x);
        if Indexed(e) && x in BuildIndex(walk) && SameKey(x, IndexRow(e)) {
          UpsertOneRowPerKey(BuildIndex(w), IndexRow(e), x);
        }
      }
    }
  }

  /** `generate_repo`: the index file is truncated, then every indexed entry is upserted in
      walk order. */
  method GenerateRepo(walk: seq<WalkEntry>) returns (table: Table)
    ensures table == BuildIndex(walk)
    ensures UniqueKeys(table)
    ensures forall x :: x in table <==> Survives(Offers(walk), x)
  {
    table := [];
    for i := 0 to |walk|
      invariant table == BuildIndex(walk[..i])
    {
      assert walk[..i + 1][..i] == walk[..i];
      if Indexed(walk[i]) {
        table := Upsert(table, IndexRow(walk[i]));
      }
    }
    assert walk[..|walk|] == walk;
    BuildIndexLastWins(walk);
  }
}
