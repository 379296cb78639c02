/** Removing a package (`package/remove.rs`): `uninstall_package` over an abstract file
    system and the installed-package database. */
module Remove {
  import opened Wrappers
  import opened Text
  import opened Paths
  import opened PackageDb
  import Install

  /** A file-system node: a file with its text lines, or a directory. */
  datatype Node = File(lines: seq<string>) | Dir

  /** The file system, by absolute path. */
  type Fs = map<string, Node>

  datatype RemoveError =
    | NotInDb(name: string)          // no database record
    | DirMissing(path: string)       // the recorded directory does not exist
    | ListUnreadable(path: string)   // `package.list` cannot be read line by line
    | RemoveFailed(path: string)     // `remove_file` of a listed path failed
    | DbFailed                       // `del_package` failed
    | RemoveDirFailed(path: string)  // `remove_dir_all` failed

  /** `Path::exists`; the empty path never exists. */
  predicate Exists(fs: Fs, p: string) {
    p != "" && p in fs
  }

  /** `remove_file` fails on a directory and on a path the process may not remove. */
  predicate RemoveFileFails(fs: Fs, p: string, locked: set<string>)
    requires p in fs
  {
    p in locked || fs[p].Dir?
  }

  // Each clause of the file loop's contract, carried from the remaining lines to all lines.

  lemma RemovedListedCons(fs: Fs, fs': Fs, after: Fs, lines: seq<string>)
    requires |lines| > 0
    requires forall p :: p in fs && p !in fs' ==> p == Trim(lines[0])
    requires forall p :: p in fs' && p !in after ==> exists k :: 0 <= k < |lines[1..]| && Trim(lines[1..][k]) == p
    ensures forall p :: p in fs && p !in after ==> exists k :: 0 <= k < |lines| && Trim(lines[k]) == p
  {
    forall p | p in fs && p !in after ensures exists k :: 0 <= k < |lines| && Trim(lines[k]) == p {
      if p in fs' {
        var k :| 0 <= k < |lines[1..]| && Trim(lines[1..][k]) == p;
        assert lines[1..][k] == lines[k + 1];
      } else {
        assert Trim(lines[0]) == p;
      }
    }
  }

  lemma NoneListedCons(after: Fs, lines: seq<string>)
    requires |lines| > 0 && !Exists(after, Trim(lines[0]))
    requires forall k :: 0 <= k < |lines[1..]| ==> !Exists(after, Trim(lines[1..][k]))
    ensures forall k :: 0 <= k < |lines| ==> !Exists(after, Trim(lines[k]))
  {
    forall k | 0 < k < |lines| ensures !Exists(after, Trim(lines[k])) {
      assert lines[k] == lines[1..][k - 1];
    }
  }

  lemma FailureListedCons(after: Fs, lines: seq<string>, locked: set<string>, err: RemoveError)
    requires |lines| > 0
    requires exists k ::
      && 0 <= k < |lines[1..]| && Exists(after, Trim(lines[1..][k])) && RemoveFileFails(after, Trim(lines[1..][k]), locked)
      && err == RemoveFailed(Trim(lines[1..][k]))
    ensures exists k ::
      && 0 <= k < |lines| && Exists(after, Trim(lines[k])) && RemoveFileFails(after, Trim(lines[k]), locked)
      && err == RemoveFailed(Trim(lines[k]))
  {
    var k :|
      && 0 <= k < |lines[1..]| && Exists(after, Trim(lines[1..][k])) && RemoveFileFails(after, Trim(lines[1..][k]), locked)
      && err == RemoveFailed(Trim(lines[1..][k]));
    assert lines[k + 1] == lines[1..][k];
  }

  /** The file loop: each line, trimmed, names a path; an existing one is removed, a
      missing one skipped, and the first failing removal stops the loop. The result is the
      error, if any, and the file system as the loop leaves it. */
  function RemoveListed(fs: Fs, lines: seq<string>, locked: set<string>): (out: (Option<RemoveError>, Fs))
    ensures out.1.Keys <= fs.Keys
    ensures forall p :: p in out.1 ==> out.1[p] == fs[p]
    ensures forall p :: p in fs && p !in out.1 ==> exists k :: 0 <= k < |lines| && Trim(lines[k]) == p
    ensures out.0.None? ==> forall k :: 0 <= k < |lines| ==> !Exists(out.1, Trim(lines[k]))
    ensures out.0.Some? ==> exists k ::
      && 0 <= k < |lines| && Exists(out.1, Trim(lines[k])) && RemoveFileFails(out.1, Trim(lines[k]), locked)
      && out.0.value == RemoveFailed(Trim(lines[k]))
    decreases |lines|
  {
    if |lines| == 0 then (None, fs)
    else
      var p := Trim(lines[0]);
      if Exists(fs, p) && RemoveFileFails(fs, p, locked) then (Some(RemoveFailed(p)), fs)
      else
        var fs' := if Exists(fs, p) then fs - {p} else fs;
        var out := RemoveListed(fs', lines[1..], locked);
        RemovedListedCons(fs, fs', out.1, lines);
        if out.0.None? then
          NoneListedCons(out.1, lines);
          out
        else
          FailureListedCons(out.1, lines, locked, out.0.value);
          out
  }

  /** Reading the package's `package.list`: an absent list gives no lines, and a directory
      at its path cannot be read. */
  function ReadList(fs: Fs, dir: string): Result<seq<string>, RemoveError> {
    var listPath := PathJoin(dir, "package.list");
    if !Exists(fs, listPath) then Ok([])
    else match fs[listPath]
      case Dir => Err(ListUnreadable(listPath))
      case File(lines) => Ok(lines)
  }

  /** `remove_dir_all` fails on a path that is not a directory, and when anything below
      it may not be removed. */
  predicate RemoveTreeFails(fs: Fs, dir: string, locked: set<string>)
    requires dir in fs
  {
    !fs[dir].Dir? || exists p | p in locked :: p in fs && UnderDir(p, dir)
  }

  /** The file system without `dir` and everything below it. */
  function WithoutTree(fs: Fs, dir: string): (r: Fs)
    ensures forall p :: p in r <==> p in fs && !UnderDir(p, dir)
    ensures forall p :: p in r ==> r[p] == fs[p]
  {
    map p | p in fs && !UnderDir(p, dir) :: fs[p]
  }

  /** A `package.list` as the installer writes it, read back by the file loop, removes
      exactly the files the mask held, provided no relative path ends in whitespace. */
  lemma InstalledListRemovesMaskFiles(fs: Fs, entries: seq<Install.MaskEntry>, locked: set<string>)
    requires forall e :: e in entries && e.isFile ==> Trimmed("/" + e.rel)
    requires RemoveListed(fs, Install.ListLines(entries), locked).0.None?
    ensures forall e :: e in entries && e.isFile ==> !Exists(RemoveListed(fs, Install.ListLines(entries), locked).1, "/" + e.rel)
    ensures forall p :: p in fs && p !in RemoveListed(fs, Install.ListLines(entries), locked).1 ==>
      exists e :: e in entries && e.isFile && p == "/" + e.rel
  {
    var lines := Install.ListLines(entries);
    assert forall k :: 0 <= k < |lines| ==> Trimmed(lines[k]) by {
      forall k | 0 <= k < |lines| ensures Trimmed(lines[k]) {
        assert lines[k] in lines;
      }
    }
    TrimmedLinesRemoved(fs, lines, locked);
  }

  /** When every listed line is already trimmed, the file loop removes exactly the listed
      paths that exist. */
  lemma TrimmedLinesRemoved(fs: Fs, lines: seq<string>, locked: set<string>)
    requires forall k :: 0 <= k < |lines| ==> Trimmed(lines[k])
    requires RemoveListed(fs, lines, locked).0.None?
    ensures forall l :: l in lines ==> !Exists(RemoveListed(fs, lines, locked).1, l)
    ensures forall p :: p in fs && p !in RemoveListed(fs, lines, locked).1 ==> p in lines
  {
    var after := RemoveListed(fs, lines, locked).1;
    forall k | 0 <= k < |lines| ensures Trim(lines[k]) == lines[k] {
      TrimTrimmed(lines[k]);
    }
  }

  /** An effect of removal that is not a file-system or database change. */
  datatype Step = RemoveHook(dir: string)

  class Machine {
    var fs: Fs
    var db: Db
    var trace: seq<Step>
    /** Paths the process may not remove. */
    const locked: set<string>
    /** Whether `del_package` fails. */
    const dbFails: bool

    constructor (fs: Fs, db: Db, locked: set<string>, dbFails: bool)
      ensures this.fs == fs && this.db == db && this.locked == locked && this.dbFails == dbFails
      ensures trace == []
    {
      this.fs := fs;
      this.db := db;
      this.locked := locked;
      this.dbFails := dbFails;
      trace := [];
    }

    /** The file loop over the lines of `package.list`. */
    method RemoveFiles(lines: seq<string>) returns (err: Option<RemoveError>)
      modifies this`fs
      ensures (err, fs) == RemoveListed(old(fs), lines, locked)
    {
      var i := 0;
      while i < |lines|
        invariant i <= |lines|
        invariant RemoveListed(old(fs), lines, locked) == RemoveListed(fs, lines[i..], locked)
      {
        assert lines[i..][0] == lines[i] && lines[i..][1..] == lines[i + 1..];
        var path := Trim(lines[i]);
        if Exists(fs, path) {
          if path in locked || fs[path].Dir? {
            return Some(RemoveFailed(path));
          }
          fs := fs - {path};
        }
        i := i + 1;
      }
      return None;
    }

    /** `uninstall_package`. */
    method UninstallPackage(name: string) returns (r: Result<(), RemoveError>)
      modifies this
      ensures var out := Uninstall(old(fs), old(db), name, locked, dbFails);
        (r, fs, db, trace) == (out.result, out.fs, out.db, old(trace) + HookSteps(out.hook))
    {
      NoHookSteps(trace);
      if name !in db {
        UninstallEarly(fs, db, name, locked, dbFails);
        return Err(NotInDb(name));
      }
      var dir := db[name].path;
      if !Exists(fs, dir) {
        UninstallEarly(fs, db, name, locked, dbFails);
        return Err(DirMissing(dir));
      }
      var listed := ReadList(fs, dir);
      if listed.Err? {
        UninstallEarly(fs, db, name, locked, dbFails);
        return Err(listed.error);
      }
      UninstallReachesList(fs, db, name, locked, dbFails);
      var err := RemoveFiles(listed.value);
      if err.Some? {
        return Err(err.value);
      }
      r := Purge(name, dir);
    }

    /** The steps after the file loop: delete the record, then, if the package directory
        still exists, run the `remove` hook and remove the directory tree. */
    method Purge(name: string, dir: string) returns (r: Result<(), RemoveError>)
      modifies this
      ensures dbFails ==> r == Err(DbFailed) && unchanged(this)
      ensures !dbFails && !Exists(old(fs), dir) ==>
        r == Ok(()) && fs == old(fs) && db == old(db) - {name} && trace == old(trace)
      ensures !dbFails && Exists(old(fs), dir) ==>
        && db == old(db) - {name}
        && trace == old(trace) + [RemoveHook(dir)]
        && (RemoveTreeFails(old(fs), dir, locked) ==> r == Err(RemoveDirFailed(dir)) && fs == old(fs))
        && (!RemoveTreeFails(old(fs), dir, locked) ==> r == Ok(()) && fs == WithoutTree(old(fs), dir))
    {
      if dbFails {
        return Err(DbFailed);
      }
      db := db - {name};
      if Exists(fs, dir) {
        trace := trace + [RemoveHook(dir)];
        if !fs[dir].Dir? || exists p | p in locked :: p in fs && UnderDir(p, dir) {
          return Err(RemoveDirFailed(dir));
        }
        fs := map p | p in fs && !UnderDir(p, dir) :: fs[p];
      }
      return Ok(());
    }
  }

  /** The outcome of `uninstall_package`: its result, the file system and database it
      leaves, and the directory the `remove` hook ran in, if it ran. */
  datatype Removal = Removal(result: Result<(), RemoveError>, fs: Fs, db: Db, hook: Option<string>)

  function HookSteps(hook: Option<string>): seq<Step> {
    if hook.Some? then [RemoveHook(hook.value)] else []
  }

  lemma NoHookSteps(trace: seq<Step>)
    ensures trace + HookSteps(None) == trace
  {
  }

  /** `uninstall_package` on a file system and database: look the package up, remove its
      listed files, delete its record, then run the `remove` hook and remove its directory
      if that still exists. Each error stops it where it occurs. */
  function Uninstall(fs: Fs, db: Db, name: string, locked: set<string>, dbFails: bool): Removal {
    if name !in db then Removal(Err(NotInDb(name)), fs, db, None)
    else
      var dir := db[name].path;
      if !Exists(fs, dir) then Removal(Err(DirMissing(dir)), fs, db, None)
      else match ReadList(fs, dir)
        case Err(e) => Removal(Err(e), fs, db, None)
        case Ok(lines) => Finish(fs, db, name, dir, lines, locked, dbFails)
  }

  /** The steps after the list is read: the file loop, the record, the hook and the tree. */
  function Finish(fs: Fs, db: Db, name: string, dir: string, lines: seq<string>, locked: set<string>, dbFails: bool): Removal {
    var loop := RemoveListed(fs, lines, locked);
    var cleaned := loop.1;
    if loop.0.Some? then Removal(Err(loop.0.value), cleaned, db, None)
    else if dbFails then Removal(Err(DbFailed), cleaned, db, None)
    else if !Exists(cleaned, dir) then Removal(Ok(()), cleaned, db - {name}, None)
    else if RemoveTreeFails(cleaned, dir, locked) then Removal(Err(RemoveDirFailed(dir)), cleaned, db - {name}, Some(dir))
    else Removal(Ok(()), WithoutTree(cleaned, dir), db - {name}, Some(dir))
  }

  // ---- properties of removal ----

  /** An unknown package is reported and nothing changes; a known one is never reported
      unknown. */
  lemma UninstallUnknown(fs: Fs, db: Db, name: string, locked: set<string>, dbFails: bool)
    ensures name !in db <==> Uninstall(fs, db, name, locked, dbFails) == Removal(Err(NotInDb(name)), fs, db, None)
  {
  }

  /** Removal that stops before the file loop reports an error and changes nothing. */
  lemma UninstallEarly(fs: Fs, db: Db, name: string, locked: set<string>, dbFails: bool)
    requires !(name in db && Exists(fs, db[name].path) && ReadList(fs, db[name].path).Ok?)
    ensures Uninstall(fs, db, name, locked, dbFails) == Removal(
      if name !in db then Err(NotInDb(name))
      else if !Exists(fs, db[name].path) then Err(DirMissing(db[name].path))
      else Err(ReadList(fs, db[name].path).error),
      fs, db, None)
  {
  }

  /** Otherwise removal is the file loop over the listed lines and what follows it. */
  lemma UninstallReachesList(fs: Fs, db: Db, name: string, locked: set<string>, dbFails: bool)
    requires name in db && Exists(fs, db[name].path) && ReadList(fs, db[name].path).Ok?
    ensures Uninstall(fs, db, name, locked, dbFails)
      == Finish(fs, db, name, db[name].path, ReadList(fs, db[name].path).value, locked, dbFails)
  {
  }

  lemma FinishShape(fs: Fs, db: Db, name: string, dir: string, lines: seq<string>, locked: set<string>, dbFails: bool)
    ensures var out := Finish(fs, db, name, dir, lines, locked, dbFails);
      var cleaned := RemoveListed(fs, lines, locked).1;
      out.fs == cleaned || out.fs == WithoutTree(cleaned, dir)
  {
  }

  lemma FinishRecord(fs: Fs, db: Db, name: string, dir: string, lines: seq<string>, locked: set<string>, dbFails: bool)
    ensures var out := Finish(fs, db, name, dir, lines, locked, dbFails);
      out.db == db || out.db == db - {name}
    ensures var out := Finish(fs, db, name, dir, lines, locked, dbFails);
      out.db != db ==> !dbFails && RemoveListed(fs, lines, locked).0.None?
    ensures var out := Finish(fs, db, name, dir, lines, locked, dbFails);
      out.hook.Some? ==> out.hook.value == dir && out.db == db - {name}
  {
  }

  lemma FinishSuccess(fs: Fs, db: Db, name: string, dir: string, lines: seq<string>, locked: set<string>, dbFails: bool)
    requires Finish(fs, db, name, dir, lines, locked, dbFails).result.Ok?
    ensures var out := Finish(fs, db, name, dir, lines, locked, dbFails);
      && out.db == db - {name} && !Exists(out.fs, dir)
      && forall k :: 0 <= k < |lines| ==> !Exists(out.fs, Trim(lines[k]))
  {
    var loop := RemoveListed(fs, lines, locked);
    var cleaned := loop.1;
    assert loop.0.None? && !dbFails;
    if Exists(cleaned, dir) {
      WithoutTreeKeepsGone(cleaned, dir, lines);
    }
  }

  /** Removing a tree removes its root and adds nothing back. */
  lemma WithoutTreeKeepsGone(fs: Fs, dir: string, lines: seq<string>)
    requires forall k :: 0 <= k < |lines| ==> !Exists(fs, Trim(lines[k]))
    ensures !Exists(WithoutTree(fs, dir), dir)
    ensures forall k :: 0 <= k < |lines| ==> !Exists(WithoutTree(fs, dir), Trim(lines[k]))
  {
    assert UnderDir(dir, dir);
  }

  /** The file system removal leaves: untouched, as the file loop leaves it, or that
      without the package tree. */
  lemma UninstallShape(fs: Fs, db: Db, name: string, locked: set<string>, dbFails: bool)
    ensures var out := Uninstall(fs, db, name, locked, dbFails);
      || out.fs == fs
      || (&& name in db && ReadList(fs, db[name].path).Ok?
          && var cleaned := RemoveListed(fs, ReadList(fs, db[name].path).value, locked).1;
          (out.fs == cleaned || out.fs == WithoutTree(cleaned, db[name].path)))
  {
    if name in db && Exists(fs, db[name].path) && ReadList(fs, db[name].path).Ok? {
      UninstallReachesList(fs, db, name, locked, dbFails);
      FinishShape(fs, db, name, db[name].path, ReadList(fs, db[name].path).value, locked, dbFails);
    } else {
      UninstallEarly(fs, db, name, locked, dbFails);
    }
  }

  /** Removal only deletes, and it only deletes listed paths and the package tree. */
  lemma UninstallOnlyDeletes(fs: Fs, db: Db, name: string, locked: set<string>, dbFails: bool)
    ensures var out := Uninstall(fs, db, name, locked, dbFails);
      out.fs.Keys <= fs.Keys && forall p :: p in out.fs ==> out.fs[p] == fs[p]
    ensures var out := Uninstall(fs, db, name, locked, dbFails);
      forall p :: p in fs && p !in out.fs ==>
        && name in db && ReadList(fs, db[name].path).Ok?
        && (UnderDir(p, db[name].path) || exists k :: 0 <= k < |ReadList(fs, db[name].path).value| && Trim(ReadList(fs, db[name].path).value[k]) == p)
  {
    UninstallShape(fs, db, name, locked, dbFails);
    var after := Uninstall(fs, db, name, locked, dbFails).fs;
    if after != fs {
      var dir := db[name].path;
      var lines := ReadList(fs, dir).value;
      var cleaned := RemoveListed(fs, lines, locked).1;
      DeletedListedOrTree(fs, cleaned, after, lines, dir);
    }
  }

  lemma DeletedListedOrTree(fs: Fs, cleaned: Fs, after: Fs, lines: seq<string>, dir: string)
    requires cleaned.Keys <= fs.Keys && forall p :: p in cleaned ==> cleaned[p] == fs[p]
    requires forall p :: p in fs && p !in cleaned ==> exists k :: 0 <= k < |lines| && Trim(lines[k]) == p
    requires after == cleaned || after == WithoutTree(cleaned, dir)
    ensures after.Keys <= fs.Keys && forall p :: p in after ==> after[p] == fs[p]
    ensures forall p :: p in fs && p !in after ==> UnderDir(p, dir) || exists k :: 0 <= k < |lines| && Trim(lines[k]) == p
  {
  }

  /** The record is deleted only after every listed file is gone and the database accepted
      the deletion; the `remove` hook runs only after the record is deleted. */
  lemma UninstallRecordOrder(fs: Fs, db: Db, name: string, locked: set<string>, dbFails: bool)
    ensures var out := Uninstall(fs, db, name, locked, dbFails);
      out.db == db || (name in db && out.db == db - {name})
    ensures var out := Uninstall(fs, db, name, locked, dbFails);
      out.db != db ==> !dbFails && ReadList(fs, db[name].path).Ok? && RemoveListed(fs, ReadList(fs, db[name].path).value, locked).0.None?
    ensures var out := Uninstall(fs, db, name, locked, dbFails);
      out.hook.Some? ==> name in db && out.hook.value == db[name].path && out.db == db - {name}
  {
    if name in db && Exists(fs, db[name].path) && ReadList(fs, db[name].path).Ok? {
      UninstallReachesList(fs, db, name, locked, dbFails);
      FinishRecord(fs, db, name, db[name].path, ReadList(fs, db[name].path).value, locked, dbFails);
    } else {
      UninstallEarly(fs, db, name, locked, dbFails);
    }
  }

  /** A successful removal leaves no record, no package directory and no listed file. */
  lemma UninstallSuccess(fs: Fs, db: Db, name: string, locked: set<string>, dbFails: bool)
    requires Uninstall(fs, db, name, locked, dbFails).result.Ok?
    ensures name in db && ReadList(fs, db[name].path).Ok?
    ensures var out := Uninstall(fs, db, name, locked, dbFails);
      && out.db == db - {name} && !Exists(out.fs, db[name].path)
      && forall k :: 0 <= k < |ReadList(fs, db[name].path).value| ==> !Exists(out.fs, Trim(ReadList(fs, db[name].path).value[k]))
  {
    if name in db && Exists(fs, db[name].path) && ReadList(fs, db[name].path).Ok? {
      UninstallReachesList(fs, db, name, locked, dbFails);
      FinishSuccess(fs, db, name, db[name].path, ReadList(fs, db[name].path).value, locked, dbFails);
    } else {
      UninstallEarly(fs, db, name, locked, dbFails);
    }
  }
}
