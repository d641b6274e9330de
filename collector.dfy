/**
 * The file collector of the upload route: `walkDir` in server/routes.ts.
 *
 * The working directory is an abstract tree. Every entry carries the outcome of the system calls
 * the walk makes on it: `statOk` for `statSync`, `listable` for `readdirSync` on a directory,
 * `readable` for `readFileSync` on a file. The walk visits a listing in enumeration order and
 *   - skips an entry whose name is excluded or starts with `.` (other than `.gitignore`),
 *   - abandons the rest of the listing when `statSync` fails (that call sits outside the inner
 *     `try`, so the outer `catch` of the directory receives it),
 *   - recurses into a directory, whose own failures stay inside it,
 *   - collects a file below 1 MiB whose read succeeds, under the path `base/name`.
 */
module Collector {

  /** Names skipped wherever they occur, for files and directories alike. */
  const ExcludeDirs: seq<string> := ["node_modules", ".git", "blis", "obj", "dist", ".next", "build"]

  /** The one dot-prefixed name the walk keeps. */
  const AllowedDotfile: string := ".gitignore"

  /** Files of this many bytes or more are skipped. */
  const MaxFileSize: nat := 1024 * 1024

  datatype Entry =
    | File(name: string, statOk: bool, size: nat, readable: bool, content: string)
    | Dir(name: string, statOk: bool, listable: bool, entries: seq<Entry>)

  /** One element of `filesToUpload`. */
  datatype CollectedFile = CollectedFile(path: string, content: string)

  /** The two name filters, applied before the entry is even stat-ed. */
  predicate IsSkippedName(name: string)
  {
    name in ExcludeDirs || (|name| > 0 && name[0] == '.' && name != AllowedDotfile)
  }

  /**
   * What the two filters do to particular names: `.gitignore` is kept, each excluded name is
   * skipped, and a name neither excluded nor dot-prefixed is kept.
   */
  lemma NameFilters(name: string)
    ensures !IsSkippedName(AllowedDotfile)
    ensures forall n :: n in ExcludeDirs ==> IsSkippedName(n)
    ensures name != "" && name[0] == '.' && name != AllowedDotfile ==> IsSkippedName(name)
    ensures name !in ExcludeDirs && (name == "" || name[0] != '.') ==> !IsSkippedName(name)
  {
  }

  /** `base ? base + "/" + name : name`. */
  function JoinPath(base: string, name: string): string {
    if base != "" then base + "/" + name else name
  }

  /** An entry whose failing `statSync` ends the walk of its listing. */
  predicate Cuts(e: Entry) {
    !IsSkippedName(e.name) && !e.statOk
  }

  /** What one regular file contributes once it has passed the name filters and `statSync`. */
  function FileContribution(e: Entry, path: string): seq<CollectedFile>
    requires e.File?
  {
    if e.size < MaxFileSize && e.readable then [CollectedFile(path, e.content)] else []
  }

  /** What `walkDir(dir, base)` appends to `filesToUpload`; a failing `readdirSync` appends nothing. */
  function Walk(dir: Entry, base: string): seq<CollectedFile>
    decreases dir, 0
  {
    if !dir.Dir? || !dir.listable then [] else WalkEntries(dir.entries, base)
  }

  /** What an entry that passed the name filters and `statSync` contributes under `path`. */
  function Visit(e: Entry, path: string): seq<CollectedFile>
    decreases e, 1
  {
    if e.Dir? then Walk(e, path) else FileContribution(e, path)
  }

  /** What the loop of `walkDir` appends while it runs over the listing `es`. */
  function WalkEntries(es: seq<Entry>, base: string): seq<CollectedFile>
    decreases es
  {
    if es == [] then []
    else if IsSkippedName(es[0].name) then WalkEntries(es[1..], base)
    else if !es[0].statOk then []
    else Visit(es[0], JoinPath(base, es[0].name)) + WalkEntries(es[1..], base)
  }

  /** The number of regular files in the tree under an entry, whatever their names and flags. */
  function FileCount(e: Entry): nat
    decreases e, 1
  {
    if e.File? then 1 else FileCountIn(e.entries)
  }

  function FileCountIn(es: seq<Entry>): nat
    decreases es
  {
    if es == [] then 0 else FileCount(es[0]) + FileCountIn(es[1..])
  }

  /** One turn of the loop of `walkDir`, on the suffix of the listing it has still to visit. */
  lemma WalkEntriesAt(es: seq<Entry>, i: nat, base: string)
    requires i < |es|
    ensures WalkEntries(es[i..], base) ==
      if IsSkippedName(es[i].name) then WalkEntries(es[i + 1..], base)
      else if !es[i].statOk then []
      else Visit(es[i], JoinPath(base, es[i].name)) + WalkEntries(es[i + 1..], base)
  {
  }

  /** Holds the array `filesToUpload` that `walkDir` pushes into. */
  class FileCollector {
    var filesToUpload: seq<CollectedFile>

    constructor ()
      ensures filesToUpload == []
    {
      filesToUpload := [];
    }

    /** `walkDir(dir, base)`: appends exactly the files `Walk` describes, in order. */
    method WalkDir(dir: Entry, base: string)
      modifies this
      decreases dir
      ensures filesToUpload == old(filesToUpload) + Walk(dir, base)
    {
      if !dir.Dir? || !dir.listable {
        return;
      }
      var files := dir.entries;
      var i := 0;
      while i < |files|
        invariant 0 <= i <= |files|
        invariant old(filesToUpload) + WalkEntries(files, base) == filesToUpload + WalkEntries(files[i..], base)
      {
        var file := files[i];
        WalkEntriesAt(files, i, base);
        if IsSkippedName(file.name) {
          i := i + 1;
          continue;
        }
        var relativePath := JoinPath(base, file.name);
        if !file.statOk {
          return;
        }
        if file.Dir? {
          WalkDir(file, relativePath);
        } else if file.size < MaxFileSize {
          if file.readable {
            filesToUpload := filesToUpload + [CollectedFile(relativePath, file.content)];
          }
        }
        i := i + 1;
      }
    }
  }

  // ---------------------------------------------------------------------------------------------
  // Order and error containment

  /**
   * A listing without a stat failure contributes its parts in order: the files found under an
   * entry (a whole subdirectory, whatever fails inside it) come at that entry's position, after
   * earlier siblings' files and before later siblings' files.
   */
  lemma {:induction false} WalkEntriesConcat(xs: seq<Entry>, ys: seq<Entry>, base: string)
    requires forall i :: 0 <= i < |xs| ==> !Cuts(xs[i])
    ensures WalkEntries(xs + ys, base) == WalkEntries(xs, base) + WalkEntries(ys, base)
  {
    if xs == [] {
      assert xs + ys == ys;
    } else {
      assert (xs + ys)[0] == xs[0];
      assert (xs + ys)[1..] == xs[1..] + ys;
      WalkEntriesConcat(xs[1..], ys, base);
    }
  }

  /**
   * A failing `statSync` on an entry keeps what its earlier siblings gave and loses the entry and
   * every later sibling.
   */
  lemma {:induction false} StatFailureCutsListing(xs: seq<Entry>, e: Entry, ys: seq<Entry>, base: string)
    requires Cuts(e)
    ensures WalkEntries(xs + [e] + ys, base) == WalkEntries(xs, base)
  {
    if xs == [] {
      assert xs + [e] + ys == [e] + ys;
    } else {
      assert (xs + [e] + ys)[0] == xs[0];
      assert (xs + [e] + ys)[1..] == xs[1..] + [e] + ys;
      StatFailureCutsListing(xs[1..], e, ys, base);
    }
  }

  /**
   * Entries that give nothing and cut nothing: a skipped name (whatever it is and whatever its
   * stat does), an unlistable directory, and an oversized or unreadable file.
   */
  predicate Inert(e: Entry) {
    IsSkippedName(e.name)
    || (e.statOk && if e.Dir? then !e.listable else e.size >= MaxFileSize || !e.readable)
  }

  /** Such an entry is dropped alone: the listing gives what it would give without it. */
  lemma {:induction false} InertEntryDropped(xs: seq<Entry>, e: Entry, ys: seq<Entry>, base: string)
    requires Inert(e)
    ensures WalkEntries(xs + [e] + ys, base) == WalkEntries(xs + ys, base)
  {
    if xs == [] {
      assert xs + [e] + ys == [e] + ys && xs + ys == ys;
      assert ([e] + ys)[0] == e && ([e] + ys)[1..] == ys;
      if !IsSkippedName(e.name) {
        assert Visit(e, JoinPath(base, e.name)) == [];
      }
    } else {
      assert (xs + [e] + ys)[0] == xs[0] == (xs + ys)[0];
      assert (xs + [e] + ys)[1..] == xs[1..] + [e] + ys;
      assert (xs + ys)[1..] == xs[1..] + ys;
      InertEntryDropped(xs[1..], e, ys, base);
    }
  }

  /** Each file of the tree is collected at most once: the walk yields no more files than the tree holds. */
  lemma {:induction false} WalkCount(dir: Entry, base: string)
    ensures |Walk(dir, base)| <= FileCount(dir)
    decreases dir, 0
  {
    if dir.Dir? && dir.listable {
      WalkEntriesCount(dir.entries, base);
    }
  }

  lemma {:induction false} WalkEntriesCount(es: seq<Entry>, base: string)
    ensures |WalkEntries(es, base)| <= FileCountIn(es)
    decreases es
  {
    if es != [] {
      WalkEntriesCount(es[1..], base);
      if es[0].Dir? {
        WalkCount(es[0], JoinPath(base, es[0].name));
      }
    }
  }

  // ---------------------------------------------------------------------------------------------
  // Paths

  /** `p.split("/")`. */
  function Split(p: string): (r: seq<string>)
    ensures |r| >= 1
    decreases |p|
  {
    if p == [] then [""]
    else
      var rest := Split(p[1..]);
      if p[0] == '/' then [""] + rest else [[p[0]] + rest[0]] + rest[1..]
  }

  /** A name the file system can return from a listing. */
  predicate ValidName(name: string) {
    name != "" && '/' !in name
  }

  /** Every name in the listing, at every depth, is a valid name. */
  predicate WellNamed(es: seq<Entry>)
    decreases es
  {
    forall i :: 0 <= i < |es| ==> ValidName(es[i].name) && (es[i].Dir? ==> WellNamed(es[i].entries))
  }

  /** Every segment of the path is non-empty and passes both name filters. */
  ghost predicate GoodPath(p: string) {
    forall s :: s in Split(p) ==> s != "" && !IsSkippedName(s)
  }

  lemma {:induction false} SplitName(name: string)
    requires '/' !in name
    ensures Split(name) == [name]
  {
    if name != [] {
      assert name[0] in name;
      SplitName(name[1..]);
      assert [name[0]] + name[1..] == name;
    }
  }

  lemma {:induction false} SplitAtSlash(a: string, b: string)
    ensures Split(a + "/" + b) == Split(a) + Split(b)
  {
    if a == [] {
      assert a + "/" + b == "/" + b;
      assert ("/" + b)[1..] == b;
    } else {
      assert (a + "/" + b)[0] == a[0];
      assert (a + "/" + b)[1..] == a[1..] + "/" + b;
      SplitAtSlash(a[1..], b);
    }
  }

  /** The segments of a joined path are the base's segments followed by the name's. */
  lemma JoinPathSegments(base: string, name: string)
    ensures Split(JoinPath(base, name)) == if base != "" then Split(base) + Split(name) else Split(name)
  {
    if base != "" {
      SplitAtSlash(base, name);
    }
  }

  /** Joining an admissible name onto an admissible base keeps the path admissible and under the base. */
  lemma JoinPathGood(base: string, name: string)
    requires base == "" || GoodPath(base)
    requires ValidName(name) && !IsSkippedName(name)
    ensures GoodPath(JoinPath(base, name))
    ensures base != "" ==> base + "/" <= JoinPath(base, name)
  {
    SplitName(name);
    JoinPathSegments(base, name);
  }

  /**
   * Every collected path lies under `base` and has only non-empty segments, none of them an
   * excluded name and none dot-prefixed other than `.gitignore`.
   */
  lemma {:induction false} WalkPaths(dir: Entry, base: string)
    requires dir.Dir? ==> WellNamed(dir.entries)
    requires base == "" || GoodPath(base)
    ensures forall f :: f in Walk(dir, base) ==> GoodPath(f.path) && (base != "" ==> base + "/" <= f.path)
    decreases dir
  {
    if dir.Dir? && dir.listable {
      WalkEntriesPaths(dir.entries, base);
    }
  }

  lemma {:induction false} WalkEntriesPaths(es: seq<Entry>, base: string)
    requires WellNamed(es)
    requires base == "" || GoodPath(base)
    ensures forall f :: f in WalkEntries(es, base) ==> GoodPath(f.path) && (base != "" ==> base + "/" <= f.path)
    decreases es
  {
    if es != [] {
      var e := es[0];
      assert forall i :: 0 <= i < |es[1..]| ==> es[1..][i] == es[i + 1];
      WalkEntriesPaths(es[1..], base);
      if !IsSkippedName(e.name) && e.statOk {
        var path := JoinPath(base, e.name);
        JoinPathGood(base, e.name);
        if e.Dir? {
          WalkPaths(e, path);
          forall f | f in Walk(e, path)
            ensures base != "" ==> base + "/" <= f.path
          {
            if base != "" {
              assert path + "/" <= f.path;
              assert base + "/" <= path;
            }
          }
        }
      }
    }
  }

  /** The collected paths of the whole working directory, whose own path is empty. */
  lemma CollectedPathsAdmissible(root: Entry)
    requires root.Dir? ==> WellNamed(root.entries)
    ensures forall f :: f in Walk(root, "") ==>
      f.path != "" && f.path[0] != '/'
      && forall s :: s in Split(f.path) ==>
           s != "" && s !in ExcludeDirs && (s[0] == '.' ==> s == AllowedDotfile)
  {
    WalkPaths(root, "");
    forall f | f in Walk(root, "")
      ensures f.path != "" && f.path[0] != '/'
    {
      FirstSegment(f.path);
      assert Split(f.path)[0] in Split(f.path);
    }
  }

  lemma FirstSegment(p: string)
    ensures p == "" || p[0] == '/' ==> Split(p)[0] == ""
  {
  }

  // ---------------------------------------------------------------------------------------------
  // Provenance and size

  /** Every regular file of the tree with the path the walk would give it, ignoring all filters. */
  function FileSites(dir: Entry, base: string): set<(string, Entry)>
    decreases dir
  {
    if dir.File? then {} else EntriesSites(dir.entries, base)
  }

  function EntriesSites(es: seq<Entry>, base: string): set<(string, Entry)>
    decreases es
  {
    if es == [] then {}
    else
      var path := JoinPath(base, es[0].name);
      (if es[0].File? then {(path, es[0])} else FileSites(es[0], path)) + EntriesSites(es[1..], base)
  }

  /** A file the walk may take: it passes the name filters, its stat and read succeed, it is below 1 MiB. */
  predicate Collectable(e: Entry) {
    e.File? && !IsSkippedName(e.name) && e.statOk && e.readable && e.size < MaxFileSize
  }

  /**
   * Every collected file is a file of the tree, at that path, that passed every filter (so its
   * size is strictly below 1 MiB), with its content unchanged.
   */
  lemma {:induction false} WalkProvenance(dir: Entry, base: string)
    ensures forall f :: f in Walk(dir, base) ==>
      exists e :: (f.path, e) in FileSites(dir, base) && Collectable(e) && e.content == f.content
    decreases dir
  {
    if dir.Dir? && dir.listable {
      WalkEntriesProvenance(dir.entries, base);
    }
  }

  lemma {:induction false} WalkEntriesProvenance(es: seq<Entry>, base: string)
    ensures forall f :: f in WalkEntries(es, base) ==>
      exists e :: (f.path, e) in EntriesSites(es, base) && Collectable(e) && e.content == f.content
    decreases es
  {
    if es != [] {
      var e := es[0];
      var path := JoinPath(base, e.name);
      WalkEntriesProvenance(es[1..], base);
      if e.Dir? {
        WalkProvenance(e, path);
      }
      forall f | f in WalkEntries(es, base)
        ensures exists x :: (f.path, x) in EntriesSites(es, base) && Collectable(x) && x.content == f.content
      {
        if f in WalkEntries(es[1..], base) {
          var x :| (f.path, x) in EntriesSites(es[1..], base) && Collectable(x) && x.content == f.content;
          assert (f.path, x) in EntriesSites(es, base);
        } else if e.Dir? {
          assert !IsSkippedName(e.name) && e.statOk;
          assert Visit(e, path) == Walk(e, path);
          assert f in Walk(e, path);
          var x :| (f.path, x) in FileSites(e, path) && Collectable(x) && x.content == f.content;
          assert (f.path, x) in EntriesSites(es, base);
        } else {
          assert !IsSkippedName(e.name) && e.statOk;
          assert Visit(e, path) == FileContribution(e, path);
          assert f in FileContribution(e, path);
          assert (f.path, e) in EntriesSites(es, base);
        }
      }
    }
  }

  /** Nothing of 1 MiB or more is ever collected. */
  lemma CollectedFilesSmall(root: Entry)
    ensures forall f :: f in Walk(root, "") ==>
      exists e: Entry :: (f.path, e) in FileSites(root, "") && e.File? && e.size < MaxFileSize && e.content == f.content
  {
    WalkProvenance(root, "");
  }

  // ---------------------------------------------------------------------------------------------
  // Completeness

  /**
   * No `statSync` and no `readdirSync` that the walk performs fails: entries with a skipped name
   * are never stat-ed or listed, so they may fail freely.
   */
  predicate Healthy(es: seq<Entry>)
    decreases es
  {
    forall i :: 0 <= i < |es| ==> !IsSkippedName(es[i].name) ==>
      es[i].statOk && (es[i].Dir? ==> es[i].listable && Healthy(es[i].entries))
  }

  /** Every file of a subtree sits under the subtree's own path. */
  lemma {:induction false} FileSitesUnder(dir: Entry, base: string)
    ensures forall p, x :: (p, x) in FileSites(dir, base) && base != "" ==> base + "/" <= p
    decreases dir
  {
    if dir.Dir? {
      EntriesSitesUnder(dir.entries, base);
    }
  }

  lemma {:induction false} EntriesSitesUnder(es: seq<Entry>, base: string)
    ensures forall p, x :: (p, x) in EntriesSites(es, base) && base != "" ==> base + "/" <= p
    decreases es
  {
    if es != [] && base != "" {
      var path := JoinPath(base, es[0].name);
      EntriesSitesUnder(es[1..], base);
      if es[0].Dir? {
        FileSitesUnder(es[0], path);
        forall p, x | (p, x) in FileSites(es[0], path)
          ensures base + "/" <= p
        {
          assert path + "/" <= p;
          assert base + "/" <= path;
        }
      }
    }
  }

  /** A path below `JoinPath(base, name)` has `name` among its segments. */
  lemma NameInSplit(base: string, name: string, p: string)
    requires ValidName(name)
    requires JoinPath(base, name) + "/" <= p
    ensures name in Split(p)
  {
    var path := JoinPath(base, name);
    assert p == path + "/" + p[|path| + 1..];
    SplitAtSlash(path, p[|path| + 1..]);
    SplitName(name);
    if base != "" {
      SplitAtSlash(base, name);
    }
    assert name in Split(path);
  }

  /**
   * When no system call fails, every file that passes every filter, under a path whose segments
   * all pass the name filters, is collected under that path with its content.
   */
  lemma {:induction false} WalkComplete(dir: Entry, base: string)
    requires dir.Dir? ==> dir.listable && WellNamed(dir.entries) && Healthy(dir.entries)
    requires base == "" || GoodPath(base)
    ensures forall p, x :: (p, x) in FileSites(dir, base) && Collectable(x) && GoodPath(p) ==>
      CollectedFile(p, x.content) in Walk(dir, base)
    decreases dir
  {
    if dir.Dir? {
      WalkEntriesComplete(dir.entries, base);
    }
  }

  lemma {:induction false} WalkEntriesComplete(es: seq<Entry>, base: string)
    requires WellNamed(es) && Healthy(es)
    requires base == "" || GoodPath(base)
    ensures forall p, x :: (p, x) in EntriesSites(es, base) && Collectable(x) && GoodPath(p) ==>
      CollectedFile(p, x.content) in WalkEntries(es, base)
    decreases es
  {
    if es != [] {
      var e := es[0];
      var path := JoinPath(base, e.name);
      assert forall i :: 0 <= i < |es[1..]| ==> es[1..][i] == es[i + 1];
      WalkEntriesComplete(es[1..], base);
      forall p, x | (p, x) in EntriesSites(es, base) && Collectable(x) && GoodPath(p)
        ensures CollectedFile(p, x.content) in WalkEntries(es, base)
      {
        if (p, x) in EntriesSites(es[1..], base) {
          if IsSkippedName(e.name) {
            assert WalkEntries(es, base) == WalkEntries(es[1..], base);
          } else {
            assert WalkEntries(es, base) == Visit(e, path) + WalkEntries(es[1..], base);
          }
        } else if e.File? {
          assert (p, x) == (path, e);
          assert e.statOk;
          assert WalkEntries(es, base) == Visit(e, path) + WalkEntries(es[1..], base);
        } else {
          assert (p, x) in FileSites(e, path);
          FileSitesUnder(e, path);
          NameInSplit(base, e.name, p);
          assert !IsSkippedName(e.name) && e.statOk;
          JoinPathGood(base, e.name);
          WalkComplete(e, path);
          assert WalkEntries(es, base) == Visit(e, path) + WalkEntries(es[1..], base);
        }
      }
    }
  }

  /**
   * On a tree where no system call fails, the collected files are exactly the files below 1 MiB
   * whose every path segment passes the name filters.
   */
  lemma CollectedExactly(root: Entry)
    requires root.Dir? ==> root.listable && WellNamed(root.entries) && Healthy(root.entries)
    ensures forall p, x :: (p, x) in FileSites(root, "") && Collectable(x) && GoodPath(p) ==>
      CollectedFile(p, x.content) in Walk(root, "")
    ensures forall f :: f in Walk(root, "") ==>
      GoodPath(f.path) && exists x: Entry :: (f.path, x) in FileSites(root, "") && Collectable(x) && x.content == f.content
  {
    WalkComplete(root, "");
    WalkPaths(root, "");
    WalkProvenance(root, "");
  }
}
