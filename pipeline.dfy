/** File discovery and the per-file skip policy of IndexPaths (pkg/engine.go), run
    sequentially, with the file system as values: what os.Stat finds at each argument
    path, and for each file whether it can be read and what parsing it yields. */
module Pipeline {
  import opened Types
  import opened Strings
  import opened Adapters

  /** Directory base names that are never entered, compared after lower-casing. */
  const SkippedDirNames: set<string> :=
    {".git", ".hg", ".svn", "__pycache__", ".mypy_cache", ".pytest_cache", "venv", ".venv", "node_modules"}

  /** The pruning test WalkDir's callback applies to every directory, the root included. */
  predicate PrunedDir(path: string) {
    ToLower(Base(path)) in SkippedDirNames
  }

  /** A directory tree as WalkDir sees it; a directory's children are in the order WalkDir
      visits them (by name). */
  datatype Entry = File(path: string) | Dir(path: string, children: seq<Entry>)

  /** The files WalkDir sends from a tree, in walk order: a pruned directory contributes
      nothing. */
  function Walk(e: Entry): seq<string>
    decreases e, 1
  {
    match e
    case File(p) => [p]
    case Dir(p, ch) => if PrunedDir(p) then [] else WalkAll(ch)
  }

  function WalkAll(es: seq<Entry>): seq<string>
    decreases es, 0
  {
    if es == [] then [] else Walk(es[0]) + WalkAll(es[1..])
  }

  /** The walk started at an argument path: the root's own test uses the argument as given. */
  function WalkRoot(p: string, e: Entry): seq<string> {
    match e
    case File(_) => [p]
    case Dir(_, ch) => if PrunedDir(p) then [] else WalkAll(ch)
  }

  /** `p` is a file of the tree that is not inside a pruned directory. */
  predicate Reachable(e: Entry, p: string)
    decreases e
  {
    match e
    case File(q) => p == q
    case Dir(q, ch) => !PrunedDir(q) && exists i :: 0 <= i < |ch| && Reachable(ch[i], p)
  }

  /** The walk sends exactly the reachable files. */
  lemma {:induction false} WalkReachable(e: Entry, p: string)
    ensures p in Walk(e) <==> Reachable(e, p)
    decreases e, 1
  {
    match e {
      case File(q) =>
      case Dir(q, ch) =>
        if !PrunedDir(q) {
          WalkAllReachable(ch, p);
        }
    }
  }

  lemma {:induction false} WalkAllReachable(es: seq<Entry>, p: string)
    ensures p in WalkAll(es) <==> exists i :: 0 <= i < |es| && Reachable(es[i], p)
    decreases es, 0
  {
    if es != [] {
      WalkReachable(es[0], p);
      WalkAllReachable(es[1..], p);
      if exists i :: 0 <= i < |es| && Reachable(es[i], p) {
        var i :| 0 <= i < |es| && Reachable(es[i], p);
        if i > 0 {
          assert Reachable(es[1..][i - 1], p);
        }
      }
      if exists i :: 0 <= i < |es[1..]| && Reachable(es[1..][i], p) {
        var i :| 0 <= i < |es[1..]| && Reachable(es[1..][i], p);
        assert Reachable(es[i + 1], p);
      }
    }
  }

  /** Pruning looks at the last element of the path only, lower-cased, whatever the
      directories above it are called. */
  lemma PrunedByLastElement(dir: string, name: string)
    requires name != "" && '/' !in name
    ensures PrunedDir(dir + "/" + name) <==> ToLower(name) in SkippedDirNames
  {
    var p := dir + "/" + name;
    assert p[|p| - 1] == name[|name| - 1];
    var r := LastComponent(p);
    assert p[|dir|] == '/';
    assert |r| <= |name| by {
      assert forall k :: 0 <= k < |r| ==> r[k] == p[|p| - |r| + k];
    }
    assert |r| >= |name| by {
      assert forall k :: 0 <= k < |name| ==> p[|dir| + 1 + k] == name[k];
    }
    assert r == p[|p| - |name|..] == name;
  }

  /** The producer: each argument in order; a path os.Stat cannot see is skipped, a file
      is sent as given, and a directory is walked unless the same argument was walked
      already. */
  function DiscoverSpec(paths: seq<string>, stat: map<string, Entry>, seen: set<string>): seq<string> {
    if paths == [] then []
    else
      var p := paths[0];
      if p !in stat then DiscoverSpec(paths[1..], stat, seen)
      else if stat[p].File? then [p] + DiscoverSpec(paths[1..], stat, seen)
      else if p in seen then DiscoverSpec(paths[1..], stat, seen)
      else WalkRoot(p, stat[p]) + DiscoverSpec(paths[1..], stat, seen + {p})
  }

  /** The producer loop, with the set of directories already walked. */
  method Discover(paths: seq<string>, stat: map<string, Entry>) returns (files: seq<string>)
    ensures files == DiscoverSpec(paths, stat, {})
  {
    files := [];
    var seenDir: set<string> := {};
    var i := 0;
    while i < |paths|
      invariant 0 <= i <= |paths|
      invariant files + DiscoverSpec(paths[i..], stat, seenDir) == DiscoverSpec(paths, stat, {})
    {
      var p := paths[i];
      assert paths[i..][1..] == paths[i + 1..];
      if p in stat {
        if stat[p].Dir? {
          if p !in seenDir {
            seenDir := seenDir + {p};
            files := files + WalkRoot(p, stat[p]);
          }
        } else {
          files := files + [p];
        }
      }
      i := i + 1;
    }
  }

  /** paths[i] is an argument that produces `p`. */
  predicate Produces(paths: seq<string>, stat: map<string, Entry>, i: int, p: string) {
    0 <= i < |paths| && paths[i] in stat && p in WalkRoot(paths[i], stat[paths[i]])
  }

  /** A directory argument met again is skipped, and the files it would produce are
      exactly those produced the first time: so what is discovered is what the
      arguments produce, apart from directories already in `seen`. */
  lemma {:induction false} DiscoverCovers(paths: seq<string>, stat: map<string, Entry>, seen: set<string>, p: string)
    ensures p in DiscoverSpec(paths, stat, seen) <==>
              exists i :: Produces(paths, stat, i, p) && !(paths[i] in seen && stat[paths[i]].Dir?)
    decreases paths
  {
    if paths != [] {
      var p0, rest := paths[0], paths[1..];
      var walked := p0 in stat && stat[p0].Dir? && p0 !in seen;
      var seen' := if walked then seen + {p0} else seen;
      DiscoverCovers(rest, stat, seen', p);
      DiscoverHead(paths, stat, seen, p);
      if p in DiscoverSpec(paths, stat, seen) {
        if p in DiscoverSpec(rest, stat, seen') {
          var j :| Produces(rest, stat, j, p) && !(rest[j] in seen' && stat[rest[j]].Dir?);
          assert paths[j + 1] == rest[j];
          if walked && rest[j] == p0 {
            assert false;
          }
          assert Produces(paths, stat, j + 1, p);
        } else {
          assert Produces(paths, stat, 0, p);
        }
      }
      if exists i :: Produces(paths, stat, i, p) && !(paths[i] in seen && stat[paths[i]].Dir?) {
        var i :| Produces(paths, stat, i, p) && !(paths[i] in seen && stat[paths[i]].Dir?);
        if i == 0 {
          assert p in WalkRoot(p0, stat[p0]);
        } else if walked && paths[i] == p0 {
          assert p in WalkRoot(p0, stat[p0]);
        } else {
          assert rest[i - 1] == paths[i];
          assert Produces(rest, stat, i - 1, p);
        }
      }
    }
  }

  /** The first argument contributes its own files, if it is walked or sent, before the
      rest, which see it as walked when it is a new directory. */
  lemma DiscoverHead(paths: seq<string>, stat: map<string, Entry>, seen: set<string>, p: string)
    requires paths != []
    ensures var p0 := paths[0];
            var walked := p0 in stat && stat[p0].Dir? && p0 !in seen;
            var seen' := if walked then seen + {p0} else seen;
            p in DiscoverSpec(paths, stat, seen)
            <==> (p0 in stat && (stat[p0].File? || p0 !in seen) && p in WalkRoot(p0, stat[p0]))
                 || p in DiscoverSpec(paths[1..], stat, seen')
  {
  }

  /** A file is discovered exactly when some argument produces it. */
  lemma DiscoverFinds(paths: seq<string>, stat: map<string, Entry>, p: string)
    ensures p in DiscoverSpec(paths, stat, {}) <==> exists i :: Produces(paths, stat, i, p)
  {
    DiscoverCovers(paths, stat, {}, p);
  }

  /** A directory given twice is walked once, while a file given twice is sent twice. */
  lemma DiscoverRepeats(d: string, f: string, stat: map<string, Entry>)
    requires d in stat && stat[d].Dir? && f in stat && stat[f].File?
    ensures DiscoverSpec([d, d], stat, {}) == WalkRoot(d, stat[d])
    ensures DiscoverSpec([f, f], stat, {}) == [f, f]
  {
    assert [d, d][0] == d && [d, d][1..] == [d] && [d][1..] == [];
    var none: set<string> := {};
    assert none + {d} == {d};
    assert DiscoverSpec([d], stat, {d}) == [];
    assert DiscoverSpec([d, d], stat, {}) == WalkRoot(d, stat[d]) + DiscoverSpec([d], stat, {d});
    assert [f, f][1..] == [f] && [f][1..] == [];
    assert DiscoverSpec([f], stat, {}) == [f];
    assert DiscoverSpec([f, f], stat, {}) == [f] + DiscoverSpec([f], stat, {});
  }

  // ---------------------------------------------------------------------------------
  // The consumers' skip policy.

  /** A file the consumer reads: None when os.ReadFile fails; otherwise the parse result,
      None when Parse fails or yields no tree. */
  type Sources = map<string, Option<Tree>>

  /** What a consumer merges for one path: nothing when the file cannot be read, when no
      adapter handles it, or when it does not parse; otherwise the adapter's extraction.
      Extract never fails. */
  function IndexedFile(adapters: seq<Adapter>, path: string, src: Sources): Option<FileIndex> {
    if path !in src then None
    else match PickAdapter(adapters, path)
      case None => None
      case Some(a) =>
        match src[path]
        case None => None
        case Some(t) => Some(ExtractSpec(a, path, Some(t)))
  }

  /** The file indexes merged for a list of paths, in order, skipped files left out. */
  function IndexedFiles(adapters: seq<Adapter>, paths: seq<string>, src: Sources): seq<FileIndex> {
    if paths == [] then []
    else
      var prev := IndexedFiles(adapters, paths[..|paths| - 1], src);
      match IndexedFile(adapters, paths[|paths| - 1], src)
      case None => prev
      case Some(fi) => prev + [fi]
  }

  /** Taking one more path adds its file index, if it has one. */
  lemma IndexedFilesStep(adapters: seq<Adapter>, paths: seq<string>, i: int, src: Sources)
    requires 0 <= i < |paths|
    ensures IndexedFiles(adapters, paths[..i + 1], src)
            == IndexedFiles(adapters, paths[..i], src)
               + match IndexedFile(adapters, paths[i], src) case None => [] case Some(fi) => [fi]
  {
    assert paths[..i + 1][..i] == paths[..i];
  }

  /** A path is merged exactly when it is readable, handled and parsed, and then it is
      merged as the first handling adapter's extraction under the path as discovered. */
  lemma IndexedFileSkips(adapters: seq<Adapter>, path: string, src: Sources)
    ensures IndexedFile(adapters, path, src).Some? <==>
              path in src && src[path].Some? && exists i :: 0 <= i < |adapters| && CanHandle(adapters[i], path)
    ensures IndexedFile(adapters, path, src).Some? ==>
              var fi := IndexedFile(adapters, path, src).value;
              fi.file == path && exists i :: FirstHandling(adapters, path, i) && fi.lang == Lang(adapters[i])
  {
  }
}
