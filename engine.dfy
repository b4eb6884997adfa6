/** The engine (pkg/engine.go, Engine): the registered adapters and the project index, with
    indexing run as a sequential fold of merge and the queries over the index. */
module Engine {
  import opened Types
  import opened Strings
  import opened Identity
  import opened Index
  import opened Lookup
  import opened Adapters
  import opened Pipeline
  import opened Indexing
  import Report

  /** The three errors FindDefinitionAt reports. */
  datatype FindError = NoIdentifier | NoAdapter | DefinitionNotFound

  class Engine {
    const index: ProjectIndex
    const adapters: seq<Adapter>

    /** New: with no adapters given, Go, TypeScript and Python in that order; an empty index. */
    constructor (registered: seq<Adapter>)
      ensures adapters == if registered == [] then DefaultAdapters else registered
      ensures fresh(index)
      ensures index.defs == map[] && index.refs == map[] && index.nameLookup == map[] && index.fileOcc == map[]
    {
      adapters := if registered == [] then DefaultAdapters else registered;
      index := new ProjectIndex();
    }

    /** IndexPaths, sequentially: discover the files, then for each one in discovery order
        skip it when it cannot be read, no adapter handles it or it does not parse, and
        otherwise merge its extraction. Each table ends as the fold of merge over the
        merged files; the reverse lookup is stated per key with multiplicity since its
        order follows map iteration. Coherent tables stay coherent. */
    method IndexPaths(paths: seq<string>, stat: map<string, Entry>, src: Sources)
      modifies index
      ensures var fis := IndexedFiles(adapters, DiscoverSpec(paths, stat, {}), src);
              && index.defs == DefsAfter(old(index.defs), fis)
              && index.refs == RefsAfter(old(index.refs), fis)
              && index.fileOcc == OccAfter(old(index.fileOcc), fis)
              && forall k :: multiset(NamesAt(index.nameLookup, k))
                             == multiset(NamesAt(old(index.nameLookup), k)) + NamesAdded(fis, k)
      ensures Coherent(old(index.defs), old(index.nameLookup)) && IdentSources(src)
              ==> Coherent(index.defs, index.nameLookup)
    {
      var files := Discover(paths, stat);
      ghost var keep := Coherent(index.defs, index.nameLookup) && IdentSources(src);
      var i := 0;
      while i < |files|
        invariant 0 <= i <= |files|
        invariant Folded(old(index.defs), old(index.refs), old(index.nameLookup), old(index.fileOcc),
                         index.defs, index.refs, index.nameLookup, index.fileOcc,
                         IndexedFiles(adapters, files[..i], src))
        invariant keep ==> Coherent(index.defs, index.nameLookup) && IdentSources(src)
      {
        ghost var fis := IndexedFiles(adapters, files[..i], src);
        ghost var d, r, nl, o := index.defs, index.refs, index.nameLookup, index.fileOcc;
        IndexedFilesStep(adapters, files, i, src);
        var order := IndexFile(files[i], src);
        match IndexedFile(adapters, files[i], src) {
          case None =>
            assert IndexedFiles(adapters, files[..i + 1], src) == fis;
          case Some(fi) =>
            assert IndexedFiles(adapters, files[..i + 1], src) == fis + [fi];
            FoldedMerge(old(index.defs), old(index.refs), old(index.nameLookup), old(index.fileOcc),
                        d, r, nl, o, order, fis, fi);
        }
        i := i + 1;
      }
      assert files[..i] == files;
    }

    /** One consumer step: read, pick the adapter, parse, and merge the extraction, or
        skip the file and leave the index as it was. */
    method IndexFile(path: string, src: Sources) returns (ghost order: seq<string>)
      modifies index
      ensures match IndexedFile(adapters, path, src)
              case None =>
                && index.defs == old(index.defs) && index.refs == old(index.refs)
                && index.nameLookup == old(index.nameLookup) && index.fileOcc == old(index.fileOcc)
              case Some(fi) =>
                && Enumerates(order, fi.defs.Keys)
                && index.defs == old(index.defs) + fi.defs
                && index.nameLookup == AppendNames(old(index.nameLookup), order, fi.defs)
                && index.refs == MergeRefs(old(index.refs), fi.refs)
                && index.fileOcc == MergeOcc(old(index.fileOcc), fi)
      ensures Coherent(old(index.defs), old(index.nameLookup)) && IdentSources(src)
              ==> Coherent(index.defs, index.nameLookup)
    {
      order := [];
      if path !in src {
        return;
      }
      var adapter := PickAdapter(adapters, path);
      if adapter.None? {
        return;
      }
      var tree := src[path];
      if tree.None? {
        return;
      }
      var fi := Extract(adapter.value, path, tree);
      assert IndexedFile(adapters, path, src) == Some(fi);
      order := index.Merge(fi);
      if Coherent(old(index.defs), old(index.nameLookup)) && IdentSources(src) {
        IndexedKeyed(adapters, path, src);
        MergePreservesCoherent(old(index.defs), old(index.nameLookup), fi.defs, order);
      }
    }

    /** IndexRoot: IndexPaths on the one root. */
    method IndexRoot(root: string, stat: map<string, Entry>, src: Sources)
      modifies index
      ensures var fis := IndexedFiles(adapters, DiscoverSpec([root], stat, {}), src);
              && index.defs == DefsAfter(old(index.defs), fis)
              && index.refs == RefsAfter(old(index.refs), fis)
              && index.fileOcc == OccAfter(old(index.fileOcc), fis)
              && forall k :: multiset(NamesAt(index.nameLookup, k))
                             == multiset(NamesAt(old(index.nameLookup), k)) + NamesAdded(fis, k)
      ensures Coherent(old(index.defs), old(index.nameLookup)) && IdentSources(src)
              ==> Coherent(index.defs, index.nameLookup)
    {
      IndexPaths([root], stat, src);
    }

    /** FindDefinitionAt: the occurrence at the cursor is looked up under the path with one
        "./" removed, while the adapter and ResolveAt get the path as given. The first
        candidate that is defined gives the answer. On coherent tables the answer has the
        adapter's language and the occurrence's name, and "definition not found" means
        that no definition at all has that language and name. */
    method FindDefinitionAt(file: string, line: int, col: int)
      returns (def: DefLocation, cands: seq<string>, err: Option<FindError>)
      ensures var occ := PickOccurrence(OccsAt(index.fileOcc, LookupPath(file)), line, col);
              var adapter := PickAdapter(adapters, file);
              && (err == Some(NoIdentifier) <==> occ.None?)
              && (err == Some(NoAdapter) <==> occ.Some? && adapter.None?)
              && (err == Some(NoIdentifier) || err == Some(NoAdapter) ==> def == ZeroDef && cands == [])
              && (occ.Some? && adapter.Some? ==>
                    && Resolved(Lang(adapter.value), file, occ.value.name, index.defs, index.nameLookup, cands)
                    && match FirstDefined(cands, index.defs)
                       case Some(sid) => err.None? && def == index.defs[sid]
                       case None => err == Some(DefinitionNotFound) && def == ZeroDef)
      ensures err.None? && Coherent(index.defs, index.nameLookup) ==>
                def.lang == Lang(PickAdapter(adapters, file).value)
                && def.name == PickOccurrence(OccsAt(index.fileOcc, LookupPath(file)), line, col).value.name
      ensures err == Some(DefinitionNotFound) && Coherent(index.defs, index.nameLookup) ==>
                cands == []
                && forall sid :: sid in index.defs ==>
                     !(index.defs[sid].lang == Lang(PickAdapter(adapters, file).value)
                       && index.defs[sid].name == PickOccurrence(OccsAt(index.fileOcc, LookupPath(file)), line, col).value.name)
    {
      var occs := GetFileOccurrences(LookupPath(file));
      var occ := PickOccurrence(occs, line, col);
      if occ.None? {
        return ZeroDef, [], Some(NoIdentifier);
      }
      var adapter := PickAdapter(adapters, file);
      if adapter.None? {
        return ZeroDef, [], Some(NoAdapter);
      }
      var a := adapter.value;
      cands := ResolveAt(a, file, occ.value, index);
      var hit := FirstDefined(cands, index.defs);
      if hit.Some? {
        def, err := index.defs[hit.value], None;
      } else {
        def, err := ZeroDef, Some(DefinitionNotFound);
      }
      assert ':' !in Lang(a);
      CoherentAnswer(Lang(a), file, occ.value.name, index.defs, index.nameLookup, cands);
    }

    /** FindReferences: a copy of the identity's reference list, empty when it has none. */
    method FindReferences(sid: string) returns (refs: seq<RefLocation>)
      ensures refs == RefsAt(index.refs, sid)
    {
      refs := RefsAt(index.refs, sid);
    }

    /** GetDefinitions: a copy of the definition table. */
    method GetDefinitions() returns (m: map<string, DefLocation>)
      ensures m == index.defs
    {
      m := index.defs;
    }

    /** GetDefinitionTree: every stored definition once per identity, sorted by file, kind
        and name. */
    method GetDefinitionTree() returns (out: seq<DefLocation>)
      ensures Report.Sorted(out)
      ensures multiset(out) == Report.Values(index.defs) && |out| == |index.defs|
    {
      out := Report.DefinitionTree(index.defs);
    }

    /** GetFileOccurrences: a copy of the occurrences stored under exactly that path. */
    method GetFileOccurrences(file: string) returns (occs: seq<Occurrence>)
      ensures occs == OccsAt(index.fileOcc, file)
    {
      occs := OccsAt(index.fileOcc, file);
    }
  }

  /** A non-empty list of defined candidates always yields one. */
  lemma AllDefinedFound(cands: seq<string>, defs: map<string, DefLocation>)
    requires forall i :: 0 <= i < |cands| ==> cands[i] in defs
    ensures cands == [] || FirstDefined(cands, defs).Some?
  {
    if cands != [] {
      assert cands[0] in defs;
    }
  }

  /** On coherent tables, the first defined candidate has the language and the name; when
      no candidate is defined the candidate list is empty and no definition has the
      language and the name. */
  lemma CoherentAnswer(lang: string, path: string, name: string,
                       defs: map<string, DefLocation>, nl: map<string, seq<string>>, cands: seq<string>)
    requires ':' !in lang
    requires Resolved(lang, path, name, defs, nl, cands)
    ensures Coherent(defs, nl) && FirstDefined(cands, defs).Some? ==>
              var d := defs[FirstDefined(cands, defs).value];
              d.lang == lang && d.name == name
    ensures Coherent(defs, nl) && FirstDefined(cands, defs).None? ==>
              cands == [] && forall sid :: sid in defs ==> !(defs[sid].lang == lang && defs[sid].name == name)
  {
    if Coherent(defs, nl) {
      ResolvedSound(lang, path, name, defs, nl, cands);
      if FirstDefined(cands, defs).None? {
        AllDefinedFound(cands, defs);
        ResolvedComplete(lang, path, name, defs, nl, cands);
      }
    }
  }
}
