/** Indexing run sequentially (pkg/engine.go, IndexPaths): the tables after merging a list
    of file indexes one after the other, stated table by table. */
module Indexing {
  import opened Types
  import opened Strings
  import opened Identity
  import opened Index
  import opened Adapters
  import opened Pipeline

  /** The definitions after merging each file in turn: later files overwrite earlier ones. */
  function DefsAfter(defs: map<string, DefLocation>, fis: seq<FileIndex>): map<string, DefLocation> {
    if fis == [] then defs else DefsAfter(defs, fis[..|fis| - 1]) + fis[|fis| - 1].defs
  }

  function RefsAfter(refs: map<string, seq<RefLocation>>, fis: seq<FileIndex>): map<string, seq<RefLocation>> {
    if fis == [] then refs else MergeRefs(RefsAfter(refs, fis[..|fis| - 1]), fis[|fis| - 1].refs)
  }

  function OccAfter(occ: map<string, seq<Occurrence>>, fis: seq<FileIndex>): map<string, seq<Occurrence>> {
    if fis == [] then occ else MergeOcc(OccAfter(occ, fis[..|fis| - 1]), fis[|fis| - 1])
  }

  /** The identities the files add under reverse-lookup key `k`, with multiplicity. */
  function NamesAdded(fis: seq<FileIndex>, k: string): multiset<string> {
    if fis == [] then multiset{}
    else NamesAdded(fis[..|fis| - 1], k) + multiset(KeysNamed(fis[|fis| - 1].defs, k))
  }

  /** The files' reference lists for one identity, one after the other. */
  function RefsFrom(fis: seq<FileIndex>, sid: string): seq<RefLocation> {
    if fis == [] then [] else RefsFrom(fis[..|fis| - 1], sid) + RefsAt(fis[|fis| - 1].refs, sid)
  }

  /** The occurrence lists of the files indexed under path `f`, one after the other. */
  function OccsFrom(fis: seq<FileIndex>, f: string): seq<Occurrence> {
    if fis == [] then []
    else OccsFrom(fis[..|fis| - 1], f) + (if fis[|fis| - 1].file == f then fis[|fis| - 1].occurrences else [])
  }

  /** fis[i] is the last file that defines `sid`. */
  predicate LastDefining(fis: seq<FileIndex>, sid: string, i: int) {
    0 <= i < |fis| && sid in fis[i].defs && forall j :: i < j < |fis| ==> sid !in fis[j].defs
  }

  /** An identity is defined after the fold exactly when it was before or some file defines it. */
  lemma {:induction false} DefsAfterDomain(defs: map<string, DefLocation>, fis: seq<FileIndex>, sid: string)
    ensures sid in DefsAfter(defs, fis) <==> sid in defs || exists i :: 0 <= i < |fis| && sid in fis[i].defs
  {
    if fis != [] {
      var init := fis[..|fis| - 1];
      DefsAfterDomain(defs, init, sid);
      assert forall i :: 0 <= i < |init| ==> init[i] == fis[i];
      if sid in fis[|fis| - 1].defs {
        assert sid in DefsAfter(defs, fis);
      }
    }
  }

  /** The last file that defines an identity decides its definition. */
  lemma {:induction false} DefsAfterLast(defs: map<string, DefLocation>, fis: seq<FileIndex>, sid: string, i: int)
    requires LastDefining(fis, sid, i)
    ensures sid in DefsAfter(defs, fis) && DefsAfter(defs, fis)[sid] == fis[i].defs[sid]
  {
    var init := fis[..|fis| - 1];
    if i < |fis| - 1 {
      assert LastDefining(init, sid, i);
      DefsAfterLast(defs, init, sid, i);
    }
  }

  /** An identity no file defines keeps its definition. */
  lemma {:induction false} DefsAfterKept(defs: map<string, DefLocation>, fis: seq<FileIndex>, sid: string)
    requires sid in defs && forall i :: 0 <= i < |fis| ==> sid !in fis[i].defs
    ensures sid in DefsAfter(defs, fis) && DefsAfter(defs, fis)[sid] == defs[sid]
  {
    if fis != [] {
      var init := fis[..|fis| - 1];
      assert forall i :: 0 <= i < |init| ==> init[i] == fis[i];
      DefsAfterKept(defs, init, sid);
    }
  }

  /** References are additive across the fold: each identity's list is the old one followed
      by the files' lists in merge order. */
  lemma {:induction false} RefsAfterAt(refs: map<string, seq<RefLocation>>, fis: seq<FileIndex>, sid: string)
    ensures RefsAt(RefsAfter(refs, fis), sid) == RefsAt(refs, sid) + RefsFrom(fis, sid)
  {
    if fis != [] {
      var init := fis[..|fis| - 1];
      RefsAfterAt(refs, init, sid);
      MergeRefsAt(RefsAfter(refs, init), fis[|fis| - 1].refs, sid);
    }
  }

  /** Occurrences are additive across the fold: each path's list is the old one followed by
      the occurrences of the files indexed under that exact path, in merge order. */
  lemma {:induction false} OccAfterAt(occ: map<string, seq<Occurrence>>, fis: seq<FileIndex>, f: string)
    ensures OccsAt(OccAfter(occ, fis), f) == OccsAt(occ, f) + OccsFrom(fis, f)
  {
    if fis != [] {
      OccAfterAt(occ, fis[..|fis| - 1], f);
    }
  }

  /** Merging one more file extends each fold by one merge. */
  lemma FoldStep(defs: map<string, DefLocation>, refs: map<string, seq<RefLocation>>,
                 occ: map<string, seq<Occurrence>>, fis: seq<FileIndex>, fi: FileIndex)
    ensures DefsAfter(defs, fis + [fi]) == DefsAfter(defs, fis) + fi.defs
    ensures RefsAfter(refs, fis + [fi]) == MergeRefs(RefsAfter(refs, fis), fi.refs)
    ensures OccAfter(occ, fis + [fi]) == MergeOcc(OccAfter(occ, fis), fi)
  {
    assert (fis + [fi])[..|fis|] == fis;
  }

  lemma NamesAddedStep(fis: seq<FileIndex>, fi: FileIndex, k: string)
    ensures NamesAdded(fis + [fi], k) == NamesAdded(fis, k) + multiset(KeysNamed(fi.defs, k))
  {
    assert (fis + [fi])[..|fis|] == fis;
  }

  /** The four tables are the old ones with the file indexes merged in order; the reverse
      lookup is stated per key with multiplicity, since its order follows map iteration. */
  ghost predicate Folded(defs0: map<string, DefLocation>, refs0: map<string, seq<RefLocation>>,
                         nl0: map<string, seq<string>>, occ0: map<string, seq<Occurrence>>,
                         defs: map<string, DefLocation>, refs: map<string, seq<RefLocation>>,
                         nl: map<string, seq<string>>, occ: map<string, seq<Occurrence>>,
                         fis: seq<FileIndex>) {
    && defs == DefsAfter(defs0, fis)
    && refs == RefsAfter(refs0, fis)
    && occ == OccAfter(occ0, fis)
    && forall k :: multiset(NamesAt(nl, k)) == multiset(NamesAt(nl0, k)) + NamesAdded(fis, k)
  }

  /** Merging one more file index keeps the tables folded. */
  lemma FoldedMerge(defs0: map<string, DefLocation>, refs0: map<string, seq<RefLocation>>,
                    nl0: map<string, seq<string>>, occ0: map<string, seq<Occurrence>>,
                    defs: map<string, DefLocation>, refs: map<string, seq<RefLocation>>,
                    nl: map<string, seq<string>>, occ: map<string, seq<Occurrence>>,
                    order: seq<string>, fis: seq<FileIndex>, fi: FileIndex)
    requires Folded(defs0, refs0, nl0, occ0, defs, refs, nl, occ, fis)
    requires Enumerates(order, fi.defs.Keys)
    ensures Folded(defs0, refs0, nl0, occ0, defs + fi.defs, MergeRefs(refs, fi.refs),
                   AppendNames(nl, order, fi.defs), MergeOcc(occ, fi), fis + [fi])
  {
    FoldStep(defs0, refs0, occ0, fis, fi);
    forall k
      ensures multiset(NamesAt(AppendNames(nl, order, fi.defs), k))
              == multiset(NamesAt(nl0, k)) + NamesAdded(fis + [fi], k)
    {
      MergeNamesCount(nl, order, fi.defs, k);
      NamesAddedStep(fis, fi, k);
    }
  }

  /** Files that carry no references leave the reference table as it was. */
  lemma {:induction false} RefsAfterEmpty(refs: map<string, seq<RefLocation>>, fis: seq<FileIndex>)
    requires forall i :: 0 <= i < |fis| ==> fis[i].refs == map[]
    ensures RefsAfter(refs, fis) == refs
  {
    if fis != [] {
      var init := fis[..|fis| - 1];
      RefsAfterEmpty(refs, init);
      assert MergeRefs(refs, map[]) == refs;
    }
  }

  /** `fi` is the extraction of one of the paths, under that path, and holds no references. */
  predicate MergedFrom(adapters: seq<Adapter>, paths: seq<string>, src: Sources, fi: FileIndex) {
    fi.file in paths && fi.refs == map[] && IndexedFile(adapters, fi.file, src) == Some(fi)
  }

  /** Every file index the consumers merge was extracted from a discovered path, under that
      path, by the first adapter that handles it, and holds no references. */
  lemma {:induction false} IndexedFilesFrom(adapters: seq<Adapter>, paths: seq<string>, src: Sources)
    ensures forall i :: 0 <= i < |IndexedFiles(adapters, paths, src)| ==>
              MergedFrom(adapters, paths, src, IndexedFiles(adapters, paths, src)[i])
  {
    if paths != [] {
      var init := paths[..|paths| - 1];
      IndexedFilesFrom(adapters, init, src);
      var p := paths[|paths| - 1];
      var prev := IndexedFiles(adapters, init, src);
      forall i | 0 <= i < |prev|
        ensures MergedFrom(adapters, paths, src, prev[i])
      {
        assert MergedFrom(adapters, init, src, prev[i]);
        var j :| 0 <= j < |init| && init[j] == prev[i].file;
        assert paths[j] == init[j];
      }
      match IndexedFile(adapters, p, src) {
        case None =>
          assert IndexedFiles(adapters, paths, src) == prev;
        case Some(fi) =>
          assert IndexedFiles(adapters, paths, src) == prev + [fi];
          IndexedFileSkips(adapters, p, src);
          ExtractLinks(PickAdapter(adapters, p).value, p, src[p].value);
      }
    }
  }

  /** No adapter fills Refs, so indexing never adds a reference: FindReferences answers
      whatever the table held before. */
  lemma IndexingAddsNoRefs(adapters: seq<Adapter>, paths: seq<string>, src: Sources, refs: map<string, seq<RefLocation>>)
    ensures RefsAfter(refs, IndexedFiles(adapters, paths, src)) == refs
  {
    var fis := IndexedFiles(adapters, paths, src);
    IndexedFilesFrom(adapters, paths, src);
    assert forall i :: 0 <= i < |fis| ==> MergedFrom(adapters, paths, src, fis[i]);
    RefsAfterEmpty(refs, fis);
  }

  /** Every parsed file's definition matches are free of key separators. */
  ghost predicate IdentSources(src: Sources) {
    forall p :: p in src ==> IdentDefs(src[p])
  }

  /** Over separator-free sources, every merged file keys its identities by their definitions. */
  lemma IndexedKeyed(adapters: seq<Adapter>, path: string, src: Sources)
    requires IdentSources(src)
    requires IndexedFile(adapters, path, src).Some?
    ensures var defs := IndexedFile(adapters, path, src).value.defs;
            forall sid :: sid in defs ==> Keyed(sid, defs[sid])
  {
    ExtractKeyed(PickAdapter(adapters, path).value, path, src[path]);
  }

  /** The path FindDefinitionAt reads occurrences under: one leading "./" removed, then
      separators converted. */
  function LookupPath(file: string): string {
    ToSlash(TrimPrefix(file, "./"))
  }

  /** Occurrences of a file indexed under "./q" are never found by the lookup for "./q",
      which reads under "q" instead. */
  lemma DotSlashMiss(occ: map<string, seq<Occurrence>>, q: string)
    requires ("./" + q) in occ && q !in occ
    ensures LookupPath("./" + q) == q && OccsAt(occ, LookupPath("./" + q)) == []
  {
    assert ("./" + q)[..2] == "./" && ("./" + q)[2..] == q;
  }
}
