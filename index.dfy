/** The project-wide index (pkg/engine.go: ProjectIndex, newProjectIndex, merge) and the
    functions that say what merging one file's extraction result does to it. */
module Index {
  import opened Types
  import opened Identity

  /** The reverse-lookup key of a definition, `lang:name`. */
  function NameKey(d: DefLocation): string {
    d.lang + ":" + d.name
  }

  /** A Go map read: absent keys give the empty (nil) slice. */
  function NamesAt(nl: map<string, seq<string>>, k: string): seq<string> {
    if k in nl then nl[k] else []
  }

  function RefsAt(refs: map<string, seq<RefLocation>>, sid: string): seq<RefLocation> {
    if sid in refs then refs[sid] else []
  }

  function OccsAt(occ: map<string, seq<Occurrence>>, file: string): seq<Occurrence> {
    if file in occ then occ[file] else []
  }

  predicate Distinct(s: seq<string>) {
    forall i, j :: 0 <= i < j < |s| ==> s[i] != s[j]
  }

  /** `order` lists every key of the set exactly once: one possible iteration order of a Go map. */
  ghost predicate Enumerates(order: seq<string>, keys: set<string>) {
    Distinct(order) && forall x :: x in order <==> x in keys
  }

  /** The reverse lookup after appending, in `order`, each identity of `defs`
      to the list under its definition's `lang:name` key. */
  function AppendNames(nl: map<string, seq<string>>, order: seq<string>, defs: map<string, DefLocation>)
    : map<string, seq<string>>
    requires forall i :: 0 <= i < |order| ==> order[i] in defs
  {
    if order == [] then nl
    else
      var sid := order[|order| - 1];
      var prev := AppendNames(nl, order[..|order| - 1], defs);
      var k := NameKey(defs[sid]);
      prev[k := NamesAt(prev, k) + [sid]]
  }

  /** The identities of `order`, in order, whose definition has key `k`. */
  function NamedIn(order: seq<string>, defs: map<string, DefLocation>, k: string): seq<string>
    requires forall i :: 0 <= i < |order| ==> order[i] in defs
  {
    if order == [] then []
    else
      var sid := order[|order| - 1];
      NamedIn(order[..|order| - 1], defs, k) + (if NameKey(defs[sid]) == k then [sid] else [])
  }

  /** The identities of `defs` whose definition has key `k`. */
  function KeysNamed(defs: map<string, DefLocation>, k: string): set<string> {
    set sid | sid in defs && NameKey(defs[sid]) == k
  }

  /** The reference table after appending `add`'s lists identity by identity. */
  function MergeRefs(refs: map<string, seq<RefLocation>>, add: map<string, seq<RefLocation>>)
    : map<string, seq<RefLocation>>
  {
    map sid | sid in refs.Keys + add.Keys :: if sid in add then RefsAt(refs, sid) + add[sid] else refs[sid]
  }

  /** The occurrence table after appending one file's occurrences under its path. */
  function MergeOcc(occ: map<string, seq<Occurrence>>, fi: FileIndex): map<string, seq<Occurrence>> {
    occ[fi.file := OccsAt(occ, fi.file) + fi.occurrences]
  }

  /** The entries of `m` whose keys are in `s`. */
  function Restrict<V>(m: map<string, V>, s: set<string>): map<string, V> {
    map x | x in m && x in s :: m[x]
  }

  lemma DefsStep(base: map<string, DefLocation>, add: map<string, DefLocation>, done: set<string>, sid: string)
    requires sid in add
    ensures (base + Restrict(add, done))[sid := add[sid]] == base + Restrict(add, done + {sid})
  {
  }

  lemma RefsStep(base: map<string, seq<RefLocation>>, add: map<string, seq<RefLocation>>,
                 done: set<string>, sid: string)
    requires sid in add && sid !in done
    ensures var cur := MergeRefs(base, Restrict(add, done));
            cur[sid := RefsAt(cur, sid) + add[sid]] == MergeRefs(base, Restrict(add, done + {sid}))
  {
  }

  lemma NamesStep(nl: map<string, seq<string>>, order: seq<string>, defs: map<string, DefLocation>, sid: string)
    requires forall i :: 0 <= i < |order| ==> order[i] in defs
    requires sid in defs
    ensures var prev := AppendNames(nl, order, defs);
            var k := NameKey(defs[sid]);
            AppendNames(nl, order + [sid], defs) == prev[k := NamesAt(prev, k) + [sid]]
  {
    assert (order + [sid])[..|order|] == order;
  }

  /** After appending in `order`, the list under `k` is the old list followed by the
      identities of `order` whose definition has key `k`, in order. */
  lemma {:induction false} AppendNamesAt(nl: map<string, seq<string>>, order: seq<string>,
                                         defs: map<string, DefLocation>, k: string)
    requires forall i :: 0 <= i < |order| ==> order[i] in defs
    ensures NamesAt(AppendNames(nl, order, defs), k) == NamesAt(nl, k) + NamedIn(order, defs, k)
  {
    if order != [] {
      AppendNamesAt(nl, order[..|order| - 1], defs, k);
    }
  }

  lemma {:induction false} NamedInMembers(order: seq<string>, defs: map<string, DefLocation>, k: string, x: string)
    requires forall i :: 0 <= i < |order| ==> order[i] in defs
    ensures x in NamedIn(order, defs, k) <==> x in order && x in defs && NameKey(defs[x]) == k
  {
    if order != [] {
      var init := order[..|order| - 1];
      NamedInMembers(init, defs, k, x);
      assert order == init + [order[|order| - 1]];
    }
  }

  /** Counted with multiplicity, a duplicate-free order contributes each matching identity once. */
  lemma {:induction false} NamedInCount(order: seq<string>, defs: map<string, DefLocation>, k: string)
    requires forall i :: 0 <= i < |order| ==> order[i] in defs
    requires Distinct(order)
    ensures multiset(NamedIn(order, defs, k)) == multiset(set x | x in order && x in defs && NameKey(defs[x]) == k)
  {
    if order != [] {
      var init := order[..|order| - 1];
      var sid := order[|order| - 1];
      assert sid !in init;
      NamedInCount(init, defs, k);
      NamedSetStep(order, defs, k);
      var s0 := set x | x in init && x in defs && NameKey(defs[x]) == k;
      CountStep(NamedIn(init, defs, k), s0, sid, NameKey(defs[sid]) == k);
    }
  }

  /** The identities of `order` with key `k`: those of all but the last, and the last if it has key `k`. */
  lemma NamedSetStep(order: seq<string>, defs: map<string, DefLocation>, k: string)
    requires order != [] && order[|order| - 1] in defs
    ensures var sid := order[|order| - 1];
            (set x | x in order && x in defs && NameKey(defs[x]) == k)
            == (set x | x in order[..|order| - 1] && x in defs && NameKey(defs[x]) == k)
               + (if NameKey(defs[sid]) == k then {sid} else {})
  {
    assert order == order[..|order| - 1] + [order[|order| - 1]];
  }

  /** One more element, new to the set, keeps a list and a set equal as multisets. */
  lemma CountStep(prev: seq<string>, s0: set<string>, sid: string, hit: bool)
    requires multiset(prev) == multiset(s0) && sid !in s0
    ensures multiset(prev + if hit then [sid] else []) == multiset(if hit then s0 + {sid} else s0)
  {
    if hit {
      assert multiset(s0 + {sid}) == multiset(s0) + multiset{sid};
    }
  }

  /** Merging a file adds to the list under `k`, counted with multiplicity, exactly the
      identities of its definitions with key `k`, whatever order the map is ranged in. */
  lemma MergeNamesCount(nl: map<string, seq<string>>, order: seq<string>, defs: map<string, DefLocation>, k: string)
    requires Enumerates(order, defs.Keys)
    ensures multiset(NamesAt(AppendNames(nl, order, defs), k))
            == multiset(NamesAt(nl, k)) + multiset(KeysNamed(defs, k))
  {
    AppendNamesAt(nl, order, defs, k);
    NamedInCount(order, defs, k);
    assert (set x | x in order && x in defs && NameKey(defs[x]) == k) == KeysNamed(defs, k);
  }

  /** Merging a file's references appends its list under each identity. */
  lemma MergeRefsAt(refs: map<string, seq<RefLocation>>, add: map<string, seq<RefLocation>>, sid: string)
    ensures RefsAt(MergeRefs(refs, add), sid) == RefsAt(refs, sid) + RefsAt(add, sid)
  {
  }

  /** Merging the same file twice keeps one definition per identity. */
  lemma DefsTwice(defs: map<string, DefLocation>, add: map<string, DefLocation>)
    ensures (defs + add) + add == defs + add
  {
  }

  /** Merging the same file twice doubles its reverse-lookup entries. */
  lemma NamesTwice(nl: map<string, seq<string>>, defs: map<string, DefLocation>,
                   o1: seq<string>, o2: seq<string>, k: string)
    requires Enumerates(o1, defs.Keys) && Enumerates(o2, defs.Keys)
    ensures multiset(NamesAt(AppendNames(AppendNames(nl, o1, defs), o2, defs), k))
            == multiset(NamesAt(nl, k)) + multiset(KeysNamed(defs, k)) + multiset(KeysNamed(defs, k))
  {
    MergeNamesCount(nl, o1, defs, k);
    MergeNamesCount(AppendNames(nl, o1, defs), o2, defs, k);
  }

  /** Merging the same file twice doubles its reference lists. */
  lemma RefsTwice(refs: map<string, seq<RefLocation>>, add: map<string, seq<RefLocation>>, sid: string)
    ensures RefsAt(MergeRefs(MergeRefs(refs, add), add), sid) == RefsAt(refs, sid) + RefsAt(add, sid) + RefsAt(add, sid)
  {
    MergeRefsAt(refs, add, sid);
    MergeRefsAt(MergeRefs(refs, add), add, sid);
  }

  /** Merging the same file twice doubles its occurrence list. */
  lemma OccTwice(occ: map<string, seq<Occurrence>>, fi: FileIndex)
    ensures OccsAt(MergeOcc(MergeOcc(occ, fi), fi), fi.file) == OccsAt(occ, fi.file) + fi.occurrences + fi.occurrences
  {
  }

  /** Two files that define disjoint identities give the same definitions merged in either order. */
  lemma DefsCommute(defs: map<string, DefLocation>, a: map<string, DefLocation>, b: map<string, DefLocation>)
    requires a.Keys !! b.Keys
    ensures (defs + a) + b == (defs + b) + a
  {
  }

  /** Merged in either order, and whatever order each map is ranged in, two files leave
      the same entries, with the same multiplicities, under every reverse-lookup key. */
  lemma NamesCommute(nl: map<string, seq<string>>, a: map<string, DefLocation>, b: map<string, DefLocation>,
                     oa: seq<string>, ob: seq<string>, oa': seq<string>, ob': seq<string>, k: string)
    requires Enumerates(oa, a.Keys) && Enumerates(oa', a.Keys)
    requires Enumerates(ob, b.Keys) && Enumerates(ob', b.Keys)
    ensures multiset(NamesAt(AppendNames(AppendNames(nl, oa, a), ob, b), k))
            == multiset(NamesAt(AppendNames(AppendNames(nl, ob', b), oa', a), k))
  {
    MergeNamesCount(nl, oa, a, k);
    MergeNamesCount(AppendNames(nl, oa, a), ob, b, k);
    MergeNamesCount(nl, ob', b, k);
    MergeNamesCount(AppendNames(nl, ob', b), oa', a, k);
  }

  /** Merged in either order, two files leave the same references, with the same
      multiplicities, under every identity. */
  lemma RefsCommute(refs: map<string, seq<RefLocation>>, a: map<string, seq<RefLocation>>,
                    b: map<string, seq<RefLocation>>, sid: string)
    ensures multiset(RefsAt(MergeRefs(MergeRefs(refs, a), b), sid))
            == multiset(RefsAt(MergeRefs(MergeRefs(refs, b), a), sid))
  {
    MergeRefsAt(refs, a, sid);
    MergeRefsAt(MergeRefs(refs, a), b, sid);
    MergeRefsAt(refs, b, sid);
    MergeRefsAt(MergeRefs(refs, b), a, sid);
  }

  /** Two different files give the same occurrence table merged in either order. */
  lemma OccCommute(occ: map<string, seq<Occurrence>>, a: FileIndex, b: FileIndex)
    requires a.file != b.file
    ensures MergeOcc(MergeOcc(occ, a), b) == MergeOcc(MergeOcc(occ, b), a)
  {
  }

  /** The invariant the tables keep: every identity is keyed by its own language and name,
      every definition is listed under its `lang:name` key, and every listed identity has
      a definition with that key. So the list under `L:N` holds exactly the identities of
      the current definitions with language L and name N, possibly repeated. */
  ghost predicate Coherent(defs: map<string, DefLocation>, nl: map<string, seq<string>>) {
    && (forall sid :: sid in defs ==> Keyed(sid, defs[sid]))
    && (forall sid :: sid in defs ==> sid in NamesAt(nl, NameKey(defs[sid])))
    && (forall k, sid :: sid in NamesAt(nl, k) ==> sid in defs && NameKey(defs[sid]) == k)
  }

  lemma EmptyCoherent()
    ensures Coherent(map[], map[])
  {
  }

  /** Merging a file whose identities are keyed by their definitions keeps the tables coherent. */
  lemma MergePreservesCoherent(defs: map<string, DefLocation>, nl: map<string, seq<string>>,
                               add: map<string, DefLocation>, order: seq<string>)
    requires Coherent(defs, nl)
    requires forall sid :: sid in add ==> Keyed(sid, add[sid])
    requires Enumerates(order, add.Keys)
    ensures Coherent(defs + add, AppendNames(nl, order, add))
  {
    forall sid | sid in defs + add
      ensures sid in NamesAt(AppendNames(nl, order, add), NameKey((defs + add)[sid]))
    {
      MergeListed(defs, nl, add, order, sid);
    }
    forall k, sid | sid in NamesAt(AppendNames(nl, order, add), k)
      ensures sid in defs + add && NameKey((defs + add)[sid]) == k
    {
      MergeSound(defs, nl, add, order, k, sid);
    }
  }

  lemma MergeListed(defs: map<string, DefLocation>, nl: map<string, seq<string>>,
                    add: map<string, DefLocation>, order: seq<string>, sid: string)
    requires forall x :: x in defs ==> x in NamesAt(nl, NameKey(defs[x]))
    requires Enumerates(order, add.Keys)
    requires sid in defs + add
    ensures sid in NamesAt(AppendNames(nl, order, add), NameKey((defs + add)[sid]))
  {
    var k := NameKey((defs + add)[sid]);
    AppendNamesAt(nl, order, add, k);
    if sid in add {
      NamedInMembers(order, add, k, sid);
    }
  }

  lemma MergeSound(defs: map<string, DefLocation>, nl: map<string, seq<string>>,
                   add: map<string, DefLocation>, order: seq<string>, k: string, sid: string)
    requires Coherent(defs, nl)
    requires forall x :: x in add ==> Keyed(x, add[x])
    requires Enumerates(order, add.Keys)
    requires sid in NamesAt(AppendNames(nl, order, add), k)
    ensures sid in defs + add && NameKey((defs + add)[sid]) == k
  {
    AppendNamesAt(nl, order, add, k);
    if sid in NamesAt(nl, k) {
      if sid in add {
        KeyedAgree(sid, defs[sid], add[sid]);
      }
    } else {
      NamedInMembers(order, add, k, sid);
    }
  }

  class ProjectIndex {
    var defs: map<string, DefLocation>
    var refs: map<string, seq<RefLocation>>
    var nameLookup: map<string, seq<string>>
    var fileOcc: map<string, seq<Occurrence>>

    /** newProjectIndex: four empty tables. */
    constructor ()
      ensures defs == map[] && refs == map[] && nameLookup == map[] && fileOcc == map[]
    {
      defs, refs, nameLookup, fileOcc := map[], map[], map[], map[];
    }

    /** merge: fold one file's extraction result into the tables. Definitions are
        overwritten per identity and each is appended to the reverse lookup, in the
        (unspecified) order the map is ranged over, returned as `order`; reference lists
        are appended per identity; the file's occurrences are appended under its path. */
    method Merge(fi: FileIndex) returns (ghost order: seq<string>)
      modifies this
      ensures Enumerates(order, fi.defs.Keys)
      ensures defs == old(defs) + fi.defs
      ensures nameLookup == AppendNames(old(nameLookup), order, fi.defs)
      ensures refs == MergeRefs(old(refs), fi.refs)
      ensures fileOcc == MergeOcc(old(fileOcc), fi)
    {
      order := MergeDefs(fi);
      MergeRefLists(fi);
      fileOcc := fileOcc[fi.file := OccsAt(fileOcc, fi.file) + fi.occurrences];
    }

    /** The first loop of merge: definitions and the reverse lookup. */
    method MergeDefs(fi: FileIndex) returns (ghost order: seq<string>)
      modifies this`defs, this`nameLookup
      ensures Enumerates(order, fi.defs.Keys)
      ensures defs == old(defs) + fi.defs
      ensures nameLookup == AppendNames(old(nameLookup), order, fi.defs)
    {
      var pending := fi.defs.Keys;
      ghost var done: set<string> := {};
      order := [];
      while pending != {}
        invariant pending !! done && pending + done == fi.defs.Keys
        invariant Distinct(order)
        invariant forall x :: x in order <==> x in done
        invariant defs == old(defs) + Restrict(fi.defs, done)
        invariant nameLookup == AppendNames(old(nameLookup), order, fi.defs)
        decreases pending
      {
        var sid :| sid in pending;
        var d := fi.defs[sid];
        DefsStep(old(defs), fi.defs, done, sid);
        NamesStep(old(nameLookup), order, fi.defs, sid);
        defs := defs[sid := d];
        var key := d.lang + ":" + d.name;
        nameLookup := nameLookup[key := NamesAt(nameLookup, key) + [sid]];
        order := order + [sid];
        pending, done := pending - {sid}, done + {sid};
      }
      assert Restrict(fi.defs, done) == fi.defs;
    }

    /** The second loop of merge: reference lists. */
    method MergeRefLists(fi: FileIndex)
      modifies this`refs
      ensures refs == MergeRefs(old(refs), fi.refs)
    {
      var pending := fi.refs.Keys;
      ghost var done: set<string> := {};
      while pending != {}
        invariant pending !! done && pending + done == fi.refs.Keys
        invariant refs == MergeRefs(old(refs), Restrict(fi.refs, done))
        decreases pending
      {
        var sid :| sid in pending;
        RefsStep(old(refs), fi.refs, done, sid);
        refs := refs[sid := RefsAt(refs, sid) + fi.refs[sid]];
        pending, done := pending - {sid}, done + {sid};
      }
      assert Restrict(fi.refs, done) == fi.refs;
    }
  }
}
