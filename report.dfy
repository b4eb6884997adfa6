/** GetDefinitionTree (pkg/engine.go): every definition of the index, sorted by file,
    then kind, then name, each compared as Go compares strings. */
module Report {
  import opened Types
  import opened Strings

  /** The sort.Slice comparator. */
  predicate DefLess(x: DefLocation, y: DefLocation) {
    if x.file != y.file then StrLess(x.file, y.file)
    else if x.kind != y.kind then StrLess(x.kind, y.kind)
    else StrLess(x.name, y.name)
  }

  /** The comparator is a strict weak order: irreflexive, transitive, and two definitions
      neither of which is less than the other agree on file, kind and name. */
  lemma DefLessStrictWeakOrder(x: DefLocation, y: DefLocation, z: DefLocation)
    ensures !DefLess(x, x)
    ensures DefLess(x, y) ==> !DefLess(y, x)
    ensures DefLess(x, y) && DefLess(y, z) ==> DefLess(x, z)
    ensures !DefLess(x, y) && !DefLess(y, x) ==> x.file == y.file && x.kind == y.kind && x.name == y.name
  {
    StrLessIrreflexive(x.name);
    StrLessAsymmetric(x.file, y.file);
    StrLessAsymmetric(x.kind, y.kind);
    StrLessAsymmetric(x.name, y.name);
    StrLessTransitive(x.file, y.file, z.file);
    StrLessTransitive(x.kind, y.kind, z.kind);
    StrLessTransitive(x.name, y.name, z.name);
    StrLessTotal(x.file, y.file);
    StrLessTotal(x.kind, y.kind);
    StrLessTotal(x.name, y.name);
    if x.file == y.file && y.file != z.file {
      assert DefLess(x, z) == StrLess(y.file, z.file);
    }
    if x.file != y.file && y.file == z.file {
      assert DefLess(x, z) == StrLess(x.file, y.file);
    }
    if x.file == y.file && y.file == z.file && x.kind == y.kind && y.kind != z.kind {
      assert DefLess(x, z) == StrLess(y.kind, z.kind);
    }
    if x.file == y.file && y.file == z.file && x.kind != y.kind && y.kind == z.kind {
      assert DefLess(x, z) == StrLess(x.kind, y.kind);
    }
  }

  /** Not-less is transitive too, which is what sortedness chains on. */
  lemma NotLessTransitive(x: DefLocation, y: DefLocation, z: DefLocation)
    requires !DefLess(y, x) && !DefLess(z, y)
    ensures !DefLess(z, x)
  {
    DefLessStrictWeakOrder(x, y, z);
    DefLessStrictWeakOrder(y, z, x);
    DefLessStrictWeakOrder(z, x, y);
    DefLessStrictWeakOrder(z, y, x);
    DefLessStrictWeakOrder(x, z, y);
    StrLessTotal(x.file, y.file);
    StrLessTotal(y.file, z.file);
    StrLessTotal(x.kind, y.kind);
    StrLessTotal(y.kind, z.kind);
    StrLessTotal(x.name, y.name);
    StrLessTotal(y.name, z.name);
  }

  /** No element is less than one before it. */
  predicate Sorted(s: seq<DefLocation>) {
    forall p, q :: 0 <= p < q < |s| ==> !DefLess(s[q], s[p])
  }

  /** sort.Slice with the comparator above, as an insertion sort in place. */
  method SortDefs(a: array<DefLocation>)
    modifies a
    ensures Sorted(a[..])
    ensures multiset(a[..]) == multiset(old(a[..]))
  {
    var i := 0;
    while i < a.Length
      invariant 0 <= i <= a.Length
      invariant Sorted(a[..i])
      invariant multiset(a[..]) == multiset(old(a[..]))
    {
      InsertAt(a, i);
      i := i + 1;
    }
    assert a[..a.Length] == a[..];
  }

  /** No two elements out of order, except possibly against the one at `j`. */
  predicate SortedExcept(s: seq<DefLocation>, j: int) {
    forall p, q :: 0 <= p < q < |s| && p != j && q != j ==> !DefLess(s[q], s[p])
  }

  /** One insertion step: the element at `i` is swapped down past every larger one. */
  method InsertAt(a: array<DefLocation>, i: int)
    requires 0 <= i < a.Length
    requires Sorted(a[..i])
    modifies a
    ensures Sorted(a[..i + 1])
    ensures multiset(a[..]) == multiset(old(a[..]))
  {
    var j := i;
    InsertStart(a[..], i);
    while j > 0 && DefLess(a[j], a[j - 1])
      invariant 0 <= j <= i
      invariant multiset(a[..]) == multiset(old(a[..]))
      invariant Inserting(a[..i + 1], j)
    {
      ghost var s := a[..];
      SwapDown(s[..i + 1], j);
      a[j - 1], a[j] := a[j], a[j - 1];
      assert a[..] == Swapped(s, j);
      SwapFacts(s, i, j);
      j := j - 1;
    }
    InsertDone(a[..i + 1], j);
  }

  /** `s` with the elements at `j - 1` and `j` exchanged. */
  function Swapped(s: seq<DefLocation>, j: int): seq<DefLocation>
    requires 0 < j < |s|
  {
    s[j - 1 := s[j]][j := s[j - 1]]
  }

  /** An exchange keeps the elements, and below `i + 1` it is the exchange of the prefix. */
  lemma SwapFacts(s: seq<DefLocation>, i: int, j: int)
    requires 0 < j <= i < |s|
    ensures multiset(Swapped(s, j)) == multiset(s)
    ensures Swapped(s, j)[..i + 1] == Swapped(s[..i + 1], j)
  {
  }

  /** Before the first swap the insertion is at `i`. */
  lemma InsertStart(s: seq<DefLocation>, i: int)
    requires 0 <= i < |s| && Sorted(s[..i])
    ensures Inserting(s[..i + 1], i)
  {
    assert forall p :: 0 <= p < i ==> s[..i + 1][p] == s[..i][p];
  }

  /** Insertion is at `j`: the rest is in order, and nothing after `j` is less than it. */
  predicate Inserting(s: seq<DefLocation>, j: int) {
    0 <= j < |s| && SortedExcept(s, j) && forall q :: j < q < |s| ==> !DefLess(s[q], s[j])
  }

  /** Swapping the inserted element with a larger predecessor moves the insertion point down. */
  lemma SwapDown(s: seq<DefLocation>, j: int)
    requires Inserting(s, j) && j > 0 && DefLess(s[j], s[j - 1])
    ensures Inserting(Swapped(s, j), j - 1)
  {
    DefLessStrictWeakOrder(s[j], s[j - 1], s[j]);
  }

  /** Once the predecessor is not larger, the whole prefix is in order. */
  lemma InsertDone(s: seq<DefLocation>, j: int)
    requires Inserting(s, j) && (j == 0 || !DefLess(s[j], s[j - 1]))
    ensures Sorted(s)
  {
    forall p, q | 0 <= p < q < |s|
      ensures !DefLess(s[q], s[p])
    {
      if q == j && p < j - 1 {
        NotLessTransitive(s[p], s[j - 1], s[j]);
      }
    }
  }

  /** Some key of a non-empty map. */
  ghost function Pick(m: map<string, DefLocation>): string
    requires m != map[]
  {
    var k :| k in m; k
  }

  /** The values of a map, with multiplicity. */
  ghost function Values(m: map<string, DefLocation>): multiset<DefLocation>
    decreases m.Keys
  {
    if m == map[] then multiset{}
    else
      var k := Pick(m);
      multiset{m[k]} + Values(m - {k})
  }

  /** Values can be taken apart at any key. */
  lemma {:induction false} ValuesRemove(m: map<string, DefLocation>, k: string)
    requires k in m
    ensures Values(m) == multiset{m[k]} + Values(m - {k})
    decreases m.Keys
  {
    var k' := Pick(m);
    assert Values(m) == multiset{m[k']} + Values(m - {k'});
    if k' != k {
      var m1, m2 := m - {k'}, m - {k};
      assert k in m1 && m1[k] == m[k] && m1.Keys < m.Keys;
      assert k' in m2 && m2[k'] == m[k'] && m2.Keys < m.Keys;
      ValuesRemove(m1, k);
      ValuesRemove(m2, k');
      RemoveBoth(m, k', k);
      var c := Values(m1 - {k});
      assert Values(m2 - {k'}) == c;
    }
  }

  /** Removing two keys in either order gives the same map. */
  lemma RemoveBoth(m: map<string, DefLocation>, a: string, b: string)
    ensures m - {a} - {b} == m - {b} - {a}
  {
    var l, r := m - {a} - {b}, m - {b} - {a};
    assert l.Keys == r.Keys;
    assert forall x | x in l :: l[x] == r[x];
  }

  /** A map has as many values as keys. */
  lemma {:induction false} ValuesSize(m: map<string, DefLocation>)
    ensures |Values(m)| == |m|
    decreases m.Keys
  {
    if m != map[] {
      ValuesSize(m - {Pick(m)});
    }
  }

  /** The loop that appends every value of the map, in map order. */
  method CollectValues(defs: map<string, DefLocation>) returns (vals: seq<DefLocation>)
    ensures multiset(vals) == Values(defs)
  {
    vals := [];
    var rest := defs;
    while rest != map[]
      invariant multiset(vals) + Values(rest) == Values(defs)
      decreases |rest|
    {
      var sid :| sid in rest;
      CollectStep(vals, rest, Values(defs), sid);
      vals := vals + [rest[sid]];
      rest := rest - {sid};
    }
  }

  /** Moving one value from the map to the list keeps their values together. */
  lemma CollectStep(vals: seq<DefLocation>, rest: map<string, DefLocation>, total: multiset<DefLocation>, sid: string)
    requires sid in rest && multiset(vals) + Values(rest) == total
    ensures multiset(vals + [rest[sid]]) + Values(rest - {sid}) == total
  {
    ValuesRemove(rest, sid);
  }

  /** The definition tree: the map's values, each exactly as often as it is stored, sorted
      by file, kind and name. */
  method DefinitionTree(defs: map<string, DefLocation>) returns (out: seq<DefLocation>)
    ensures Sorted(out)
    ensures multiset(out) == Values(defs) && |out| == |defs|
  {
    var vals := CollectValues(defs);
    var arr := new DefLocation[|vals|](i requires 0 <= i < |vals| => vals[i]);
    assert arr[..] == vals;
    SortDefs(arr);
    out := arr[..];
    ValuesSize(defs);
    assert |out| == |multiset(out)|;
  }
}
