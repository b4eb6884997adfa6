/** Cursor lookup (pkg/engine.go: beforeOrEq, pickOccurrence) and the first-defined
    candidate search at the end of FindDefinitionAt. */
module Lookup {
  import opened Types

  /** beforeOrEq: `a` is not after `b` in (line, column) order. */
  predicate BeforeOrEq(a: Pos, b: Pos) {
    if a.line < b.line then true
    else if a.line > b.line then false
    else a.col <= b.col
  }

  /** BeforeOrEq is a total order on positions. */
  lemma BeforeOrEqTotalOrder(a: Pos, b: Pos, c: Pos)
    ensures BeforeOrEq(a, a)
    ensures BeforeOrEq(a, b) && BeforeOrEq(b, c) ==> BeforeOrEq(a, c)
    ensures BeforeOrEq(a, b) && BeforeOrEq(b, a) ==> a == b
    ensures BeforeOrEq(a, b) || BeforeOrEq(b, a)
  {
  }

  /** The range holds the point, both ends included. */
  predicate Contains(r: Range, pt: Pos) {
    BeforeOrEq(r.start, pt) && BeforeOrEq(pt, r.end)
  }

  /** occs[i] is the first occurrence whose range holds the point. */
  predicate FirstContaining(occs: seq<Occurrence>, pt: Pos, i: int) {
    0 <= i < |occs| && Contains(occs[i].rng, pt)
    && forall j :: 0 <= j < i ==> !Contains(occs[j].rng, pt)
  }

  /** pickOccurrence: the first occurrence, in list order, whose range holds (line, col);
      None (the source's `false`) when there is none. */
  function PickOccurrence(occs: seq<Occurrence>, line: int, col: int): (r: Option<Occurrence>)
    ensures r.None? <==> forall i :: 0 <= i < |occs| ==> !Contains(occs[i].rng, Pos(line, col))
    ensures r.Some? ==> exists i :: FirstContaining(occs, Pos(line, col), i) && r.value == occs[i]
  {
    if occs == [] then None
    else if Contains(occs[0].rng, Pos(line, col)) then
      assert FirstContaining(occs, Pos(line, col), 0);
      Some(occs[0])
    else
      var r := PickOccurrence(occs[1..], line, col);
      assert r.Some? ==> exists i :: FirstContaining(occs, Pos(line, col), i) && r.value == occs[i] by {
        if r.Some? {
          var i :| FirstContaining(occs[1..], Pos(line, col), i) && r.value == occs[1..][i];
          assert FirstContaining(occs, Pos(line, col), i + 1);
        }
      }
      r
  }

  /** On a list built as `first + rest`, an occurrence of `first` that holds the point
      always wins over any occurrence of `rest`. */
  lemma {:induction false} PickOccurrenceConcat(first: seq<Occurrence>, rest: seq<Occurrence>, line: int, col: int)
    ensures PickOccurrence(first + rest, line, col)
            == if PickOccurrence(first, line, col).Some? then PickOccurrence(first, line, col)
               else PickOccurrence(rest, line, col)
  {
    if first == [] {
      assert first + rest == rest;
    } else {
      assert (first + rest)[1..] == first[1..] + rest;
      PickOccurrenceConcat(first[1..], rest, line, col);
    }
  }

  /** The containment the source promises on one line: both ends of (10,1)-(10,10) count. */
  lemma ContainsExample()
    ensures var r := Range(Pos(10, 1), Pos(10, 10));
            Contains(r, Pos(10, 1)) && Contains(r, Pos(10, 5)) && Contains(r, Pos(10, 10))
            && !Contains(r, Pos(10, 11)) && !Contains(r, Pos(9, 5))
  {
  }

  /** cands[i] is the first candidate that is a key of `defs`. */
  predicate FirstDefinedAt(cands: seq<string>, defs: map<string, DefLocation>, i: int) {
    0 <= i < |cands| && cands[i] in defs
    && forall j :: 0 <= j < i ==> cands[j] !in defs
  }

  /** The candidate loop of FindDefinitionAt: the first candidate, in candidate order,
      that has a definition, or None when no candidate has one. */
  function FirstDefined(cands: seq<string>, defs: map<string, DefLocation>): (r: Option<string>)
    ensures r.None? <==> forall i :: 0 <= i < |cands| ==> cands[i] !in defs
    ensures r.Some? ==> exists i :: FirstDefinedAt(cands, defs, i) && r.value == cands[i]
  {
    if cands == [] then None
    else if cands[0] in defs then
      assert FirstDefinedAt(cands, defs, 0);
      Some(cands[0])
    else
      var r := FirstDefined(cands[1..], defs);
      assert r.Some? ==> exists i :: FirstDefinedAt(cands, defs, i) && r.value == cands[i] by {
        if r.Some? {
          var i :| FirstDefinedAt(cands[1..], defs, i) && r.value == cands[1..][i];
          assert FirstDefinedAt(cands, defs, i + 1);
        }
      }
      r
  }
}
