/** The three built-in language adapters (pkg/adapter_go.go, pkg/adapter_ts.go,
    pkg/adapter_py.go) behind the one interface the engine sees: the language tag, the
    path test, Extract over what the queries yield, and ResolveAt. */
module Adapters {
  import opened Types
  import opened Strings
  import opened Helpers
  import opened Identity
  import opened Index
  import GoRules
  import TsRules
  import PyRules

  datatype Adapter = GoAdapter | TsAdapter | PyAdapter

  function Lang(a: Adapter): string {
    match a
    case GoAdapter => GoRules.Lang
    case TsAdapter => TsRules.Lang
    case PyAdapter => PyRules.Lang
  }

  predicate CanHandle(a: Adapter, path: string) {
    match a
    case GoAdapter => GoRules.CanHandle(path)
    case TsAdapter => TsRules.CanHandle(path)
    case PyAdapter => PyRules.CanHandle(path)
  }

  function ImportRule(a: Adapter, m: Match): Option<ImportEntry> {
    match a
    case GoAdapter => GoRules.ImportRule(m)
    case TsAdapter => TsRules.ImportRule(m)
    case PyAdapter => PyRules.ImportRule(m)
  }

  function DefRule(a: Adapter, path: string, m: Match): Option<DefEntry> {
    match a
    case GoAdapter => GoRules.DefRule(path, m)
    case TsAdapter => TsRules.DefRule(path, m)
    case PyAdapter => PyRules.DefRule(path, m)
  }

  /** The reference rule, the same in all three adapters: a non-empty "id" capture is a
      reference occurrence, with no identity. */
  function RefRule(m: Match): Option<Occurrence> {
    var id := GetByName(m, "id");
    var rng := RangeByName(m, "rng");
    if id != "" then Some(Occurrence(id, HintRef, rng, "")) else None
  }

  /** The registration order when no adapter is given (pkg/engine.go, New). */
  const DefaultAdapters := [GoAdapter, TsAdapter, PyAdapter]

  /** adapters[i] is the first adapter that handles the path. */
  predicate FirstHandling(adapters: seq<Adapter>, path: string, i: int) {
    0 <= i < |adapters| && CanHandle(adapters[i], path)
    && forall j :: 0 <= j < i ==> !CanHandle(adapters[j], path)
  }

  /** pickAdapter: the first registered adapter whose CanHandle holds, or None (nil). */
  function PickAdapter(adapters: seq<Adapter>, path: string): (r: Option<Adapter>)
    ensures r.None? <==> forall i :: 0 <= i < |adapters| ==> !CanHandle(adapters[i], path)
    ensures r.Some? ==> exists i :: FirstHandling(adapters, path, i) && r.value == adapters[i]
  {
    if adapters == [] then None
    else if CanHandle(adapters[0], path) then
      assert FirstHandling(adapters, path, 0);
      Some(adapters[0])
    else
      var r := PickAdapter(adapters[1..], path);
      assert r.Some? ==> exists i :: FirstHandling(adapters, path, i) && r.value == adapters[i] by {
        if r.Some? {
          var i :| FirstHandling(adapters[1..], path, i) && r.value == adapters[1..][i];
          assert FirstHandling(adapters, path, i + 1);
        }
      }
      r
  }

  /** The built-in adapters' suffixes never overlap: no path is handled by two of them. */
  lemma HandlersDisjoint(path: string, a: Adapter, b: Adapter)
    requires CanHandle(a, path) && CanHandle(b, path)
    ensures a == b
  {
    GoRules.CanHandleSuffix(path);
    TsRules.CanHandleSuffix(path);
    PyRules.CanHandleSuffix(path);
  }

  /** So with the default registration the adapter picked for a path is the one that
      handles it, whatever the registration order. */
  lemma PickDefault(path: string, a: Adapter)
    ensures PickAdapter(DefaultAdapters, path) == Some(a) <==> CanHandle(a, path)
  {
    if CanHandle(a, path) {
      var r := PickAdapter(DefaultAdapters, path);
      assert a == DefaultAdapters[if a.GoAdapter? then 0 else if a.TsAdapter? then 1 else 2];
      var i :| FirstHandling(DefaultAdapters, path, i) && r.value == DefaultAdapters[i];
      HandlersDisjoint(path, a, r.value);
    }
  }

  // ---------------------------------------------------------------------------------
  // What Extract computes: each query callback's rule applied to every match, in match
  // order, and the tables and occurrence lists those results build up.

  function ImportEntries(a: Adapter, ms: seq<Match>): seq<Option<ImportEntry>> {
    if ms == [] then [] else ImportEntries(a, ms[..|ms| - 1]) + [ImportRule(a, ms[|ms| - 1])]
  }

  function DefEntries(a: Adapter, path: string, ms: seq<Match>): seq<Option<DefEntry>> {
    seq(|ms|, i requires 0 <= i < |ms| => DefRule(a, path, ms[i]))
  }

  function RefEntries(ms: seq<Match>): seq<Option<Occurrence>> {
    seq(|ms|, i requires 0 <= i < |ms| => RefRule(ms[i]))
  }

  /** The imports map: each recorded alias mapped to its target, the last match winning. */
  function ImportsOf(es: seq<Option<ImportEntry>>): map<string, string> {
    if es == [] then map[]
    else
      var prev := ImportsOf(es[..|es| - 1]);
      match es[|es| - 1]
      case None => prev
      case Some(e) => prev[e.alias := e.target]
  }

  /** One more import match extends both folds by its entry, if it has one. */
  lemma ImportStep(es: seq<Option<ImportEntry>>, i: int)
    requires 0 <= i < |es|
    ensures ImportsOf(es[..i + 1])
            == if es[i].Some? then ImportsOf(es[..i])[es[i].value.alias := es[i].value.target] else ImportsOf(es[..i])
    ensures ImportOccs(es[..i + 1])
            == ImportOccs(es[..i]) + if es[i].Some? then [Occurrence(es[i].value.alias, HintImport, es[i].value.rng, "")] else []
  {
    assert es[..i + 1][..i] == es[..i];
  }

  /** One "import" occurrence per recorded import, with no identity. */
  function ImportOccs(es: seq<Option<ImportEntry>>): seq<Occurrence> {
    if es == [] then []
    else
      var prev := ImportOccs(es[..|es| - 1]);
      match es[|es| - 1]
      case None => prev
      case Some(e) => prev + [Occurrence(e.alias, HintImport, e.rng, "")]
  }

  /** The definitions map: each recorded definition under its identity, the last match winning. */
  function DefsOf(es: seq<Option<DefEntry>>): map<string, DefLocation> {
    if es == [] then map[]
    else
      var prev := DefsOf(es[..|es| - 1]);
      match es[|es| - 1]
      case None => prev
      case Some(e) => prev[e.sid := e.def]
  }

  /** One "def" occurrence per recorded definition, carrying its identity. */
  function DefOccs(es: seq<Option<DefEntry>>): seq<Occurrence> {
    if es == [] then []
    else
      var prev := DefOccs(es[..|es| - 1]);
      match es[|es| - 1]
      case None => prev
      case Some(e) => prev + [Occurrence(e.def.name, HintDef, e.def.rng, e.sid)]
  }

  function RefOccs(es: seq<Option<Occurrence>>): seq<Occurrence> {
    if es == [] then []
    else
      var prev := RefOccs(es[..|es| - 1]);
      match es[|es| - 1]
      case None => prev
      case Some(o) => prev + [o]
  }

  /** The file index Extract returns: empty for a missing tree; otherwise the import,
      definition and reference rules applied match by match, with the occurrences of
      the three queries one after the other. No adapter fills Refs. */
  function ExtractSpec(a: Adapter, path: string, tree: Option<Tree>): FileIndex {
    match tree
    case None => FileIndex(Lang(a), path, map[], map[], [], map[])
    case Some(t) =>
      var ie, de := ImportEntries(a, t.importMatches), DefEntries(a, path, t.defMatches);
      FileIndex(Lang(a), path, DefsOf(de), map[],
                ImportOccs(ie) + DefOccs(de) + RefOccs(RefEntries(t.refMatches)),
                ImportsOf(ie))
  }

  /** Extract. The TypeScript adapter has no guard for a missing tree (it would
      dereference it), so it requires one. */
  method Extract(a: Adapter, path: string, tree: Option<Tree>) returns (fi: FileIndex)
    requires a.TsAdapter? ==> tree.Some?
    ensures fi == ExtractSpec(a, path, tree)
  {
    if tree.None? {
      return FileIndex(Lang(a), path, map[], map[], [], map[]);
    }
    var t := tree.value;
    var imports, importPart := VisitImports(a, t.importMatches);
    var defs, defPart := VisitDefs(a, path, t.defMatches);
    var refPart := VisitRefs(t.refMatches);
    fi := FileIndex(Lang(a), path, defs, map[], importPart + defPart + refPart, imports);
  }

  /** The import callback run over every match of the import query, in match order: the
      rule's result for each match is recorded one after the other. */
  method VisitImports(a: Adapter, ms: seq<Match>) returns (imports: map<string, string>, occs: seq<Occurrence>)
    ensures imports == ImportsOf(ImportEntries(a, ms)) && occs == ImportOccs(ImportEntries(a, ms))
  {
    var es := ImportEntries(a, ms);
    imports, occs := map[], [];
    var i := 0;
    while i < |es|
      invariant 0 <= i <= |es|
      invariant imports == ImportsOf(es[..i])
      invariant occs == ImportOccs(es[..i])
    {
      ImportStep(es, i);
      if es[i].Some? {
        var e := es[i].value;
        imports := imports[e.alias := e.target];
        occs := occs + [Occurrence(e.alias, HintImport, e.rng, "")];
      }
      i := i + 1;
    }
    assert es[..i] == es;
  }

  /** The definition callback run over every match of the definition query, in match order. */
  method VisitDefs(a: Adapter, path: string, ms: seq<Match>) returns (defs: map<string, DefLocation>, occs: seq<Occurrence>)
    ensures defs == DefsOf(DefEntries(a, path, ms)) && occs == DefOccs(DefEntries(a, path, ms))
  {
    ghost var es := DefEntries(a, path, ms);
    defs, occs := map[], [];
    var i := 0;
    while i < |ms|
      invariant 0 <= i <= |ms|
      invariant defs == DefsOf(es[..i])
      invariant occs == DefOccs(es[..i])
    {
      assert es[..i + 1][..i] == es[..i];
      match DefRule(a, path, ms[i]) {
        case Some(e) =>
          defs := defs[e.sid := e.def];
          occs := occs + [Occurrence(e.def.name, HintDef, e.def.rng, e.sid)];
        case None =>
      }
      i := i + 1;
    }
    assert es[..i] == es;
  }

  /** The reference callback run over every match of the reference query, in match order. */
  method VisitRefs(ms: seq<Match>) returns (occs: seq<Occurrence>)
    ensures occs == RefOccs(RefEntries(ms))
  {
    ghost var es := RefEntries(ms);
    occs := [];
    var i := 0;
    while i < |ms|
      invariant 0 <= i <= |ms|
      invariant occs == RefOccs(es[..i])
    {
      assert es[..i + 1][..i] == es[..i];
      match RefRule(ms[i]) {
        case Some(o) =>
          occs := occs + [o];
        case None =>
      }
      i := i + 1;
    }
    assert es[..i] == es;
  }

  // ---------------------------------------------------------------------------------
  // What the extracted file index satisfies.

  /** Occurrence kinds ranked in the order Extract emits them. */
  function HintRank(h: string): int {
    if h == HintImport then 0 else if h == HintDef then 1 else 2
  }

  /** Every import occurrence names an alias of the imports map, and every alias has one. */
  lemma {:induction false} ImportFold(es: seq<Option<ImportEntry>>)
    ensures forall o :: o in ImportOccs(es) ==> o.kindHint == HintImport && o.symbolID == "" && o.name in ImportsOf(es)
    ensures forall alias :: alias in ImportsOf(es) ==> exists o :: o in ImportOccs(es) && o.name == alias
  {
    if es != [] {
      ImportFold(es[..|es| - 1]);
    }
  }

  /** Every definition occurrence carries the identity of a stored definition, and every
      stored definition is one of the recorded entries. */
  lemma {:induction false} DefFold(es: seq<Option<DefEntry>>)
    ensures forall o :: o in DefOccs(es) ==> o.kindHint == HintDef && o.symbolID in DefsOf(es)
    ensures forall sid :: sid in DefsOf(es) ==> exists o :: o in DefOccs(es) && o.symbolID == sid
    ensures forall sid :: sid in DefsOf(es) ==>
              exists i :: 0 <= i < |es| && es[i] == Some(DefEntry(sid, DefsOf(es)[sid]))
  {
    if es != [] {
      var init := es[..|es| - 1];
      DefFold(init);
      forall sid | sid in DefsOf(es)
        ensures exists i :: 0 <= i < |es| && es[i] == Some(DefEntry(sid, DefsOf(es)[sid]))
        ensures exists o :: o in DefOccs(es) && o.symbolID == sid
      {
        var last := es[|es| - 1];
        if last.Some? && last.value.sid == sid {
          assert es[|es| - 1] == Some(DefEntry(sid, DefsOf(es)[sid]));
          var e := last.value;
          assert Occurrence(e.def.name, HintDef, e.def.rng, e.sid) in DefOccs(es);
        } else {
          var i :| 0 <= i < |init| && init[i] == Some(DefEntry(sid, DefsOf(init)[sid]));
          assert es[i] == init[i];
          var o :| o in DefOccs(init) && o.symbolID == sid;
          assert o in DefOccs(es);
        }
      }
    }
  }

  /** Reference occurrences have a non-empty name and no identity. */
  lemma {:induction false} RefFold(ms: seq<Match>, k: nat)
    requires k <= |ms|
    ensures forall o :: o in RefOccs(RefEntries(ms)[..k]) ==> o.kindHint == HintRef && o.symbolID == "" && o.name != ""
  {
    if k > 0 {
      var es := RefEntries(ms);
      assert es[..k][..k - 1] == es[..k - 1];
      RefFold(ms, k - 1);
    }
  }

  /** For Go and Python, a missing tree gives an empty index for the adapter's language
      and the path. */
  lemma ExtractNoTree(a: Adapter, path: string)
    requires !a.TsAdapter?
    ensures var fi := ExtractSpec(a, path, None);
            fi.lang == Lang(a) && fi.file == path && fi.defs == map[] && fi.refs == map[]
            && fi.occurrences == [] && fi.imports == map[]
  {
  }

  /** Three runs of occurrences of one kind each, put one after the other, are ordered by rank. */
  lemma RanksInOrder(io: seq<Occurrence>, dq: seq<Occurrence>, rq: seq<Occurrence>)
    requires forall o :: o in io ==> o.kindHint == HintImport
    requires forall o :: o in dq ==> o.kindHint == HintDef
    requires forall o :: o in rq ==> o.kindHint == HintRef
    ensures var occ := io + dq + rq;
            forall p, q :: 0 <= p < q < |occ| ==> HintRank(occ[p].kindHint) <= HintRank(occ[q].kindHint)
  {
    var occ := io + dq + rq;
    forall k | 0 <= k < |occ|
      ensures HintRank(occ[k].kindHint) == if k < |io| then 0 else if k < |io| + |dq| then 1 else 2
    {
      if k < |io| {
        assert occ[k] == io[k];
      } else if k < |io| + |dq| {
        assert occ[k] == dq[k - |io|];
      } else {
        assert occ[k] == rq[k - |io| - |dq|];
      }
    }
  }

  /** Occurrences come in emission order: all imports, then all definitions, then all
      references. */
  lemma ExtractOrder(a: Adapter, path: string, t: Tree)
    ensures var occ := ExtractSpec(a, path, Some(t)).occurrences;
            forall p, q :: 0 <= p < q < |occ| ==> HintRank(occ[p].kindHint) <= HintRank(occ[q].kindHint)
  {
    var ie, de, re := ImportEntries(a, t.importMatches), DefEntries(a, path, t.defMatches), RefEntries(t.refMatches);
    ImportFold(ie);
    DefFold(de);
    RefFold(t.refMatches, |t.refMatches|);
    assert re[..|t.refMatches|] == re;
    RanksInOrder(ImportOccs(ie), DefOccs(de), RefOccs(re));
  }

  /** The three kinds of occurrence are linked to the tables: import occurrences to the
      imports map (both ways), definition occurrences to the stored identities (both
      ways), and references to no identity. No adapter fills Refs. */
  lemma ExtractLinks(a: Adapter, path: string, t: Tree)
    ensures var fi := ExtractSpec(a, path, Some(t));
            && fi.lang == Lang(a) && fi.file == path && fi.refs == map[]
            && (forall o :: o in fi.occurrences && o.kindHint == HintImport ==> o.name in fi.imports)
            && (forall o :: o in fi.occurrences && o.kindHint == HintDef ==> o.symbolID in fi.defs)
            && (forall o :: o in fi.occurrences && o.kindHint == HintRef ==> o.symbolID == "" && o.name != "")
            && (forall alias :: alias in fi.imports ==>
                  exists o :: o in fi.occurrences && o.kindHint == HintImport && o.name == alias)
            && (forall sid :: sid in fi.defs ==>
                  exists o :: o in fi.occurrences && o.kindHint == HintDef && o.symbolID == sid)
  {
    var ie, de, re := ImportEntries(a, t.importMatches), DefEntries(a, path, t.defMatches), RefEntries(t.refMatches);
    var io, dq, rq := ImportOccs(ie), DefOccs(de), RefOccs(re);
    ImportFold(ie);
    DefFold(de);
    RefFold(t.refMatches, |t.refMatches|);
    assert re[..|t.refMatches|] == re;
    assert forall o :: o in io + dq + rq <==> o in io || o in dq || o in rq;
  }

  /** Every stored definition carries the adapter's language, the path as given and a
      non-empty name, and is keyed by symbolID over them; only Go uses a container. */
  lemma ExtractDefs(a: Adapter, path: string, tree: Option<Tree>)
    ensures var defs := ExtractSpec(a, path, tree).defs;
            forall sid :: sid in defs ==>
              && defs[sid].lang == Lang(a) && defs[sid].file == path && defs[sid].name != ""
              && (exists c :: sid == SymbolID(Lang(a), path, c, defs[sid].name))
              && (!a.GoAdapter? ==> sid == SymbolID(Lang(a), path, "", defs[sid].name))
  {
    if tree.Some? {
      var ms := tree.value.defMatches;
      var es := DefEntries(a, path, ms);
      DefFold(es);
      forall sid | sid in DefsOf(es)
        ensures var d := DefsOf(es)[sid];
                && d.lang == Lang(a) && d.file == path && d.name != ""
                && (exists c :: sid == SymbolID(Lang(a), path, c, d.name))
                && (!a.GoAdapter? ==> sid == SymbolID(Lang(a), path, "", d.name))
      {
        var i :| 0 <= i < |es| && es[i] == Some(DefEntry(sid, DefsOf(es)[sid]));
        match a {
          case GoAdapter => GoRules.DefShape(path, ms[i]);
          case TsAdapter => TsRules.DefShape(path, ms[i]);
          case PyAdapter => PyRules.DefShape(path, ms[i]);
        }
      }
    }
  }

  /** The captures of a match that can become a name or a container hold no key separator. */
  predicate IdentMatch(m: Match) {
    forall j :: 0 <= j < |m| && m[j].name != "rng" ==> Ident(m[j].text)
  }

  /** Every definition match of the tree is an IdentMatch. */
  predicate IdentDefs(tree: Option<Tree>) {
    tree.Some? ==> forall i :: 0 <= i < |tree.value.defMatches| ==> IdentMatch(tree.value.defMatches[i])
  }

  lemma NamedIdent(m: Match, n: string)
    requires IdentMatch(m) && n != "rng"
    ensures Ident(GetByName(m, n))
  {
    GetByNameFrom(m, n);
  }

  /** Over separator-free captures, a definition rule's identity is keyed by the
      definition it stores. */
  lemma RuleKeyed(a: Adapter, path: string, m: Match)
    requires IdentMatch(m)
    ensures DefRule(a, path, m).Some? ==> Keyed(DefRule(a, path, m).value.sid, DefRule(a, path, m).value.def)
  {
    match a {
      case GoAdapter => GoRuleKeyed(path, m);
      case TsAdapter => TsRuleKeyed(path, m);
      case PyAdapter => PyRuleKeyed(path, m);
    }
  }

  lemma GoRuleKeyed(path: string, m: Match)
    requires IdentMatch(m)
    ensures GoRules.DefRule(path, m).Some? ==>
              Keyed(GoRules.DefRule(path, m).value.sid, GoRules.DefRule(path, m).value.def)
  {
    NamedIdent(m, "fname");
    NamedIdent(m, "mrecv");
    NamedIdent(m, "tname");
    NamedIdent(m, "vname");
    NamedIdent(m, "cname");
    if GoRules.DefRule(path, m).Some? {
      var e := GoRules.DefRule(path, m).value;
      var fname, mrecv := GetByName(m, "fname"), GetByName(m, "mrecv");
      var c := if fname != "" && mrecv != "" then TrimPrefix(mrecv, "*") else "";
      assert Ident(c);
      assert e.sid == SymbolID(e.def.lang, e.def.file, c, e.def.name);
    }
  }

  lemma TsRuleKeyed(path: string, m: Match)
    requires IdentMatch(m)
    ensures TsRules.DefRule(path, m).Some? ==>
              Keyed(TsRules.DefRule(path, m).value.sid, TsRules.DefRule(path, m).value.def)
  {
    NamedIdent(m, "fname");
    NamedIdent(m, "cname");
    NamedIdent(m, "iname");
    NamedIdent(m, "ename");
    NamedIdent(m, "vname");
    if TsRules.DefRule(path, m).Some? {
      var e := TsRules.DefRule(path, m).value;
      assert e.sid == SymbolID(e.def.lang, e.def.file, "", e.def.name);
    }
  }

  lemma PyRuleKeyed(path: string, m: Match)
    requires IdentMatch(m)
    ensures PyRules.DefRule(path, m).Some? ==>
              Keyed(PyRules.DefRule(path, m).value.sid, PyRules.DefRule(path, m).value.def)
  {
    if PyRules.DefRule(path, m).Some? {
      var e := PyRules.DefRule(path, m).value;
      var r := FirstNonEmptyBy(m, PyRules.DefNames);
      if r != "" {
        var i :| FirstNonEmptyAt(m, PyRules.DefNames, i) && r == GetByName(m, PyRules.DefNames[i]);
        NamedIdent(m, PyRules.DefNames[i]);
      }
      assert e.sid == SymbolID(e.def.lang, e.def.file, "", e.def.name);
    }
  }

  /** Over separator-free captures, every stored identity is keyed by its definition. */
  lemma ExtractKeyed(a: Adapter, path: string, tree: Option<Tree>)
    requires IdentDefs(tree)
    ensures var defs := ExtractSpec(a, path, tree).defs;
            forall sid :: sid in defs ==> Keyed(sid, defs[sid])
  {
    if tree.Some? {
      var ms := tree.value.defMatches;
      var es := DefEntries(a, path, ms);
      DefFold(es);
      forall sid | sid in DefsOf(es)
        ensures Keyed(sid, DefsOf(es)[sid])
      {
        var i :| 0 <= i < |es| && es[i] == Some(DefEntry(sid, DefsOf(es)[sid]));
        RuleKeyed(a, path, ms[i]);
      }
    }
  }

  // ---------------------------------------------------------------------------------
  // ResolveAt.

  /** A definition in the same language and file with the same name. */
  predicate LocalMatch(lang: string, path: string, name: string, d: DefLocation) {
    d.lang == lang && d.file == path && d.name == name
  }

  /** The two-tier answer of ResolveAt: when some definition is a local match, exactly one
      such identity (which one depends on map order); otherwise a copy of the reverse-lookup
      list under `lang:name`, empty when absent. */
  ghost predicate Resolved(lang: string, path: string, name: string,
                           defs: map<string, DefLocation>, nl: map<string, seq<string>>, cands: seq<string>) {
    if exists sid :: sid in defs && LocalMatch(lang, path, name, defs[sid])
    then |cands| == 1 && cands[0] in defs && LocalMatch(lang, path, name, defs[cands[0]])
    else cands == NamesAt(nl, lang + ":" + name)
  }

  /** ResolveAt: the source bytes are ignored and the index is only read. */
  method ResolveAt(a: Adapter, path: string, occ: Occurrence, pi: ProjectIndex) returns (cands: seq<string>)
    ensures Resolved(Lang(a), path, occ.name, pi.defs, pi.nameLookup, cands)
  {
    var pending := pi.defs.Keys;
    while pending != {}
      invariant pending <= pi.defs.Keys
      invariant forall sid :: sid in pi.defs && sid !in pending ==> !LocalMatch(Lang(a), path, occ.name, pi.defs[sid])
      decreases pending
    {
      var sid :| sid in pending;
      var d := pi.defs[sid];
      if d.lang == Lang(a) && d.file == path && d.name == occ.name {
        return [sid];
      }
      pending := pending - {sid};
    }
    cands := NamesAt(pi.nameLookup, Lang(a) + ":" + occ.name);
  }

  /** On coherent tables every candidate is a definition with the adapter's language and
      the occurrence's name. */
  lemma ResolvedSound(lang: string, path: string, name: string,
                      defs: map<string, DefLocation>, nl: map<string, seq<string>>, cands: seq<string>)
    requires Coherent(defs, nl) && ':' !in lang
    requires Resolved(lang, path, name, defs, nl, cands)
    ensures forall i :: 0 <= i < |cands| ==> cands[i] in defs && defs[cands[i]].lang == lang && defs[cands[i]].name == name
  {
    if !exists sid :: sid in defs && LocalMatch(lang, path, name, defs[sid]) {
      forall i | 0 <= i < |cands|
        ensures cands[i] in defs && defs[cands[i]].lang == lang && defs[cands[i]].name == name
      {
        var d := defs[cands[i]];
        assert NameKey(d) == lang + ":" + name;
        assert Keyed(cands[i], d);
        SplitAtFirst(lang, name, d.lang, d.name, ':');
      }
    }
  }

  /** On coherent tables, when nothing matches locally, every definition with the language
      and the name is among the candidates. */
  lemma ResolvedComplete(lang: string, path: string, name: string,
                         defs: map<string, DefLocation>, nl: map<string, seq<string>>, cands: seq<string>)
    requires Coherent(defs, nl)
    requires Resolved(lang, path, name, defs, nl, cands)
    requires forall sid :: sid in defs ==> !LocalMatch(lang, path, name, defs[sid])
    ensures forall sid :: sid in defs && defs[sid].lang == lang && defs[sid].name == name ==> sid in cands
  {
    forall sid | sid in defs && defs[sid].lang == lang && defs[sid].name == name
      ensures sid in cands
    {
      assert NameKey(defs[sid]) == lang + ":" + name;
    }
  }
}
