/** The Go adapter's per-file rules (pkg/adapter_go.go): the paths it handles, and what
    one match of its import query and one match of its definition query record. */
module GoRules {
  import opened Types
  import opened Strings
  import opened Helpers
  import opened Identity

  const Lang := "go"

  /** CanHandle: the lower-cased path ends in ".go". */
  predicate CanHandle(path: string) {
    HasSuffix(ToLower(path), ".go")
  }

  /** The suffix test, character by character: ".go" in any letter case. */
  lemma CanHandleSuffix(path: string)
    ensures CanHandle(path) <==>
              |path| >= 3 && path[|path| - 3] == '.' && path[|path| - 2] in "gG" && path[|path| - 1] in "oO"
  {
    var l := ToLower(path);
    if |path| >= 3 {
      assert l[|l| - 3..] == [l[|l| - 3], l[|l| - 2], l[|l| - 1]];
    }
  }

  /** The characters trimmed from both ends of an import path. */
  const PathQuotes: set<char> := {'`', '"'}

  /** One import match: recorded only when the path, with backticks and double quotes
      trimmed, is not empty; an absent alias defaults to the path's last element. */
  function ImportRule(m: Match): Option<ImportEntry> {
    var alias := GetByName(m, "alias");
    var ipath := Trim(GetByName(m, "path"), PathQuotes);
    var rng := RangeByName(m, "rng");
    if ipath == "" then None
    else Some(ImportEntry(if alias == "" then Base(ipath) else alias, ipath, rng))
  }

  /** An import is recorded exactly when its path capture holds a character other than a quote. */
  lemma ImportRecorded(m: Match)
    ensures var p := GetByName(m, "path");
            ImportRule(m).Some? <==> HasOther(p, PathQuotes)
  {
    var p := GetByName(m, "path");
    TrimNonEmpty(p, PathQuotes);
  }

  /** A recorded import: the path is the captured text with only quotes around it cut
      away, and the range is that of "rng". */
  lemma ImportShape(m: Match)
    requires ImportRule(m).Some?
    ensures var e := ImportRule(m).value;
            && e.target != ""
            && e.target[0] !in PathQuotes && e.target[|e.target| - 1] !in PathQuotes
            && (exists i :: TrimmedAt(GetByName(m, "path"), PathQuotes, i, e.target))
            && e.rng == RangeByName(m, "rng")
  {
    var ipath := Trim(GetByName(m, "path"), PathQuotes);
    assert ImportRule(m).value.target == ipath;
  }

  /** A recorded import's alias is the captured one, or else is not empty and, for a path
      that does not end in '/', is the path's last '/'-separated element. */
  lemma ImportAlias(m: Match)
    requires ImportRule(m).Some?
    ensures var e := ImportRule(m).value;
            var alias := GetByName(m, "alias");
            && e.alias != ""
            && (alias != "" ==> e.alias == alias)
            && (alias == "" && e.target[|e.target| - 1] != '/' ==>
                  '/' !in e.alias && HasSuffix(e.target, e.alias)
                  && (|e.alias| == |e.target| || e.target[|e.target| - |e.alias| - 1] == '/'))
  {
    var alias := GetByName(m, "alias");
    var ipath := Trim(GetByName(m, "path"), PathQuotes);
    assert ImportRule(m).value.target == ipath;
    assert ImportRule(m).value.alias == if alias == "" then Base(ipath) else alias;
  }

  /** The definition switch: a function, a method (whose receiver, minus one leading '*',
      is the container), a type, a variable, and otherwise a constant. */
  function DefRule(path: string, m: Match): Option<DefEntry> {
    var fname, mrecv := GetByName(m, "fname"), GetByName(m, "mrecv");
    var rng := RangeByName(m, "rng");
    var (name, kind, recv) :=
      if fname != "" && mrecv == "" then (fname, "func", "")
      else if fname != "" && mrecv != "" then (fname, "func", TrimPrefix(mrecv, "*"))
      else if GetByName(m, "tname") != "" then (GetByName(m, "tname"), "type", "")
      else if GetByName(m, "vname") != "" then (GetByName(m, "vname"), "var", "")
      else (GetByName(m, "cname"), "const", "");
    if name == "" then None else Some(DefEntryFor(Lang, path, recv, name, kind, rng))
  }

  /** The capture names of the definition query, in the switch's order of precedence. */
  const DefNames := ["fname", "tname", "vname", "cname"]

  /** The switch picks the name of the first non-empty capture in precedence order, its
      kind says which capture that was, only a method has a container, and a match with
      none of the four captures records nothing. */
  lemma DefPrecedence(path: string, m: Match)
    ensures var r := DefRule(path, m);
            var fname, mrecv := GetByName(m, "fname"), GetByName(m, "mrecv");
            var tname, vname := GetByName(m, "tname"), GetByName(m, "vname");
            && (r.None? <==> FirstNonEmptyBy(m, DefNames) == "")
            && (r.Some? ==>
                  && r.value.def.name == FirstNonEmptyBy(m, DefNames)
                  && (r.value.def.kind == "func" <==> fname != "")
                  && (r.value.def.kind == "type" <==> fname == "" && tname != "")
                  && (r.value.def.kind == "var" <==> fname == "" && tname == "" && vname != "")
                  && (r.value.def.kind == "const" <==> fname == "" && tname == "" && vname == "")
                  && r.value.sid == SymbolID(Lang, path, if fname != "" then TrimPrefix(mrecv, "*") else "", r.value.def.name))
  {
    var fname, tname := GetByName(m, "fname"), GetByName(m, "tname");
    var vname, cname := GetByName(m, "vname"), GetByName(m, "cname");
    assert DefNames[1..] == ["tname", "vname", "cname"];
    assert DefNames[1..][1..] == ["vname", "cname"];
    assert DefNames[1..][1..][1..] == ["cname"];
    assert FirstNonEmptyBy(m, ["cname"]) == cname;
    assert FirstNonEmptyBy(m, ["vname", "cname"]) == if vname != "" then vname else cname;
    assert FirstNonEmptyBy(m, DefNames)
           == if fname != "" then fname else if tname != "" then tname else if vname != "" then vname else cname;
  }

  /** A recorded definition carries the language "go", the path as given and a non-empty
      name, and is keyed by symbolID over them. */
  lemma DefShape(path: string, m: Match)
    requires DefRule(path, m).Some?
    ensures var e := DefRule(path, m).value;
            && e.def.lang == Lang && e.def.file == path && e.def.name != ""
            && e.def.rng == RangeByName(m, "rng")
            && exists c :: e.sid == SymbolID(Lang, path, c, e.def.name)
  {
    var fname, mrecv := GetByName(m, "fname"), GetByName(m, "mrecv");
    var c := if fname != "" && mrecv != "" then TrimPrefix(mrecv, "*") else "";
    assert DefRule(path, m).value.sid == SymbolID(Lang, path, c, DefRule(path, m).value.def.name);
  }
}
