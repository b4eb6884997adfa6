/** The TypeScript adapter's per-file rules (pkg/adapter_ts.go): the paths it handles,
    and what one import match and one definition match record. */
module TsRules {
  import opened Types
  import opened Strings
  import opened Helpers
  import opened Identity

  const Lang := "ts"

  /** CanHandle: the lower-cased path ends in ".ts", ".mts" or ".cts". */
  predicate CanHandle(path: string) {
    var l := ToLower(path);
    HasSuffix(l, ".ts") || HasSuffix(l, ".mts") || HasSuffix(l, ".cts")
  }

  /** The suffix test, character by character: ".ts", ".mts" or ".cts" in any letter case. */
  lemma CanHandleSuffix(path: string)
    ensures CanHandle(path) <==>
              |path| >= 3 && path[|path| - 2] in "tT" && path[|path| - 1] in "sS"
              && (path[|path| - 3] == '.' || (|path| >= 4 && path[|path| - 4] == '.' && path[|path| - 3] in "mMcC"))
  {
    var l := ToLower(path);
    if |path| >= 3 {
      assert l[|l| - 3..] == [l[|l| - 3], l[|l| - 2], l[|l| - 1]];
    }
    if |path| >= 4 {
      assert l[|l| - 4..] == [l[|l| - 4], l[|l| - 3], l[|l| - 2], l[|l| - 1]];
    }
  }

  /** The characters trimmed from both ends of a module name. */
  const ModuleQuotes: set<char> := {'"', '\''}

  /** One import match: recorded only when both the alias and the module, with double
      and single quotes trimmed, are not empty. */
  function ImportRule(m: Match): Option<ImportEntry> {
    var alias := GetByName(m, "alias");
    var mdl := Trim(GetByName(m, "module"), ModuleQuotes);
    var rng := RangeByName(m, "rng");
    if alias != "" && mdl != "" then Some(ImportEntry(alias, mdl, rng)) else None
  }

  /** An import is recorded exactly when an alias was captured and the module capture
      holds a character other than a quote. */
  lemma ImportRecorded(m: Match)
    ensures var p := GetByName(m, "module");
            ImportRule(m).Some? <==> GetByName(m, "alias") != "" && HasOther(p, ModuleQuotes)
  {
    var p := GetByName(m, "module");
    var t := Trim(p, ModuleQuotes);
    TrimNonEmpty(p, ModuleQuotes);
    if GetByName(m, "alias") != "" && t != "" {
      assert ImportRule(m).Some?;
    } else {
      assert ImportRule(m).None?;
    }
  }

  /** A recorded import maps the captured alias to the module with only quotes around it
      cut away; the range is that of "rng". */
  lemma ImportShape(m: Match)
    requires ImportRule(m).Some?
    ensures var e := ImportRule(m).value;
            && e.alias == GetByName(m, "alias")
            && e.target != ""
            && e.target[0] !in ModuleQuotes && e.target[|e.target| - 1] !in ModuleQuotes
            && (exists i :: TrimmedAt(GetByName(m, "module"), ModuleQuotes, i, e.target))
            && e.rng == RangeByName(m, "rng")
  {
  }

  /** The definition switch: a function, a class, an interface, an enum, and otherwise a variable. */
  function DefRule(path: string, m: Match): Option<DefEntry> {
    var rng := RangeByName(m, "rng");
    var (name, kind) :=
      if GetByName(m, "fname") != "" then (GetByName(m, "fname"), "func")
      else if GetByName(m, "cname") != "" then (GetByName(m, "cname"), "class")
      else if GetByName(m, "iname") != "" then (GetByName(m, "iname"), "interface")
      else if GetByName(m, "ename") != "" then (GetByName(m, "ename"), "enum")
      else (GetByName(m, "vname"), "var");
    if name == "" then None else Some(DefEntryFor(Lang, path, "", name, kind, rng))
  }

  /** The capture names of the definition query, in the switch's order of precedence. */
  const DefNames := ["fname", "cname", "iname", "ename", "vname"]

  /** The switch picks the name of the first non-empty capture in precedence order, and
      its kind says which capture that was; a match with none of them records nothing. */
  lemma DefPrecedence(path: string, m: Match)
    ensures var r := DefRule(path, m);
            var fname, cname := GetByName(m, "fname"), GetByName(m, "cname");
            var iname, ename := GetByName(m, "iname"), GetByName(m, "ename");
            && (r.None? <==> FirstNonEmptyBy(m, DefNames) == "")
            && (r.Some? ==>
                  && r.value.def.name == FirstNonEmptyBy(m, DefNames)
                  && (r.value.def.kind == "func" <==> fname != "")
                  && (r.value.def.kind == "class" <==> fname == "" && cname != "")
                  && (r.value.def.kind == "interface" <==> fname == "" && cname == "" && iname != "")
                  && (r.value.def.kind == "enum" <==> fname == "" && cname == "" && iname == "" && ename != "")
                  && (r.value.def.kind == "var" <==> fname == "" && cname == "" && iname == "" && ename == ""))
  {
    var fname, cname := GetByName(m, "fname"), GetByName(m, "cname");
    var iname, ename := GetByName(m, "iname"), GetByName(m, "ename");
    var vname := GetByName(m, "vname");
    assert DefNames[1..] == ["cname", "iname", "ename", "vname"];
    assert DefNames[1..][1..] == ["iname", "ename", "vname"];
    assert DefNames[1..][1..][1..] == ["ename", "vname"];
    assert DefNames[1..][1..][1..][1..] == ["vname"];
    assert FirstNonEmptyBy(m, ["vname"]) == vname;
    assert FirstNonEmptyBy(m, ["ename", "vname"]) == if ename != "" then ename else vname;
    assert FirstNonEmptyBy(m, ["iname", "ename", "vname"])
           == if iname != "" then iname else if ename != "" then ename else vname;
    assert FirstNonEmptyBy(m, DefNames)
           == if fname != "" then fname else if cname != "" then cname
              else if iname != "" then iname else if ename != "" then ename else vname;
  }

  /** A recorded definition carries the language "ts", the path as given and a non-empty
      name, and is keyed by symbolID with no container. */
  lemma DefShape(path: string, m: Match)
    requires DefRule(path, m).Some?
    ensures var e := DefRule(path, m).value;
            && e.def.lang == Lang && e.def.file == path && e.def.name != ""
            && e.def.rng == RangeByName(m, "rng")
            && e.sid == SymbolID(Lang, path, "", e.def.name)
  {
  }
}
