/** The Python adapter's per-file rules (pkg/adapter_py.go): the paths it handles, and
    what one import match and one definition match record. */
module PyRules {
  import opened Types
  import opened Strings
  import opened Helpers
  import opened Identity

  const Lang := "py"

  /** CanHandle: the lower-cased path ends in ".py". */
  predicate CanHandle(path: string) {
    HasSuffix(ToLower(path), ".py")
  }

  /** The suffix test, character by character: ".py" in any letter case. */
  lemma CanHandleSuffix(path: string)
    ensures CanHandle(path) <==>
              |path| >= 3 && path[|path| - 3] == '.' && path[|path| - 2] in "pP" && path[|path| - 1] in "yY"
  {
    var l := ToLower(path);
    if |path| >= 3 {
      assert l[|l| - 3..] == [l[|l| - 3], l[|l| - 2], l[|l| - 1]];
    }
  }

  /** One import match: an absent alias of a non-empty module defaults to the module's
      first dot-separated component; recorded only when the alias is then not empty.
      The range is that of the "m_rng" capture. */
  function ImportRule(m: Match): Option<ImportEntry> {
    var mod := GetByName(m, "module");
    var alias0 := GetByName(m, "alias");
    var rng := RangeByName(m, "m_rng");
    var alias := if alias0 == "" && mod != "" then FirstComponent(mod) else alias0;
    if alias != "" then Some(ImportEntry(alias, mod, rng)) else None
  }

  /** An import is recorded exactly when an alias was captured or the module starts with a
      character other than '.'; the entry maps the alias (the captured one, else the
      module's text before its first '.') to the module as captured, possibly "". */
  lemma ImportShape(m: Match)
    ensures var r := ImportRule(m);
            var alias, mod := GetByName(m, "alias"), GetByName(m, "module");
            && (r.Some? <==> alias != "" || (mod != "" && mod[0] != '.'))
            && (r.Some? ==>
                  && r.value.target == mod
                  && r.value.rng == RangeByName(m, "m_rng")
                  && (alias != "" ==> r.value.alias == alias)
                  && (alias == "" ==>
                        '.' !in r.value.alias && HasPrefix(mod, r.value.alias)
                        && (|r.value.alias| == |mod| || mod[|r.value.alias|] == '.')))
  {
  }

  /** The definition rule: the name is the first non-empty of "fname", "cname", "aname";
      the kind is a function if "fname" was captured, else a class if "cname" was, else a variable. */
  function DefRule(path: string, m: Match): Option<DefEntry> {
    var name := FirstNonEmptyBy(m, DefNames);
    var kind :=
      if GetByName(m, "fname") != "" then "func"
      else if GetByName(m, "cname") != "" then "class"
      else "var";
    var rng := RangeByName(m, "rng");
    if name == "" then None else Some(DefEntryFor(Lang, path, "", name, kind, rng))
  }

  const DefNames := ["fname", "cname", "aname"]

  /** The kind always names the capture the name came from, and a match with none of the
      three captures records nothing. */
  lemma DefPrecedence(path: string, m: Match)
    ensures var r := DefRule(path, m);
            var fname, cname, aname := GetByName(m, "fname"), GetByName(m, "cname"), GetByName(m, "aname");
            && (r.None? <==> fname == "" && cname == "" && aname == "")
            && (r.Some? ==>
                  && (r.value.def.kind == "func" <==> fname != "")
                  && (r.value.def.kind == "func" ==> r.value.def.name == fname)
                  && (r.value.def.kind == "class" <==> fname == "" && cname != "")
                  && (r.value.def.kind == "class" ==> r.value.def.name == cname)
                  && (r.value.def.kind == "var" <==> fname == "" && cname == "")
                  && (r.value.def.kind == "var" ==> r.value.def.name == aname))
  {
    assert DefNames[1..] == ["cname", "aname"];
    assert DefNames[1..][1..] == ["aname"];
    var fname, cname, aname := GetByName(m, "fname"), GetByName(m, "cname"), GetByName(m, "aname");
    assert FirstNonEmptyBy(m, ["aname"]) == aname;
    assert FirstNonEmptyBy(m, DefNames) == if fname != "" then fname else if cname != "" then cname else aname;
  }

  /** A recorded definition carries the language "py", the path as given and a non-empty
      name, and is keyed by symbolID with no container. */
  lemma DefShape(path: string, m: Match)
    requires DefRule(path, m).Some?
    ensures var e := DefRule(path, m).value;
            && e.def.lang == Lang && e.def.file == path && e.def.name != ""
            && e.def.rng == RangeByName(m, "rng")
            && e.sid == SymbolID(Lang, path, "", e.def.name)
  {
  }
}
