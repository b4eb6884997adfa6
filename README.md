# xref: cross-reference index and go-to-definition, in Dafny

This project models the core of `xref`, a cross-reference engine for Go, TypeScript and
Python sources. Per-language adapters turn each file into a file index with definitions,
occurrences and imports. The engine merges those file indexes into a project index and
answers queries over it:
- go to definition at a cursor position;
- the references of a symbol;
- all definitions, as a map or as a sorted tree;
- the occurrences of one file.

The model runs indexing sequentially, as a fold of `merge` over the files in discovery
order. Tree-sitter is replaced by what each language's three queries (imports,
definitions, references) yield on a file. That is a sequence of matches, and each match
is a sequence of named captures `(name, text, start row/col, end row/col)`.

Layout, one module per file:
- `types.dfy`: the value types.
- `strings.dfy`: the parts of Go's `strings` and `path/filepath` the core uses.
- `helpers.dfy`: the capture helpers.
- `identity.dfy`: `symbolID`.
- `index.dfy`: the `ProjectIndex` class, `merge`, and what merging does to each table.
- `lookup.dfy`: `beforeOrEq`, `pickOccurrence` and the candidate search.
- `go_rules.dfy`, `ts_rules.dfy`, `py_rules.dfy`: each language's `CanHandle` and its
  import and definition rules for one match.
- `adapters.dfy`: adapter dispatch, `Extract` and `ResolveAt`.
- `pipeline.dfy`: directory pruning, the walk, the producer, and the consumers' skip
  policy.
- `indexing.dfy`: the tables after a fold of merges.
- `report.dfy`: `GetDefinitionTree`'s sort.
- `engine.dfy`: the `Engine` class.

Go's map iteration order is unspecified. The loops that range over a map therefore pick
an arbitrary remaining key (`var k :| k in pending`). `merge` returns the order it used
as a ghost result. Properties that depend on that order (the reverse lookup, the single
candidate `ResolveAt` picks) are stated for every possible order.

Some consequences proved about the code as written:
- No adapter ever fills `Refs`. Indexing therefore never adds a reference, and
  `FindReferences` returns whatever the table held before (`Indexing.IndexingAddsNoRefs`).
- `FindDefinitionAt` reads occurrences under the path with one leading `./` removed. The
  consumers store them under the path exactly as discovered. Occurrences stored only
  under `./a.go` are therefore never seen by `FindDefinitionAt("./a.go", …)`
  (`Indexing.DotSlashMiss`).
  The adapter choice and `ResolveAt` get the path unnormalised, as in the source.
- `symbolID` is injective only over names and containers without `:` or `.`. A method
  `M` on receiver `T` and a function named `T.M` share a key
  (`Identity.ContainerCollision`).
- When every identity is keyed by its definition's own language and name, the tables
  stay coherent (`Index.Coherent`). On coherent tables, the definition found has the
  adapter's language and the occurrence's name. "definition not found" then means that
  no definition at all has that language and name.

## Model

| member | source | states |
|---|---|---|
| Helpers.GetByName | pkg/helpers.go:21-28 | the text of the first capture with the name, in capture order; "" when no capture has it |
| Helpers.RangeByName | pkg/helpers.go:30-38 | the first capture with the name gives a Range whose four coordinates are its 0-based ones plus one; the zero Range when no capture has the name |
| Helpers.FirstNonEmptyBy | pkg/helpers.go:40-47 | "" exactly when every name gives ""; otherwise the value of the first name, in argument order, whose value is non-empty |
| Helpers.RangeByNameOneBased | pkg/helpers.go:33-34 | a Range built from a capture that exists has every coordinate at least 1, so it never equals the zero Range |
| Helpers.GetByNameFrom | pkg/helpers.go:21-27 | getByName yields "" or the text of some capture carrying that name |
| Strings.Trim | pkg/adapter_go.go:69 | strings.Trim: the result is a slice of the input; everything cut from either end is in the cut set; the result is empty exactly when every character is in the set |
| Strings.Base | pkg/adapter_go.go:74 | filepath.Base is never "": "." for the empty path, "/" exactly for a non-empty path of slashes only, and for a path not ending in '/' the last '/'-free suffix |
| Strings.BaseTrailingSlash | pkg/adapter_go.go:74 | filepath.Base ignores a trailing '/' on a non-empty path |
| Strings.FirstComponent | pkg/adapter_py.go:62 | strings.Split(s, ".")[0]: the longest '.'-free prefix of s |
| Strings.StrLessTotal | pkg/engine.go:262-270 | Go's string `<` is total: two strings are equal or one is less |
| Identity.SymbolID | pkg/engine.go:309-320 | symbolID: `lang::file::container.name`, or `lang::file::name` without a container, over the file with one leading "./" removed; its properties are the four Identity lemmas below |
| Identity.SymbolIDInjective | pkg/engine.go:309-320 | over a ':'-free language and names and containers without ':' or '.', equal keys mean equal language, normalised file, container and name |
| Identity.DotSlashStrippedOnce | pkg/engine.go:311-313 | prefixing "./" leaves the key unchanged exactly when the path did not already start with "./": one leading "./" is removed, not more |
| Identity.ContainerCollision | pkg/engine.go:314-319 | method M on receiver T and a container-less function named "T.M" get the same key |
| Identity.KeyedAgree | pkg/engine.go:309-320 | two definitions stored under one well-formed key agree on language, name and normalised file |
| Lookup.BeforeOrEq | pkg/engine.go:296-304 | beforeOrEq: line first, then column; `Lookup.BeforeOrEqTotalOrder` proves it a total order |
| Lookup.Contains | pkg/engine.go:290 | the range holds the point with both ends included; `Lookup.ContainsExample` shows both ends counting |
| Lookup.BeforeOrEqTotalOrder | pkg/engine.go:296-304 | beforeOrEq is reflexive, transitive, antisymmetric and total |
| Lookup.PickOccurrence | pkg/engine.go:285-294 | not found exactly when no occurrence's range holds the point, both ends included; otherwise the first such occurrence in list order |
| Lookup.PickOccurrenceConcat | pkg/engine.go:288-292 | on `first + rest`, a containing occurrence of `first` wins over any of `rest`; this is why the emission order matters |
| Lookup.ContainsExample | pkg/engine.go:290 | (10,1)-(10,10) holds (10,1), (10,5) and (10,10), but not (10,11) or (9,5) |
| Lookup.FirstDefined | pkg/engine.go:228-233 | none exactly when no candidate is a key of Defs; otherwise the first candidate, in candidate order, that is a key |
| GoRules.CanHandle | pkg/adapter_go.go:42-44 | CanHandle: the lower-cased path ends in ".go"; characterised by `GoRules.CanHandleSuffix` |
| GoRules.ImportRule | pkg/adapter_go.go:68-77 | the Go import callback for one match; characterised by `GoRules.ImportRecorded`, `GoRules.ImportShape` and `GoRules.ImportAlias` |
| GoRules.DefRule | pkg/adapter_go.go:83-111 | the Go definition switch for one match; characterised by `GoRules.DefPrecedence` and `GoRules.DefShape` |
| GoRules.CanHandleSuffix | pkg/adapter_go.go:42-44 | a path is handled exactly when it ends in '.', 'g' or 'G', 'o' or 'O' |
| GoRules.ImportRecorded | pkg/adapter_go.go:69-71 | an import is recorded exactly when its path capture holds a character other than a backtick or a double quote |
| GoRules.ImportShape | pkg/adapter_go.go:68-77 | a recorded import: the path has only its surrounding backticks and double quotes trimmed, and the range is rng |
| GoRules.ImportAlias | pkg/adapter_go.go:71-75 | a recorded import's alias is the captured one, or else not empty and, for a path not ending in '/', the path's last '/'-separated element |
| GoRules.DefPrecedence | pkg/adapter_go.go:83-106 | nothing is recorded exactly when fname, tname, vname and cname are all empty; otherwise the name is the first non-empty of them, the kind (func, type, var, const) says which, and the container is mrecv minus one leading '*' for functions |
| GoRules.DefShape | pkg/adapter_go.go:108-111 | a recorded definition has language "go", the path as given, a non-empty name, range rng, and is keyed by symbolID over them |
| TsRules.CanHandle | pkg/adapter_ts.go:32-35 | CanHandle: the lower-cased path ends in ".ts", ".mts" or ".cts"; characterised by `TsRules.CanHandleSuffix` |
| TsRules.ImportRule | pkg/adapter_ts.go:47-52 | the TypeScript import callback for one match; characterised by `TsRules.ImportRecorded` and `TsRules.ImportShape` |
| TsRules.DefRule | pkg/adapter_ts.go:56-74 | the TypeScript definition switch for one match; characterised by `TsRules.DefPrecedence` and `TsRules.DefShape` |
| TsRules.CanHandleSuffix | pkg/adapter_ts.go:32-35 | a path is handled exactly when it ends in .ts, .mts or .cts, in any letter case |
| TsRules.ImportRecorded | pkg/adapter_ts.go:47-50 | an import is recorded exactly when an alias was captured and the module holds a character other than a quote |
| TsRules.ImportShape | pkg/adapter_ts.go:47-52 | a recorded import maps the captured alias to the module with only its surrounding `"` and `'` trimmed; the range is rng |
| TsRules.DefPrecedence | pkg/adapter_ts.go:56-71 | nothing is recorded exactly when fname, cname, iname, ename and vname are all empty; otherwise the name is the first non-empty of them and the kind (func, class, interface, enum, var) says which |
| TsRules.DefShape | pkg/adapter_ts.go:72-74 | a recorded definition has language "ts", the path as given, a non-empty name, and is keyed by symbolID with no container |
| PyRules.CanHandle | pkg/adapter_py.go:33-35 | CanHandle: the lower-cased path ends in ".py"; characterised by `PyRules.CanHandleSuffix` |
| PyRules.ImportRule | pkg/adapter_py.go:58-67 | the Python import callback for one match; characterised by `PyRules.ImportShape` |
| PyRules.DefRule | pkg/adapter_py.go:70-84 | the Python definition switch for one match; characterised by `PyRules.DefPrecedence` and `PyRules.DefShape` |
| PyRules.CanHandleSuffix | pkg/adapter_py.go:33-35 | a path is handled exactly when it ends in '.', 'p' or 'P', 'y' or 'Y' |
| PyRules.ImportShape | pkg/adapter_py.go:58-67 | recorded exactly when an alias was captured or the module starts with a character other than '.'; the alias is the captured one, else the module's text before its first '.'; the target is the module as captured, possibly "" |
| PyRules.DefPrecedence | pkg/adapter_py.go:70-82 | nothing is recorded exactly when fname, cname and aname are all empty; func exactly when fname is present, class when only cname is, var otherwise, each with that capture's text as name |
| PyRules.DefShape | pkg/adapter_py.go:83-84 | a recorded definition has language "py", the path as given, a non-empty name, and is keyed by symbolID with no container |
| Adapters.PickAdapter | pkg/engine.go:190-197 | none exactly when no registered adapter handles the path; otherwise the first registered adapter that does |
| Adapters.HandlersDisjoint | pkg/adapter_ts.go:32-35 | no path is handled by two of the three adapters (the suffix tests of pkg/adapter_go.go:42-44 and pkg/adapter_py.go:33-35 exclude each other) |
| Adapters.PickDefault | pkg/engine.go:92 | with the default registration go, ts, py, a path is dispatched to an adapter exactly when that adapter handles it |
| Adapters.RefRule | pkg/adapter_go.go:116-123 | the reference callback for one match, shared by the three adapters; `Adapters.VisitRefs` and `Adapters.RefFold` state what it yields |
| Adapters.ExtractSpec | pkg/adapter_go.go:59-125 | the file index Extract builds; `Adapters.ExtractNoTree`, `Adapters.ExtractOrder`, `Adapters.ExtractLinks`, `Adapters.ExtractDefs` and `Adapters.ExtractKeyed` state its properties (also pkg/adapter_ts.go:43-85, pkg/adapter_py.go:47-95) |
| Adapters.Extract | pkg/adapter_go.go:59-125 | the file index for the adapter's language and the path: empty without a tree; otherwise the import, definition and reference callbacks run over their matches in order (also pkg/adapter_ts.go:43-85, pkg/adapter_py.go:47-95) |
| Adapters.VisitImports | pkg/adapter_go.go:67-79 | the import callback over every match: each recorded alias maps to its target, the last match winning, with one import occurrence per recorded match |
| Adapters.VisitDefs | pkg/adapter_go.go:82-113 | the definition callback over every match: each recorded definition is stored under its key, the last match winning, with one def occurrence per recorded match |
| Adapters.VisitRefs | pkg/adapter_go.go:116-123 | the reference callback over every match: one ref occurrence per non-empty id |
| Adapters.ImportFold | pkg/adapter_go.go:76-77 | import occurrences carry the import hint and no identity; each names an alias in the imports map, and each alias has one |
| Adapters.DefFold | pkg/adapter_go.go:110-112 | def occurrences carry the def hint and a stored identity, each stored identity has one, and each stored definition comes from some match |
| Adapters.RefFold | pkg/adapter_go.go:117-122 | ref occurrences carry the ref hint, no identity and a non-empty name |
| Adapters.ExtractNoTree | pkg/adapter_go.go:60-63 | for Go and Python, with no tree the result has the adapter's language and the path, and empty Defs, Refs, Occurrences and Imports (also pkg/adapter_py.go:53-55) |
| Adapters.ExtractOrder | pkg/adapter_go.go:67-123 | occurrences come as all imports, then all definitions, then all references |
| Adapters.ExtractLinks | pkg/adapter_go.go:60-124 | Refs is empty; import occurrences and aliases match both ways, def occurrences and identities match both ways, and references carry no identity |
| Adapters.ExtractDefs | pkg/adapter_go.go:109-111 | every stored definition has the adapter's language, the path as given and a non-empty name, and is keyed by symbolID over them; only Go uses a container |
| Adapters.RuleKeyed | pkg/adapter_go.go:83-111 | over captures free of ':' and '.', the identity a definition rule records is a key built from that definition's own language and name |
| Adapters.ExtractKeyed | pkg/adapter_go.go:110-111 | over such captures, every identity of the file index is keyed by its definition |
| Adapters.ResolveAt | pkg/adapter_go.go:130-143 | when some definition has the adapter's language, the path and the name, exactly one such identity; otherwise a copy of NameLookup["lang:name"], empty when absent; the index is only read (also pkg/adapter_ts.go:87-96, pkg/adapter_py.go:97-107) |
| Adapters.ResolvedSound | pkg/adapter_go.go:135-142 | on coherent tables every candidate is a definition with the adapter's language and the occurrence's name |
| Adapters.ResolvedComplete | pkg/adapter_go.go:135-142 | on coherent tables with no local match, every definition with that language and name is a candidate |
| Index.ProjectIndex.constructor | pkg/engine.go:41-48 | newProjectIndex: four empty tables |
| Index.ProjectIndex.Merge | pkg/engine.go:53-72 | Defs is overwritten by the file's definitions; each identity is appended to NameLookup under its definition's `lang:name` in the map's order; reference lists are appended per identity; the occurrences are appended under the file's path |
| Index.ProjectIndex.MergeDefs | pkg/engine.go:58-63 | the first loop: Defs becomes old Defs overridden by the file's, and NameLookup is extended in the order the loop ranged the map |
| Index.ProjectIndex.MergeRefLists | pkg/engine.go:66-68 | the second loop: each reference list is the old one followed by the file's |
| Index.AppendNamesAt | pkg/engine.go:60-62 | after merging, the list under a key is the old list followed by the file's identities with that key, in ranging order |
| Index.NamedInMembers | pkg/engine.go:60-62 | an identity is among those added under a key exactly when the file defines it with that key |
| Index.MergeNamesCount | pkg/engine.go:58-63 | whatever the ranging order, a merge adds under each key each of the file's identities with that key exactly once |
| Index.MergeRefsAt | pkg/engine.go:66-68 | after merging, Refs[sid] is old Refs[sid] followed by the file's Refs[sid]; reference counts add up |
| Index.DefsTwice | pkg/engine.go:58-59 | merging one file twice leaves the same definitions as merging it once |
| Index.NamesTwice | pkg/engine.go:60-62 | merging one file twice adds its identities to the reverse lookup twice |
| Index.RefsTwice | pkg/engine.go:66-68 | merging one file twice appends its reference lists twice |
| Index.OccTwice | pkg/engine.go:71 | merging one file twice appends its occurrences twice under its path |
| Index.DefsCommute | pkg/engine.go:58-59 | two files with disjoint identities give the same definitions in either merge order |
| Index.NamesCommute | pkg/engine.go:60-62 | in either merge order and any ranging order, two files leave the same identities, with the same multiplicities, under every key |
| Index.RefsCommute | pkg/engine.go:66-68 | in either merge order, two files leave the same references, with the same multiplicities, under every identity |
| Index.OccCommute | pkg/engine.go:71 | two different files give the same occurrence table in either merge order |
| Index.EmptyCoherent | pkg/engine.go:41-48 | the empty tables are coherent |
| Index.MergePreservesCoherent | pkg/engine.go:58-63 | merging a file whose identities are keyed by their definitions keeps every definition listed under its `lang:name` key, and every listed identity defined with that key |
| Indexing.DefsAfterDomain | pkg/engine.go:58-59 | after a fold of merges, an identity is defined exactly when it was before or some merged file defines it |
| Indexing.DefsAfterLast | pkg/engine.go:58-59 | the last merged file that defines an identity decides its definition |
| Indexing.DefsAfterKept | pkg/engine.go:58-59 | an identity no merged file defines keeps its definition |
| Indexing.RefsAfterAt | pkg/engine.go:66-68 | after a fold, each reference list is the old one followed by the files' lists in merge order |
| Indexing.OccAfterAt | pkg/engine.go:71 | after a fold, each path's occurrences are the old ones followed by those of the files indexed under exactly that path, in merge order |
| Indexing.IndexedFilesFrom | pkg/engine.go:157-180 | every merged file index was extracted from a discovered path, under that path, by the first adapter handling it, and holds no references |
| Indexing.IndexingAddsNoRefs | pkg/adapter_go.go:60 | indexing any paths leaves the reference table unchanged |
| Indexing.IndexedKeyed | pkg/engine.go:173-179 | over sources whose definition captures are free of ':' and '.', every merged file keys its identities by their definitions |
| Indexing.DotSlashMiss | pkg/engine.go:204-207 | occurrences stored under "./q" but not under "q" are not seen by the lookup FindDefinitionAt makes for "./q" |
| Pipeline.PrunedDir | pkg/engine.go:129-135 | the directory filter of the walk; characterised by `Pipeline.PrunedByLastElement` |
| Pipeline.PrunedByLastElement | pkg/engine.go:129-135 | a directory is skipped exactly when its last element, lower-cased, is one of the nine names (.git, .hg, .svn, \_\_pycache\_\_, .mypy_cache, .pytest_cache, venv, .venv, node_modules) |
| Pipeline.WalkReachable | pkg/engine.go:125-141 | the walk sends exactly the files not inside a skipped directory |
| Pipeline.Discover | pkg/engine.go:112-146 | the producer: each argument in order; one os.Stat cannot see is skipped; a file is sent as given; a directory is walked unless the same argument was walked already |
| Pipeline.DiscoverFinds | pkg/engine.go:112-146 | a path is sent exactly when some argument that os.Stat sees produces it |
| Pipeline.DiscoverRepeats | pkg/engine.go:119-123 | a directory given twice is walked once, while a file given twice is sent twice (pkg/engine.go:142-144) |
| Pipeline.IndexedFile | pkg/engine.go:157-180 | one consumer step as a value: the file index merged for a path, if any; characterised by `Pipeline.IndexedFileSkips` |
| Pipeline.IndexedFileSkips | pkg/engine.go:157-180 | a path is merged exactly when it can be read, some adapter handles it and it parses; then it is the first handling adapter's extraction under the path as sent |
| Report.DefLess | pkg/engine.go:262-271 | the sort comparator: file, then kind, then name; `Report.DefLessStrictWeakOrder` proves it a strict weak order |
| Report.DefLessStrictWeakOrder | pkg/engine.go:262-271 | the comparator is irreflexive, asymmetric and transitive, and two definitions neither below the other agree on file, kind and name |
| Report.SortDefs | pkg/engine.go:262-271 | sort.Slice: afterwards no element is below an earlier one, and the array is a permutation of what it was |
| Report.CollectValues | pkg/engine.go:257-261 | the append loop collects every value of the map, each as often as it is stored |
| Report.DefinitionTree | pkg/engine.go:254-272 | every stored definition, once per identity, sorted by file, then kind, then name |
| Engine.Engine.constructor | pkg/engine.go:77-95 | New: with no adapters given, Go, TypeScript and Python in that order; otherwise the ones given; a fresh, empty index |
| Engine.Engine.IndexPaths | pkg/engine.go:104-188 | Defs, Refs and FileOcc end as the fold of merge over the files merged in discovery order; each NameLookup list gains exactly the merged files' identities with its key; coherent tables stay coherent |
| Engine.Engine.IndexFile | pkg/engine.go:157-180 | one consumer step: a file that cannot be read, has no adapter or does not parse leaves the index unchanged; otherwise its extraction is merged |
| Engine.Engine.IndexRoot | pkg/engine.go:97-99 | IndexPaths on the one root |
| Engine.Engine.FindDefinitionAt | pkg/engine.go:202-234 | "no identifier at position" exactly when no occurrence under the normalised path holds the cursor; "no adapter for file" exactly when there is one but no adapter handles the raw path; both with no candidates; otherwise ResolveAt's candidates, and the first one that is defined, else "definition not found"; on coherent tables the result has the adapter's language and the occurrence's name |
| Engine.Engine.FindReferences | pkg/engine.go:236-243 | a copy of the identity's reference list, empty when it has none |
| Engine.Engine.GetDefinitions | pkg/engine.go:245-251 | a copy of the definition table |
| Engine.Engine.GetDefinitionTree | pkg/engine.go:254-272 | the definitions, each once per identity, sorted by file, kind and name |
| Engine.Engine.GetFileOccurrences | pkg/engine.go:274-280 | a copy of the occurrences stored under exactly that path, empty when there are none |
| Engine.CoherentAnswer | pkg/engine.go:222-233 | on coherent tables, the first defined candidate has the adapter's language and the occurrence's name, and when none is defined the candidate list is empty and no definition at all has that language and name |

## Left out

- Concurrency: the producer goroutine, the four consumer workers, the channel, the wait
  groups and the read/write mutex. Indexing is a sequential fold in discovery order. With
  several workers the source can merge files in a different order. `Index.DefsCommute`,
  `Index.NamesCommute`, `Index.RefsCommute` and `Index.OccCommute` say which tables do
  not depend on that order.
- File-system I/O: `os.Stat` and `filepath.WalkDir` are a parameter. It maps each
  argument path to a file or to a directory tree whose children are in walk order.
  `os.ReadFile` and the parse result are another parameter, mapping each path to its
  parsed tree. WalkDir's error callbacks and the path joining and cleaning it performs
  are not modelled: the tree carries the paths WalkDir would report.
- Tree-sitter: `Parse`, `execQuery`, `loadQuery` and the query files are not part of this
  model. A tree is what its three queries yield, and the source bytes are never read.
- Identity.ToSlash: the identity function, since '/' is the only separator modelled.
  Windows paths are not modelled.
- Strings.ToLower: maps ASCII letters only. Non-ASCII case mapping is not modelled.
- Engine.Engine.constructor: adapters come from the closed set of three built-in kinds.
  Third-party `LanguageAdapter` values are not modelled. The error returns of the
  adapters' constructors are not modelled either, because they depend on tree-sitter.
- Adapters.Extract: requires a tree for the TypeScript adapter. The source dereferences a
  nil tree there (pkg/adapter_ts.go:45). The engine never passes a nil tree, because
  IndexPaths skips a file whose parse yields none.
- Adapters.ResolveAt: when several definitions match locally, the model states only that
  one of them is returned. Which one depends on Go's map order.
- Engine.Engine.IndexPaths: each NameLookup list is stated per key and with
  multiplicity, not in order. Its order follows Go's map iteration, so it is
  unspecified. `Index.ProjectIndex.Merge` states the exact list for the order that was
  used.
- Report.SortDefs: an insertion sort. It promises what sort.Slice promises: sorted, and a
  permutation of the input. The order among definitions that agree on file, kind and
  name is unspecified in both.
- Engine.Engine.FindDefinitionAt: the `os.ReadFile` of the cursor's file is left out,
  since every adapter ignores its bytes in ResolveAt.
- The `Lang()` method of each adapter is `Adapters.Lang`, a constant per adapter.
  `cmd/demo/main.go` and the test fixture are not part of this model.
