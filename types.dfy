/** Value types shared by the engine and the adapters (pkg/xref.go, pkg/engine.go). */
module Types {

  datatype Option<T> = None | Some(value: T)

  /** A cursor location, 1-based. */
  datatype Pos = Pos(line: int, col: int)

  /** A span whose two ends are both inclusive. */
  datatype Range = Range(start: Pos, end: Pos)

  const ZeroRange := Range(Pos(0, 0), Pos(0, 0))

  datatype DefLocation = DefLocation(lang: string, file: string, rng: Range, name: string, kind: string)

  const ZeroDef := DefLocation("", "", ZeroRange, "", "")

  datatype RefLocation = RefLocation(lang: string, file: string, rng: Range)

  /** Occurrence kind hints. */
  const HintDef := "def"
  const HintRef := "ref"
  const HintImport := "import"

  /** One appearance of an identifier; `symbolID` is "" unless the extractor knows it. */
  datatype Occurrence = Occurrence(name: string, kindHint: string, rng: Range, symbolID: string)

  /** The result of extracting one file. */
  datatype FileIndex = FileIndex(
    lang: string,
    file: string,
    defs: map<string, DefLocation>,
    refs: map<string, seq<RefLocation>>,
    occurrences: seq<Occurrence>,
    imports: map<string, string>)

  /** What one import match records: the alias, the path or module it names, and the
      range of its occurrence. */
  datatype ImportEntry = ImportEntry(alias: string, target: string, rng: Range)

  /** What one definition match records: the identity and the definition stored under it. */
  datatype DefEntry = DefEntry(sid: string, def: DefLocation)

  /** One named capture of a query match: its capture name, the source text it covers,
      and its 0-based start and end (row, column). */
  datatype Capture = Capture(name: string, text: string, startRow: nat, startCol: nat, endRow: nat, endCol: nat)

  type Match = seq<Capture>

  /** A parsed file, seen only through what the language's three queries
      (imports, definitions, references) yield on it, in match order. */
  datatype Tree = Tree(importMatches: seq<Match>, defMatches: seq<Match>, refMatches: seq<Match>)
}
