/** Symbol identity (pkg/engine.go, symbolID): the key `lang::file::name`, or
    `lang::file::container.name` for a symbol with a container such as a Go method's receiver. */
module Identity {
  import opened Types
  import opened Strings

  /** filepath.ToSlash: the identity where '/' is already the separator. */
  function ToSlash(p: string): string {
    p
  }

  /** The path as symbolID normalises it: separators to '/', then one leading "./" removed. */
  function NormalizePath(file: string): string {
    TrimPrefix(ToSlash(file), "./")
  }

  /** The part of the key after the file: `container.name`, or just `name`. */
  function Qualified(container: string, name: string): string {
    if container != "" then container + "." + name else name
  }

  function SymbolID(lang: string, file: string, container: string, name: string): string {
    var f := NormalizePath(file);
    if container != "" then lang + "::" + f + "::" + container + "." + name
    else lang + "::" + f + "::" + name
  }

  /** The entry an adapter stores for a definition: keyed by symbolID over the path as
      given, and carrying that same path unnormalised. */
  function DefEntryFor(lang: string, path: string, container: string, name: string, kind: string, rng: Range): DefEntry {
    DefEntry(SymbolID(lang, path, container, name), DefLocation(lang, path, rng, name, kind))
  }

  /** Text that contains neither of the key's separators. */
  predicate Ident(s: string) {
    ':' !in s && '.' !in s
  }

  /** A key that was built by symbolID from a separator-free language tag, container and
      name, which are exactly the language and name the definition carries. */
  ghost predicate Keyed(sid: string, d: DefLocation) {
    && ':' !in d.lang
    && Ident(d.name)
    && exists c :: Ident(c) && sid == SymbolID(d.lang, d.file, c, d.name)
  }

  /** The key, cut at its separators. */
  lemma SymbolIDShape(lang: string, file: string, container: string, name: string)
    ensures SymbolID(lang, file, container, name)
            == lang + [':'] + ([':'] + NormalizePath(file) + [':'] + [':'] + Qualified(container, name))
  {
  }

  /** The index of the first `x` in `s` (|s| if there is none). */
  function IndexOf(s: string, x: char): nat {
    if s == [] || s[0] == x then 0 else 1 + IndexOf(s[1..], x)
  }

  /** The index of the last `x` in `s` (-1 if there is none). */
  function LastIndexOf(s: string, x: char): int {
    if s == [] then -1 else if s[|s| - 1] == x then |s| - 1 else LastIndexOf(s[..|s| - 1], x)
  }

  lemma {:induction false} IndexOfAfter(a: string, b: string, x: char)
    requires x !in a
    ensures IndexOf(a + [x] + b, x) == |a|
  {
    if a != [] {
      assert (a + [x] + b)[1..] == a[1..] + [x] + b;
      IndexOfAfter(a[1..], b, x);
    }
  }

  lemma {:induction false} LastIndexOfBefore(a: string, b: string, x: char)
    requires x !in b
    ensures LastIndexOf(a + [x] + b, x) == |a|
  {
    if b != [] {
      assert (a + [x] + b)[..|a + [x] + b| - 1] == a + [x] + b[..|b| - 1];
      LastIndexOfBefore(a, b[..|b| - 1], x);
    }
  }

  /** Cutting at the first occurrence of a character that the two heads lack. */
  lemma SplitAtFirst(a: string, b: string, c: string, d: string, x: char)
    requires a + [x] + b == c + [x] + d
    requires x !in a && x !in c
    ensures a == c && b == d
  {
    var s := a + [x] + b;
    IndexOfAfter(a, b, x);
    IndexOfAfter(c, d, x);
    assert a == s[..|a|] && c == s[..|c|];
    assert b == s[|a| + 1..] && d == s[|c| + 1..];
  }

  /** Cutting at the last occurrence of a character that the two tails lack. */
  lemma SplitAtLast(a: string, b: string, c: string, d: string, x: char)
    requires a + [x] + b == c + [x] + d
    requires x !in b && x !in d
    ensures a == c && b == d
  {
    var s := a + [x] + b;
    LastIndexOfBefore(a, b, x);
    LastIndexOfBefore(c, d, x);
    assert a == s[..|a|] && c == s[..|c|];
    assert b == s[|a| + 1..] && d == s[|c| + 1..];
  }

  /** Over separator-free language tags, containers and names, the key determines the
      language, the normalised file, the container and the name. */
  lemma {:induction false} SymbolIDInjective(l1: string, f1: string, c1: string, n1: string,
                                             l2: string, f2: string, c2: string, n2: string)
    requires ':' !in l1 && ':' !in l2
    requires Ident(c1) && Ident(c2) && Ident(n1) && Ident(n2)
    requires SymbolID(l1, f1, c1, n1) == SymbolID(l2, f2, c2, n2)
    ensures l1 == l2 && NormalizePath(f1) == NormalizePath(f2) && c1 == c2 && n1 == n2
  {
    SymbolIDShape(l1, f1, c1, n1);
    SymbolIDShape(l2, f2, c2, n2);
    var p1, p2 := NormalizePath(f1), NormalizePath(f2);
    var t1, t2 := Qualified(c1, n1), Qualified(c2, n2);
    var r1 := [':'] + p1 + [':'] + [':'] + t1;
    var r2 := [':'] + p2 + [':'] + [':'] + t2;
    SplitAtFirst(l1, r1, l2, r2, ':');
    assert ':' !in t1 && ':' !in t2;
    SplitAtLast([':'] + p1 + [':'], t1, [':'] + p2 + [':'], t2, ':');
    assert p1 == ([':'] + p1 + [':'])[1..|p1| + 1];
    assert p2 == ([':'] + p2 + [':'])[1..|p2| + 1];
    if c1 != "" && c2 != "" {
      SplitAtFirst(c1, n1, c2, n2, '.');
    }
  }

  /** Exactly one leading "./" is dropped: prefixing "./" leaves the key unchanged
      if and only if the path did not already start with "./". */
  lemma DotSlashStrippedOnce(lang: string, file: string, container: string, name: string)
    ensures SymbolID(lang, "./" + file, container, name) == SymbolID(lang, file, container, name)
            <==> !HasPrefix(file, "./")
  {
    assert NormalizePath("./" + file) == file by {
      assert ("./" + file)[..2] == "./";
      assert ("./" + file)[2..] == file;
    }
    SymbolIDShape(lang, "./" + file, container, name);
    SymbolIDShape(lang, file, container, name);
    if HasPrefix(file, "./") {
      var k1 := SymbolID(lang, "./" + file, container, name);
      var k2 := SymbolID(lang, file, container, name);
      assert |NormalizePath(file)| == |file| - 2;
      assert |k1| != |k2|;
    }
  }

  /** Without the separator-free side condition the key is not injective: a method `M` on
      receiver `T` and a function literally named `T.M` share a key. */
  lemma ContainerCollision()
    ensures SymbolID("go", "a.go", "T", "M") == SymbolID("go", "a.go", "", "T.M")
  {
  }

  /** Two definitions keyed by the same identity agree on language, name and normalised file. */
  lemma KeyedAgree(sid: string, d1: DefLocation, d2: DefLocation)
    requires Keyed(sid, d1) && Keyed(sid, d2)
    ensures d1.lang == d2.lang && d1.name == d2.name
    ensures NormalizePath(d1.file) == NormalizePath(d2.file)
  {
    var c1 :| Ident(c1) && sid == SymbolID(d1.lang, d1.file, c1, d1.name);
    var c2 :| Ident(c2) && sid == SymbolID(d2.lang, d2.file, c2, d2.name);
    SymbolIDInjective(d1.lang, d1.file, c1, d1.name, d2.lang, d2.file, c2, d2.name);
  }
}
