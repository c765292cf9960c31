/** Turning the names of an `import` / `from ... import` statement into
    dotted module names: `resolve_import_from` and, as an oracle,
    `resolve_module_or_object_by_path` (pytest_archon/collect.py). */
module Resolve {

  import opened Base

  /** `s.rsplit(".", maxsplit)`: at most `maxsplit` splits, taken from the right. */
  function RSplit(s: string, maxsplit: nat): (bits: seq<string>)
    ensures |bits| >= 1
    ensures forall j :: 1 <= j < |bits| ==> '.' !in bits[j]
  {
    if maxsplit == 0 || '.' !in s then [s]
    else
      var i := RFind(s, '.');
      RSplit(s[..i], maxsplit - 1) + [s[i + 1..]]
  }

  lemma {:induction false} CountAppend(a: string, b: string, c: char)
    ensures Count(a + b, c) == Count(a, c) + Count(b, c)
  {
    if a == [] {
      assert a + b == b;
    } else {
      assert (a + b)[1..] == a[1..] + b;
      CountAppend(a[1..], b, c);
    }
  }

  function Min(a: nat, b: nat): nat {
    if a <= b then a else b
  }

  /** One split of `rsplit`: at the last dot, which leaves no dot after it. */
  lemma RSplitStep(s: string, maxsplit: nat) returns (i: nat)
    requires maxsplit != 0 && '.' in s
    ensures i < |s| && s[i] == '.' && '.' !in s[i + 1..]
    ensures s == s[..i] + "." + s[i + 1..]
    ensures RSplit(s, maxsplit) == RSplit(s[..i], maxsplit - 1) + [s[i + 1..]]
  {
    i := RFind(s, '.');
  }

  /** `rsplit` yields one more part than the number of splits it makes. */
  lemma {:induction false} RSplitLength(s: string, maxsplit: nat)
    ensures |RSplit(s, maxsplit)| == Min(maxsplit, Count(s, '.')) + 1
  {
    if maxsplit != 0 && '.' in s {
      var i := RSplitStep(s, maxsplit);
      CountDotThen(s[..i], s[i + 1..]);
      RSplitLength(s[..i], maxsplit - 1);
      var n := Count(s[..i], '.');
      assert Count(s, '.') == n + 1;
      assert |RSplit(s, maxsplit)| == Min(maxsplit - 1, n) + 2;
      assert Min(maxsplit - 1, n) + 1 == Min(maxsplit, n + 1);
    }
  }

  /** A dot followed by a dot-free piece adds one to the count. */
  lemma CountDotThen(a: string, b: string)
    requires '.' !in b
    ensures Count(a + "." + b, '.') == Count(a, '.') + 1
  {
    var tail := "." + b;
    assert a + "." + b == a + tail;
    CountAppend(a, tail, '.');
    assert tail[1..] == b;
  }

  /** Joining the parts with dots gives back the string. */
  lemma {:induction false} RSplitJoin(s: string, maxsplit: nat)
    ensures JoinDots(RSplit(s, maxsplit)) == s
  {
    if maxsplit != 0 && '.' in s {
      var i := RSplitStep(s, maxsplit);
      var front := RSplit(s[..i], maxsplit - 1);
      RSplitJoin(s[..i], maxsplit - 1);
      JoinDotsSnoc(front, s[i + 1..]);
    }
  }

  lemma {:induction false} JoinDotsSnoc(parts: seq<string>, last: string)
    requires parts != []
    ensures JoinDots(parts + [last]) == JoinDots(parts) + "." + last
  {
    if |parts| == 1 {
      assert parts + [last] == [parts[0], last];
      assert [parts[0], last][1..] == [last];
    } else {
      assert (parts + [last])[1..] == parts[1..] + [last];
      JoinDotsSnoc(parts[1..], last);
    }
  }

  /** The first part of `rsplit` is a leading piece of the string that ends
      where a dotted component ends. */
  lemma RSplitHeadIsAncestor(s: string, maxsplit: nat)
    ensures var b := RSplit(s, maxsplit)[0];
      b == s || (|b| < |s| && s[..|b|] == b && s[|b|] == '.')
  {
    var bits := RSplit(s, maxsplit);
    RSplitJoin(s, maxsplit);
    if |bits| > 1 {
      JoinDotsCons(bits);
    }
  }

  lemma JoinDotsCons(parts: seq<string>)
    requires |parts| > 1
    ensures JoinDots(parts) == parts[0] + "." + JoinDots(parts[1..])
  {
  }

  const BeyondTopLevel := "attempted relative import beyond top-level package"

  /** `resolve_import_from(name, module, package, level)`. `package` is the
      importing module's own dotted name; the empty string stands for a
      missing one (both fail the `assert package`). */
  function ResolveImportFrom(name: string, source: Option<string>, package: string, level: nat): (r: Result<string>)
    ensures level == 0 && name != "*" && source.Some? ==> r == Ok(source.value + "." + name)
    ensures level == 0 && name != "*" && source.None? ==> r == Ok(name)
    ensures level == 0 && name == "*" ==> r == if source.Some? && source.value != "" then Ok(source.value) else Err(AssertionError)
    ensures level > 0 && package == "" ==> r == Err(AssertionError)
  {
    if level == 0 then
      if name == "*" then
        if source.Some? && source.value != "" then Ok(source.value) else Err(AssertionError)
      else if source.None? then Ok(name)
      else Ok(source.value + "." + name)
    else if package == "" then Err(AssertionError)
    else
      var bits := RSplit(package, level);
      if |bits| < level then Err(ImportError(BeyondTopLevel))
      else
        var base := bits[0];
        var prefix := if source.None? then base else base + "." + source.value;
        if name == "*" then Ok(prefix) else Ok(prefix + "." + name)
  }

  /** A relative import fails with ImportError exactly when the importing
      module's name has fewer than `level - 1` dots. */
  lemma RelativeImportErrorExactly(name: string, source: Option<string>, package: string, level: nat)
    requires level > 0 && package != ""
    ensures ResolveImportFrom(name, source, package, level).Err? <==> Count(package, '.') + 1 < level
    ensures ResolveImportFrom(name, source, package, level).Err? ==>
      ResolveImportFrom(name, source, package, level).error == ImportError(BeyondTopLevel)
  {
    RSplitLength(package, level);
  }

  /** A relative import resolves under an ancestor of the importing module:
      the result is that ancestor, then the `from` module if there is one,
      then the imported name unless it is `*`. */
  lemma RelativeImportShape(name: string, source: Option<string>, package: string, level: nat)
    requires level > 0
    requires ResolveImportFrom(name, source, package, level).Ok?
    ensures var base := RSplit(package, level)[0];
      && (base == package || (|base| < |package| && package[..|base|] == base && package[|base|] == '.'))
      && ResolveImportFrom(name, source, package, level).value ==
         base + (if source.Some? then "." + source.value else "") + (if name == "*" then "" else "." + name)
  {
    RSplitHeadIsAncestor(package, level);
  }

  /** Python's own resolution of a relative module name against the
      importing module's package (`importlib._bootstrap._resolve_name`,
      as section 5.7 of the Python Language Reference and PEP 328 describe
      it), applied to the `from` part of the statement and then to the
      imported name. */
  function LanguageResolve(name: string, source: Option<string>, packageOfModule: string, level: nat): (r: Result<string>)
    requires level > 0
    ensures r.Ok? ==> |RSplit(packageOfModule, level - 1)| >= level
  {
    var bits := RSplit(packageOfModule, level - 1);
    if |bits| < level then Err(ImportError(BeyondTopLevel))
    else
      var base := bits[0];
      var prefix := if source.None? then base else base + "." + source.value;
      if name == "*" then Ok(prefix) else Ok(prefix + "." + name)
  }

  /** For a plain module `P.m` (not a package `__init__`), using the module's
      own name with `level` splits finds the same ancestor as the language
      does with `level - 1` splits of its package `P`: whenever the language
      resolves the import, `resolve_import_from` gives the same name. */
  lemma AgreesWithLanguageForPlainModules(name: string, source: Option<string>, pkg: string, last: string, level: nat)
    requires level > 0 && pkg != "" && '.' !in last
    ensures LanguageResolve(name, source, pkg, level).Ok? ==>
      ResolveImportFrom(name, source, pkg + "." + last, level) == LanguageResolve(name, source, pkg, level)
  {
    RSplitSnoc(pkg, last, level);
  }

  lemma RFindAfter(pkg: string, last: string)
    requires '.' !in last
    ensures RFind(pkg + "." + last, '.') == |pkg|
  {
    var s := pkg + "." + last;
    assert s[|pkg|] == '.';
  }

  /** Splitting `pkg.last` at its last dot takes off `last` and one split. */
  lemma RSplitSnoc(pkg: string, last: string, n: nat)
    requires '.' !in last && n > 0
    ensures RSplit(pkg + "." + last, n) == RSplit(pkg, n - 1) + [last]
  {
    var s := pkg + "." + last;
    RFindAfter(pkg, last);
    assert s[|pkg|] == '.';
    assert s[..|pkg|] == pkg && s[|pkg| + 1..] == last;
  }

  /** The two departures from the language's rule. In a package's
      `__init__` module (whose module name is the package name `a.b`),
      `from . import x` resolves to `a.x`, one level too high; and in the
      plain module `a.m`, `from .. import x` resolves to `a.x` where the
      language reports an import beyond the top-level package. */
  lemma DeparturesFromLanguage()
    ensures ResolveImportFrom("x", None, "a.b", 1) == Ok("a.x")
    ensures LanguageResolve("x", None, "a.b", 1) == Ok("a.b.x")
    ensures ResolveImportFrom("x", None, "a.m", 2) == Ok("a.x")
    ensures LanguageResolve("x", None, "a", 2) == Err(ImportError(BeyondTopLevel))
  {
    assert "a.b"[1] == '.';
    assert RFind("a.b", '.') == 1;
    assert "a.b"[..1] == "a" && "a.b"[2..] == "b";
    assert RSplit("a.b", 1) == ["a"] + ["b"];
    assert RSplit("a.b", 0) == ["a.b"];
    assert "a" + "." + "x" == "a.x";
    assert "a.b" + "." + "x" == "a.b.x";
    assert "a.m"[1] == '.';
    assert RFind("a.m", '.') == 1;
    assert "a.m"[..1] == "a";
    assert RSplit("a.m", 2) == ["a"] + ["m"];
  }

  /** The first departure for every package: in the `__init__` module of a
      package `parent.last`, whose module name is the package name itself,
      `from . import name` resolves as written to the sibling `parent.name`,
      where the language resolves it inside the package, to
      `parent.last.name`. */
  lemma InitModuleResolvesOneLevelUp(parent: string, last: string, name: string)
    requires parent != "" && '.' !in last && name != "*"
    ensures ResolveImportFrom(name, None, parent + "." + last, 1) == Ok(parent + "." + name)
    ensures LanguageResolve(name, None, parent + "." + last, 1) == Ok(parent + "." + last + "." + name)
  {
    RSplitSnoc(parent, last, 1);
  }

  /** The language's rule keeps `from . import name` and `from .source
      import name` inside the importing module's own package, whatever that
      package is: one dot names the package itself. */
  lemma LanguageResolvesSiblingsInPackage(name: string, source: Option<string>, packageOfModule: string)
    ensures var prefix := packageOfModule + (if source.Some? then "." + source.value else "");
      LanguageResolve(name, source, packageOfModule, 1) == Ok(if name == "*" then prefix else prefix + "." + name)
  {
    assert RSplit(packageOfModule, 0) == [packageOfModule];
    if source.None? {
      assert packageOfModule + "" == packageOfModule;
    } else {
      assert packageOfModule + ("." + source.value) == packageOfModule + "." + source.value;
    }
  }

  /** The parent name of a dotted name, `fqname.rpartition(".")[0]`. */
  function Parent(fqname: string): (p: string)
    ensures '.' in fqname ==> |p| < |fqname| && fqname[..|p|] == p && fqname[|p|] == '.'
    ensures '.' !in fqname ==> p == ""
  {
    var i := RFind(fqname, '.');
    if i < 0 then "" else fqname[..i]
  }

  /** `resolve_module_or_object_by_path`, with everything it asks the running
      interpreter and the file system folded into one oracle `isModule`:
      a name without a dot is kept; otherwise the name is kept when it names
      a module and replaced by its parent when it names an object inside one. */
  function ResolveByPath(fqname: string, isModule: string -> bool): (r: string)
    ensures r == fqname || ('.' in fqname && r == Parent(fqname))
    ensures '.' !in fqname ==> r == fqname
    ensures '.' in fqname && !isModule(fqname) ==> |r| < |fqname| && fqname[..|r|] == r
  {
    if '.' !in fqname then fqname
    else if isModule(fqname) then fqname
    else Parent(fqname)
  }
}
