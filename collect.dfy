/** `ImportCollector.collect_imports_from_path` and
    `ImportCollector.collect_imports` (pytest_archon/collect.py): one entry
    per source file of a package, holding the names the file imports other
    than its own, followed by the transitive update. */
module Collect {

  import opened Base
  import opened SyntaxTree
  import opened ModulePath
  import opened Extract
  import opened Graph
  import opened Transitive
  import opened Update

  /** A `.py` file found below the package directory: the directories of its
      path relative to that directory, its file name, and its parsed tree. */
  datatype SourceFile = SourceFile(relDirs: seq<string>, fileName: string, tree: Node)

  /** The walkers the collector is given: `walk`, with or without pruning of
      type-checking blocks, and `walk_toplevel`. */
  datatype Walker = BreadthFirst(skipTypeChecking: bool) | Toplevel

  /** The nodes a walker yields for a tree. */
  function Walked(w: Walker, tree: Node): seq<Node> {
    match w
    case BreadthFirst(skip) => Bfs([tree], skip)
    case Toplevel => WalkToplevel(tree)
  }

  function ModuleName(f: SourceFile, package: string): string {
    PathToModule(f.relDirs, f.fileName, package)
  }

  /** The set of names a file imports, resolved as the collector resolves
      them (`resolve=True`), or the exception that resolution raises. */
  function FileImports(f: SourceFile, package: string, w: Walker, isModule: string -> bool): Result<set<string>> {
    var xs :- ExtractImports(Walked(w, f.tree), ModuleName(f, package), true, isModule);
    Ok(set x | x in xs)
  }

  /** What reading one file gives: its module name and its imports. */
  datatype Read = Read(name: string, imports: Result<set<string>>)

  function ReadOf(f: SourceFile, package: string, w: Walker, isModule: string -> bool): Read {
    Read(ModuleName(f, package), FileImports(f, package, w, isModule))
  }

  /** The reads of every file, in the order the files are found. */
  function Reads(files: seq<SourceFile>, package: string, w: Walker, isModule: string -> bool): (rs: seq<Read>)
    ensures |rs| == |files|
    ensures forall i :: 0 <= i < |files| ==> rs[i] == ReadOf(files[i], package, w, isModule)
  {
    seq(|files|, i requires 0 <= i < |files| => ReadOf(files[i], package, w, isModule))
  }

  lemma ReadsPrefix(files: seq<SourceFile>, n: nat, package: string, w: Walker, isModule: string -> bool)
    requires n <= |files|
    ensures Reads(files, package, w, isModule)[..n] == Reads(files[..n], package, w, isModule)
  {
  }

  lemma ReadsSnoc(files: seq<SourceFile>, i: nat, package: string, w: Walker, isModule: string -> bool)
    requires i < |files|
    ensures Reads(files[..i + 1], package, w, isModule) ==
      Reads(files[..i], package, w, isModule) + [ReadOf(files[i], package, w, isModule)]
  {
    var longer, shorter := Reads(files[..i + 1], package, w, isModule), Reads(files[..i], package, w, isModule);
    var last := ReadOf(files[i], package, w, isModule);
    forall k | 0 <= k < i + 1 ensures longer[k] == (shorter + [last])[k] {
      if k < i {
        assert files[..i + 1][k] == files[..i][k];
      } else {
        assert files[..i + 1][k] == files[i];
      }
    }
  }

  predicate Distinct(xs: seq<string>) {
    forall i, j :: 0 <= i < j < |xs| ==> xs[i] != xs[j]
  }

  function NamesOf(rs: seq<Read>): (names: seq<string>)
    ensures |names| == |rs|
    ensures forall i :: 0 <= i < |rs| ==> names[i] == rs[i].name
  {
    seq(|rs|, i requires 0 <= i < |rs| => rs[i].name)
  }

  /** Runs a walker over a tree. */
  method RunWalker(w: Walker, tree: Node) returns (nodes: seq<Node>)
    ensures nodes == Walked(w, tree)
  {
    match w
    case BreadthFirst(skip) =>
      nodes := Walk(tree, skip);
    case Toplevel =>
      nodes := WalkToplevel(tree);
  }

  /** Lines 88 and 92-95, one file: its module name and its imports. */
  method ReadModule(f: SourceFile, package: string, w: Walker, isModule: string -> bool) returns (r: Read)
    ensures r == ReadOf(f, package, w, isModule)
  {
    var name := PathToModule(f.relDirs, f.fileName, package);
    var nodes := RunWalker(w, f.tree);
    var extracted := ExtractImports(nodes, name, true, isModule);
    if extracted.Err? {
      r := Read(name, Err(extracted.error));
    } else {
      r := Read(name, Ok(set x | x in extracted.value));
    }
  }

  /** What the generator of lines 84-95 yields before it stops: every read,
      up to the first whose imports do not resolve, whose exception it
      raises. */
  function Yielded(rs: seq<Read>): (r: Result<seq<(string, set<string>)>>)
    decreases |rs|
  {
    if rs == [] then Ok([])
    else
      var init :- Yielded(rs[..|rs| - 1]);
      var last := rs[|rs| - 1];
      var imports :- last.imports;
      Ok(init + [(last.name, imports)])
  }

  /** The generator yields every file's pair exactly when every file's
      imports resolve; otherwise it raises the exception of the first file
      whose imports do not. */
  lemma {:induction false} YieldedCharacterised(rs: seq<Read>)
    ensures Yielded(rs).Ok? <==> forall i :: 0 <= i < |rs| ==> rs[i].imports.Ok?
    ensures Yielded(rs).Ok? ==> |Yielded(rs).value| == |rs|
    ensures Yielded(rs).Ok? ==>
      forall i :: 0 <= i < |rs| ==> Yielded(rs).value[i] == (rs[i].name, rs[i].imports.value)
    ensures Yielded(rs).Err? ==> exists i :: (0 <= i < |rs| && rs[i].imports == Err(Yielded(rs).error) &&
      forall j :: 0 <= j < i ==> rs[j].imports.Ok?)
    decreases |rs|
  {
    if rs != [] {
      var init := rs[..|rs| - 1];
      YieldedCharacterised(init);
      assert forall i :: 0 <= i < |init| ==> init[i] == rs[i];
      if Yielded(init).Err? {
        var i :| 0 <= i < |init| && init[i].imports == Err(Yielded(init).error) &&
          forall j :: 0 <= j < i ==> init[j].imports.Ok?;
        assert rs[i].imports == Err(Yielded(rs).error);
      } else if rs[|rs| - 1].imports.Err? {
        assert rs[|rs| - 1].imports == Err(Yielded(rs).error);
      }
    }
  }

  /**
   * Lines 84-95 with the cache off: the module name and imports of every
   * file, in the order the files are found, as a list; reading stops at the
   * first file whose imports do not resolve, with that file's exception.
   */
  method CollectImportsFromPath(files: seq<SourceFile>, package: string, w: Walker, isModule: string -> bool)
    returns (r: Result<seq<(string, set<string>)>>)
    ensures r == Yielded(Reads(files, package, w, isModule))
  {
    var pairs: seq<(string, set<string>)> := [];
    ghost var rs: seq<Read> := [];
    for i := 0 to |files|
      invariant rs == Reads(files[..i], package, w, isModule)
      invariant Yielded(rs) == Ok(pairs)
    {
      var next;
      next, rs := YieldNext(files, i, pairs, rs, package, w, isModule);
      if next.Err? {
        ReadsPrefix(files, i + 1, package, w, isModule);
        YieldedPrefixFails(Reads(files, package, w, isModule), i + 1);
        return next;
      }
      pairs := next.value;
    }
    assert files[..|files|] == files;
    return Ok(pairs);
  }

  /** Reads the next file, extending the reads so far. */
  method ReadNext(files: seq<SourceFile>, i: nat, ghost rs: seq<Read>, package: string, w: Walker, isModule: string -> bool)
    returns (read: Read, ghost rs': seq<Read>)
    requires i < |files| && rs == Reads(files[..i], package, w, isModule)
    ensures rs' == rs + [read] && rs' == Reads(files[..i + 1], package, w, isModule)
  {
    read := ReadModule(files[i], package, w, isModule);
    ReadsSnoc(files, i, package, w, isModule);
    rs' := rs + [read];
  }

  /** One round of the loop of lines 87-95: reads the next file and yields
      its pair, or raises. */
  method YieldNext(files: seq<SourceFile>, i: nat, pairs: seq<(string, set<string>)>, ghost rs: seq<Read>,
                   package: string, w: Walker, isModule: string -> bool)
    returns (next: Result<seq<(string, set<string>)>>, ghost rs': seq<Read>)
    requires i < |files| && rs == Reads(files[..i], package, w, isModule) && Yielded(rs) == Ok(pairs)
    ensures rs' == Reads(files[..i + 1], package, w, isModule) && next == Yielded(rs')
  {
    var read;
    read, rs' := ReadNext(files, i, rs, package, w, isModule);
    assert rs'[..i] == rs;
    if read.imports.Err? {
      next := Err(read.imports.error);
    } else {
      next := Ok(pairs + [(read.name, read.imports.value)]);
    }
  }

  lemma {:induction false} YieldedPrefixFails(rs: seq<Read>, n: nat)
    requires n <= |rs| && Yielded(rs[..n]).Err?
    ensures Yielded(rs) == Yielded(rs[..n])
    decreases |rs| - n
  {
    if n < |rs| {
      assert rs[..|rs| - 1][..n] == rs[..n];
      YieldedPrefixFails(rs[..|rs| - 1], n);
    } else {
      assert rs[..n] == rs;
    }
  }

  /** The map the loop of lines 74-79 builds from the reads, or the
      exception it stops with: that of the first read whose imports do not
      resolve, or `KeyError` for the first module name already in the map. */
  function Gathered(rs: seq<Read>): Result<ImportMap>
    decreases |rs|
  {
    if rs == [] then Ok(map[])
    else
      var all :- Gathered(rs[..|rs| - 1]);
      var last := rs[|rs| - 1];
      var imports :- last.imports;
      if last.name in all then Err(KeyError(last.name))
      else Ok(all[last.name := Imports(imports - {last.name}, None)])
  }

  /** One more file read after a successful prefix: its exception, the
      duplicate's KeyError, or one more entry. */
  lemma GatheredSnoc(rs: seq<Read>, read: Read)
    requires Gathered(rs).Ok?
    ensures Gathered(rs + [read]) ==
      if read.imports.Err? then Err(read.imports.error)
      else if read.name in Gathered(rs).value then Err(KeyError(read.name))
      else Ok(Gathered(rs).value[read.name := Imports(read.imports.value - {read.name}, None)])
  {
    assert (rs + [read])[..|rs|] == rs;
  }

  /** The loop of lines 74-79 succeeds exactly when every file's imports
      resolve and no two files give the same module name. */
  lemma {:induction false} GatheredOk(rs: seq<Read>)
    ensures Gathered(rs).Ok? <==> (forall i :: 0 <= i < |rs| ==> rs[i].imports.Ok?) && Distinct(NamesOf(rs))
    ensures Gathered(rs).Ok? ==> forall k :: k in Gathered(rs).value <==> k in NamesOf(rs)
    decreases |rs|
  {
    if rs != [] {
      var init := rs[..|rs| - 1];
      GatheredOk(init);
      var names := NamesOf(rs);
      var initNames := NamesOf(init);
      assert forall i :: 0 <= i < |init| ==> init[i] == rs[i];
      assert initNames == names[..|rs| - 1];
      var name := names[|rs| - 1];
      if Gathered(init).Ok? && rs[|rs| - 1].imports.Ok? {
        var all := Gathered(init).value;
        if name in all {
          var i :| 0 <= i < |init| && initNames[i] == name;
          assert names[i] == names[|rs| - 1];
        } else {
          assert Distinct(names) by {
            forall i, j | 0 <= i < j < |names| ensures names[i] != names[j] {
              if j == |names| - 1 { assert names[i] in initNames; }
              else { assert initNames[i] != initNames[j]; }
            }
          }
        }
      }
      if !Gathered(init).Ok? && (forall i :: 0 <= i < |rs| ==> rs[i].imports.Ok?) {
        assert !Distinct(initNames);
        var i, j :| 0 <= i < j < |initNames| && initNames[i] == initNames[j];
        assert names[i] == names[j];
      }
    }
  }

  /** On success each file's module has the entry built from that file: its
      imports without the module itself, and no closure yet. */
  lemma {:induction false} GatheredEntries(rs: seq<Read>)
    requires Gathered(rs).Ok?
    ensures forall i :: 0 <= i < |rs| ==>
      rs[i].imports.Ok? && rs[i].name in Gathered(rs).value &&
      Gathered(rs).value[rs[i].name] == Imports(rs[i].imports.value - {rs[i].name}, None)
    decreases |rs|
  {
    if rs != [] {
      var init := rs[..|rs| - 1];
      GatheredEntries(init);
      var all := Gathered(init).value;
      var last := rs[|rs| - 1];
      assert last.name !in all;
      forall i | 0 <= i < |rs|
        ensures rs[i].imports.Ok? && rs[i].name in Gathered(rs).value &&
          Gathered(rs).value[rs[i].name] == Imports(rs[i].imports.value - {rs[i].name}, None)
      {
        if i < |init| {
          assert init[i] == rs[i];
        }
      }
    }
  }

  /** No module lands in its own direct set (line 76). */
  lemma NoSelfImports(rs: seq<Read>)
    requires Gathered(rs).Ok?
    ensures forall k :: k in Gathered(rs).value ==> k !in Gathered(rs).value[k].direct
  {
    GatheredOk(rs);
    GatheredEntries(rs);
    forall k | k in Gathered(rs).value ensures k !in Gathered(rs).value[k].direct {
      var i :| 0 <= i < |rs| && NamesOf(rs)[i] == k;
    }
  }

  /** Two files with the same module name raise `KeyError` when every file
      up to the second of them resolves its imports, whatever the files
      after it hold: the loop stops at the duplicate (line 78) before it
      reads them. */
  lemma DuplicateRaisesKeyError(rs: seq<Read>, i: nat, j: nat)
    requires i < j < |rs| && rs[i].name == rs[j].name
    requires forall k :: 0 <= k <= j ==> rs[k].imports.Ok?
    ensures Gathered(rs).Err? && Gathered(rs).error.KeyError?
  {
    var upTo := rs[..j + 1];
    assert upTo[i] == rs[i] && upTo[j] == rs[j];
    forall k | 0 <= k < |upTo| ensures upTo[k].imports.Ok? {
      assert upTo[k] == rs[k];
    }
    DuplicateEndsPrefix(upTo, i);
    GatheredPrefixFails(rs, j + 1);
  }

  /** The case where the duplicate is the last file read and every file
      resolves. */
  lemma DuplicateEndsPrefix(rs: seq<Read>, i: nat)
    requires i < |rs| - 1 && rs[i].name == rs[|rs| - 1].name
    requires forall k :: 0 <= k < |rs| ==> rs[k].imports.Ok?
    ensures Gathered(rs).Err? && Gathered(rs).error.KeyError?
  {
    GatheredOk(rs);
    assert NamesOf(rs)[i] == NamesOf(rs)[|rs| - 1];
    GatheredErrors(rs);
  }

  /** The loop raises only the resolver's exceptions and `KeyError`. */
  lemma {:induction false} GatheredErrors(rs: seq<Read>)
    ensures Gathered(rs).Err? ==>
      Gathered(rs).error.KeyError? || exists i :: 0 <= i < |rs| && rs[i].imports == Err(Gathered(rs).error)
    decreases |rs|
  {
    if rs != [] {
      var init := rs[..|rs| - 1];
      GatheredErrors(init);
      var r := Gathered(init);
      if r.Err? && !r.error.KeyError? {
        var i :| 0 <= i < |init| && init[i].imports == Err(r.error);
        assert init[i] == rs[i];
      }
    }
  }

  lemma {:induction false} GatheredPrefixFails(rs: seq<Read>, n: nat)
    requires n <= |rs| && Gathered(rs[..n]).Err?
    ensures Gathered(rs) == Gathered(rs[..n])
    decreases |rs| - n
  {
    if n < |rs| {
      assert rs[..|rs| - 1][..n] == rs[..n];
      GatheredPrefixFails(rs[..|rs| - 1], n);
    } else {
      assert rs[..n] == rs;
    }
  }

  /**
   * Lines 74-79: one entry per file, keyed by its module name, in the order
   * the files are found, or the first exception. On success the keys are
   * listed once each in insertion order and no entry has a closure yet.
   */
  method GatherDirect(files: seq<SourceFile>, package: string, w: Walker, isModule: string -> bool)
    returns (r: Result<ImportMap>, order: seq<string>)
    ensures r == Gathered(Reads(files, package, w, isModule))
    ensures r.Ok? ==> KeyOrder(r.value, order) && forall k :: k in r.value ==> r.value[k].closure.None?
  {
    var all: ImportMap := map[];
    order := [];
    ghost var rs: seq<Read> := [];
    for i := 0 to |files|
      invariant rs == Reads(files[..i], package, w, isModule)
      invariant Gathered(rs) == Ok(all)
      invariant KeyOrder(all, order)
      invariant forall k :: k in all ==> all[k].closure.None?
    {
      var next;
      next, order, rs := GatherNext(files, i, all, order, rs, package, w, isModule);
      if next.Err? {
        ReadsPrefix(files, i + 1, package, w, isModule);
        GatheredPrefixFails(Reads(files, package, w, isModule), i + 1);
        return next, order;
      }
      all := next.value;
    }
    assert files[..|files|] == files;
    return Ok(all), order;
  }

  /** One round of the loop of lines 75-79: reads the next file and adds its
      entry, or raises. */
  method GatherNext(files: seq<SourceFile>, i: nat, all: ImportMap, order: seq<string>, ghost rs: seq<Read>,
                    package: string, w: Walker, isModule: string -> bool)
    returns (next: Result<ImportMap>, order': seq<string>, ghost rs': seq<Read>)
    requires i < |files| && rs == Reads(files[..i], package, w, isModule) && Gathered(rs) == Ok(all)
    requires KeyOrder(all, order) && forall k :: k in all ==> all[k].closure.None?
    ensures rs' == Reads(files[..i + 1], package, w, isModule) && next == Gathered(rs')
    ensures next.Ok? ==> KeyOrder(next.value, order') && forall k :: k in next.value ==> next.value[k].closure.None?
  {
    var read;
    read, rs' := ReadNext(files, i, rs, package, w, isModule);
    next, order' := AddEntry(all, order, rs, read);
  }

  /** Lines 76-79 for one file already read: its exception, the duplicate's
      KeyError, or its entry added at the end of the key order. */
  method AddEntry(all: ImportMap, order: seq<string>, ghost rs: seq<Read>, read: Read)
    returns (next: Result<ImportMap>, order': seq<string>)
    requires Gathered(rs) == Ok(all)
    requires KeyOrder(all, order) && forall k :: k in all ==> all[k].closure.None?
    ensures next == Gathered(rs + [read])
    ensures next.Ok? ==> KeyOrder(next.value, order') && forall k :: k in next.value ==> next.value[k].closure.None?
  {
    GatheredSnoc(rs, read);
    order' := order;
    if read.imports.Err? {
      next := Err(read.imports.error);
    } else if read.name in all {
      next := Err(KeyError(read.name));
    } else {
      var direct := read.imports.value - {read.name};
      next := Ok(all[read.name := Imports(direct, None)]);
      order' := order + [read.name];
    }
  }

  /**
   * Lines 68-81 with the cache off: builds the map of lines 74-79 and runs
   * the transitive update over it in insertion order. On success every
   * module of every file has an entry, every entry has a closure holding
   * only modules it reaches and none of its direct imports, and an acyclic
   * graph raises no circular flag. `keys` is the order in which the map
   * yields its keys: the order the modules were inserted.
   */
  method CollectImports(files: seq<SourceFile>, package: string, w: Walker, isModule: string -> bool)
    returns (r: Result<ImportMap>, keys: seq<string>)
    ensures var g := Gathered(Reads(files, package, w, isModule));
      && (r.Ok? <==> g.Ok?)
      && (r.Err? ==> r == g)
      && (r.Ok? ==> SameDirect(g.value, r.value))
    ensures r.Ok? ==> KeyOrder(r.value, keys)
    ensures r.Ok? ==> AllClosed(r.value) && ClosuresSound(Direct(r.value), r.value) && Disjoint(r.value)
    ensures r.Ok? ==> Acyclic(Direct(r.value)) ==> NoCircularFlags(r.value)
  {
    var all, order := GatherDirect(files, package, w, isModule);
    if all.Err? {
      return Err(all.error), order;
    }
    var data := UpdateWithTransitiveImports(all.value, order);
    SameGraph(all.value, data);
    return Ok(data), order;
  }
}
