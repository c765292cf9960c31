/** `extract_imports_ast`: the dotted names imported by a sequence of
    syntax nodes, resolved or not (pytest_archon/collect.py). */
module Extract {

  import opened Base
  import opened SyntaxTree
  import opened Resolve

  /** The names of one `from ... import a, b` statement, alias by alias. */
  function AliasImports(names: seq<string>, source: Option<string>, level: nat, package: string,
                        resolve: bool, isModule: string -> bool): (r: Result<seq<string>>)
    ensures r.Ok? ==> |r.value| == |names|
    ensures r.Ok? <==> forall j :: 0 <= j < |names| ==> ResolveImportFrom(names[j], source, package, level).Ok?
    ensures r.Ok? ==> forall j :: 0 <= j < |names| ==>
      var fq := ResolveImportFrom(names[j], source, package, level).value;
      r.value[j] == if resolve then ResolveByPath(fq, isModule) else fq
  {
    if names == [] then Ok([])
    else
      var fq :- ResolveImportFrom(names[0], source, package, level);
      var rest :- AliasImports(names[1..], source, level, package, resolve, isModule);
      Ok([if resolve then ResolveByPath(fq, isModule) else fq] + rest)
  }

  /** What one node contributes: the names of an `import`, the resolved
      names of a `from ... import`, nothing for any other node. */
  function NodeImports(n: Node, package: string, resolve: bool, isModule: string -> bool): (r: Result<seq<string>>)
    ensures n.kind.Import? ==> r == Ok(n.kind.names)
    ensures !n.kind.Import? && !n.kind.ImportFrom? ==> r == Ok([])
  {
    match n.kind
    case Import(names) => Ok(names)
    case ImportFrom(source, names, level) => AliasImports(names, source, level, package, resolve, isModule)
    case _ => Ok([])
  }

  /** `extract_imports_ast(nodes, package, resolve)`, consumed as a whole:
      the first exception raised ends the walk. */
  function ExtractImports(nodes: seq<Node>, package: string, resolve: bool, isModule: string -> bool): (r: Result<seq<string>>)
  {
    if nodes == [] then Ok([])
    else
      var here :- NodeImports(nodes[0], package, resolve, isModule);
      var rest :- ExtractImports(nodes[1..], package, resolve, isModule);
      Ok(here + rest)
  }

  /** Extraction succeeds exactly when every node's names resolve, and then
      a name is extracted exactly when some node contributes it. */
  lemma {:induction false} ExtractCharacterised(nodes: seq<Node>, package: string, resolve: bool, isModule: string -> bool)
    ensures ExtractImports(nodes, package, resolve, isModule).Ok? <==>
      forall i :: 0 <= i < |nodes| ==> NodeImports(nodes[i], package, resolve, isModule).Ok?
    ensures ExtractImports(nodes, package, resolve, isModule).Ok? ==> forall x ::
      x in ExtractImports(nodes, package, resolve, isModule).value <==>
      exists i :: 0 <= i < |nodes| && x in NodeImports(nodes[i], package, resolve, isModule).value
  {
    if nodes != [] {
      ExtractCharacterised(nodes[1..], package, resolve, isModule);
      var r := ExtractImports(nodes, package, resolve, isModule);
      if r.Ok? {
        forall x | x in r.value
          ensures exists i :: 0 <= i < |nodes| && x in NodeImports(nodes[i], package, resolve, isModule).value
        {
          if x !in NodeImports(nodes[0], package, resolve, isModule).value {
            var i :| 0 <= i < |nodes[1..]| && x in NodeImports(nodes[1..][i], package, resolve, isModule).value;
            assert nodes[1..][i] == nodes[i + 1];
          }
        }
        forall x | exists i :: 0 <= i < |nodes| && x in NodeImports(nodes[i], package, resolve, isModule).value
          ensures x in r.value
        {
          var i :| 0 <= i < |nodes| && x in NodeImports(nodes[i], package, resolve, isModule).value;
          if i > 0 {
            assert nodes[1..][i - 1] == nodes[i];
          }
        }
      } else {
        if NodeImports(nodes[0], package, resolve, isModule).Ok? {
          var i :| 0 <= i < |nodes[1..]| && NodeImports(nodes[1..][i], package, resolve, isModule).Err?;
          assert nodes[1..][i] == nodes[i + 1];
        }
      }
      if forall i :: 0 <= i < |nodes| ==> NodeImports(nodes[i], package, resolve, isModule).Ok? {
        forall i | 0 <= i < |nodes[1..]| ensures NodeImports(nodes[1..][i], package, resolve, isModule).Ok? {
          assert nodes[1..][i] == nodes[i + 1];
        }
      }
    }
  }

  /** Two node sequences of which the first holds a part of the second's
      nodes: extraction from the second succeeding means extraction from the
      first succeeds, with no name the second lacks. */
  lemma ExtractFromPart(part: seq<Node>, whole: seq<Node>, package: string, resolve: bool, isModule: string -> bool)
    requires multiset(part) <= multiset(whole)
    ensures var w := ExtractImports(whole, package, resolve, isModule);
      var p := ExtractImports(part, package, resolve, isModule);
      w.Ok? ==> p.Ok? && forall x :: x in p.value ==> x in w.value
  {
    ExtractCharacterised(part, package, resolve, isModule);
    ExtractCharacterised(whole, package, resolve, isModule);
    var w := ExtractImports(whole, package, resolve, isModule);
    if w.Ok? {
      forall i | 0 <= i < |part| ensures NodeImports(part[i], package, resolve, isModule).Ok?
      {
        assert part[i] in multiset(whole);
        var k :| 0 <= k < |whole| && whole[k] == part[i];
      }
      var p := ExtractImports(part, package, resolve, isModule);
      forall x | x in p.value ensures x in w.value {
        var i :| 0 <= i < |part| && x in NodeImports(part[i], package, resolve, isModule).value;
        assert part[i] in multiset(whole);
        var k :| 0 <= k < |whole| && whole[k] == part[i];
      }
    }
  }

  /** Leaving out `if TYPE_CHECKING:` blocks can only remove imports: the
      pruned walk fails only if the full one does, and finds no name the
      full one does not. */
  lemma TypeCheckingImportsOnlyAdd(root: Node, package: string, resolve: bool, isModule: string -> bool)
    ensures var full := ExtractImports(Bfs([root], false), package, resolve, isModule);
      var pruned := ExtractImports(Bfs([root], true), package, resolve, isModule);
      full.Ok? ==> pruned.Ok? && forall x :: x in pruned.value ==> x in full.value
  {
    PrunedWalkIsPartOfFullWalk(root);
    ExtractFromPart(Bfs([root], true), Bfs([root], false), package, resolve, isModule);
  }

  /** The top-level walk finds a part of what the full walk finds. */
  lemma ToplevelImportsArePart(root: Node, package: string, resolve: bool, isModule: string -> bool)
    ensures var full := ExtractImports(Bfs([root], false), package, resolve, isModule);
      var top := ExtractImports(WalkToplevel(root), package, resolve, isModule);
      full.Ok? ==> top.Ok? && forall x :: x in top.value ==> x in full.value
  {
    var all := Bfs([root], false);
    ToplevelIsFirstLevelOfWalk(root);
    var top := WalkToplevel(root);
    assert all == all[..1] + top + all[1 + |top|..];
    assert multiset(top) <= multiset(all);
    ExtractFromPart(top, all, package, resolve, isModule);
  }
}
