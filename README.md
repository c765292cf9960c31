# pytest-archon core, modelled in Dafny

This project models the two pieces of the pytest-archon architecture checker
that decide whether a rule holds:

- the import-graph engine of `pytest_archon/collect.py`:
  - the breadth-first `walk` over a syntax tree, with optional pruning of
    `if TYPE_CHECKING:` blocks, and `walk_toplevel`;
  - `extract_imports_ast` and `resolve_import_from`;
  - `path_to_module`;
  - `collect_imports_from_path` and `collect_imports`;
  - the depth-first transitive closure of
    `update_entry_with_transitive_imports` and
    `update_with_transitive_imports`, with the class caches off;
- the rule builder and evaluator of `pytest_arch/rule.py`:
  - `archrule`, `RuleTargets` and `RuleConstraints`;
  - `RuleConstraints.check`, whose soft assertions become a sequence of
    `Assertion` values.

One file per module, in dependency order:

| file | module | what it holds |
|---|---|---|
| base.dfy | Base | `Option`, `Result`, the exceptions, `".".join`, `str.count` and `str.rfind` |
| glob.dfy | Glob | `fnmatch.fnmatch` as a compiled token matcher |
| string_order.dfy | StringOrder | Python's `str` ordering and `sorted` |
| syntax_tree.dfy | SyntaxTree | the abstract syntax tree, `type_checking_clause`, `walk`, `walk_toplevel` |
| resolve.dfy | Resolve | `str.rsplit`, `resolve_import_from`, and the language's own relative-import rule for comparison |
| module_path.dfy | ModulePath | `path_to_module` and its dot sanitation |
| extract.dfy | Extract | `extract_imports_ast` |
| graph.dfy | Graph | the import map, its direct-import graph, reachability, and what a sound or exact closure is |
| transitive.dfy | Transitive | the stack machine of `update_entry_with_transitive_imports` (lines 99-176) and its invariant |
| update.dfy | Update | the defaults of lines 177-180 and `update_with_transitive_imports` |
| collect.dfy | Collect | `collect_imports_from_path` and `collect_imports` |
| rule.dfy | Rule | `archrule`, `RuleTargets`, `RuleConstraints` and the evaluation of `check` |

Imperative code is modelled as methods with loops:
- `walk` pops and extends a queue;
- `update_entry_with_transitive_imports` works on an explicit stack, a `seen`
  set and a map of closures in progress;
- `collect_imports` fills a map;
- `check` extends and refilters lists.

Each method is proved against a specification function (`Bfs`, `Gathered`,
`Candidates`, `Checks`, ...) or against the graph predicates of `Graph`. The
properties are then proved as lemmas about those functions. The rule builder
classes are Dafny classes whose methods append to `seq` fields.

## Model

| member | source | states |
|---|---|---|
| SyntaxTree.TypeCheckingClause | pytest_archon/collect.py:231-235 | a node is a type-checking clause exactly when it is an `if` whose test is the name `TYPE_CHECKING` or an attribute access whose attribute is `TYPE_CHECKING`; the predicate is the specification the pruning walk is proved against, and this equivalence documents it |
| SyntaxTree.Walk | pytest_archon/collect.py:37-46 | the queue loop yields exactly the nodes of the breadth-first specification `Bfs`, in order, with or without pruning |
| SyntaxTree.BfsYieldsEachNodeOnce | pytest_archon/collect.py:37-46 | the walk yields every node of the (pruned) forest exactly as often as it occurs there |
| SyntaxTree.WalkVisitsEveryNode | pytest_archon/collect.py:37-46 | without pruning, every node of the tree is yielded exactly once, so the walk yields as many nodes as the tree has |
| SyntaxTree.WalkIsBreadthFirst | pytest_archon/collect.py:38-45 | without pruning, the yield order is level order: a whole level, then the children of that level |
| SyntaxTree.WalkPrunesTypeChecking | pytest_archon/collect.py:44-46 | with pruning, no yielded node is a type-checking `if`, and the walk yields exactly the tree with every subtree rooted at such an `if` removed |
| SyntaxTree.PrunedWalkIsPartOfFullWalk | pytest_archon/collect.py:44-46 | the pruned walk yields a sub-multiset of the full walk |
| SyntaxTree.ToplevelIsFirstLevelOfWalk | pytest_archon/collect.py:188-189 | `walk_toplevel` yields exactly the nodes the full walk yields right after the module node |
| Resolve.RSplitLength | pytest_archon/collect.py:251 | `rsplit(".", n)` yields `min(n, number of dots) + 1` parts |
| Resolve.RSplitJoin | pytest_archon/collect.py:251 | joining the parts of `rsplit` with dots gives back the string |
| Resolve.ResolveImportFrom | pytest_archon/collect.py:239-265 | absolute imports: `module` for `*` (AssertionError without one), `name` without a module, `module.name` otherwise; a relative import without a package fails its assertion |
| Resolve.RelativeImportErrorExactly | pytest_archon/collect.py:250-253 | a relative import raises exactly when the number of dots in the module name plus one is less than `level`, and then the exception is ImportError "attempted relative import beyond top-level package" |
| Resolve.RelativeImportShape | pytest_archon/collect.py:254-265 | a relative import resolves to `bits[0]`, which is the module name or a dotted ancestor of it, then `.module` when given, then `.name` unless the name is `*` |
| Resolve.AgreesWithLanguageForPlainModules | pytest_archon/collect.py:249-265 | for a plain module `P.m`, whenever Python's own rule resolves the import against package `P`, `resolve_import_from` on `P.m` gives the same name |
| Resolve.DeparturesFromLanguage | pytest_archon/collect.py:249-265 | two concrete inputs where the function differs from the language: `from . import x` in package `a.b`'s `__init__`, and `from .. import x` in `a.m` |
| Resolve.InitModuleResolvesOneLevelUp | pytest_archon/collect.py:250-265 | in the `__init__` module of any dotted package `p.l`, `from . import x` resolves as written to `p.x`, where the language gives `p.l.x` |
| Resolve.LanguageResolvesSiblingsInPackage | pytest_archon/collect.py:249-265 | under the language's rule, a one-dot import resolves inside the importing module's own package: the package, then `.module` if given, then `.name` unless `*` |
| Resolve.Parent | pytest_archon/collect.py:303 | the parent is the leading part of the name up to its last dot, or empty without a dot |
| Resolve.ResolveByPath | pytest_archon/collect.py:294-347 | the result is the name itself or its parent; a name without a dot is kept; a non-module keeps only a leading piece of the name |
| ModulePath.Stem | pytest_archon/collect.py:210 | the stem is a prefix of the file name, and when it differs it ends right before the last dot and a suffix without dots |
| ModulePath.CollapseDots | pytest_archon/collect.py:213-214 | the sanitation never leaves two consecutive dots, never lengthens the name, keeps the first character, and keeps a name non-empty |
| ModulePath.CollapseKeepsNonDots | pytest_archon/collect.py:214 | the sanitation keeps every character that is not a dot, in order |
| ModulePath.CollapseIdentityExactly | pytest_archon/collect.py:214 | the sanitation changes a name exactly when it has a double dot |
| ModulePath.CollapseIdempotent | pytest_archon/collect.py:214 | sanitising twice is sanitising once |
| ModulePath.PathToModule | pytest_archon/collect.py:201-214 | the module name never contains two consecutive dots |
| ModulePath.StartsWithPackage | pytest_archon/collect.py:204-205 | with a package that has no double dot, the module name starts with the package |
| ModulePath.InitNamesItsDirectory | pytest_archon/collect.py:210-211 | `__init__.py` contributes no part: the name is that of its directory |
| ModulePath.SplitJoinPlain | pytest_archon/collect.py:212 | for plain parts, splitting the joined name at its dots gives back the parts |
| ModulePath.PathToModuleRoundTrip | pytest_archon/collect.py:201-214 | for plain names, no sanitation happens and splitting the module name gives back the package, each directory, then the stem unless it is `__init__` |
| Extract.AliasImports | pytest_archon/collect.py:222-228 | a `from` statement gives one name per alias, each resolved by `resolve_import_from` and then by the resolver when `resolve` is on; it fails exactly when some alias does not resolve |
| Extract.NodeImports | pytest_archon/collect.py:219-228 | an `import` gives its names as written; a node that is no import gives nothing |
| Extract.ExtractCharacterised | pytest_archon/collect.py:217-228 | extraction succeeds exactly when every node's names resolve, and then a name is extracted exactly when some node contributes it |
| Extract.ExtractFromPart | pytest_archon/collect.py:217-228 | extracting from a sub-multiset of the nodes succeeds whenever the whole does, and finds no name the whole does not |
| Extract.TypeCheckingImportsOnlyAdd | pytest_archon/collect.py:44-46 | pruning type-checking blocks can only remove imports; it never adds one or a failure |
| Extract.ToplevelImportsArePart | pytest_archon/collect.py:188-189 | the top-level walker finds a part of what the full walk finds |
| Glob.LiteralMatchesItself | pytest_arch/rule.py:89 | a pattern without `*`, `?` or `[` matches exactly the name equal to it |
| Glob.StarMatchesEverything | pytest_arch/rule.py:89 | `*` matches every name |
| Glob.PrefixStar | pytest_arch/rule.py:89 | `prefix*` with a literal prefix matches exactly the names that start with the prefix, dots included |
| Glob.StarSuffix | pytest_arch/rule.py:89 | `*suffix` with a literal suffix matches exactly the names that end with it |
| Glob.QuestionMarkOneChar | pytest_arch/rule.py:89 | `?` matches exactly the one-character names |
| Glob.UnclosedBracketIsLiteral | pytest_arch/rule.py:89 | an unclosed `[` matches only itself |
| Glob.NegatedClass | pytest_arch/rule.py:89 | `[!x]` matches exactly the one-character names other than `x` |
| StringOrder.Insert | pytest_arch/rule.py:98 | inserting into an ascending list keeps it ascending and adds exactly that element |
| StringOrder.Sorted | pytest_arch/rule.py:98 | `sorted` returns an ascending permutation of its input |
| StringOrder.SortedUnique | pytest_arch/rule.py:98 | two ascending lists with the same elements are equal |
| StringOrder.SortedSameElements | pytest_arch/rule.py:98 | `sorted` keeps the length and the set of elements |
| StringOrder.SortedOfPermutation | pytest_arch/rule.py:98 | permutations of each other sort to the same list |
| Graph.Direct | pytest_archon/collect.py:24-33 | the graph has the map's modules as nodes and each module's direct set as its edges |
| Graph.Edges | pytest_archon/collect.py:145-149 | the pairs `(from, to)` the `seen` guard can hold are exactly the edges of the graph |
| Transitive.Visits | pytest_archon/collect.py:124 | the pushed entries are one visit `(module, import)` per import, in order |
| Transitive.MergeAll | pytest_archon/collect.py:142-147 | every collection in progress gets the extra modules, and the circular flag when asked, and no collection is added or lost |
| Transitive.Touch | pytest_archon/collect.py:151-152 | a module without a collection gets an empty one; the others are unchanged |
| Transitive.Popped | pytest_archon/collect.py:133 | the popped collection, or the empty default when there is none |
| Transitive.WriteClosure | pytest_archon/collect.py:136-138 | an end marker stores the collected modules minus the direct imports with the flag, for a module of the map only, and changes no other entry |
| Transitive.Filled | pytest_archon/collect.py:177-180 | an entry without a closure gets an empty one without the flag; other entries are kept |
| Transitive.Drain | pytest_archon/collect.py:127-175 | the stack loop terminates on every graph, cyclic or not, and ends with a closure for the starting module and every guarantee its start state had: soundness, disjointness, no circular flag on an acyclic graph, exactness on an acyclic graph |
| Transitive.ExpandEntry | pytest_archon/collect.py:99-175 | the expansion keeps every direct set, gives the starting module a closure, keeps closures sound and disjoint from the direct sets, changes no entry the starting module does not reach, keeps every existing closure, raises no circular flag on an acyclic graph, and keeps exact closures exact on an acyclic graph; when every listed direct import of the start already has a closure, the start's closure holds only what those imports' entries list (line 163 takes them as stored) |
| Update.FillMissing | pytest_archon/collect.py:177-180 | every entry ends with the filled version of itself and the key set is unchanged |
| Update.FilledKeeps | pytest_archon/collect.py:177-180 | the defaults keep the direct sets and close every entry; soundness, disjointness and the absence of circular flags survive them |
| Update.UpdateEntry | pytest_archon/collect.py:99-180 | one call closes every entry soundly and disjointly, raises no flag on an acyclic graph, leaves entries the start does not reach at their defaults, and on an acyclic graph with exact stored closures gives the start exactly the modules it reaches other than its direct imports; when its direct imports already have closures, the start gets no more than their entries list |
| Update.UpdateWithTransitiveImports | pytest_archon/collect.py:182-185 | after one call per key every entry has a closure, the closures hold only reachable modules and no direct import, and no circular flag is raised on an acyclic graph |
| Update.UpdateMissesTransitiveImport | pytest_archon/collect.py:163-185 | on keys `x, a, b, c` with edges `a→b→c→d` and no closures yet, an acyclic map, the calls as written leave `d` out of `a`'s closure although `a` reaches `d` and does not import it directly |
| Update.UpdateAllThenFill | pytest_archon/collect.py:99-185 | the same passes with the defaults of lines 177-180 applied once at the end: on an acyclic graph every closure is exactly the reachable modules minus the direct imports |
| Collect.RunWalker | pytest_archon/collect.py:93 | running a walker yields the nodes its specification gives |
| Collect.ReadModule | pytest_archon/collect.py:88-95 | one file gives its module name and the set of names it imports, or the resolver's exception |
| Collect.Reads | pytest_archon/collect.py:87-95 | one read per file, in the order the files are found |
| Collect.YieldedCharacterised | pytest_archon/collect.py:84-95 | the generator yields every file's pair exactly when every file's imports resolve; otherwise it raises the exception of the first file that fails |
| Collect.CollectImportsFromPath | pytest_archon/collect.py:84-95 | the loop returns exactly what the generator yields before it stops |
| Collect.GatheredOk | pytest_archon/collect.py:74-79 | the map is built exactly when every file's imports resolve and no two files give the same module name, and then its keys are exactly those names |
| Collect.GatheredEntries | pytest_archon/collect.py:76-79 | each file's module has the entry built from that file: its imports without itself, and no closure yet |
| Collect.NoSelfImports | pytest_archon/collect.py:76 | no module is in its own direct set |
| Collect.DuplicateRaisesKeyError | pytest_archon/collect.py:75-78 | two files with one module name raise KeyError whenever every file up to the second of them resolves its imports, whatever the later files hold |
| Collect.GatheredErrors | pytest_archon/collect.py:74-79 | the loop raises only the resolver's exceptions and KeyError |
| Collect.GatherDirect | pytest_archon/collect.py:74-79 | the loop builds exactly the specified map or exception, lists every key once in insertion order, and leaves every closure unset |
| Collect.CollectImports | pytest_archon/collect.py:68-81 | it succeeds exactly when the map of lines 74-79 is built, keeps every direct set, lists the keys once each, and closes every entry soundly and disjointly, without circular flags on an acyclic graph; otherwise it raises that exception |
| Rule.MatchesAnyIff | pytest_arch/rule.py:88-91 | a name matches the pattern list exactly when some pattern of it matches |
| Rule.PatternCount | pytest_arch/rule.py:88-89 | the number of matching patterns is positive exactly when some pattern matches, and at most the number of patterns |
| Rule.MatchingCount | pytest_arch/rule.py:89 | the comprehension keeps every occurrence of a matching name and none of the others |
| Rule.NotMatchingCount | pytest_arch/rule.py:91 | the comprehension drops every occurrence of a matching name and keeps all of the others |
| Rule.SelectedHas | pytest_arch/rule.py:88-89 | after the match loop a name is in the list exactly when it is a key that some match pattern matches |
| Rule.SelectedCount | pytest_arch/rule.py:88-89 | with keys listed once each, a key is in the list once per match pattern it matches |
| Rule.UnexcludedCount | pytest_arch/rule.py:90-91 | the exclude loop drops every occurrence of a name some exclude pattern matches and keeps all occurrences of the others |
| Rule.CandidateCount | pytest_arch/rule.py:87-91 | with keys listed once each, a key is a candidate once per match pattern it matches, and never when an exclude pattern matches it |
| Rule.CandidateMembership | pytest_arch/rule.py:87-91 | a module is a candidate exactly when it is a key, some match pattern matches it, and no exclude pattern does: exclusion wins |
| Rule.CandidateMultiplicity | pytest_arch/rule.py:87-91 | over the keys of an import map, a module is a candidate once per match pattern it matches unless it is excluded |
| Rule.SelectCandidates | pytest_arch/rule.py:87-91 | the extend and refilter loops build exactly the specified candidate list |
| Rule.Shown | pytest_arch/rule.py:100-103 | the printed list has at most four entries |
| Rule.ShownTruncates | pytest_arch/rule.py:100-103 | at most four candidates are shown as they are; more are shown as the first two, `"..."` and the last |
| Rule.Remaining | pytest_arch/rule.py:108-111 | an import remains exactly when it is a direct or transitive import that no ignored pattern matches |
| Rule.IgnoredNeverCounts | pytest_arch/rule.py:110-123 | an import an ignored pattern matches is never among the matches of a required or forbidden pattern |
| Rule.RequiredChecks | pytest_arch/rule.py:113-118 | one assertion per required pattern, in order, holding exactly when some remaining import matches, naming the rule, module and pattern |
| Rule.ForbiddenChecks | pytest_arch/rule.py:119-123 | one assertion per forbidden pattern, in order, holding exactly when no remaining import matches, and listing every match |
| Rule.ModuleChecksHold | pytest_arch/rule.py:113-123 | all of a candidate's assertions hold exactly when every required pattern matches a remaining import and no forbidden pattern matches any |
| Rule.CheckModule | pytest_arch/rule.py:108-123 | the ignore, required and forbidden loops record exactly the specified assertions for one candidate |
| Rule.CandidateChecks | pytest_arch/rule.py:107-123 | every (candidate, constraint) pair gets an assertion: candidates times (required plus forbidden) |
| Rule.CandidateChecksHold | pytest_arch/rule.py:107-123 | all candidates' assertions hold exactly when every candidate satisfies the rule |
| Rule.CheckCandidates | pytest_arch/rule.py:107-123 | the loop over the candidates records exactly the specified assertions |
| Rule.Checks | pytest_arch/rule.py:93-123 | checking never stops early: one assertion for the candidate list plus one per candidate and constraint |
| Rule.RulePasses | pytest_arch/rule.py:87-123 | no assertion fails exactly when there is a candidate and every candidate satisfies every required and forbidden pattern after the ignored ones are removed |
| Rule.NoCandidatesIff | pytest_arch/rule.py:93-96 | the first assertion is the "no candidates" one, and it fails exactly when every key is unmatched or excluded |
| Rule.KeyOrderIrrelevant | pytest_arch/rule.py:98 | the assertions do not depend on the order in which the map lists its keys |
| Rule.ArchRule | pytest_arch/rule.py:11-13 | a new rule has the given name and comment and no patterns |
| Rule.RuleTargets.constructor | pytest_arch/rule.py:19-24 | the name and comment are stored and both pattern lists start empty |
| Rule.RuleTargets.Match | pytest_arch/rule.py:26-29 | appends the pattern to the match list, returns the same object, and changes nothing else |
| Rule.RuleTargets.Exclude | pytest_arch/rule.py:31-37 | appends the pattern to the exclude list, returns the same object, and changes nothing else |
| Rule.RuleTargets.Constrain | pytest_arch/rule.py:39-40 | a fresh constraint set for this rule with all three lists empty |
| Rule.RuleConstraints.constructor | pytest_arch/rule.py:44-48 | the targets are stored and the three pattern lists start empty |
| Rule.RuleConstraints.ShouldNotImport | pytest_arch/rule.py:50-59 | appends to the forbidden list, returns the same object, and changes nothing else |
| Rule.RuleConstraints.ShouldImport | pytest_arch/rule.py:61-70 | appends to the required list, returns the same object, and changes nothing else |
| Rule.RuleConstraints.MayImport | pytest_arch/rule.py:72-78 | appends to the ignored list, returns the same object, and changes nothing else |
| Rule.RuleConstraints.Evaluate | pytest_arch/rule.py:84-123 | on an import map, the recorded assertions are exactly `Checks` of the rule's patterns, and the printed list is the truncation of the sorted candidates |
| Rule.RuleConstraints.Check | pytest_arch/rule.py:80-123 | an exception of the collection ends the check with it; otherwise the assertions are `Checks` of, and the printed list the truncation of the sorted candidates of, a map that keeps every file's direct imports, closes every entry soundly and disjointly from its direct imports, and raises no circular flag on an acyclic graph |

## Left out

- The file system and the interpreter are not modelled. This covers
  `package_dir` (`find_spec`), `Path.glob`, `read_bytes` and `ast.parse`. The
  package's files are a parameter: a sequence of `SourceFile` values, each
  with its directories, its file name and its parsed tree. The order of that
  sequence stands for the order `glob` finds the files in.
- `resolve_module_or_object_by_path`, `resolve_module_or_object_by_spec` and
  `core_modules`: every question these ask of `sys.modules`, import specs and
  `os.path.exists` is folded into one oracle parameter `isModule`. That
  oracle keeps the name or replaces it by its parent. The exceptions these
  functions can raise are not modelled, nor is the `None` that
  `resolve_module_or_object_by_path` returns (lines 312-313) when
  `sys.modules` maps the name to `None`.
- The class-level caches (`_cache`, `_transitive_cache`, `enable_cache`,
  `disable_cache`, `invalidate_caches`) persist across calls. The model runs
  with caching off, which takes the `else` branch at lines 89 and 156.
- The `ModuleType` argument of `collect_imports` (lines 69-72) is not
  modelled, because it is reflection on a live module object. The package
  is always a name.
- The `print` of the candidates (rule.py line 105) is modelled by the
  returned `shown` list.
- The `pytest_check` soft assertions become the returned sequence of
  `Assertion` values. The `comment` of a rule is stored but never read,
  which matches the code.
- `pytest_arch/rule.py` imports `collect_imports` from `pytest_arch.collect`,
  and that file is not part of this model. `Rule.RuleConstraints.Check`
  uses pytest_archon's `collect_imports` instead. It takes the walker and the
  resolver oracle as parameters, because rule.py passes no walker.
- Rule.ForbiddenChecks: the `matches` of the forbidden message are a set,
  not a list in the order the import set iterates, because Python's set
  order is not modelled.
- Rule.RuleConstraints.Evaluate: requires every entry to have a closure.
  With a missing `transitive` key, line 108 would compute `set | list` and
  raise TypeError. `collect_imports` always sets the key, so this path
  cannot occur after a collection.
- Update.UpdateWithTransitiveImports: does not promise exact closures, even
  on an acyclic graph, because the code does not achieve them (first row of
  "## Findings").
- Collect.CollectImports: promises soundness, disjointness and no circular
  flags on acyclic graphs, but not exactness, for the same reason. It keeps
  the passes as written, so the rule evaluation sees what the code
  computes.
- Transitive.Drain: promises no exactness on cyclic graphs. In a cycle
  `a→b→a`, the inner marker of `a` pops the collection in progress, and the
  outer marker then stores the empty default of line 133. What the model
  promises on every graph is termination, soundness and disjointness.
- Transitive.Drain: the `is_circular` flag is only shown never to be raised
  on acyclic graphs. The model does not claim that it is raised on every
  cycle.
- The syntax tree is abstract: an `if`'s test and an import's `alias`
  entries are fields of their node, not child nodes. Python's
  `ast.iter_child_nodes` also yields those (the test before the body), so
  "every node exactly once, in breadth-first order" holds of the abstract
  tree, not of every node object of Python's `ast`.
- `resolve=False` in `extract_imports_ast` is modelled by the `resolve`
  parameter of `Extract.ExtractImports`. `collect_imports` always resolves.
- The requirements of the rule in prose differ from the code in two places,
  and the model follows the code in both:
  - a module matched by two match patterns is a candidate twice and is
    checked twice, because the list is extended rather than unioned;
  - an empty candidate list does not stop `check`, although it then has no
    candidate to check anyway.
- `fnmatch` is modelled on a POSIX system: neither the name nor the pattern
  is case-folded. Bracket ranges compare code points.

## Findings

| source | as written | input that shows it | evidently intended | confidence | as-written member | corrected member |
|---|---|---|---|---|---|---|
| pytest_archon/collect.py:163-185 | the defaults of lines 177-180 run inside every `update_entry_with_transitive_imports` call, so after the first key every entry not yet reached holds an empty `transitive` set, and line 163 trusts it instead of descending | keys `x, a, b, c` in that order, edges `a→b`, `b→c`, `c→d`: `a` ends with `{c}`, not `{c, d}` | every closure is the set of modules reachable in one or more steps minus the direct imports, on acyclic graphs | high (traced by hand and proved on the model; not executed) | Update.UpdateMissesTransitiveImport | Update.UpdateAllThenFill |
| pytest_archon/collect.py:250-251 | the relative import splits the importing module's own name with `level` splits, where `importlib._bootstrap._resolve_name` splits the module's package with `level - 1`; this agrees for plain modules but not for a package's `__init__` module, whose name is the package | `from . import x` in the `__init__` module of package `a.b` gives `a.x`; the language gives `a.b.x` | a one-dot import resolves inside the importing module's own package, as section 5.7 of the Python Language Reference describes | medium (the authors may have meant plain modules only; not executed) | Resolve.InitModuleResolvesOneLevelUp | Resolve.LanguageResolvesSiblingsInPackage |
