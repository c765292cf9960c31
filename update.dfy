/** `ImportCollector.update_entry_with_transitive_imports` as a whole (the
    depth-first expansion followed by the defaults of lines 177-180) and
    `ImportCollector.update_with_transitive_imports`, which runs it once per
    module. */
module Update {

  import opened Base
  import opened Graph
  import opened Transitive

  /** Every module the map lists, each once, in the order `dict.keys()` yields
      them. */
  predicate KeyOrder(data: ImportMap, order: seq<string>) {
    && (forall k :: k in order ==> k in data)
    && (forall k :: k in data ==> k in order)
    && (forall i, j :: 0 <= i < j < |order| ==> order[i] != order[j])
  }

  lemma SameGraph(data0: ImportMap, data: ImportMap)
    requires SameDirect(data0, data)
    ensures Direct(data) == Direct(data0)
  {
  }

  /** Lines 177-180: every entry without a closure gets an empty one. */
  method FillMissing(data0: ImportMap) returns (data: ImportMap)
    ensures data.Keys == data0.Keys
    ensures forall k :: k in data ==> data[k] == Filled(data0[k])
  {
    data := data0;
    var names := Enumerate(data0.Keys);
    for i := 0 to |names|
      invariant data.Keys == data0.Keys
      invariant forall k :: k in data ==> data[k] == data0[k] || data[k] == Filled(data0[k])
      invariant forall j :: 0 <= j < i ==> data[names[j]] == Filled(data0[names[j]])
    {
      var name := names[i];
      if data[name].closure.None? {
        data := data[name := Imports(data[name].direct, Some(Closure({}, false)))];
      }
    }
  }

  /** The defaults keep the direct sets and close every entry; they keep
      soundness, disjointness and the absence of circular flags, because an
      empty closure without the flag has all three. */
  lemma FilledKeeps(g: map<string, set<string>>, data0: ImportMap, data: ImportMap)
    requires data.Keys == data0.Keys && forall k :: k in data ==> data[k] == Filled(data0[k])
    ensures SameDirect(data0, data) && AllClosed(data)
    ensures ClosuresSound(g, data0) ==> ClosuresSound(g, data)
    ensures Disjoint(data0) ==> Disjoint(data)
    ensures NoCircularFlags(data0) ==> NoCircularFlags(data)
    ensures forall k :: k in data && data0[k].closure.Some? ==> data[k] == data0[k]
  {
  }

  /**
   * Lines 99-180, one call of `update_entry_with_transitive_imports`: after
   * it every module has a closure, the closure of `initial` holds only
   * modules reachable from it, and on an acyclic graph whose stored closures
   * were exact it is exactly the modules reachable from `initial` other than
   * its direct imports. When the direct imports already have closures, the
   * closure of `initial` is bounded by what their entries list, whether or
   * not those closures are exact (line 163 takes them as they are).
   */
  method UpdateEntry(initial: string, data0: ImportMap) returns (data: ImportMap)
    requires initial in data0
    ensures SameDirect(data0, data) && AllClosed(data)
    ensures ClosuresSound(Direct(data0), data0) ==> ClosuresSound(Direct(data0), data)
    ensures Disjoint(data0) ==> Disjoint(data)
    ensures Acyclic(Direct(data0)) && NoCircularFlags(data0) ==> NoCircularFlags(data)
    ensures Acyclic(Direct(data0)) && ClosuresExact(Direct(data0), data0) ==>
      forall z :: z in data[initial].closure.value.transitive <==>
        Reaches(Direct(data0), initial, z) && z !in data0[initial].direct
    ensures forall k :: k in data && k != initial && !Reaches(Direct(data0), initial, k) ==> data[k] == Filled(data0[k])
    ensures ShallowStart(Direct(data0), initial, data0) ==>
      data[initial].closure.value.transitive <= Inherited(data0, initial) - data0[initial].direct
  {
    var expanded := ExpandEntry(initial, data0);
    data := FillMissing(expanded);
    FilledKeeps(Direct(data0), expanded, data);
  }

  /**
   * Lines 183-185 as written: `update_entry_with_transitive_imports` for
   * every key in turn. Starting from a map without closures, as
   * `collect_imports` builds it, every module gets a closure that holds only
   * modules it reaches and none of its direct imports, and an acyclic graph
   * raises no circular flag.
   */
  method UpdateWithTransitiveImports(data0: ImportMap, order: seq<string>) returns (data: ImportMap)
    requires KeyOrder(data0, order)
    ensures SameDirect(data0, data) && AllClosed(data)
    ensures ClosuresSound(Direct(data0), data0) ==> ClosuresSound(Direct(data0), data)
    ensures Disjoint(data0) ==> Disjoint(data)
    ensures Acyclic(Direct(data0)) && NoCircularFlags(data0) ==> NoCircularFlags(data)
  {
    ghost var g := Direct(data0);
    data := data0;
    if order == [] {
      assert data0 == map[];
      return;
    }
    for i := 0 to |order|
      invariant SameDirect(data0, data) && Direct(data) == g
      invariant i > 0 ==> AllClosed(data)
      invariant ClosuresSound(g, data0) ==> ClosuresSound(g, data)
      invariant Disjoint(data0) ==> Disjoint(data)
      invariant Acyclic(g) && NoCircularFlags(data0) ==> NoCircularFlags(data)
    {
      var next := UpdateEntry(order[i], data);
      SameGraph(data, next);
      data := next;
    }
  }

  /** The keys `x, a, b, c`, where `a` imports `b`, `b` imports `c` and `c`
      imports `d`, none of them with a closure yet. */
  function ChainMap(): (data: ImportMap)
    ensures data.Keys == {"x", "a", "b", "c"}
  {
    map["x" := Imports({}, None), "a" := Imports({"b"}, None),
        "b" := Imports({"c"}, None), "c" := Imports({"d"}, None)]
  }

  /** The chain map lists its keys once each in that order, and it has no
      closures yet, so its stored closures are trivially exact. */
  lemma ChainStart()
    ensures KeyOrder(ChainMap(), ["x", "a", "b", "c"])
    ensures ClosuresExact(Direct(ChainMap()), ChainMap())
    ensures "d" !in ChainMap()["a"].direct
  {
  }

  /** What the chain map reaches: it is acyclic, `a` reaches `d`, and
      neither `x`, `b` nor `c` reaches `a`. */
  lemma ChainReach()
    ensures Acyclic(Direct(ChainMap()))
    ensures Reaches(Direct(ChainMap()), "a", "d")
    ensures forall z :: !Reaches(Direct(ChainMap()), "x", z)
    ensures forall z :: Reaches(Direct(ChainMap()), "b", z) ==> z in {"c", "d"}
    ensures forall z :: Reaches(Direct(ChainMap()), "c", z) ==> z in {"d"}
  {
    var g := Direct(ChainMap());
    ReachWithin(g, {}, "x");
    ReachWithin(g, {"b", "c", "d"}, "a");
    ReachWithin(g, {"c", "d"}, "b");
    ReachWithin(g, {"d"}, "c");
    forall k ensures !Reaches(g, k, k) {
      if k !in g { LeafReachesNothing(g, k, k); }
    }
    assert IsPath(g, ["a", "b", "c", "d"]);
  }

  /** After the call for `x`, which reaches nothing, `a` and `b` have the
      empty default closures, so the call for `a` only sees stored entries. */
  lemma ChainAfterFirst(data1: ImportMap)
    requires SameDirect(ChainMap(), data1)
    requires forall k :: k in data1 && k != "x" && !Reaches(Direct(ChainMap()), "x", k) ==>
      data1[k] == Filled(ChainMap()[k])
    ensures Direct(data1) == Direct(ChainMap())
    ensures ShallowStart(Direct(data1), "a", data1) && Inherited(data1, "a") <= {"c"}
  {
    ChainReach();
    SameGraph(ChainMap(), data1);
    assert data1["a"] == Imports({"b"}, Some(Closure({}, false)));
    assert data1["b"] == Imports({"c"}, Some(Closure({}, false)));
  }

  /** The calls for `b` and `c` leave `a`'s closure alone. */
  lemma ChainKeepsA(before: ImportMap, after: ImportMap, m: string)
    requires m == "b" || m == "c"
    requires SameDirect(before, after) && Direct(before) == Direct(ChainMap())
    requires "a" in before && before["a"].closure.Some?
    requires forall k :: k in after && k != m && !Reaches(Direct(before), m, k) ==> after[k] == Filled(before[k])
    ensures Direct(after) == Direct(ChainMap()) && after["a"].closure == before["a"].closure
  {
    ChainReach();
    SameGraph(before, after);
  }

  /**
   * Lines 183-185 as written on `ChainMap` in the key order `x, a, b, c`
   * (the loop unrolled into its four calls). The call for `x` gives `a`,
   * `b` and `c` empty closures through lines 177-180; the call for `a` then
   * takes `b`'s empty closure at line 163 and never descends into `c`; the
   * calls for `b` and `c` do not reach `a`. So on this acyclic map without
   * closures, `a` ends without `d`, which it reaches and does not import
   * directly.
   */
  method UpdateMissesTransitiveImport() returns (data0: ImportMap, data: ImportMap)
    ensures KeyOrder(data0, ["x", "a", "b", "c"])
    ensures Acyclic(Direct(data0)) && ClosuresExact(Direct(data0), data0)
    ensures Reaches(Direct(data0), "a", "d") && "d" !in data0["a"].direct
    ensures "a" in data && data["a"].closure.Some? && "d" !in data["a"].closure.value.transitive
  {
    data0 := ChainMap();
    ChainStart();
    ChainReach();
    var data1 := UpdateEntry("x", data0);
    ChainAfterFirst(data1);
    var data2 := UpdateEntry("a", data1);
    SameGraph(data1, data2);
    var data3 := UpdateEntry("b", data2);
    ChainKeepsA(data2, data3, "b");
    data := UpdateEntry("c", data3);
    ChainKeepsA(data3, data, "c");
  }

  /** One expansion of lines 99-175, with only what the passes of
      `ExpandAll` carry from one module to the next: the flags say which of
      the graph properties held before and so still hold after. */
  method ExpandKeepingClosures(initial: string, data0: ImportMap, ghost g: map<string, set<string>>,
                               ghost sound: bool, ghost disjoint: bool, ghost exact: bool)
    returns (data: ImportMap)
    requires initial in data0 && Direct(data0) == g
    requires sound ==> ClosuresSound(g, data0)
    requires disjoint ==> Disjoint(data0)
    requires exact ==> Acyclic(g) && ClosuresExact(g, data0)
    ensures SameDirect(data0, data) && Direct(data) == g
    ensures data[initial].closure.Some?
    ensures forall k :: k in data0 && data0[k].closure.Some? ==> data[k].closure.Some?
    ensures sound ==> ClosuresSound(g, data)
    ensures disjoint ==> Disjoint(data)
    ensures exact ==> Acyclic(g) && ClosuresExact(g, data)
  {
    data := ExpandEntry(initial, data0);
    SameGraph(data0, data);
  }

  /** Lines 99-175 for every key in turn, without the defaults of lines
      177-180 in between: every module ends with a closure of its own. */
  method ExpandAll(data0: ImportMap, order: seq<string>) returns (data: ImportMap)
    requires KeyOrder(data0, order)
    ensures SameDirect(data0, data) && Direct(data) == Direct(data0) && AllClosed(data)
    ensures ClosuresSound(Direct(data0), data0) ==> ClosuresSound(Direct(data0), data)
    ensures Disjoint(data0) ==> Disjoint(data)
    ensures Acyclic(Direct(data0)) && ClosuresExact(Direct(data0), data0) ==> ClosuresExact(Direct(data0), data)
  {
    ghost var g := Direct(data0);
    ghost var sound, disjoint, exact := ClosuresSound(g, data0), Disjoint(data0), Acyclic(g) && ClosuresExact(g, data0);
    data := data0;
    for i := 0 to |order|
      invariant SameDirect(data0, data) && Direct(data) == g
      invariant forall j :: 0 <= j < i ==> data[order[j]].closure.Some?
      invariant sound ==> ClosuresSound(g, data)
      invariant disjoint ==> Disjoint(data)
      invariant exact ==> Acyclic(g) && ClosuresExact(g, data)
    {
      data := ExpandKeepingClosures(order[i], data, g, sound, disjoint, exact);
    }
  }

  /**
   * The update with the defaults of lines 177-180 applied once, after every
   * module has been expanded. Starting from a map whose stored closures are
   * exact (a map without closures, say) on an acyclic graph, every module
   * ends with exactly the modules it reaches other than its direct imports.
   */
  method UpdateAllThenFill(data0: ImportMap, order: seq<string>) returns (data: ImportMap)
    requires KeyOrder(data0, order)
    ensures SameDirect(data0, data) && AllClosed(data)
    ensures ClosuresSound(Direct(data0), data0) ==> ClosuresSound(Direct(data0), data)
    ensures Disjoint(data0) ==> Disjoint(data)
    ensures Acyclic(Direct(data0)) && ClosuresExact(Direct(data0), data0) ==> ClosuresExact(Direct(data0), data)
  {
    var expanded := ExpandAll(data0, order);
    data := FillMissing(expanded);
    FilledKeeps(Direct(data0), expanded, data);
  }
}
