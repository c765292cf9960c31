/** The depth-first closure computation of
    `ImportCollector.update_entry_with_transitive_imports` and
    `ImportCollector.update_with_transitive_imports`, with the class-level
    caches switched off. */
module Transitive {

  import opened Base
  import opened Graph

  /** A stack entry: `Marker(m)` is the end marker `(None, m)` of module `m`,
      `Visit(m, i)` the pending edge `(m, i)` from `m` to its import `i`. */
  datatype Entry = Marker(mod: string) | Visit(importer: string, imported: string)

  /** `[(from, t) for t in targets]`. */
  function Visits(importer: string, targets: seq<string>): (vs: seq<Entry>)
    ensures |vs| == |targets|
    ensures forall i :: 0 <= i < |vs| ==> vs[i] == Visit(importer, targets[i])
  {
    seq(|targets|, i requires 0 <= i < |targets| => Visit(importer, targets[i]))
  }

  /** Adds `extra` to every closure collected so far and raises the circular
      flag on each of them when `circular` holds (the loops over
      `trans_of_modules_visited.values()`). */
  function MergeAll(trans: map<string, Closure>, extra: set<string>, circular: bool): (r: map<string, Closure>)
    ensures r.Keys == trans.Keys
    ensures forall k :: k in r ==>
      r[k].transitive == trans[k].transitive + extra && r[k].isCircular == (trans[k].isCircular || circular)
  {
    map k | k in trans :: Closure(trans[k].transitive + extra, trans[k].isCircular || circular)
  }

  /** Starts an empty collection for `m` unless one is under way. */
  function Touch(trans: map<string, Closure>, m: string): (r: map<string, Closure>)
    ensures r.Keys == trans.Keys + {m}
    ensures forall k :: k in trans ==> r[k] == trans[k]
    ensures m !in trans ==> r[m] == Closure({}, false)
  {
    if m in trans then trans else trans[m := Closure({}, false)]
  }

  /** What an end marker stores: the collected modules minus the direct
      imports, with the collected flag; modules outside the map are skipped. */
  function WriteClosure(data: ImportMap, m: string, c: Closure): (r: ImportMap)
    ensures r.Keys == data.Keys
    ensures forall k :: k in data && k != m ==> r[k] == data[k]
    ensures m in data ==> r[m] == Imports(data[m].direct, Some(Closure(c.transitive - data[m].direct, c.isCircular)))
  {
    if m in data then data[m := Imports(data[m].direct, Some(Closure(c.transitive - data[m].direct, c.isCircular)))]
    else data
  }

  /** The closure popped for `m`, or the empty default. */
  function Popped(trans: map<string, Closure>, m: string): (c: Closure)
    ensures m in trans ==> c == trans[m]
    ensures m !in trans ==> c == Closure({}, false)
  {
    if m in trans then trans[m] else Closure({}, false)
  }

  /** The entry defaults of lines 177-180: no closure becomes an empty one. */
  function Filled(e: Imports): (r: Imports)
    ensures r.direct == e.direct && r.closure.Some?
    ensures e.closure.Some? ==> r == e
    ensures e.closure.None? ==> r.closure.value == Closure({}, false)
  {
    if e.closure.Some? then e else Imports(e.direct, Some(Closure({}, false)))
  }

  // ---------------------------------------------------------------------
  // Measures and shape of the stack

  /** A visit weighs two (it turns into a marker), a marker one. */
  function Weight(s: seq<Entry>): nat
    decreases |s|
  {
    if s == [] then 0 else Weight(s[..|s| - 1]) + (if s[|s| - 1].Visit? then 2 else 1)
  }

  lemma WeightSnoc(p: seq<Entry>, e: Entry)
    ensures Weight(p + [e]) == Weight(p) + (if e.Visit? then 2 else 1)
  {
    assert (p + [e])[..|p|] == p;
  }

  lemma SmallerSet<T>(all: set<T>, seen: set<T>, e: T)
    requires e in all && e !in seen
    ensures |all - (seen + {e})| < |all - seen|
  {
    var x := all - seen;
    assert all - (seen + {e}) == x - {e};
    assert x == (x - {e}) + {e};
  }

  ghost predicate Edge(g: map<string, set<string>>, a: string, b: string) {
    a in g && b in g[a]
  }

  ghost predicate ReachStar(g: map<string, set<string>>, a: string, b: string) {
    a == b || Reaches(g, a, b)
  }

  lemma ReachStarThenEdge(g: map<string, set<string>>, a: string, b: string, c: string)
    requires ReachStar(g, a, b) && Edge(g, b, c)
    ensures Reaches(g, a, c)
  {
    if a == b { EdgeReaches(g, b, c); } else { ReachesThenEdge(g, a, b, c); }
  }

  /** The module of the topmost end marker. */
  ghost function LastMarker(s: seq<Entry>): (r: Option<string>)
    ensures r.Some? ==> Marker(r.value) in s
    ensures r.None? ==> forall i :: 0 <= i < |s| ==> s[i].Visit?
    decreases |s|
  {
    if s == [] then None
    else if s[|s| - 1].Marker? then Some(s[|s| - 1].mod)
    else LastMarker(s[..|s| - 1])
  }

  /** The stack is built as the code builds it: the marker of the initial
      module at the bottom, every other marker the target of an edge from
      the marker below it, every visit an edge out of the marker below it. */
  ghost predicate WellFormed(g: map<string, set<string>>, initial: string, s: seq<Entry>)
    decreases |s|
  {
    s == [] ||
    var p := s[..|s| - 1];
    && WellFormed(g, initial, p)
    && match s[|s| - 1]
       case Marker(m) => (p == [] && m == initial) || (LastMarker(p).Some? && Edge(g, LastMarker(p).value, m))
       case Visit(x, y) => LastMarker(p) == Some(x) && Edge(g, x, y)
  }

  lemma WellFormedSnoc(g: map<string, set<string>>, initial: string, p: seq<Entry>, e: Entry)
    ensures WellFormed(g, initial, p + [e]) <==>
      && WellFormed(g, initial, p)
      && match e
         case Marker(m) => (p == [] && m == initial) || (LastMarker(p).Some? && Edge(g, LastMarker(p).value, m))
         case Visit(x, y) => LastMarker(p) == Some(x) && Edge(g, x, y)
    ensures LastMarker(p + [e]) == if e.Marker? then Some(e.mod) else LastMarker(p)
  {
    assert (p + [e])[..|p|] == p;
  }

  lemma {:induction false} BottomIsInitial(g: map<string, set<string>>, initial: string, s: seq<Entry>)
    requires WellFormed(g, initial, s) && s != []
    ensures s[0] == Marker(initial)
    decreases |s|
  {
    var p, e := s[..|s| - 1], s[|s| - 1];
    assert s == p + [e];
    WellFormedSnoc(g, initial, p, e);
    if p != [] {
      BottomIsInitial(g, initial, p);
      assert s[0] == p[0];
    }
  }

  /** Every marker reaches, or is, the topmost one. */
  lemma {:induction false} MarkerReachesTop(g: map<string, set<string>>, initial: string, s: seq<Entry>, i: nat)
    requires WellFormed(g, initial, s) && i < |s| && s[i].Marker?
    ensures LastMarker(s).Some? && ReachStar(g, s[i].mod, LastMarker(s).value)
    decreases |s|
  {
    var p, e := s[..|s| - 1], s[|s| - 1];
    assert s == p + [e];
    WellFormedSnoc(g, initial, p, e);
    if i < |p| {
      assert p[i] == s[i];
      MarkerReachesTop(g, initial, p, i);
      if e.Marker? {
        ReachStarThenEdge(g, s[i].mod, LastMarker(p).value, e.mod);
      }
    }
  }

  /** Markers further up are reached from markers further down. */
  lemma MarkerChain(g: map<string, set<string>>, initial: string, s: seq<Entry>, i: nat, j: nat)
    requires WellFormed(g, initial, s) && i < j < |s| && s[i].Marker? && s[j].Marker?
    ensures Reaches(g, s[i].mod, s[j].mod)
  {
    var p := s[..j];
    assert s[..j + 1] == p + [s[j]];
    assert p[i] == s[i];
    PrefixWellFormed(g, initial, s, j + 1);
    WellFormedSnoc(g, initial, p, s[j]);
    MarkerReachesTop(g, initial, p, i);
    ReachStarThenEdge(g, s[i].mod, LastMarker(p).value, s[j].mod);
  }

  lemma {:induction false} PrefixWellFormed(g: map<string, set<string>>, initial: string, s: seq<Entry>, n: nat)
    requires WellFormed(g, initial, s) && n <= |s|
    ensures WellFormed(g, initial, s[..n])
    decreases |s|
  {
    if n < |s| {
      var p := s[..|s| - 1];
      assert s == p + [s[|s| - 1]];
      WellFormedSnoc(g, initial, p, s[|s| - 1]);
      assert s[..n] == p[..n];
      PrefixWellFormed(g, initial, p, n);
    } else {
      assert s[..n] == s;
    }
  }

  /** Every marker is the initial module or reached from it. */
  lemma MarkerFromInitial(g: map<string, set<string>>, initial: string, s: seq<Entry>, i: nat)
    requires WellFormed(g, initial, s) && i < |s| && s[i].Marker?
    ensures ReachStar(g, initial, s[i].mod)
  {
    BottomIsInitial(g, initial, s);
    if i > 0 { MarkerChain(g, initial, s, 0, i); }
  }

  /** Pushing the visits of `y`'s imports keeps the stack well formed. */
  lemma {:induction false} PushVisits(g: map<string, set<string>>, initial: string, s: seq<Entry>, y: string, cs: seq<string>)
    requires WellFormed(g, initial, s) && LastMarker(s) == Some(y)
    requires forall c :: c in cs ==> Edge(g, y, c)
    ensures WellFormed(g, initial, s + Visits(y, cs)) && LastMarker(s + Visits(y, cs)) == Some(y)
    decreases |cs|
  {
    if cs != [] {
      var front := cs[..|cs| - 1];
      PushVisits(g, initial, s, y, front);
      var e := Visit(y, cs[|cs| - 1]);
      assert s + Visits(y, cs) == (s + Visits(y, front)) + [e];
      WellFormedSnoc(g, initial, s + Visits(y, front), e);
    } else {
      assert s + Visits(y, cs) == s;
    }
  }

  // ---------------------------------------------------------------------
  // Invariants

  ghost predicate SameDirect(data0: ImportMap, data: ImportMap) {
    data.Keys == data0.Keys && forall k :: k in data ==> data[k].direct == data0[k].direct
  }

  /** `g` is the direct-import graph of `data`. */
  ghost predicate GraphOf(g: map<string, set<string>>, data: ImportMap) {
    g.Keys == data.Keys && forall k :: k in data ==> g[k] == data[k].direct
  }

  /** Every collection under way belongs to a marker on the stack. */
  ghost predicate TransMarked(trans: map<string, Closure>, stack: seq<Entry>) {
    forall k :: k in trans ==> Marker(k) in stack
  }

  /** Every collected module is reachable from the module collecting it. */
  ghost predicate TransSound(g: map<string, set<string>>, trans: map<string, Closure>) {
    forall k, z :: k in trans && z in trans[k].transitive ==> Reaches(g, k, z)
  }

  ghost predicate FlagsClear(trans: map<string, Closure>) {
    forall k :: k in trans ==> !trans[k].isCircular
  }

  /** Entries that `initial` does not reach are as they were, and no closure
      is taken away. */
  ghost predicate Untouched(g: map<string, set<string>>, initial: string, data0: ImportMap, data: ImportMap) {
    && data.Keys == data0.Keys
    && (forall k :: k in data && k != initial && !Reaches(g, initial, k) ==> data[k] == data0[k])
    && (forall k :: k in data0 && data0[k].closure.Some? ==> data[k].closure.Some?)
  }

  /** A module still to come: reached from, or equal to, a pending visit's target. */
  ghost predicate Pending(g: map<string, set<string>>, s: seq<Entry>, z: string) {
    exists i :: 0 <= i < |s| && s[i].Visit? && ReachStar(g, s[i].imported, z)
  }

  /** On an acyclic graph no edge is met twice: every pending visit leaves
      a module that was expanded and is a fresh edge, and a module is
      expanded at most once. */
  ghost predicate InvAcyclic(data: ImportMap, stack: seq<Entry>, seen: set<(string, string)>, expanded: set<string>) {
    && expanded <= data.Keys
    && (forall k :: k in expanded ==> Marker(k) in stack || data[k].closure.Some?)
    && (forall i :: 0 <= i < |stack| && stack[i].Visit? ==>
          stack[i].importer in expanded && (stack[i].importer, stack[i].imported) !in seen)
    && (forall i, j :: 0 <= i < j < |stack| && stack[i].Visit? ==> stack[i] != stack[j])
    && (forall a, b :: (a, b) in seen ==> a in expanded)
  }

  /** On an acyclic graph whose stored closures are exact, each marker's
      collection together with what its pending visits reach covers its closure. */
  ghost predicate InvExact(g: map<string, set<string>>, data: ImportMap, stack: seq<Entry>, trans: map<string, Closure>) {
    && (forall i :: 0 <= i < |stack| && stack[i].Marker? ==> stack[i].mod in trans)
    && (forall j, z :: 0 <= j < |stack| && stack[j].Marker? && Reaches(g, stack[j].mod, z) ==>
          z in trans[stack[j].mod].transitive || Pending(g, stack[j + 1..], z))
    && ClosuresExact(g, data)
  }

  lemma ExactIsSound(g: map<string, set<string>>, data: ImportMap)
    requires ClosuresExact(g, data)
    ensures ClosuresSound(g, data) && NoCircularFlags(data)
  {
  }

  // ---------------------------------------------------------------------
  // The initial stack

  lemma InitialShape(g: map<string, set<string>>, initial: string, imports: seq<string>)
    requires initial in g && forall c :: c in imports ==> c in g[initial]
    ensures WellFormed(g, initial, [Marker(initial)] + Visits(initial, imports))
    ensures TransMarked(map[initial := Closure({}, false)], [Marker(initial)] + Visits(initial, imports))
  {
    WellFormedSnoc(g, initial, [], Marker(initial));
    assert [] + [Marker(initial)] == [Marker(initial)];
    PushVisits(g, initial, [Marker(initial)], initial, imports);
    assert ([Marker(initial)] + Visits(initial, imports))[0] == Marker(initial);
  }

  lemma InitialAcyclic(data: ImportMap, initial: string, imports: seq<string>)
    requires initial in data
    requires forall i, j :: 0 <= i < j < |imports| ==> imports[i] != imports[j]
    ensures InvAcyclic(data, [Marker(initial)] + Visits(initial, imports), {}, {initial})
  {
    var s := [Marker(initial)] + Visits(initial, imports);
    assert s[0] == Marker(initial);
    forall i | 0 < i < |s| ensures s[i] == Visit(initial, imports[i - 1]) { }
  }

  lemma InitialExact(g: map<string, set<string>>, data: ImportMap, initial: string, imports: seq<string>)
    requires ClosuresExact(g, data) && initial in g && forall c :: c in imports <==> c in g[initial]
    ensures InvExact(g, data, [Marker(initial)] + Visits(initial, imports), map[initial := Closure({}, false)])
  {
    var s := [Marker(initial)] + Visits(initial, imports);
    forall i | 0 < i < |s| ensures s[i] == Visit(initial, imports[i - 1]) { }
    forall z | Reaches(g, initial, z)
      ensures Pending(g, s[1..], z)
    {
      ReachesFirstStep(g, initial, z);
      var c :| c in g[initial] && (c == z || Reaches(g, c, z));
      var i :| 0 <= i < |imports| && imports[i] == c;
      assert s[1..][i] == Visit(initial, c);
    }
  }

  // ---------------------------------------------------------------------
  // Popping an end marker

  lemma WriteKeeps(g: map<string, set<string>>, data: ImportMap, m: string, c: Closure)
    requires GraphOf(g, data)
    ensures GraphOf(g, WriteClosure(data, m, c))
    ensures Disjoint(data) ==> Disjoint(WriteClosure(data, m, c))
    ensures NoCircularFlags(data) && !c.isCircular ==> NoCircularFlags(WriteClosure(data, m, c))
    ensures m in data ==> WriteClosure(data, m, c)[m].closure.Some?
  {
  }

  lemma PopSound(g: map<string, set<string>>, data: ImportMap, trans: map<string, Closure>, m: string)
    requires GraphOf(g, data) && ClosuresSound(g, data) && TransSound(g, trans)
    ensures ClosuresSound(g, WriteClosure(data, m, Popped(trans, m)))
    ensures TransSound(g, trans - {m})
  {
  }

  lemma PopUntouched(g: map<string, set<string>>, initial: string, data0: ImportMap, data: ImportMap,
                     p: seq<Entry>, m: string, c: Closure)
    requires WellFormed(g, initial, p + [Marker(m)]) && Untouched(g, initial, data0, data)
    ensures Untouched(g, initial, data0, WriteClosure(data, m, c))
    ensures p == [] ==> m == initial
  {
    var s := p + [Marker(m)];
    assert s[|p|] == Marker(m);
    MarkerFromInitial(g, initial, s, |p|);
    if p == [] { BottomIsInitial(g, initial, s); }
  }

  lemma PopTransMarked(trans: map<string, Closure>, p: seq<Entry>, m: string)
    requires TransMarked(trans, p + [Marker(m)])
    ensures TransMarked(trans - {m}, p)
  {
    forall k | k in trans - {m} ensures Marker(k) in p {
      assert Marker(k) in p + [Marker(m)];
    }
  }

  lemma PopAcyclic(data: ImportMap, p: seq<Entry>, m: string, seen: set<(string, string)>,
                   expanded: set<string>, c: Closure)
    requires InvAcyclic(data, p + [Marker(m)], seen, expanded)
    ensures InvAcyclic(WriteClosure(data, m, c), p, seen, expanded)
  {
    var s := p + [Marker(m)];
    forall i | 0 <= i < |p| ensures p[i] == s[i] { }
    forall k | k in expanded ensures Marker(k) in p || WriteClosure(data, m, c)[k].closure.Some? {
      if Marker(k) in s && k != m {
        var i :| 0 <= i < |s| && s[i] == Marker(k);
        assert i < |p|;
      }
    }
  }

  lemma PopExact(g: map<string, set<string>>, initial: string, data: ImportMap, p: seq<Entry>, m: string,
                 trans: map<string, Closure>)
    requires Acyclic(g) && GraphOf(g, data) && WellFormed(g, initial, p + [Marker(m)])
    requires TransSound(g, trans) && FlagsClear(trans) && InvExact(g, data, p + [Marker(m)], trans)
    ensures InvExact(g, WriteClosure(data, m, Popped(trans, m)), p, trans - {m})
  {
    var s := p + [Marker(m)];
    var c := Popped(trans, m);
    forall i | 0 <= i < |p| ensures p[i] == s[i] { }
    assert s[|p|] == Marker(m);
    forall i | 0 <= i < |p| && p[i].Marker? ensures p[i].mod != m {
      MarkerChain(g, initial, s, i, |p|);
    }
    forall j, z | 0 <= j < |p| && p[j].Marker? && Reaches(g, p[j].mod, z)
      ensures z in (trans - {m})[p[j].mod].transitive || Pending(g, p[j + 1..], z)
    {
      assert s[j] == p[j];
      if z !in trans[p[j].mod].transitive {
        var i :| 0 <= i < |s[j + 1..]| && s[j + 1..][i].Visit? && ReachStar(g, s[j + 1..][i].imported, z);
        assert p[j + 1..][i] == s[j + 1..][i];
      }
    }
    forall z | Reaches(g, m, z) ensures z in c.transitive {
      assert s[|p|].Marker? && Reaches(g, s[|p|].mod, z);
      assert !Pending(g, s[|p| + 1..], z);
    }
  }

  // ---------------------------------------------------------------------
  // Popping a visit

  lemma VisitShape(g: map<string, set<string>>, initial: string, p: seq<Entry>, x: string, y: string)
    requires WellFormed(g, initial, p + [Visit(x, y)])
    ensures WellFormed(g, initial, p) && LastMarker(p) == Some(x) && Edge(g, x, y)
    ensures WellFormed(g, initial, p + [Marker(y)]) && LastMarker(p + [Marker(y)]) == Some(y)
  {
    WellFormedSnoc(g, initial, p, Visit(x, y));
    WellFormedSnoc(g, initial, p, Marker(y));
  }

  /** Every collection under way is that of a marker below the visit, and
      that marker reaches the visit's target. */
  lemma CollectorsReach(g: map<string, set<string>>, initial: string, p: seq<Entry>, x: string, y: string,
                        trans: map<string, Closure>)
    requires WellFormed(g, initial, p + [Visit(x, y)]) && TransMarked(trans, p + [Visit(x, y)])
    ensures forall k :: k in trans ==> Reaches(g, k, y)
  {
    var s := p + [Visit(x, y)];
    VisitShape(g, initial, p, x, y);
    forall k | k in trans ensures Reaches(g, k, y) {
      var i :| 0 <= i < |s| && s[i] == Marker(k);
      assert i < |p| && p[i] == Marker(k);
      MarkerReachesTop(g, initial, p, i);
      ReachStarThenEdge(g, k, x, y);
    }
  }

  lemma MergeSound(g: map<string, set<string>>, trans: map<string, Closure>, extra: set<string>, circular: bool)
    requires TransSound(g, trans)
    requires forall k, z :: k in trans && z in extra ==> Reaches(g, k, z)
    ensures TransSound(g, MergeAll(trans, extra, circular))
  {
  }

  lemma TouchKeeps(g: map<string, set<string>>, trans: map<string, Closure>, y: string)
    ensures TransSound(g, trans) ==> TransSound(g, Touch(trans, y))
    ensures FlagsClear(trans) ==> FlagsClear(Touch(trans, y))
  {
  }

  lemma MergeFlags(trans: map<string, Closure>, extra: set<string>, circular: bool)
    requires FlagsClear(trans) && !circular
    ensures FlagsClear(MergeAll(trans, extra, circular))
  {
  }

  lemma VisitTransMarked(trans: map<string, Closure>, p: seq<Entry>, x: string, y: string,
                         trans': map<string, Closure>, rest: seq<Entry>)
    requires TransMarked(trans, p + [Visit(x, y)]) && trans'.Keys <= trans.Keys + {y}
    ensures TransMarked(trans', p + [Marker(y)] + rest)
  {
    var s := p + [Visit(x, y)];
    var s' := p + [Marker(y)] + rest;
    assert s'[|p|] == Marker(y);
    forall k | k in trans' ensures Marker(k) in s' {
      if k != y {
        var i :| 0 <= i < |s| && s[i] == Marker(k);
        assert s'[i] == Marker(k);
      }
    }
  }

  /** A stored closure and the direct imports hold only reachable modules. */
  lemma KnownSound(g: map<string, set<string>>, data: ImportMap, trans: map<string, Closure>, y: string)
    requires GraphOf(g, data) && ClosuresSound(g, data) && y in data && data[y].closure.Some?
    requires forall k :: k in trans ==> k == y || Reaches(g, k, y)
    ensures forall k, z :: k in trans && z in data[y].closure.value.transitive + data[y].direct ==> Reaches(g, k, z)
  {
    forall k, z | k in trans && z in data[y].closure.value.transitive + data[y].direct
      ensures Reaches(g, k, z)
    {
      if z in data[y].direct { EdgeReaches(g, y, z); }
      if k != y { ReachesTrans(g, k, y, z); }
    }
  }

  /** On an acyclic graph an edge on the stack has not been seen. */
  lemma SeenMeansCycle(data: ImportMap, p: seq<Entry>, x: string, y: string,
                       seen: set<(string, string)>, expanded: set<string>)
    requires (x, y) in seen
    ensures !InvAcyclic(data, p + [Visit(x, y)], seen, expanded)
  {
    assert (p + [Visit(x, y)])[|p|] == Visit(x, y);
  }

  /** A fresh visit that does not descend. */
  lemma VisitAcyclicStop(data: ImportMap, p: seq<Entry>, x: string, y: string,
                         seen: set<(string, string)>, expanded: set<string>)
    requires InvAcyclic(data, p + [Visit(x, y)], seen, expanded) && (x, y) !in seen
    ensures InvAcyclic(data, p + [Marker(y)], seen + {(x, y)}, expanded)
  {
    var s := p + [Visit(x, y)];
    var s' := p + [Marker(y)];
    forall i | 0 <= i < |p| ensures p[i] == s[i] && p[i] == s'[i] { }
    assert s[|p|] == Visit(x, y);
    forall k | k in expanded ensures Marker(k) in s' || data[k].closure.Some? {
      if Marker(k) in s {
        var i :| 0 <= i < |s| && s[i] == Marker(k);
        assert s'[i] == Marker(k);
      }
    }
    forall i | 0 <= i < |s'| && s'[i].Visit?
      ensures s'[i].importer in expanded && (s'[i].importer, s'[i].imported) !in seen + {(x, y)}
    {
      assert s[i] != s[|p|];
    }
  }

  /** On an acyclic graph a module without a closure that is the target of
      a visit has not been expanded, and is not the visit's source. */
  lemma NotYetExpanded(g: map<string, set<string>>, initial: string, data: ImportMap, p: seq<Entry>,
                       x: string, y: string, seen: set<(string, string)>, expanded: set<string>)
    requires Acyclic(g) && WellFormed(g, initial, p + [Visit(x, y)])
    requires InvAcyclic(data, p + [Visit(x, y)], seen, expanded)
    requires y in data && data[y].closure.None?
    ensures y !in expanded && x != y
  {
    var s := p + [Visit(x, y)];
    VisitShape(g, initial, p, x, y);
    if y in expanded {
      var i :| 0 <= i < |s| && s[i] == Marker(y);
      assert p[i] == Marker(y);
      MarkerReachesTop(g, initial, p, i);
      ReachStarThenEdge(g, y, x, y);
    }
    if x == y { EdgeReaches(g, x, y); }
  }

  /** A fresh visit that descends into a module not yet expanded. */
  lemma VisitAcyclicExpand(data: ImportMap, p: seq<Entry>, x: string, y: string,
                           seen: set<(string, string)>, expanded: set<string>, cs: seq<string>)
    requires InvAcyclic(data, p + [Visit(x, y)], seen, expanded) && (x, y) !in seen
    requires y in data && y !in expanded && x != y
    requires forall i, j :: 0 <= i < j < |cs| ==> cs[i] != cs[j]
    ensures InvAcyclic(data, p + [Marker(y)] + Visits(y, cs), seen + {(x, y)}, expanded + {y})
  {
    var s := p + [Visit(x, y)];
    var s' := p + [Marker(y)] + Visits(y, cs);
    assert s[|p|] == Visit(x, y);
    ExpandedMarked(data, p, x, y, expanded, Visits(y, cs));
    ExpandVisitsFresh(data, p, x, y, seen, expanded, cs);
    ExpandVisitsDistinct(data, p, x, y, seen, expanded, cs);
  }

  lemma ExpandedMarked(data: ImportMap, p: seq<Entry>, x: string, y: string, expanded: set<string>, rest: seq<Entry>)
    requires expanded <= data.Keys && y in data
    requires forall k :: k in expanded ==> Marker(k) in p + [Visit(x, y)] || data[k].closure.Some?
    ensures forall k :: k in expanded + {y} ==> Marker(k) in p + [Marker(y)] + rest || data[k].closure.Some?
  {
    var s := p + [Visit(x, y)];
    var s' := p + [Marker(y)] + rest;
    assert s'[|p|] == Marker(y);
    forall k | k in expanded + {y} ensures Marker(k) in s' || data[k].closure.Some? {
      if k != y && Marker(k) in s {
        var i :| 0 <= i < |s| && s[i] == Marker(k);
        assert s'[i] == Marker(k);
      }
    }
  }

  lemma ExpandVisitsFresh(data: ImportMap, p: seq<Entry>, x: string, y: string,
                          seen: set<(string, string)>, expanded: set<string>, cs: seq<string>)
    requires InvAcyclic(data, p + [Visit(x, y)], seen, expanded) && y !in expanded && x != y
    ensures var s' := p + [Marker(y)] + Visits(y, cs);
      forall i :: 0 <= i < |s'| && s'[i].Visit? ==>
        s'[i].importer in expanded + {y} && (s'[i].importer, s'[i].imported) !in seen + {(x, y)}
  {
    var s := p + [Visit(x, y)];
    var s' := p + [Marker(y)] + Visits(y, cs);
    forall i | 0 <= i < |s'| && s'[i].Visit?
      ensures s'[i].importer in expanded + {y} && (s'[i].importer, s'[i].imported) !in seen + {(x, y)}
    {
      if i < |p| {
        assert s'[i] == s[i] && s[i] != s[|p|];
      } else {
        assert i > |p| && s'[i] == Visit(y, cs[i - |p| - 1]);
      }
    }
  }

  lemma ExpandVisitsDistinct(data: ImportMap, p: seq<Entry>, x: string, y: string,
                             seen: set<(string, string)>, expanded: set<string>, cs: seq<string>)
    requires InvAcyclic(data, p + [Visit(x, y)], seen, expanded) && y !in expanded
    requires forall i, j :: 0 <= i < j < |cs| ==> cs[i] != cs[j]
    ensures var s' := p + [Marker(y)] + Visits(y, cs);
      forall i, j :: 0 <= i < j < |s'| && s'[i].Visit? ==> s'[i] != s'[j]
  {
    var s := p + [Visit(x, y)];
    var s' := p + [Marker(y)] + Visits(y, cs);
    forall i, j | 0 <= i < j < |s'| && s'[i].Visit? ensures s'[i] != s'[j] {
      if j < |p| {
        assert s'[i] == s[i] && s'[j] == s[j];
      } else if i < |p| {
        assert s'[i] == s[i];
        if j > |p| { assert s'[j] == Visit(y, cs[j - |p| - 1]); }
      } else {
        assert s'[j] == Visit(y, cs[j - |p| - 1]);
        if i > |p| { assert s'[i] == Visit(y, cs[i - |p| - 1]); }
      }
    }
  }

  /** Carries a marker's coverage past a visit popped above it. */
  lemma CoverageBelow(g: map<string, set<string>>, p: seq<Entry>, x: string, y: string, rest: seq<Entry>,
                      j: nat, z: string)
    requires j < |p| && Pending(g, (p + [Visit(x, y)])[j + 1..], z)
    ensures Pending(g, (p + rest)[j + 1..], z) || ReachStar(g, y, z)
  {
    var s := p + [Visit(x, y)];
    var i :| 0 <= i < |s[j + 1..]| && s[j + 1..][i].Visit? && ReachStar(g, s[j + 1..][i].imported, z);
    if j + 1 + i < |p| {
      assert (p + rest)[j + 1..][i] == s[j + 1..][i];
    } else {
      assert s[j + 1..][i] == Visit(x, y);
    }
  }

  lemma VisitExactKnown(g: map<string, set<string>>, data: ImportMap, p: seq<Entry>, x: string, y: string,
                        trans: map<string, Closure>)
    requires GraphOf(g, data) && InvExact(g, data, p + [Visit(x, y)], trans)
    requires y in data && data[y].closure.Some?
    ensures var cl := data[y].closure.value;
      InvExact(g, data, p + [Marker(y)],
               MergeAll(Touch(MergeAll(trans, {y}, false), y), cl.transitive + data[y].direct, cl.isCircular))
  {
    var s := p + [Visit(x, y)];
    var s' := p + [Marker(y)];
    var cl := data[y].closure.value;
    var trans' := MergeAll(Touch(MergeAll(trans, {y}, false), y), cl.transitive + data[y].direct, cl.isCircular);
    forall i | 0 <= i < |p| ensures p[i] == s[i] && p[i] == s'[i] { }
    assert s'[|p|] == Marker(y);
    forall z | Reaches(g, y, z) ensures z in cl.transitive + data[y].direct { }
    forall j, z | 0 <= j < |s'| && s'[j].Marker? && Reaches(g, s'[j].mod, z)
      ensures z in trans'[s'[j].mod].transitive || Pending(g, s'[j + 1..], z)
    {
      if j < |p| && z !in trans[s'[j].mod].transitive {
        assert s[j] == s'[j];
        CoverageBelow(g, p, x, y, [Marker(y)], j, z);
      }
    }
  }

  lemma VisitExactLeaf(g: map<string, set<string>>, data: ImportMap, p: seq<Entry>, x: string, y: string,
                       trans: map<string, Closure>)
    requires GraphOf(g, data) && InvExact(g, data, p + [Visit(x, y)], trans) && y !in data
    ensures InvExact(g, data, p + [Marker(y)], Touch(MergeAll(trans, {y}, false), y))
  {
    var s := p + [Visit(x, y)];
    var s' := p + [Marker(y)];
    var trans' := Touch(MergeAll(trans, {y}, false), y);
    forall i | 0 <= i < |p| ensures p[i] == s[i] && p[i] == s'[i] { }
    assert s'[|p|] == Marker(y);
    forall z ensures !Reaches(g, y, z) { LeafReachesNothing(g, y, z); }
    forall j, z | 0 <= j < |s'| && s'[j].Marker? && Reaches(g, s'[j].mod, z)
      ensures z in trans'[s'[j].mod].transitive || Pending(g, s'[j + 1..], z)
    {
      if j < |p| && z !in trans[s'[j].mod].transitive {
        assert s[j] == s'[j];
        CoverageBelow(g, p, x, y, [Marker(y)], j, z);
      }
    }
  }

  /** What the target of a descending visit reaches is pending above any
      marker at or below the target's own. */
  lemma ExpandPending(g: map<string, set<string>>, p: seq<Entry>, y: string, cs: seq<string>, j: nat, z: string)
    requires j <= |p| && y in g && Reaches(g, y, z) && forall c :: c in cs <==> c in g[y]
    ensures Pending(g, (p + [Marker(y)] + Visits(y, cs))[j + 1..], z)
  {
    var s' := p + [Marker(y)] + Visits(y, cs);
    ReachesFirstStep(g, y, z);
    var c :| c in g[y] && (c == z || Reaches(g, c, z));
    var i :| 0 <= i < |cs| && cs[i] == c;
    assert s'[|p| + 1 + i] == Visit(y, c);
    assert s'[j + 1..][|p| - j + i] == Visit(y, c);
  }

  lemma VisitExactExpand(g: map<string, set<string>>, data: ImportMap, p: seq<Entry>, x: string, y: string,
                         trans: map<string, Closure>, cs: seq<string>)
    requires GraphOf(g, data) && InvExact(g, data, p + [Visit(x, y)], trans) && y in data
    requires forall c :: c in cs <==> c in data[y].direct
    ensures InvExact(g, data, p + [Marker(y)] + Visits(y, cs), Touch(MergeAll(trans, {y}, false), y))
  {
    ExpandCoverage(g, data, p, x, y, trans, cs);
  }

  lemma ExpandMarkersTracked(p: seq<Entry>, x: string, y: string, trans: map<string, Closure>, cs: seq<string>)
    requires forall i :: 0 <= i < |p + [Visit(x, y)]| && (p + [Visit(x, y)])[i].Marker? ==> (p + [Visit(x, y)])[i].mod in trans
    ensures var s' := p + [Marker(y)] + Visits(y, cs);
      forall i :: 0 <= i < |s'| && s'[i].Marker? ==> s'[i].mod in Touch(MergeAll(trans, {y}, false), y)
  {
    var s := p + [Visit(x, y)];
    var s' := p + [Marker(y)] + Visits(y, cs);
    forall i | |p| < i < |s'| ensures s'[i] == Visit(y, cs[i - |p| - 1]) { }
    forall i | 0 <= i < |s'| && s'[i].Marker? ensures s'[i].mod in Touch(MergeAll(trans, {y}, false), y) {
      if i < |p| {
        assert s'[i] == s[i];
      }
    }
  }

  lemma ExpandCoverage(g: map<string, set<string>>, data: ImportMap, p: seq<Entry>, x: string, y: string,
                       trans: map<string, Closure>, cs: seq<string>)
    requires GraphOf(g, data) && y in data && forall c :: c in cs <==> c in data[y].direct
    requires forall i :: 0 <= i < |p + [Visit(x, y)]| && (p + [Visit(x, y)])[i].Marker? ==> (p + [Visit(x, y)])[i].mod in trans
    requires forall j, z :: 0 <= j < |p + [Visit(x, y)]| && (p + [Visit(x, y)])[j].Marker? && Reaches(g, (p + [Visit(x, y)])[j].mod, z) ==>
      z in trans[(p + [Visit(x, y)])[j].mod].transitive || Pending(g, (p + [Visit(x, y)])[j + 1..], z)
    ensures var s' := p + [Marker(y)] + Visits(y, cs);
      var trans' := Touch(MergeAll(trans, {y}, false), y);
      && (forall i :: 0 <= i < |s'| && s'[i].Marker? ==> s'[i].mod in trans')
      && forall j, z :: 0 <= j < |s'| && s'[j].Marker? && Reaches(g, s'[j].mod, z) ==>
        z in trans'[s'[j].mod].transitive || Pending(g, s'[j + 1..], z)
  {
    ExpandMarkersTracked(p, x, y, trans, cs);
    var s := p + [Visit(x, y)];
    var s' := p + [Marker(y)] + Visits(y, cs);
    var trans' := Touch(MergeAll(trans, {y}, false), y);
    forall i | |p| < i < |s'| ensures s'[i] == Visit(y, cs[i - |p| - 1]) { }
    forall j, z | 0 <= j < |s'| && s'[j].Marker? && Reaches(g, s'[j].mod, z)
      ensures z in trans'[s'[j].mod].transitive || Pending(g, s'[j + 1..], z)
    {
      if j == |p| {
        ExpandPending(g, p, y, cs, j, z);
      } else if j < |p| {
        assert s[j] == s'[j] && p[j] == s[j];
        ExpandCoverageBelow(g, p, x, y, cs, j, z, trans[p[j].mod].transitive);
      }
    }
  }

  lemma ExpandCoverageBelow(g: map<string, set<string>>, p: seq<Entry>, x: string, y: string, cs: seq<string>,
                            j: nat, z: string, collected: set<string>)
    requires j < |p| && y in g && forall c :: c in cs <==> c in g[y]
    requires z in collected || Pending(g, (p + [Visit(x, y)])[j + 1..], z)
    ensures z in collected + {y} || Pending(g, (p + [Marker(y)] + Visits(y, cs))[j + 1..], z)
  {
    var s' := p + [Marker(y)] + Visits(y, cs);
    if z !in collected {
      CoverageBelow(g, p, x, y, [Marker(y)] + Visits(y, cs), j, z);
      assert p + ([Marker(y)] + Visits(y, cs)) == s';
      if z != y && !Pending(g, s'[j + 1..], z) {
        ExpandPending(g, p, y, cs, j, z);
      }
    }
  }

  // ---------------------------------------------------------------------
  // When every direct import of the start already has a stored closure

  /** What a module can take over from the stored entries of its direct
      imports: their own direct imports and their stored closures. */
  function Inherited(data: ImportMap, m: string): (r: set<string>)
    requires m in data
    ensures forall y, z ::
      (y in data[m].direct && y in data && data[y].closure.Some? &&
       z in data[y].direct + data[y].closure.value.transitive) ==> z in r
    ensures forall z :: z in r ==>
      exists y :: (y in data[m].direct && y in data && data[y].closure.Some? &&
                   z in data[y].direct + data[y].closure.value.transitive)
  {
    set y, z | y in data[m].direct && y in data && data[y].closure.Some? &&
      z in data[y].direct + data[y].closure.value.transitive :: z
  }

  /** What the collection of a module other than the start may hold. */
  function Offered(data: ImportMap, k: string): set<string> {
    if k in data && data[k].closure.Some? then data[k].direct + data[k].closure.value.transitive else {}
  }

  /** The start does not import itself, and each of its direct imports that
      the map lists has a stored closure. */
  ghost predicate ShallowStart(g: map<string, set<string>>, initial: string, data0: ImportMap) {
    && GraphOf(g, data0) && initial in data0
    && initial !in g[initial]
    && forall y :: y in g[initial] && y in data0 ==> data0[y].closure.Some?
  }

  /** Nothing is ever expanded below the start: the stack holds the start's
      marker, visits from the start and at most one marker of a direct import
      on top; stored closures of the direct imports only shrink; and the
      collections stay within what the stored entries offer. */
  ghost predicate InvShallow(c: Context, data: ImportMap, stack: seq<Entry>, trans: map<string, Closure>) {
    && c.initial in c.data0
    && (forall i :: 0 < i < |stack| ==>
          (stack[i].Visit? && stack[i].importer == c.initial) ||
          (i == |stack| - 1 && stack[i].Marker? && stack[i].mod in c.data0[c.initial].direct))
    && (forall y :: y in c.data0[c.initial].direct && y in data && y in c.data0 ==>
          && data[y].closure.Some? && c.data0[y].closure.Some?
          && data[y].closure.value.transitive <= c.data0[y].closure.value.transitive)
    && (forall k :: k in trans && k != c.initial ==>
          k in c.data0[c.initial].direct && trans[k].transitive <= Offered(c.data0, k))
    && (c.initial in trans ==>
          trans[c.initial].transitive <= c.data0[c.initial].direct + Inherited(c.data0, c.initial))
    && (stack == [] ==>
          && c.initial in data && data[c.initial].closure.Some?
          && data[c.initial].closure.value.transitive <= Inherited(c.data0, c.initial) - c.data0[c.initial].direct)
  }

  lemma ShallowInitial(c: Context, imports: seq<string>)
    requires ShallowStart(c.g, c.initial, c.data0)
    ensures InvShallow(c, c.data0, [Marker(c.initial)] + Visits(c.initial, imports), map[c.initial := Closure({}, false)])
  {
    var s := [Marker(c.initial)] + Visits(c.initial, imports);
    forall i | 0 < i < |s| ensures s[i] == Visit(c.initial, imports[i - 1]) { }
  }

  lemma ShallowMarker(c: Context, data: ImportMap, s: seq<Entry>, m: string, trans: map<string, Closure>)
    requires ShallowStart(c.g, c.initial, c.data0) && GraphOf(c.g, data) && WellFormed(c.g, c.initial, s)
    requires InvShallow(c, data, s, trans) && s != [] && s[|s| - 1] == Marker(m)
    ensures InvShallow(c, WriteClosure(data, m, Popped(trans, m)), s[..|s| - 1], trans - {m})
  {
    if |s| == 1 {
      BottomIsInitial(c.g, c.initial, s);
      ShallowPopStart(c, data, s, trans);
    } else {
      ShallowPopInner(c, data, s, m, trans);
    }
  }

  /** Popping the start's own marker stores the start's collection, which
      is bounded by what its direct imports' entries list. */
  lemma ShallowPopStart(c: Context, data: ImportMap, s: seq<Entry>, trans: map<string, Closure>)
    requires ShallowStart(c.g, c.initial, c.data0) && GraphOf(c.g, data)
    requires InvShallow(c, data, s, trans) && s == [Marker(c.initial)]
    ensures InvShallow(c, WriteClosure(data, c.initial, Popped(trans, c.initial)), s[..|s| - 1], trans - {c.initial})
  {
    var m := c.initial;
    var data' := WriteClosure(data, m, Popped(trans, m));
    assert s[..|s| - 1] == [];
    assert m in data && data[m].direct == c.data0[m].direct;
    forall y | y in c.data0[c.initial].direct && y in data' && y in c.data0
      ensures data'[y].closure.Some? && data'[y].closure.value.transitive <= c.data0[y].closure.value.transitive
    {
      assert y != m;
    }
  }

  /** Popping the marker of one of the start's direct imports stores a
      collection bounded by that import's stored entry. */
  lemma ShallowPopInner(c: Context, data: ImportMap, s: seq<Entry>, m: string, trans: map<string, Closure>)
    requires ShallowStart(c.g, c.initial, c.data0) && GraphOf(c.g, data)
    requires InvShallow(c, data, s, trans) && |s| > 1 && s[|s| - 1] == Marker(m)
    ensures InvShallow(c, WriteClosure(data, m, Popped(trans, m)), s[..|s| - 1], trans - {m})
  {
    var p := s[..|s| - 1];
    var data' := WriteClosure(data, m, Popped(trans, m));
    assert m in c.data0[c.initial].direct && m != c.initial;
    forall i | 0 < i < |p| ensures p[i].Visit? && p[i].importer == c.initial {
      assert p[i] == s[i];
    }
    forall y | y in c.data0[c.initial].direct && y in data' && y in c.data0
      ensures data'[y].closure.Some? && data'[y].closure.value.transitive <= c.data0[y].closure.value.transitive
    {
      if y == m && m in trans {
        assert data[m].direct == c.data0[m].direct;
        assert trans[m].transitive <= Offered(c.data0, m);
      }
    }
  }

  /** What a visit on top tells: it leaves the start for one of its direct
      imports, and only the start is collecting. */
  lemma ShallowVisit(c: Context, data: ImportMap, p: seq<Entry>, x: string, y: string, trans: map<string, Closure>)
    requires ShallowStart(c.g, c.initial, c.data0) && WellFormed(c.g, c.initial, p + [Visit(x, y)])
    requires TransMarked(trans, p + [Visit(x, y)]) && InvShallow(c, data, p + [Visit(x, y)], trans)
    ensures x == c.initial && y in c.data0[c.initial].direct && y != c.initial
    ensures trans.Keys <= {c.initial}
    ensures forall i :: 0 < i < |p + [Marker(y)]| ==>
      (p + [Marker(y)])[i] == Marker(y) || ((p + [Marker(y)])[i].Visit? && (p + [Marker(y)])[i].importer == c.initial)
    ensures forall i :: 0 < i < |p + [Marker(y)]| - 1 ==> (p + [Marker(y)])[i].Visit?
  {
    var s := p + [Visit(x, y)];
    BottomIsInitial(c.g, c.initial, s);
    VisitShape(c.g, c.initial, p, x, y);
    assert |p| > 0 && s[|p|] == Visit(x, y);
    forall k | k in trans ensures k == c.initial {
      var i :| 0 <= i < |s| && s[i] == Marker(k);
      assert i == 0;
    }
    forall i | 0 < i < |p| ensures p[i] == s[i] && s[i].Visit? { }
  }

  /** The shape and closure parts after a visit that pushes only its
      marker. */
  lemma ShallowPushMarker(c: Context, data: ImportMap, p: seq<Entry>, x: string, y: string,
                          trans: map<string, Closure>, trans': map<string, Closure>)
    requires ShallowStart(c.g, c.initial, c.data0) && WellFormed(c.g, c.initial, p + [Visit(x, y)])
    requires TransMarked(trans, p + [Visit(x, y)]) && InvShallow(c, data, p + [Visit(x, y)], trans)
    requires forall k :: k in trans' && k != c.initial ==> k == y && trans'[k].transitive <= Offered(c.data0, k)
    requires c.initial in trans' ==>
      trans'[c.initial].transitive <= c.data0[c.initial].direct + Inherited(c.data0, c.initial)
    ensures InvShallow(c, data, p + [Marker(y)], trans')
  {
    ShallowVisit(c, data, p, x, y, trans);
  }

  lemma ShallowSeen(c: Context, data: ImportMap, p: seq<Entry>, x: string, y: string, trans: map<string, Closure>)
    requires ShallowStart(c.g, c.initial, c.data0) && WellFormed(c.g, c.initial, p + [Visit(x, y)])
    requires TransMarked(trans, p + [Visit(x, y)]) && InvShallow(c, data, p + [Visit(x, y)], trans)
    ensures InvShallow(c, data, p + [Marker(y)], MergeAll(MergeAll(trans, {y}, false), {}, true))
  {
    ShallowVisit(c, data, p, x, y, trans);
    ShallowPushMarker(c, data, p, x, y, trans, MergeAll(MergeAll(trans, {y}, false), {}, true));
  }

  lemma ShallowKnown(c: Context, data: ImportMap, p: seq<Entry>, x: string, y: string, trans: map<string, Closure>)
    requires ShallowStart(c.g, c.initial, c.data0) && GraphOf(c.g, data) && WellFormed(c.g, c.initial, p + [Visit(x, y)])
    requires TransMarked(trans, p + [Visit(x, y)]) && InvShallow(c, data, p + [Visit(x, y)], trans)
    requires y in data && data[y].closure.Some?
    ensures var cl := data[y].closure.value;
      InvShallow(c, data, p + [Marker(y)],
                 MergeAll(Touch(MergeAll(trans, {y}, false), y), cl.transitive + data[y].direct, cl.isCircular))
  {
    ShallowVisit(c, data, p, x, y, trans);
    var cl := data[y].closure.value;
    var extra := cl.transitive + data[y].direct;
    var trans' := MergeAll(Touch(MergeAll(trans, {y}, false), y), extra, cl.isCircular);
    assert extra <= Offered(c.data0, y);
    assert extra <= Inherited(c.data0, c.initial);
    ShallowPushMarker(c, data, p, x, y, trans, trans');
  }

  lemma ShallowLeaf(c: Context, data: ImportMap, p: seq<Entry>, x: string, y: string, trans: map<string, Closure>)
    requires ShallowStart(c.g, c.initial, c.data0) && WellFormed(c.g, c.initial, p + [Visit(x, y)])
    requires TransMarked(trans, p + [Visit(x, y)]) && InvShallow(c, data, p + [Visit(x, y)], trans)
    ensures InvShallow(c, data, p + [Marker(y)], Touch(MergeAll(trans, {y}, false), y))
  {
    ShallowVisit(c, data, p, x, y, trans);
    ShallowPushMarker(c, data, p, x, y, trans, Touch(MergeAll(trans, {y}, false), y));
  }

  /** A visit from the start never finds a listed module without a closure. */
  lemma ShallowNoExpand(c: Context, data: ImportMap, p: seq<Entry>, x: string, y: string, trans: map<string, Closure>)
    requires ShallowStart(c.g, c.initial, c.data0) && GraphOf(c.g, data) && WellFormed(c.g, c.initial, p + [Visit(x, y)])
    requires TransMarked(trans, p + [Visit(x, y)]) && InvShallow(c, data, p + [Visit(x, y)], trans)
    requires y in data
    ensures data[y].closure.Some?
  {
    ShallowVisit(c, data, p, x, y, trans);
  }

  // ---------------------------------------------------------------------
  // The whole invariant, and one lemma per branch of the loop

  /** What the expansion works against: the graph, the initial module, the
      map it started from, and which of its guarantees the map started with. */
  datatype Context = Context(g: map<string, set<string>>, initial: string, data0: ImportMap,
                             sound: bool, disjoint: bool, acyclic: bool, exact: bool, shallow: bool)

  ghost predicate ContextOK(c: Context) {
    && c.initial in c.data0
    && (c.acyclic ==> Acyclic(c.g))
    && (c.exact ==> Acyclic(c.g) && c.acyclic && c.sound)
    && (c.shallow ==> ShallowStart(c.g, c.initial, c.data0))
  }

  ghost predicate Invariant(c: Context, data: ImportMap, stack: seq<Entry>, seen: set<(string, string)>,
                            trans: map<string, Closure>, expanded: set<string>)
  {
    && GraphOf(c.g, data)
    && WellFormed(c.g, c.initial, stack)
    && TransMarked(trans, stack)
    && (c.sound ==> ClosuresSound(c.g, data) && TransSound(c.g, trans))
    && (c.disjoint ==> Disjoint(data))
    && seen <= Edges(c.g)
    && Untouched(c.g, c.initial, c.data0, data)
    && (stack == [] ==> c.initial in data && data[c.initial].closure.Some?)
    && (c.acyclic ==> InvAcyclic(data, stack, seen, expanded) && FlagsClear(trans) && NoCircularFlags(data))
    && (c.exact ==> InvExact(c.g, data, stack, trans))
    && (c.shallow ==> InvShallow(c, data, stack, trans))
  }

  lemma MarkerStep(c: Context, data: ImportMap, s: seq<Entry>, m: string, seen: set<(string, string)>,
                   trans: map<string, Closure>, expanded: set<string>)
    requires ContextOK(c) && Invariant(c, data, s, seen, trans, expanded)
    requires s != [] && s[|s| - 1] == Marker(m)
    ensures Invariant(c, WriteClosure(data, m, Popped(trans, m)), s[..|s| - 1], seen, trans - {m}, expanded)
    ensures Weight(s[..|s| - 1]) < Weight(s)
  {
    MarkerShape(c, data, s, m, trans);
    MarkerSound(c, data, m, trans);
    MarkerExtra(c, data, s, m, seen, trans, expanded);
  }

  /** A marker's pop keeps the shape of the stack and of the map. */
  lemma MarkerShape(c: Context, data: ImportMap, s: seq<Entry>, m: string, trans: map<string, Closure>)
    requires GraphOf(c.g, data) && WellFormed(c.g, c.initial, s) && TransMarked(trans, s)
    requires Untouched(c.g, c.initial, c.data0, data) && c.initial in c.data0
    requires s != [] && s[|s| - 1] == Marker(m)
    ensures var data', p := WriteClosure(data, m, Popped(trans, m)), s[..|s| - 1];
      && GraphOf(c.g, data')
      && WellFormed(c.g, c.initial, p)
      && TransMarked(trans - {m}, p)
      && Untouched(c.g, c.initial, c.data0, data')
      && (p == [] ==> c.initial in data' && data'[c.initial].closure.Some?)
    ensures Weight(s[..|s| - 1]) < Weight(s)
  {
    var p := s[..|s| - 1];
    assert s == p + [Marker(m)];
    var pc := Popped(trans, m);
    WeightSnoc(p, Marker(m));
    WellFormedSnoc(c.g, c.initial, p, Marker(m));
    PopUntouched(c.g, c.initial, c.data0, data, p, m, pc);
    PopTransMarked(trans, p, m);
    WriteKeeps(c.g, data, m, pc);
  }

  /** A marker's pop keeps soundness and disjointness on every graph. */
  lemma MarkerSound(c: Context, data: ImportMap, m: string, trans: map<string, Closure>)
    requires GraphOf(c.g, data)
    requires c.sound ==> ClosuresSound(c.g, data) && TransSound(c.g, trans)
    requires c.disjoint ==> Disjoint(data)
    ensures var data' := WriteClosure(data, m, Popped(trans, m));
      && (c.sound ==> ClosuresSound(c.g, data') && TransSound(c.g, trans - {m}))
      && (c.disjoint ==> Disjoint(data'))
  {
    WriteKeeps(c.g, data, m, Popped(trans, m));
    if c.sound { PopSound(c.g, data, trans, m); }
  }

  /** A marker's pop keeps the parts of the invariant for acyclic graphs and
      exact closures. */
  lemma MarkerExtra(c: Context, data: ImportMap, s: seq<Entry>, m: string, seen: set<(string, string)>,
                    trans: map<string, Closure>, expanded: set<string>)
    requires ContextOK(c) && Invariant(c, data, s, seen, trans, expanded)
    requires s != [] && s[|s| - 1] == Marker(m)
    ensures var data', p := WriteClosure(data, m, Popped(trans, m)), s[..|s| - 1];
      && (c.acyclic ==> InvAcyclic(data', p, seen, expanded) && FlagsClear(trans - {m}) && NoCircularFlags(data'))
      && (c.exact ==> InvExact(c.g, data', p, trans - {m}))
      && (c.shallow ==> InvShallow(c, data', p, trans - {m}))
  {
    var p := s[..|s| - 1];
    assert s == p + [Marker(m)];
    var pc := Popped(trans, m);
    if c.acyclic { PopAcyclic(data, p, m, seen, expanded, pc); }
    if c.exact { PopExact(c.g, c.initial, data, p, m, trans); }
    if c.shallow { ShallowMarker(c, data, s, m, trans); }
  }

  /** The pieces of the invariant that a repeated visit changes. */
  lemma SeenParts(g: map<string, set<string>>, initial: string, p: seq<Entry>, x: string, y: string,
                  trans: map<string, Closure>)
    requires WellFormed(g, initial, p + [Visit(x, y)]) && TransMarked(trans, p + [Visit(x, y)])
    ensures WellFormed(g, initial, p + [Marker(y)])
    ensures TransMarked(MergeAll(MergeAll(trans, {y}, false), {}, true), p + [Marker(y)])
    ensures TransSound(g, trans) ==> TransSound(g, MergeAll(MergeAll(trans, {y}, false), {}, true))
    ensures Weight(p + [Marker(y)]) < Weight(p + [Visit(x, y)])
  {
    var trans1 := MergeAll(trans, {y}, false);
    WeightSnoc(p, Visit(x, y));
    WeightSnoc(p, Marker(y));
    VisitShape(g, initial, p, x, y);
    CollectorsReach(g, initial, p, x, y, trans);
    if TransSound(g, trans) {
      MergeSound(g, trans, {y}, false);
      MergeSound(g, trans1, {}, true);
    }
    VisitTransMarked(trans, p, x, y, MergeAll(trans1, {}, true), []);
    assert p + [Marker(y)] + [] == p + [Marker(y)];
  }

  lemma SeenStep(c: Context, data: ImportMap, s: seq<Entry>, x: string, y: string, seen: set<(string, string)>,
                 trans: map<string, Closure>, expanded: set<string>)
    requires ContextOK(c) && Invariant(c, data, s, seen, trans, expanded)
    requires s != [] && s[|s| - 1] == Visit(x, y)
    requires (x, y) in seen
    ensures Invariant(c, data, s[..|s| - 1] + [Marker(y)], seen, MergeAll(MergeAll(trans, {y}, false), {}, true), expanded)
    ensures Weight(s[..|s| - 1] + [Marker(y)]) < Weight(s)
  {
    var p := s[..|s| - 1];
    assert s == p + [Visit(x, y)];
    if c.acyclic {
      SeenMeansCycle(data, p, x, y, seen, expanded);
      assert false;
    }
    if c.shallow { ShallowSeen(c, data, p, x, y, trans); }
    SeenParts(c.g, c.initial, p, x, y, trans);
  }

  /** The part shared by every fresh visit. */
  lemma FreshVisit(c: Context, data: ImportMap, p: seq<Entry>, x: string, y: string, seen: set<(string, string)>,
                   trans: map<string, Closure>, expanded: set<string>)
    requires ContextOK(c) && Invariant(c, data, p + [Visit(x, y)], seen, trans, expanded)
    requires (x, y) !in seen
    ensures |Edges(c.g) - (seen + {(x, y)})| < |Edges(c.g) - seen|
    ensures seen + {(x, y)} <= Edges(c.g)
    ensures WellFormed(c.g, c.initial, p + [Marker(y)]) && LastMarker(p + [Marker(y)]) == Some(y)
    ensures forall k :: k in Touch(MergeAll(trans, {y}, false), y) ==> k == y || Reaches(c.g, k, y)
    ensures c.sound ==> TransSound(c.g, Touch(MergeAll(trans, {y}, false), y))
    ensures c.acyclic ==> FlagsClear(Touch(MergeAll(trans, {y}, false), y))
  {
    VisitShape(c.g, c.initial, p, x, y);
    CollectorsReach(c.g, c.initial, p, x, y, trans);
    SmallerSet(Edges(c.g), seen, (x, y));
    if c.sound { MergeSound(c.g, trans, {y}, false); }
    if c.acyclic { MergeFlags(trans, {y}, false); }
    TouchKeeps(c.g, MergeAll(trans, {y}, false), y);
  }

  lemma KnownStep(c: Context, data: ImportMap, s: seq<Entry>, x: string, y: string, seen: set<(string, string)>,
                  trans: map<string, Closure>, expanded: set<string>)
    requires ContextOK(c) && Invariant(c, data, s, seen, trans, expanded)
    requires s != [] && s[|s| - 1] == Visit(x, y)
    requires (x, y) !in seen && y in data && data[y].closure.Some?
    ensures var cl := data[y].closure.value;
      Invariant(c, data, s[..|s| - 1] + [Marker(y)], seen + {(x, y)},
                MergeAll(Touch(MergeAll(trans, {y}, false), y), cl.transitive + data[y].direct, cl.isCircular), expanded)
    ensures |Edges(c.g) - (seen + {(x, y)})| < |Edges(c.g) - seen|
  {
    var p := s[..|s| - 1];
    assert s == p + [Visit(x, y)];
    var cl := data[y].closure.value;
    var trans1 := Touch(MergeAll(trans, {y}, false), y);
    var extra := cl.transitive + data[y].direct;
    FreshVisit(c, data, p, x, y, seen, trans, expanded);
    if c.sound {
      KnownSound(c.g, data, trans1, y);
      MergeSound(c.g, trans1, extra, cl.isCircular);
    }
    if c.acyclic {
      VisitAcyclicStop(data, p, x, y, seen, expanded);
      MergeFlags(trans1, extra, cl.isCircular);
    }
    if c.exact { VisitExactKnown(c.g, data, p, x, y, trans); }
    if c.shallow { ShallowKnown(c, data, p, x, y, trans); }
    VisitTransMarked(trans, p, x, y, MergeAll(trans1, extra, cl.isCircular), []);
    assert p + [Marker(y)] + [] == p + [Marker(y)];
  }

  lemma LeafStep(c: Context, data: ImportMap, s: seq<Entry>, x: string, y: string, seen: set<(string, string)>,
                 trans: map<string, Closure>, expanded: set<string>)
    requires ContextOK(c) && Invariant(c, data, s, seen, trans, expanded)
    requires s != [] && s[|s| - 1] == Visit(x, y)
    requires (x, y) !in seen && y !in data
    ensures Invariant(c, data, s[..|s| - 1] + [Marker(y)], seen + {(x, y)}, Touch(MergeAll(trans, {y}, false), y), expanded)
    ensures |Edges(c.g) - (seen + {(x, y)})| < |Edges(c.g) - seen|
  {
    var p := s[..|s| - 1];
    assert s == p + [Visit(x, y)];
    FreshVisit(c, data, p, x, y, seen, trans, expanded);
    if c.acyclic { VisitAcyclicStop(data, p, x, y, seen, expanded); }
    if c.exact { VisitExactLeaf(c.g, data, p, x, y, trans); }
    if c.shallow { ShallowLeaf(c, data, p, x, y, trans); }
    VisitTransMarked(trans, p, x, y, Touch(MergeAll(trans, {y}, false), y), []);
    assert p + [Marker(y)] + [] == p + [Marker(y)];
  }

  lemma ExpandStep(c: Context, data: ImportMap, s: seq<Entry>, x: string, y: string, seen: set<(string, string)>,
                   trans: map<string, Closure>, expanded: set<string>, cs: seq<string>)
    requires ContextOK(c) && Invariant(c, data, s, seen, trans, expanded)
    requires s != [] && s[|s| - 1] == Visit(x, y)
    requires (x, y) !in seen && y in data && data[y].closure.None?
    requires forall k :: k in cs <==> k in data[y].direct
    requires forall i, j :: 0 <= i < j < |cs| ==> cs[i] != cs[j]
    ensures Invariant(c, data, s[..|s| - 1] + [Marker(y)] + Visits(y, cs), seen + {(x, y)},
                      Touch(MergeAll(trans, {y}, false), y), expanded + {y})
    ensures |Edges(c.g) - (seen + {(x, y)})| < |Edges(c.g) - seen|
  {
    var p := s[..|s| - 1];
    assert s == p + [Visit(x, y)];
    if c.shallow {
      ShallowNoExpand(c, data, p, x, y, trans);
      assert false;
    }
    FreshVisit(c, data, p, x, y, seen, trans, expanded);
    PushVisits(c.g, c.initial, p + [Marker(y)], y, cs);
    if c.acyclic {
      NotYetExpanded(c.g, c.initial, data, p, x, y, seen, expanded);
      VisitAcyclicExpand(data, p, x, y, seen, expanded, cs);
    }
    if c.exact { VisitExactExpand(c.g, data, p, x, y, trans, cs); }
    VisitTransMarked(trans, p, x, y, Touch(MergeAll(trans, {y}, false), y), Visits(y, cs));
    assert p + [Marker(y)] + Visits(y, cs) != [];
  }

  // ---------------------------------------------------------------------
  // The operations

  /**
   * Lines 105-176: the loop that pops the stack until it is empty. Started
   * in a state that keeps the invariant, it ends with a closure for the
   * starting module and with every property the context promises.
   */
  method Drain(ghost c: Context, data0: ImportMap, stack0: seq<Entry>, seen0: set<(string, string)>,
               trans0: map<string, Closure>, ghost expanded0: set<string>)
    returns (data: ImportMap)
    requires ContextOK(c) && Invariant(c, data0, stack0, seen0, trans0, expanded0)
    ensures GraphOf(c.g, data) && Untouched(c.g, c.initial, c.data0, data)
    ensures c.initial in data && data[c.initial].closure.Some?
    ensures c.sound ==> ClosuresSound(c.g, data)
    ensures c.disjoint ==> Disjoint(data)
    ensures c.acyclic ==> NoCircularFlags(data)
    ensures c.exact ==> ClosuresExact(c.g, data)
    ensures c.shallow ==> data[c.initial].closure.value.transitive <= Inherited(c.data0, c.initial) - c.data0[c.initial].direct
  {
    data := data0;
    var stack, seen, trans := stack0, seen0, trans0;
    ghost var expanded := expanded0;
    while stack != []
      invariant Invariant(c, data, stack, seen, trans, expanded)
      decreases |Edges(c.g) - seen|, Weight(stack)
    {
      data, stack, seen, trans, expanded := Pop(c, data, stack, seen, trans, expanded);
    }
  }

  /** One round of the loop of lines 127-175: pops the top of the stack and
      handles a marker (lines 131-139) or a visit (lines 141-175). The
      invariant survives, and either one more edge is seen or the stack
      gets lighter. */
  method Pop(ghost c: Context, data: ImportMap, stack: seq<Entry>, seen: set<(string, string)>,
             trans: map<string, Closure>, ghost expanded: set<string>)
    returns (data': ImportMap, stack': seq<Entry>, seen': set<(string, string)>,
             trans': map<string, Closure>, ghost expanded': set<string>)
    requires ContextOK(c) && Invariant(c, data, stack, seen, trans, expanded) && stack != []
    ensures Invariant(c, data', stack', seen', trans', expanded')
    ensures |Edges(c.g) - seen'| < |Edges(c.g) - seen| || (seen' == seen && Weight(stack') < Weight(stack))
  {
    var head := stack[|stack| - 1];
    data', seen', expanded' := data, seen, expanded;
    stack' := stack[..|stack| - 1];
    match head
    case Marker(m) =>
      MarkerStep(c, data, stack, m, seen, trans, expanded);
      var pc := Popped(trans, m);
      trans' := trans - {m};
      data' := WriteClosure(data, m, pc);
    case Visit(x, y) =>
      stack' := stack' + [Marker(y)];
      trans' := MergeAll(trans, {y}, false);
      if (x, y) in seen {
        SeenStep(c, data, stack, x, y, seen, trans, expanded);
        trans' := MergeAll(trans', {}, true);
      } else {
        seen' := seen + {(x, y)};
        trans' := Touch(trans', y);
        if y in data && data[y].closure.Some? {
          KnownStep(c, data, stack, x, y, seen, trans, expanded);
          var cl := data[y].closure.value;
          trans' := MergeAll(trans', cl.transitive + data[y].direct, cl.isCircular);
        } else if y in data {
          var children := Enumerate(data[y].direct);
          ExpandStep(c, data, stack, x, y, seen, trans, expanded, children);
          stack' := stack' + Visits(y, children);
          expanded' := expanded + {y};
        } else {
          LeafStep(c, data, stack, x, y, seen, trans, expanded);
        }
      }
  }

  /**
   * Lines 99-176: the depth-first expansion from `initial`. The result keeps
   * every direct set, gives `initial` a closure, stores only closures whose
   * modules are reachable and never direct, changes no entry that `initial`
   * does not reach, raises no circular flag on an acyclic graph, and on an
   * acyclic graph whose stored closures are exact leaves them all exact.
   * When every direct import of `initial` that the map lists already has a
   * closure, nothing below them is expanded: the closure of `initial` holds
   * only modules that their stored entries list.
   */
  method ExpandEntry(initial: string, data0: ImportMap) returns (data: ImportMap)
    requires initial in data0
    ensures SameDirect(data0, data)
    ensures data[initial].closure.Some?
    ensures ClosuresSound(Direct(data0), data0) ==> ClosuresSound(Direct(data0), data)
    ensures Disjoint(data0) ==> Disjoint(data)
    ensures forall k :: k in data && k != initial && !Reaches(Direct(data0), initial, k) ==> data[k] == data0[k]
    ensures forall k :: k in data0 && data0[k].closure.Some? ==> data[k].closure.Some?
    ensures Acyclic(Direct(data0)) && NoCircularFlags(data0) ==> NoCircularFlags(data)
    ensures Acyclic(Direct(data0)) && ClosuresExact(Direct(data0), data0) ==> ClosuresExact(Direct(data0), data)
    ensures ShallowStart(Direct(data0), initial, data0) ==>
      data[initial].closure.value.transitive <= Inherited(data0, initial) - data0[initial].direct
  {
    ghost var g := Direct(data0);
    ghost var ctx := Context(g, initial, data0, ClosuresSound(g, data0), Disjoint(data0),
                             Acyclic(g) && NoCircularFlags(data0), Acyclic(g) && ClosuresExact(g, data0),
                             ShallowStart(g, initial, data0));
    if ctx.exact { ExactIsSound(g, data0); }
    var initialImports := Enumerate(data0[initial].direct);
    var stack := [Marker(initial)] + Visits(initial, initialImports);
    var trans := map[initial := Closure({}, false)];
    InitialShape(g, initial, initialImports);
    if ctx.acyclic { InitialAcyclic(data0, initial, initialImports); }
    if ctx.exact { InitialExact(g, data0, initial, initialImports); }
    if ctx.shallow { ShallowInitial(ctx, initialImports); }
    data := Drain(ctx, data0, stack, {}, trans, {initial});
  }
}
