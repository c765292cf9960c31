/** The import map and the direct-import graph it carries
    (`Imports` / `ImportMap` in pytest_archon/collect.py). */
module Graph {

  import opened Base

  /** `transitive` and `is_circular`, which the code always sets together. */
  datatype Closure = Closure(transitive: set<string>, isCircular: bool)

  /** One entry of the map: the direct imports and, once computed, the closure. */
  datatype Imports = Imports(direct: set<string>, closure: Option<Closure>)

  type ImportMap = map<string, Imports>

  /** The direct-import graph: each module of the map to its direct imports. */
  function Direct(data: ImportMap): (g: map<string, set<string>>)
    ensures g.Keys == data.Keys
    ensures forall k :: k in data ==> g[k] == data[k].direct
  {
    map k | k in data :: data[k].direct
  }

  /** A walk along direct-import edges. */
  ghost predicate IsPath(g: map<string, set<string>>, p: seq<string>) {
    forall i :: 0 <= i < |p| - 1 ==> p[i] in g && p[i + 1] in g[p[i]]
  }

  /** `b` is reachable from `a` by one or more direct-import edges. */
  ghost predicate Reaches(g: map<string, set<string>>, a: string, b: string) {
    exists p :: |p| >= 2 && p[0] == a && p[|p| - 1] == b && IsPath(g, p)
  }

  ghost predicate Acyclic(g: map<string, set<string>>) {
    forall a :: !Reaches(g, a, a)
  }

  lemma EdgeReaches(g: map<string, set<string>>, a: string, b: string)
    requires a in g && b in g[a]
    ensures Reaches(g, a, b)
  {
    assert IsPath(g, [a, b]);
  }

  lemma ReachesTrans(g: map<string, set<string>>, a: string, b: string, c: string)
    requires Reaches(g, a, b) && Reaches(g, b, c)
    ensures Reaches(g, a, c)
  {
    var p :| |p| >= 2 && p[0] == a && p[|p| - 1] == b && IsPath(g, p);
    var q :| |q| >= 2 && q[0] == b && q[|q| - 1] == c && IsPath(g, q);
    var r := p + q[1..];
    forall i | 0 <= i < |r| - 1 ensures r[i] in g && r[i + 1] in g[r[i]] {
      if i < |p| - 1 {
        assert r[i] == p[i] && r[i + 1] == p[i + 1];
      } else {
        assert r[i] == q[i - |p| + 1] && r[i + 1] == q[i - |p| + 2];
      }
    }
    assert IsPath(g, r);
  }

  lemma ReachesThenEdge(g: map<string, set<string>>, a: string, b: string, c: string)
    requires Reaches(g, a, b) && b in g && c in g[b]
    ensures Reaches(g, a, c)
  {
    EdgeReaches(g, b, c);
    ReachesTrans(g, a, b, c);
  }

  /** Every module reached from `a` is a direct import of `a` or reached
      from one. */
  lemma ReachesFirstStep(g: map<string, set<string>>, a: string, z: string)
    requires Reaches(g, a, z)
    ensures a in g
    ensures exists c :: c in g[a] && (c == z || Reaches(g, c, z))
  {
    var p :| |p| >= 2 && p[0] == a && p[|p| - 1] == z && IsPath(g, p);
    var c := p[1];
    assert c in g[a];
    if |p| > 2 {
      var q := p[1..];
      assert IsPath(g, q) by {
        forall i | 0 <= i < |q| - 1 ensures q[i] in g && q[i + 1] in g[q[i]] {
          assert q[i] == p[i + 1] && q[i + 1] == p[i + 2];
        }
      }
      assert Reaches(g, c, z);
    }
  }

  /** A module outside the map imports nothing the graph knows of. */
  lemma LeafReachesNothing(g: map<string, set<string>>, a: string, z: string)
    requires a !in g
    ensures !Reaches(g, a, z)
  {
    if Reaches(g, a, z) {
      ReachesFirstStep(g, a, z);
    }
  }

  /** A set that holds `a`'s direct imports and every direct import of its
      own members holds everything `a` reaches. */
  lemma ReachWithin(g: map<string, set<string>>, s: set<string>, a: string)
    requires a in g ==> g[a] <= s
    requires forall k :: k in s && k in g ==> g[k] <= s
    ensures forall z :: Reaches(g, a, z) ==> z in s
  {
    forall z | Reaches(g, a, z) ensures z in s {
      var p :| |p| >= 2 && p[0] == a && p[|p| - 1] == z && IsPath(g, p);
      PathWithin(g, s, p, |p| - 1);
    }
  }

  lemma {:induction false} PathWithin(g: map<string, set<string>>, s: set<string>, p: seq<string>, i: nat)
    requires IsPath(g, p) && 1 <= i < |p|
    requires p[0] in g ==> g[p[0]] <= s
    requires forall k :: k in s && k in g ==> g[k] <= s
    ensures p[i] in s
    decreases i
  {
    if i > 1 {
      PathWithin(g, s, p, i - 1);
    }
  }

  /** Every edge of the graph; finite since the map is. */
  function Edges(g: map<string, set<string>>): (e: set<(string, string)>)
    ensures forall a, b :: (a, b) in e <==> a in g && b in g[a]
  {
    set a, b | a in g && b in g[a] :: (a, b)
  }

  /** Every computed closure holds only modules reachable from its module,
      none of them a direct import. */
  ghost predicate ClosuresSound(g: map<string, set<string>>, data: ImportMap) {
    forall k :: k in data && data[k].closure.Some? ==>
      forall z :: z in data[k].closure.value.transitive ==> Reaches(g, k, z) && z !in data[k].direct
  }

  /** Every computed closure is exactly the modules reachable from its
      module other than its direct imports, and carries no circular flag. */
  ghost predicate ClosuresExact(g: map<string, set<string>>, data: ImportMap) {
    forall k :: k in data && data[k].closure.Some? ==>
      && !data[k].closure.value.isCircular
      && forall z :: z in data[k].closure.value.transitive <==> Reaches(g, k, z) && z !in data[k].direct
  }

  /** No computed closure carries the circular flag. */
  ghost predicate NoCircularFlags(data: ImportMap) {
    forall k :: k in data && data[k].closure.Some? ==> !data[k].closure.value.isCircular
  }

  predicate AllClosed(data: ImportMap) {
    forall k :: k in data ==> data[k].closure.Some?
  }

  /** `direct` and `transitive` never share a module. */
  predicate Disjoint(data: ImportMap) {
    forall k :: k in data && data[k].closure.Some? ==> data[k].closure.value.transitive !! data[k].direct
  }
}
