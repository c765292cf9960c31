/**
 * The architecture rule of `pytest_arch/rule.py`: a builder that collects
 * glob patterns (which modules the rule is about, which of them it leaves
 * out, which imports they must have, must not have, or may have), and the
 * check that evaluates those patterns against the import map of a package.
 * The soft assertions of `pytest_check` become a sequence of assertions,
 * each with the outcome it records and the diagnostic it would print.
 */
module Rule {

  import opened Base
  import opened Glob
  import opened StringOrder
  import opened Graph
  import opened Transitive
  import opened Update
  import opened Collect

  /** What a failed soft assertion reports. */
  datatype Diagnostic =
    | NoCandidates(matchCriteria: seq<string>, excludeCriteria: seq<string>)
    | MissingRequired(rule: string, moduleName: string, pattern: string)
    | ForbiddenImports(rule: string, moduleName: string, matches: set<string>, pattern: string)

  /** One soft assertion: whether it holds, and its message. */
  datatype Assertion = Assertion(holds: bool, diagnostic: Diagnostic)

  predicate AllHold(checks: seq<Assertion>) {
    forall i :: 0 <= i < |checks| ==> checks[i].holds
  }

  // ---------------------------------------------------------------------
  // Pattern lists

  /** Some pattern of `ps` matches `k`. */
  predicate MatchesAny(k: string, ps: seq<string>)
    decreases |ps|
  {
    ps != [] && (MatchesAny(k, ps[..|ps| - 1]) || Fnmatch(k, ps[|ps| - 1]))
  }

  lemma {:induction false} MatchesAnyIff(k: string, ps: seq<string>)
    ensures MatchesAny(k, ps) <==> exists j :: 0 <= j < |ps| && Fnmatch(k, ps[j])
    decreases |ps|
  {
    if ps != [] {
      var init := ps[..|ps| - 1];
      MatchesAnyIff(k, init);
      if MatchesAny(k, init) {
        var j :| 0 <= j < |init| && Fnmatch(k, init[j]);
        assert ps[j] == init[j];
      }
      if j :| 0 <= j < |ps| && Fnmatch(k, ps[j]) {
        if j < |init| {
          assert init[j] == ps[j];
        }
      }
    }
  }

  /** How many patterns of `ps` match `k`. */
  function PatternCount(k: string, ps: seq<string>): (n: nat)
    ensures n > 0 <==> MatchesAny(k, ps)
    ensures n <= |ps|
    decreases |ps|
  {
    if ps == [] then 0
    else PatternCount(k, ps[..|ps| - 1]) + (if Fnmatch(k, ps[|ps| - 1]) then 1 else 0)
  }

  // ---------------------------------------------------------------------
  // Candidate selection, lines 87-91

  /** `[k for k in xs if fnmatch(k, p)]`: the elements of `xs` that match,
      each as often as in `xs`. */
  function Matching(xs: seq<string>, p: string): seq<string> {
    if xs == [] then [] else (if Fnmatch(xs[0], p) then [xs[0]] else []) + Matching(xs[1..], p)
  }

  lemma {:induction false} MatchingCount(xs: seq<string>, p: string, k: string)
    ensures multiset(Matching(xs, p))[k] == if Fnmatch(k, p) then multiset(xs)[k] else 0
    decreases |xs|
  {
    if xs != [] {
      assert xs == [xs[0]] + xs[1..];
      MatchingCount(xs[1..], p, k);
    }
  }

  /** `[k for k in xs if not fnmatch(k, p)]`: the elements of `xs` that do
      not match, each as often as in `xs`. */
  function NotMatching(xs: seq<string>, p: string): seq<string> {
    if xs == [] then [] else (if Fnmatch(xs[0], p) then [] else [xs[0]]) + NotMatching(xs[1..], p)
  }

  lemma {:induction false} NotMatchingCount(xs: seq<string>, p: string, k: string)
    ensures multiset(NotMatching(xs, p))[k] == if Fnmatch(k, p) then 0 else multiset(xs)[k]
    decreases |xs|
  {
    if xs != [] {
      assert xs == [xs[0]] + xs[1..];
      NotMatchingCount(xs[1..], p, k);
    }
  }

  /** Lines 88-89: for every match pattern in turn, the keys it matches. A
      key appears once for every pattern that matches it. */
  function Selected(keys: seq<string>, ms: seq<string>): seq<string>
    decreases |ms|
  {
    if ms == [] then [] else Selected(keys, ms[..|ms| - 1]) + Matching(keys, ms[|ms| - 1])
  }

  lemma {:induction false} SelectedHas(keys: seq<string>, ms: seq<string>, k: string)
    ensures multiset(Selected(keys, ms))[k] > 0 <==> k in keys && MatchesAny(k, ms)
    decreases |ms|
  {
    assert k in keys <==> multiset(keys)[k] > 0;
    if ms != [] {
      SelectedHas(keys, ms[..|ms| - 1], k);
      MatchingCount(keys, ms[|ms| - 1], k);
    }
  }

  lemma {:induction false} SelectedCount(keys: seq<string>, ms: seq<string>, k: string)
    requires Distinct(keys)
    ensures multiset(Selected(keys, ms))[k] == if k in keys then PatternCount(k, ms) else 0
    decreases |ms|
  {
    DistinctOnce(keys, k);
    if ms != [] {
      SelectedCount(keys, ms[..|ms| - 1], k);
      MatchingCount(keys, ms[|ms| - 1], k);
    }
  }

  /** Lines 90-91: what survives every exclude pattern in turn. */
  function Unexcluded(cands: seq<string>, es: seq<string>): seq<string>
    decreases |es|
  {
    if es == [] then cands else NotMatching(Unexcluded(cands, es[..|es| - 1]), es[|es| - 1])
  }

  lemma {:induction false} UnexcludedCount(cands: seq<string>, es: seq<string>, k: string)
    ensures multiset(Unexcluded(cands, es))[k] == if MatchesAny(k, es) then 0 else multiset(cands)[k]
    decreases |es|
  {
    if es != [] {
      UnexcludedCount(cands, es[..|es| - 1], k);
      NotMatchingCount(Unexcluded(cands, es[..|es| - 1]), es[|es| - 1], k);
    }
  }

  /** The candidate list of lines 87-91. */
  function Candidates(keys: seq<string>, ms: seq<string>, es: seq<string>): seq<string> {
    Unexcluded(Selected(keys, ms), es)
  }

  /** Among keys listed once each, a key occurs in the candidate list once
      per match pattern it matches, and not at all if an exclude pattern
      matches it. */
  lemma CandidateCount(keys: seq<string>, ms: seq<string>, es: seq<string>, k: string)
    requires Distinct(keys)
    ensures multiset(Candidates(keys, ms, es))[k] ==
      if MatchesAny(k, es) || k !in keys then 0 else PatternCount(k, ms)
  {
    SelectedCount(keys, ms, k);
    UnexcludedCount(Selected(keys, ms), es, k);
  }

  /** A module is a candidate exactly when it is a key that some match
      pattern matches and no exclude pattern matches: exclusion wins. */
  lemma CandidateMembership(keys: seq<string>, ms: seq<string>, es: seq<string>, k: string)
    ensures k in Candidates(keys, ms, es) <==>
      && k in keys
      && (exists i :: 0 <= i < |ms| && Fnmatch(k, ms[i]))
      && (forall j :: 0 <= j < |es| ==> !Fnmatch(k, es[j]))
  {
    MatchesAnyIff(k, ms);
    MatchesAnyIff(k, es);
    SelectedHas(keys, ms, k);
    UnexcludedCount(Selected(keys, ms), es, k);
    var c := Candidates(keys, ms, es);
    assert k in c <==> multiset(c)[k] > 0;
  }

  lemma {:induction false} DistinctOnce(xs: seq<string>, k: string)
    requires Distinct(xs)
    ensures multiset(xs)[k] == if k in xs then 1 else 0
    decreases |xs|
  {
    if xs != [] {
      assert xs == [xs[0]] + xs[1..];
      DistinctOnce(xs[1..], k);
      if k == xs[0] {
        assert k !in xs[1..];
      }
    }
  }

  /** With the keys of an import map, listed once each as `dict.keys()`
      lists them, a module is a candidate once per match pattern it
      matches, unless it is excluded. */
  lemma CandidateMultiplicity(allImports: ImportMap, keys: seq<string>, ms: seq<string>, es: seq<string>, k: string)
    requires KeyOrder(allImports, keys)
    ensures multiset(Candidates(keys, ms, es))[k] ==
      if k in allImports && !MatchesAny(k, es) then PatternCount(k, ms) else 0
  {
    CandidateCount(keys, ms, es, k);
  }

  // ---------------------------------------------------------------------
  // The candidates shown, lines 100-103

  /** The list printed for the rule: the candidates themselves, or the first
      two, `"..."` and the last when there are more than four. */
  function Shown(cands: seq<string>): (r: seq<string>)
    ensures |r| <= 4
  {
    if |cands| > 4 then cands[..2] + ["..."] + cands[|cands| - 1..] else cands
  }

  lemma ShownTruncates(cands: seq<string>)
    ensures |cands| <= 4 ==> Shown(cands) == cands
    ensures |cands| > 4 ==> Shown(cands) == [cands[0], cands[1], "...", cands[|cands| - 1]]
  {
  }

  // ---------------------------------------------------------------------
  // The imports of a candidate, lines 107-111

  /** Line 107: `direct | transitive`. */
  function ImportsOf(e: Imports): set<string>
    requires e.closure.Some?
  {
    e.direct + e.closure.value.transitive
  }

  /** Lines 109-111: the imports that no ignored pattern matches. */
  function Remaining(imports: set<string>, ignored: seq<string>): (r: set<string>)
    ensures forall x :: x in r <==> x in imports && !MatchesAny(x, ignored)
    decreases |ignored|
  {
    if ignored == [] then imports
    else
      var rest := Remaining(imports, ignored[..|ignored| - 1]);
      set x | x in rest && !Fnmatch(x, ignored[|ignored| - 1])
  }

  /** `[imp for imp in imports if fnmatch(imp, constraint)]`, as a set. */
  function MatchingSet(imports: set<string>, p: string): set<string> {
    set x | x in imports && Fnmatch(x, p)
  }

  /** An import that an ignored pattern matches never satisfies a required
      pattern nor violates a forbidden one. */
  lemma IgnoredNeverCounts(imports: set<string>, ignored: seq<string>, p: string, x: string, j: nat)
    requires j < |ignored| && Fnmatch(x, ignored[j])
    ensures x !in MatchingSet(Remaining(imports, ignored), p)
  {
    MatchesAnyIff(x, ignored);
  }

  // ---------------------------------------------------------------------
  // The assertions, lines 93-96 and 105-123

  /** Lines 113-118: one assertion per required pattern, holding exactly
      when some remaining import matches it. */
  function RequiredChecks(rule: string, moduleName: string, imports: set<string>, required: seq<string>): (r: seq<Assertion>)
    ensures |r| == |required|
    ensures forall j :: 0 <= j < |required| ==>
      r[j] == Assertion(MatchingSet(imports, required[j]) != {}, MissingRequired(rule, moduleName, required[j]))
    decreases |required|
  {
    if required == [] then []
    else
      var p := required[|required| - 1];
      RequiredChecks(rule, moduleName, imports, required[..|required| - 1])
        + [Assertion(MatchingSet(imports, p) != {}, MissingRequired(rule, moduleName, p))]
  }

  /** Lines 119-123: one assertion per forbidden pattern, holding exactly
      when no remaining import matches it, and listing all that do. */
  function ForbiddenChecks(rule: string, moduleName: string, imports: set<string>, forbidden: seq<string>): (r: seq<Assertion>)
    ensures |r| == |forbidden|
    ensures forall j :: 0 <= j < |forbidden| ==>
      var m := MatchingSet(imports, forbidden[j]);
      r[j] == Assertion(m == {}, ForbiddenImports(rule, moduleName, m, forbidden[j]))
    decreases |forbidden|
  {
    if forbidden == [] then []
    else
      var p := forbidden[|forbidden| - 1];
      var m := MatchingSet(imports, p);
      ForbiddenChecks(rule, moduleName, imports, forbidden[..|forbidden| - 1])
        + [Assertion(m == {}, ForbiddenImports(rule, moduleName, m, p))]
  }

  /** The assertions recorded for one candidate. */
  function ModuleChecks(rule: string, moduleName: string, imports: set<string>,
                        required: seq<string>, forbidden: seq<string>): seq<Assertion>
  {
    RequiredChecks(rule, moduleName, imports, required) + ForbiddenChecks(rule, moduleName, imports, forbidden)
  }

  /** The candidates' entries exist and have closures. */
  predicate Closed(allImports: ImportMap, cands: seq<string>) {
    forall i :: 0 <= i < |cands| ==> cands[i] in allImports && allImports[cands[i]].closure.Some?
  }

  /** Lines 107-123: the assertions for every candidate in turn. */
  function CandidateChecks(allImports: ImportMap, cands: seq<string>, rule: string,
                           ignored: seq<string>, required: seq<string>, forbidden: seq<string>): (r: seq<Assertion>)
    requires Closed(allImports, cands)
    ensures |r| == |cands| * (|required| + |forbidden|)
    decreases |cands|
  {
    if cands == [] then []
    else
      var c := cands[|cands| - 1];
      var init := CandidateChecks(allImports, cands[..|cands| - 1], rule, ignored, required, forbidden);
      assert |init| + |required| + |forbidden| == |cands| * (|required| + |forbidden|) by {
        var n := |cands| - 1;
        var k := |required| + |forbidden|;
        assert (n + 1) * k == n * k + k;
      }
      init + ModuleChecks(rule, c, Remaining(ImportsOf(allImports[c]), ignored), required, forbidden)
  }

  /** The assertions `check` records, in order: whether there are
      candidates, then those of every candidate in sorted order. */
  function Checks(allImports: ImportMap, keys: seq<string>, rule: string, ms: seq<string>, es: seq<string>,
                  ignored: seq<string>, required: seq<string>, forbidden: seq<string>): (r: seq<Assertion>)
    requires forall k :: k in keys ==> k in allImports
    requires AllClosed(allImports)
    ensures |r| == 1 + |Candidates(keys, ms, es)| * (|required| + |forbidden|)
  {
    var cands := Candidates(keys, ms, es);
    SortedClosed(allImports, keys, ms, es);
    [Assertion(cands != [], NoCandidates(ms, es))]
      + CandidateChecks(allImports, Sorted(cands), rule, ignored, required, forbidden)
  }

  /** Every candidate is a key. */
  lemma CandidatesAreKeys(keys: seq<string>, ms: seq<string>, es: seq<string>)
    ensures forall c :: c in Candidates(keys, ms, es) ==> c in keys
  {
    forall c | c in Candidates(keys, ms, es) ensures c in keys {
      CandidateMembership(keys, ms, es, c);
    }
  }

  lemma SortedClosed(allImports: ImportMap, keys: seq<string>, ms: seq<string>, es: seq<string>)
    requires forall k :: k in keys ==> k in allImports
    requires AllClosed(allImports)
    ensures Closed(allImports, Sorted(Candidates(keys, ms, es)))
    ensures |Sorted(Candidates(keys, ms, es))| == |Candidates(keys, ms, es)|
  {
    CandidatesAreKeys(keys, ms, es);
    SortedSameElements(Candidates(keys, ms, es));
  }

  /** A module passes the rule: every required pattern matches one of its
      remaining imports and no forbidden pattern matches any. */
  predicate Satisfies(e: Imports, ignored: seq<string>, required: seq<string>, forbidden: seq<string>)
    requires e.closure.Some?
  {
    var imports := Remaining(ImportsOf(e), ignored);
    && (forall j :: 0 <= j < |required| ==> exists x :: x in imports && Fnmatch(x, required[j]))
    && (forall j :: 0 <= j < |forbidden| ==> forall x :: x in imports ==> !Fnmatch(x, forbidden[j]))
  }

  lemma AllHoldConcat(a: seq<Assertion>, b: seq<Assertion>)
    ensures AllHold(a + b) <==> AllHold(a) && AllHold(b)
  {
    if AllHold(a + b) {
      forall i | 0 <= i < |a| ensures a[i].holds { assert (a + b)[i] == a[i]; }
      forall i | 0 <= i < |b| ensures b[i].holds { assert (a + b)[|a| + i] == b[i]; }
    }
  }

  /** All assertions of a candidate hold exactly when every required pattern
      matches a remaining import and no forbidden pattern matches any. */
  lemma ModuleChecksHold(rule: string, moduleName: string, imports: set<string>, required: seq<string>, forbidden: seq<string>)
    ensures AllHold(ModuleChecks(rule, moduleName, imports, required, forbidden)) <==>
      && (forall j :: 0 <= j < |required| ==> exists x :: x in imports && Fnmatch(x, required[j]))
      && (forall j :: 0 <= j < |forbidden| ==> forall x :: x in imports ==> !Fnmatch(x, forbidden[j]))
  {
    var rs := RequiredChecks(rule, moduleName, imports, required);
    var fs := ForbiddenChecks(rule, moduleName, imports, forbidden);
    AllHoldConcat(rs, fs);
    forall j | 0 <= j < |required| ensures rs[j].holds <==> exists x :: x in imports && Fnmatch(x, required[j]) {
      MatchingSetEmpty(imports, required[j]);
    }
    forall j | 0 <= j < |forbidden| ensures fs[j].holds <==> forall x :: x in imports ==> !Fnmatch(x, forbidden[j]) {
      MatchingSetEmpty(imports, forbidden[j]);
    }
  }

  lemma MatchingSetEmpty(imports: set<string>, p: string)
    ensures MatchingSet(imports, p) == {} <==> forall x :: x in imports ==> !Fnmatch(x, p)
  {
    if MatchingSet(imports, p) != {} {
      var x :| x in MatchingSet(imports, p);
    }
    if exists x :: x in imports && Fnmatch(x, p) {
      var x :| x in imports && Fnmatch(x, p);
      assert x in MatchingSet(imports, p);
    }
  }

  lemma {:induction false} CandidateChecksHold(allImports: ImportMap, cands: seq<string>, rule: string,
                                               ignored: seq<string>, required: seq<string>, forbidden: seq<string>)
    requires Closed(allImports, cands)
    ensures AllHold(CandidateChecks(allImports, cands, rule, ignored, required, forbidden)) <==>
      forall i :: 0 <= i < |cands| ==> Satisfies(allImports[cands[i]], ignored, required, forbidden)
    decreases |cands|
  {
    if cands != [] {
      var init := cands[..|cands| - 1];
      var c := cands[|cands| - 1];
      assert forall i :: 0 <= i < |init| ==> init[i] == cands[i];
      var head := CandidateChecks(allImports, init, rule, ignored, required, forbidden);
      var last := ModuleChecks(rule, c, Remaining(ImportsOf(allImports[c]), ignored), required, forbidden);
      assert CandidateChecks(allImports, cands, rule, ignored, required, forbidden) == head + last;
      CandidateChecksHold(allImports, init, rule, ignored, required, forbidden);
      SatisfiesIff(allImports[c], rule, c, ignored, required, forbidden);
      AllHoldConcat(head, last);
    }
  }

  lemma SatisfiesIff(e: Imports, rule: string, moduleName: string,
                     ignored: seq<string>, required: seq<string>, forbidden: seq<string>)
    requires e.closure.Some?
    ensures Satisfies(e, ignored, required, forbidden) <==>
      AllHold(ModuleChecks(rule, moduleName, Remaining(ImportsOf(e), ignored), required, forbidden))
  {
    ModuleChecksHold(rule, moduleName, Remaining(ImportsOf(e), ignored), required, forbidden);
  }

  /**
   * The rule passes (no soft assertion fails) exactly when some module is a
   * candidate and every candidate satisfies the rule.
   */
  lemma RulePasses(allImports: ImportMap, keys: seq<string>, rule: string, ms: seq<string>, es: seq<string>,
                   ignored: seq<string>, required: seq<string>, forbidden: seq<string>)
    requires forall k :: k in keys ==> k in allImports
    requires AllClosed(allImports)
    ensures AllHold(Checks(allImports, keys, rule, ms, es, ignored, required, forbidden)) <==>
      && Candidates(keys, ms, es) != []
      && forall c :: c in Candidates(keys, ms, es) ==>
           c in allImports && Satisfies(allImports[c], ignored, required, forbidden)
  {
    var cands := Candidates(keys, ms, es);
    var s := Sorted(cands);
    CandidatesAreKeys(keys, ms, es);
    SortedClosed(allImports, keys, ms, es);
    SortedSameElements(cands);
    CandidateChecksHold(allImports, s, rule, ignored, required, forbidden);
    var rest := CandidateChecks(allImports, s, rule, ignored, required, forbidden);
    var head := [Assertion(cands != [], NoCandidates(ms, es))];
    assert Checks(allImports, keys, rule, ms, es, ignored, required, forbidden) == head + rest;
    AllHoldConcat(head, rest);
    assert AllHold(head) <==> cands != [] by {
      assert head[0].holds == (cands != []);
    }
    assert (forall i :: 0 <= i < |s| ==> Satisfies(allImports[s[i]], ignored, required, forbidden)) <==>
      (forall c :: c in cands ==> c in allImports && Satisfies(allImports[c], ignored, required, forbidden)) by {
      if forall i :: 0 <= i < |s| ==> Satisfies(allImports[s[i]], ignored, required, forbidden) {
        forall c | c in cands ensures c in allImports && Satisfies(allImports[c], ignored, required, forbidden) {
          var i :| 0 <= i < |s| && s[i] == c;
        }
      }
    }
  }

  /** A failure for an empty candidate list is recorded exactly when no key
      matches a match pattern without matching an exclude pattern. */
  lemma NoCandidatesIff(allImports: ImportMap, keys: seq<string>, rule: string, ms: seq<string>, es: seq<string>,
                        ignored: seq<string>, required: seq<string>, forbidden: seq<string>)
    requires forall k :: k in keys ==> k in allImports
    requires AllClosed(allImports)
    ensures var first := Checks(allImports, keys, rule, ms, es, ignored, required, forbidden)[0];
      first.diagnostic == NoCandidates(ms, es) &&
      (!first.holds <==> forall k :: k in keys ==>
        (forall i :: 0 <= i < |ms| ==> !Fnmatch(k, ms[i])) || (exists j :: 0 <= j < |es| && Fnmatch(k, es[j])))
  {
    var cands := Candidates(keys, ms, es);
    forall k | k in keys
      ensures k in cands <==> (exists i :: 0 <= i < |ms| && Fnmatch(k, ms[i])) && (forall j :: 0 <= j < |es| ==> !Fnmatch(k, es[j]))
    {
      CandidateMembership(keys, ms, es, k);
    }
    if cands != [] {
      CandidateMembership(keys, ms, es, cands[0]);
    }
  }

  /** The assertions do not depend on the order in which the map lists its
      keys: the candidates are sorted first. */
  lemma KeyOrderIrrelevant(allImports: ImportMap, keys1: seq<string>, keys2: seq<string>, rule: string,
                           ms: seq<string>, es: seq<string>,
                           ignored: seq<string>, required: seq<string>, forbidden: seq<string>)
    requires KeyOrder(allImports, keys1) && KeyOrder(allImports, keys2)
    requires AllClosed(allImports)
    ensures Checks(allImports, keys1, rule, ms, es, ignored, required, forbidden) ==
            Checks(allImports, keys2, rule, ms, es, ignored, required, forbidden)
  {
    var c1 := Candidates(keys1, ms, es);
    var c2 := Candidates(keys2, ms, es);
    forall k ensures multiset(c1)[k] == multiset(c2)[k] {
      CandidateMultiplicity(allImports, keys1, ms, es, k);
      CandidateMultiplicity(allImports, keys2, ms, es, k);
    }
    assert multiset(c1) == multiset(c2);
    SortedOfPermutation(c1, c2);
    assert c1 != [] <==> c2 != [] by {
      assert |c1| == |multiset(c1)| && |c2| == |multiset(c2)|;
    }
  }

  // ---------------------------------------------------------------------
  // The imperative check

  /** Lines 86-91: the candidate list, built by extending and then
      refiltering a list. */
  method SelectCandidates(keys: seq<string>, ms: seq<string>, es: seq<string>) returns (candidates: seq<string>)
    ensures candidates == Candidates(keys, ms, es)
  {
    candidates := [];
    for i := 0 to |ms|
      invariant candidates == Selected(keys, ms[..i])
    {
      assert ms[..i + 1][..i] == ms[..i];
      candidates := candidates + Matching(keys, ms[i]);
    }
    assert ms[..|ms|] == ms;
    ghost var selected := candidates;
    for i := 0 to |es|
      invariant candidates == Unexcluded(selected, es[..i])
    {
      assert es[..i + 1][..i] == es[..i];
      candidates := NotMatching(candidates, es[i]);
    }
    assert es[..|es|] == es;
  }

  /** Lines 107-123 for one candidate `c`: its imports without the ignored
      ones, then one assertion per required and per forbidden pattern. */
  method CheckModule(rule: string, c: string, entry: Imports,
                     ignored: seq<string>, required: seq<string>, forbidden: seq<string>)
    returns (checks: seq<Assertion>)
    requires entry.closure.Some?
    ensures checks == ModuleChecks(rule, c, Remaining(ImportsOf(entry), ignored), required, forbidden)
  {
    var imports := entry.direct + entry.closure.value.transitive;
    for j := 0 to |ignored|
      invariant imports == Remaining(ImportsOf(entry), ignored[..j])
    {
      assert ignored[..j + 1][..j] == ignored[..j];
      imports := set x | x in imports && !Fnmatch(x, ignored[j]);
    }
    assert ignored[..|ignored|] == ignored;
    checks := [];
    for j := 0 to |required|
      invariant checks == RequiredChecks(rule, c, imports, required[..j])
    {
      assert required[..j + 1][..j] == required[..j];
      var matches := set x | x in imports && Fnmatch(x, required[j]);
      checks := checks + [Assertion(matches != {}, MissingRequired(rule, c, required[j]))];
    }
    assert required[..|required|] == required;
    ghost var req := checks;
    for j := 0 to |forbidden|
      invariant checks == req + ForbiddenChecks(rule, c, imports, forbidden[..j])
    {
      assert forbidden[..j + 1][..j] == forbidden[..j];
      var matches := set x | x in imports && Fnmatch(x, forbidden[j]);
      checks := checks + [Assertion(matches == {}, ForbiddenImports(rule, c, matches, forbidden[j]))];
    }
    assert forbidden[..|forbidden|] == forbidden;
  }

  /** Lines 107-123: the loop over the sorted candidates. */
  method CheckCandidates(allImports: ImportMap, cands: seq<string>, rule: string,
                         ignored: seq<string>, required: seq<string>, forbidden: seq<string>)
    returns (checks: seq<Assertion>)
    requires Closed(allImports, cands)
    ensures checks == CandidateChecks(allImports, cands, rule, ignored, required, forbidden)
  {
    checks := [];
    for i := 0 to |cands|
      invariant checks == CandidateChecks(allImports, cands[..i], rule, ignored, required, forbidden)
    {
      assert cands[..i + 1][..i] == cands[..i];
      var c := cands[i];
      var more := CheckModule(rule, c, allImports[c], ignored, required, forbidden);
      checks := checks + more;
    }
    assert cands[..|cands|] == cands;
  }

  /** `archrule(name, comment)`: a rule with no patterns yet. */
  method ArchRule(name: string, comment: Option<string>) returns (t: RuleTargets)
    ensures fresh(t)
    ensures t.name == name && t.comment == comment
    ensures t.matchCriteria == [] && t.excludeCriteria == []
  {
    t := new RuleTargets(name, comment);
  }

  /** `RuleTargets`: the name of a rule and the patterns selecting the
      modules it is about. */
  class RuleTargets {
    var name: string
    var comment: Option<string>
    var matchCriteria: seq<string>
    var excludeCriteria: seq<string>

    constructor(name: string, comment: Option<string>)
      ensures this.name == name && this.comment == comment
      ensures matchCriteria == [] && excludeCriteria == []
    {
      this.name := name;
      this.comment := comment;
      matchCriteria := [];
      excludeCriteria := [];
    }

    /** Lines 26-29: adds a pattern for modules the rule is about. */
    method Match(pattern: string) returns (self: RuleTargets)
      modifies this
      ensures self == this
      ensures matchCriteria == old(matchCriteria) + [pattern]
      ensures excludeCriteria == old(excludeCriteria) && name == old(name) && comment == old(comment)
    {
      matchCriteria := matchCriteria + [pattern];
      self := this;
    }

    /** Lines 31-37: adds a pattern for modules the rule leaves out. */
    method Exclude(pattern: string) returns (self: RuleTargets)
      modifies this
      ensures self == this
      ensures excludeCriteria == old(excludeCriteria) + [pattern]
      ensures matchCriteria == old(matchCriteria) && name == old(name) && comment == old(comment)
    {
      excludeCriteria := excludeCriteria + [pattern];
      self := this;
    }

    /** Lines 39-40: the constraints of this rule, none yet. */
    method Constrain() returns (c: RuleConstraints)
      ensures fresh(c) && c.targets == this
      ensures c.forbidden == [] && c.required == [] && c.ignored == []
    {
      c := new RuleConstraints(this);
    }
  }

  /** `RuleConstraints`: the patterns the imports of the selected modules
      must, must not, or may match. */
  class RuleConstraints {
    var targets: RuleTargets
    var forbidden: seq<string>
    var required: seq<string>
    var ignored: seq<string>

    constructor(targets: RuleTargets)
      ensures this.targets == targets
      ensures forbidden == [] && required == [] && ignored == []
    {
      this.targets := targets;
      forbidden := [];
      required := [];
      ignored := [];
    }

    /** Lines 50-59: forbids imports matching `pattern`. */
    method ShouldNotImport(pattern: string) returns (self: RuleConstraints)
      modifies this
      ensures self == this
      ensures forbidden == old(forbidden) + [pattern]
      ensures required == old(required) && ignored == old(ignored) && targets == old(targets)
    {
      forbidden := forbidden + [pattern];
      self := this;
    }

    /** Lines 61-70: requires an import matching `pattern`. */
    method ShouldImport(pattern: string) returns (self: RuleConstraints)
      modifies this
      ensures self == this
      ensures required == old(required) + [pattern]
      ensures forbidden == old(forbidden) && ignored == old(ignored) && targets == old(targets)
    {
      required := required + [pattern];
      self := this;
    }

    /** Lines 72-78: leaves imports matching `pattern` out of both checks. */
    method MayImport(pattern: string) returns (self: RuleConstraints)
      modifies this
      ensures self == this
      ensures ignored == old(ignored) + [pattern]
      ensures forbidden == old(forbidden) && required == old(required) && targets == old(targets)
    {
      ignored := ignored + [pattern];
      self := this;
    }

    /**
     * Lines 84-123 on an import map whose keys `dict.keys()` yields in the
     * order `keys`: the soft assertions recorded, in order, and the list of
     * candidates printed.
     */
    method Evaluate(allImports: ImportMap, keys: seq<string>) returns (checks: seq<Assertion>, shown: seq<string>)
      requires KeyOrder(allImports, keys) && AllClosed(allImports)
      ensures checks == Checks(allImports, keys, targets.name, targets.matchCriteria, targets.excludeCriteria,
                               ignored, required, forbidden)
      ensures shown == Shown(Sorted(Candidates(keys, targets.matchCriteria, targets.excludeCriteria)))
    {
      var ruleName := targets.name;
      var ms := targets.matchCriteria;
      var es := targets.excludeCriteria;
      var candidates := SelectCandidates(keys, ms, es);
      checks := [Assertion(candidates != [], NoCandidates(ms, es))];
      SortedClosed(allImports, keys, ms, es);
      candidates := Sorted(candidates);
      if |candidates| > 4 {
        shown := candidates[..2] + ["..."] + candidates[|candidates| - 1..];
      } else {
        shown := candidates;
      }
      var more := CheckCandidates(allImports, candidates, ruleName, ignored, required, forbidden);
      checks := checks + more;
    }

    /**
     * Lines 80-123: collects the import map of the package's files and
     * evaluates the rule on it. An exception of the collection ends the
     * check with that exception; otherwise the assertions and the printed
     * list are those of the collected map, which keeps the direct imports of
     * every file, closes every entry soundly with a closure disjoint from
     * its direct imports, and raises no circular flag on an acyclic graph.
     */
    method Check(files: seq<SourceFile>, package: string, w: Walker, isModule: string -> bool)
      returns (r: Result<seq<Assertion>>, shown: seq<string>)
      ensures var g := Gathered(Reads(files, package, w, isModule));
        && (g.Err? ==> r == Err(g.error))
        && (g.Ok? ==> r.Ok? && exists allImports: ImportMap, keys: seq<string> ::
              && KeyOrder(allImports, keys)
              && SameDirect(g.value, allImports)
              && AllClosed(allImports)
              && ClosuresSound(Direct(allImports), allImports)
              && Disjoint(allImports)
              && (Acyclic(Direct(allImports)) ==> NoCircularFlags(allImports))
              && r.value == Checks(allImports, keys, targets.name, targets.matchCriteria, targets.excludeCriteria,
                                   ignored, required, forbidden)
              && shown == Shown(Sorted(Candidates(keys, targets.matchCriteria, targets.excludeCriteria))))
    {
      var allImports, keys := CollectImports(files, package, w, isModule);
      if allImports.Err? {
        return Err(allImports.error), [];
      }
      var checks;
      checks, shown := Evaluate(allImports.value, keys);
      r := Ok(checks);
    }
  }
}
