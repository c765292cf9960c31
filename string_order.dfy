/** Python's ordering of `str` values (code point by code point, a proper
    prefix first) and `sorted` on a list of them. */
module StringOrder {

  /** `a <= b` on Python strings. */
  predicate LessEq(a: string, b: string)
    decreases |a|
  {
    a == [] || (b != [] && (a[0] < b[0] || (a[0] == b[0] && LessEq(a[1..], b[1..]))))
  }

  lemma {:induction false} LessEqRefl(a: string)
    ensures LessEq(a, a)
    decreases |a|
  {
    if a != [] { LessEqRefl(a[1..]); }
  }

  lemma {:induction false} LessEqTotal(a: string, b: string)
    ensures LessEq(a, b) || LessEq(b, a)
    decreases |a|
  {
    if a != [] && b != [] && a[0] == b[0] { LessEqTotal(a[1..], b[1..]); }
  }

  lemma {:induction false} LessEqAntisym(a: string, b: string)
    requires LessEq(a, b) && LessEq(b, a)
    ensures a == b
    decreases |a|
  {
    if a != [] {
      LessEqAntisym(a[1..], b[1..]);
      assert a == [a[0]] + a[1..] && b == [b[0]] + b[1..];
    }
  }

  lemma {:induction false} LessEqTrans(a: string, b: string, c: string)
    requires LessEq(a, b) && LessEq(b, c)
    ensures LessEq(a, c)
    decreases |a|
  {
    if a != [] && a[0] == b[0] && b[0] == c[0] { LessEqTrans(a[1..], b[1..], c[1..]); }
  }

  predicate IsSorted(xs: seq<string>) {
    forall i, j :: 0 <= i < j < |xs| ==> LessEq(xs[i], xs[j])
  }

  lemma TailSorted(xs: seq<string>)
    requires IsSorted(xs) && xs != []
    ensures IsSorted(xs[1..])
  {
    forall i, j | 0 <= i < j < |xs| - 1 ensures LessEq(xs[1..][i], xs[1..][j]) {
      assert xs[1..][i] == xs[i + 1] && xs[1..][j] == xs[j + 1];
    }
  }

  /** Places `x` before the first element it does not exceed. */
  function Insert(x: string, xs: seq<string>): (r: seq<string>)
    requires IsSorted(xs)
    ensures IsSorted(r) && multiset(r) == multiset(xs) + multiset{x}
  {
    if xs == [] then [x]
    else if LessEq(x, xs[0]) then
      assert forall j :: 0 <= j < |xs| ==> LessEq(x, xs[j]) by {
        forall j | 0 <= j < |xs| ensures LessEq(x, xs[j]) {
          if j > 0 { LessEqTrans(x, xs[0], xs[j]); }
        }
      }
      [x] + xs
    else
      var rest := Insert(x, xs[1..]);
      LessEqTotal(x, xs[0]);
      assert xs == [xs[0]] + xs[1..];
      assert forall k :: 0 <= k < |rest| ==> LessEq(xs[0], rest[k]) by {
        forall k | 0 <= k < |rest| ensures LessEq(xs[0], rest[k]) {
          assert rest[k] in multiset(rest);
          if rest[k] != x {
            assert rest[k] in multiset(xs[1..]);
            var j :| 0 <= j < |xs[1..]| && xs[1..][j] == rest[k];
            assert xs[j + 1] == rest[k];
          }
        }
      }
      [xs[0]] + rest
  }

  /** `sorted(xs)`: the elements of `xs`, each as often, in ascending order. */
  function Sorted(xs: seq<string>): (r: seq<string>)
    ensures IsSorted(r) && multiset(r) == multiset(xs)
  {
    if xs == [] then []
    else
      assert xs == xs[..|xs| - 1] + [xs[|xs| - 1]];
      Insert(xs[|xs| - 1], Sorted(xs[..|xs| - 1]))
  }

  /** Two ascending lists with the same elements are equal: the order of the
      input does not reach the output of `sorted`. */
  lemma {:induction false} SortedUnique(a: seq<string>, b: seq<string>)
    requires IsSorted(a) && IsSorted(b) && multiset(a) == multiset(b)
    ensures a == b
    decreases |a|
  {
    if a != [] {
      assert |b| == |a| by { assert |multiset(a)| == |multiset(b)|; }
      SortedHeads(a, b);
      assert a == [a[0]] + a[1..] && b == [b[0]] + b[1..];
      TailMultiset(a);
      TailMultiset(b);
      TailSorted(a);
      TailSorted(b);
      SortedUnique(a[1..], b[1..]);
    }
  }

  /** Two ascending lists with the same elements start with the same one. */
  lemma SortedHeads(a: seq<string>, b: seq<string>)
    requires IsSorted(a) && IsSorted(b) && multiset(a) == multiset(b)
    requires a != [] && b != []
    ensures a[0] == b[0]
  {
    assert a[0] in multiset(b) && b[0] in multiset(a);
    var i :| 0 <= i < |b| && b[i] == a[0];
    var j :| 0 <= j < |a| && a[j] == b[0];
    if i > 0 {
      assert LessEq(b[0], b[i]);
    } else {
      LessEqRefl(b[0]);
    }
    if j > 0 {
      assert LessEq(a[0], a[j]);
    } else {
      LessEqRefl(a[0]);
    }
    LessEqAntisym(a[0], b[0]);
  }

  lemma TailMultiset(a: seq<string>)
    requires a != []
    ensures multiset(a[1..]) == multiset(a) - multiset{a[0]}
  {
    assert a == [a[0]] + a[1..];
  }

  /** `sorted` keeps the length and the elements of its input. */
  lemma SortedSameElements(xs: seq<string>)
    ensures |Sorted(xs)| == |xs|
    ensures forall x :: x in Sorted(xs) <==> x in xs
  {
    var s := Sorted(xs);
    assert |multiset(s)| == |multiset(xs)|;
    forall x ensures x in s <==> x in xs {
      assert x in s <==> x in multiset(s);
      assert x in xs <==> x in multiset(xs);
    }
  }

  lemma SortedOfPermutation(a: seq<string>, b: seq<string>)
    requires multiset(a) == multiset(b)
    ensures Sorted(a) == Sorted(b)
  {
    SortedUnique(Sorted(a), Sorted(b));
  }
}
