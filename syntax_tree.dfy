/** An abstract Python syntax tree, reduced to what the import collector
    looks at, and the breadth-first walk over it (`walk`, `walk_toplevel`,
    `type_checking_clause` in pytest_archon/collect.py). */
module SyntaxTree {

  import opened Base

  /** The test of an `if` statement: a bare name, an attribute access, or
      anything else. */
  datatype Expr =
    | Name(id: string)
    | Attribute(value: Expr, attr: string)
    | OtherExpr

  datatype Kind =
    | Import(names: seq<string>)
    | ImportFrom(source: Option<string>, names: seq<string>, level: nat)
    | If(test: Expr)
    | Other

  /** A statement or other syntax node with its child nodes in source order
      (for an `if`, the body followed by the `else` branch). */
  datatype Node = Node(kind: Kind, children: seq<Node>)

  const TypeCheckingMarker := "TYPE_CHECKING"

  /** `if TYPE_CHECKING:` or `if <something>.TYPE_CHECKING:`. This predicate
      is itself the specification the pruning walk is proved against; its
      ensures only spells out, as one equivalence, the two test shapes it
      accepts. */
  predicate TypeCheckingClause(n: Node)
    ensures TypeCheckingClause(n) <==>
      n.kind.If? &&
      (n.kind.test == Name(TypeCheckingMarker) ||
       (n.kind.test.Attribute? && n.kind.test.attr == TypeCheckingMarker))
  {
    n.kind.If? &&
    (match n.kind.test
     case Name(id) => id == TypeCheckingMarker
     case Attribute(_, attr) => attr == TypeCheckingMarker
     case OtherExpr => false)
  }

  /** The number of nodes in a tree and in a sequence of trees. */
  function Size(n: Node): nat
    decreases n, 1
  {
    1 + SizeSeq(n.children)
  }

  function SizeSeq(ns: seq<Node>): nat
    decreases ns, 0
  {
    if ns == [] then 0 else Size(ns[0]) + SizeSeq(ns[1..])
  }

  lemma {:induction false} SizeSeqAppend(a: seq<Node>, b: seq<Node>)
    ensures SizeSeq(a + b) == SizeSeq(a) + SizeSeq(b)
  {
    if a == [] {
      assert a + b == b;
    } else {
      assert (a + b)[1..] == a[1..] + b;
      SizeSeqAppend(a[1..], b);
    }
  }

  lemma SizeSeqCons(ns: seq<Node>)
    requires ns != []
    ensures SizeSeq(ns) == 1 + SizeSeq(ns[0].children) + SizeSeq(ns[1..])
  {
  }

  /** The nodes a walk yields from the queue `todo`: the head of the queue
      is yielded and its children queued at the back, unless pruning is on
      and the head is a type-checking `if`, which is dropped with everything
      below it. */
  function Bfs(todo: seq<Node>, skipTypeChecking: bool): seq<Node>
    decreases SizeSeq(todo)
  {
    if todo == [] then []
    else
      var n := todo[0];
      SizeSeqCons(todo);
      if skipTypeChecking && TypeCheckingClause(n) then Bfs(todo[1..], skipTypeChecking)
      else
        SizeSeqAppend(todo[1..], n.children);
        [n] + Bfs(todo[1..] + n.children, skipTypeChecking)
  }

  /** `walk(node, skip_type_checking)`: the nodes it yields, in order. */
  method Walk(root: Node, skipTypeChecking: bool) returns (yielded: seq<Node>)
    ensures yielded == Bfs([root], skipTypeChecking)
  {
    var todo := [root];
    yielded := [];
    while todo != []
      invariant yielded + Bfs(todo, skipTypeChecking) == Bfs([root], skipTypeChecking)
      decreases SizeSeq(todo)
    {
      var node := todo[0];
      SizeSeqCons(todo);
      todo := todo[1..];
      if !(skipTypeChecking && TypeCheckingClause(node)) {
        SizeSeqAppend(todo, node.children);
        todo := todo + node.children;
        yielded := yielded + [node];
      }
    }
  }

  /** `walk_toplevel(module)`: the statements of the module body. */
  function WalkToplevel(root: Node): seq<Node> {
    root.children
  }

  /** Reference enumeration of a tree in pre-order, with or without the
      subtrees rooted at type-checking `if`s. */
  function Subtree(n: Node, skipTypeChecking: bool): seq<Node>
    decreases n, 1
  {
    if skipTypeChecking && TypeCheckingClause(n) then []
    else [n] + Subtrees(n.children, skipTypeChecking)
  }

  function Subtrees(ns: seq<Node>, skipTypeChecking: bool): seq<Node>
    decreases ns, 0
  {
    if ns == [] then [] else Subtree(ns[0], skipTypeChecking) + Subtrees(ns[1..], skipTypeChecking)
  }

  lemma {:induction false} SubtreesAppend(a: seq<Node>, b: seq<Node>, skip: bool)
    ensures Subtrees(a + b, skip) == Subtrees(a, skip) + Subtrees(b, skip)
  {
    if a == [] {
      assert a + b == b;
    } else {
      assert (a + b)[1..] == a[1..] + b;
      SubtreesAppend(a[1..], b, skip);
    }
  }

  /** The walk yields every node of the (pruned) forest exactly as often as
      it occurs there: no node is lost and none is yielded twice. */
  lemma {:induction false} BfsYieldsEachNodeOnce(todo: seq<Node>, skip: bool)
    ensures multiset(Bfs(todo, skip)) == multiset(Subtrees(todo, skip))
    decreases SizeSeq(todo)
  {
    if todo != [] {
      var n, rest := todo[0], todo[1..];
      SizeSeqCons(todo);
      SizeSeqAppend(rest, n.children);
      if skip && TypeCheckingClause(n) {
        BfsYieldsEachNodeOnce(rest, skip);
      } else {
        BfsYieldsEachNodeOnce(rest + n.children, skip);
        SubtreesAppend(rest, n.children, skip);
      }
    }
  }

  /** With pruning off, `walk` yields each node of the tree exactly once. */
  lemma WalkVisitsEveryNode(root: Node)
    ensures multiset(Bfs([root], false)) == multiset(Subtree(root, false))
    ensures |Bfs([root], false)| == Size(root)
  {
    BfsYieldsEachNodeOnce([root], false);
    assert Subtrees([root], false) == Subtree(root, false) + Subtrees([], false);
    SubtreeSize(root);
  }

  lemma {:induction false} SubtreeSize(n: Node)
    ensures |Subtree(n, false)| == Size(n)
    decreases n, 1
  {
    SubtreesSize(n.children);
  }

  lemma {:induction false} SubtreesSize(ns: seq<Node>)
    ensures |Subtrees(ns, false)| == SizeSeq(ns)
    decreases ns, 0
  {
    if ns != [] {
      SubtreeSize(ns[0]);
      SubtreesSize(ns[1..]);
    }
  }

  lemma {:induction false} SubtreesHaveNoTypeCheckingClause(ns: seq<Node>)
    ensures forall x :: x in Subtrees(ns, true) ==> !TypeCheckingClause(x)
    decreases ns, 0
  {
    if ns != [] {
      SubtreeHasNoTypeCheckingClause(ns[0]);
      SubtreesHaveNoTypeCheckingClause(ns[1..]);
    }
  }

  lemma {:induction false} SubtreeHasNoTypeCheckingClause(n: Node)
    ensures forall x :: x in Subtree(n, true) ==> !TypeCheckingClause(x)
    decreases n, 1
  {
    SubtreesHaveNoTypeCheckingClause(n.children);
  }

  /** With pruning on, no yielded node is a type-checking `if`, and every
      yielded node is one of the pruned tree, which leaves out whole each
      subtree rooted at such an `if`. */
  lemma WalkPrunesTypeChecking(root: Node)
    ensures forall x :: x in Bfs([root], true) ==> !TypeCheckingClause(x)
    ensures multiset(Bfs([root], true)) == multiset(Subtree(root, true))
  {
    BfsYieldsEachNodeOnce([root], true);
    assert Subtrees([root], true) == Subtree(root, true) + Subtrees([], true);
    SubtreeHasNoTypeCheckingClause(root);
    forall x | x in Bfs([root], true) ensures !TypeCheckingClause(x) {
      assert x in multiset(Bfs([root], true));
    }
  }

  /** The children of each node of `level`, level by level. */
  function ChildrenOf(level: seq<Node>): seq<Node> {
    if level == [] then [] else level[0].children + ChildrenOf(level[1..])
  }

  lemma {:induction false} ChildrenOfSize(level: seq<Node>)
    ensures SizeSeq(level) == |level| + SizeSeq(ChildrenOf(level))
  {
    if level != [] {
      ChildrenOfSize(level[1..]);
      SizeSeqAppend(level[0].children, ChildrenOf(level[1..]));
    }
  }

  /** Reference level-order enumeration: a whole level, then the next. */
  function Levels(level: seq<Node>): seq<Node>
    decreases SizeSeq(level)
  {
    if level == [] then []
    else
      ChildrenOfSize(level);
      level + Levels(ChildrenOf(level))
  }

  lemma {:induction false} BfsSplit(front: seq<Node>, back: seq<Node>)
    ensures Bfs(front + back, false) == front + Bfs(back + ChildrenOf(front), false)
    decreases |front|
  {
    if front == [] {
      assert front + back == back;
      assert back + ChildrenOf(front) == back;
    } else {
      var n := front[0];
      assert (front + back)[0] == n;
      assert (front + back)[1..] + n.children == front[1..] + (back + n.children);
      BfsSplit(front[1..], back + n.children);
      assert back + n.children + ChildrenOf(front[1..]) == back + ChildrenOf(front);
      assert [n] + (front[1..] + Bfs(back + ChildrenOf(front), false))
          == front + Bfs(back + ChildrenOf(front), false);
    }
  }

  /** Without pruning, the walk's queue discipline yields the nodes in
      breadth-first (level) order. */
  lemma {:induction false} WalkIsBreadthFirst(level: seq<Node>)
    ensures Bfs(level, false) == Levels(level)
    decreases SizeSeq(level)
  {
    if level != [] {
      BfsSplit(level, []);
      assert level + [] == level;
      assert [] + ChildrenOf(level) == ChildrenOf(level);
      ChildrenOfSize(level);
      WalkIsBreadthFirst(ChildrenOf(level));
    }
  }

  /** `walk_toplevel` yields exactly the nodes the full walk yields right
      after the module itself. */
  lemma ToplevelIsFirstLevelOfWalk(root: Node)
    ensures |Bfs([root], false)| >= 1 + |WalkToplevel(root)|
    ensures Bfs([root], false)[1..1 + |root.children|] == WalkToplevel(root)
  {
    var kids := root.children;
    BfsSplit([root], []);
    assert [root] + [] == [root];
    assert [root][1..] == [];
    assert ChildrenOf([root]) == kids + ChildrenOf([]) == kids;
    assert [] + ChildrenOf([root]) == kids;
    BfsSplit(kids, []);
    assert kids + [] == kids;
    assert [] + ChildrenOf(kids) == ChildrenOf(kids);
    var rest := Bfs(ChildrenOf(kids), false);
    assert Bfs(kids, false) == kids + rest;
    assert Bfs([root], false) == [root] + (kids + rest);
    assert ([root] + (kids + rest))[1..1 + |kids|] == kids;
  }

  lemma {:induction false} PrunedSubtreeIsPart(n: Node)
    ensures multiset(Subtree(n, true)) <= multiset(Subtree(n, false))
    decreases n, 1
  {
    PrunedSubtreesArePart(n.children);
  }

  lemma {:induction false} PrunedSubtreesArePart(ns: seq<Node>)
    ensures multiset(Subtrees(ns, true)) <= multiset(Subtrees(ns, false))
    decreases ns, 0
  {
    if ns != [] {
      PrunedSubtreeIsPart(ns[0]);
      PrunedSubtreesArePart(ns[1..]);
    }
  }

  /** The pruned walk yields a part of what the full walk yields. */
  lemma PrunedWalkIsPartOfFullWalk(root: Node)
    ensures multiset(Bfs([root], true)) <= multiset(Bfs([root], false))
  {
    BfsYieldsEachNodeOnce([root], true);
    BfsYieldsEachNodeOnce([root], false);
    PrunedSubtreesArePart([root]);
  }
}
