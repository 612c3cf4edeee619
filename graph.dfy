/** The structure of the expression graph: the five node kinds, their
    operands, and the depth-first listing `loop_df` builds from the root.

    Nodes live in an arena `seq<Node>` and refer to their operands by
    index. Operand objects have to exist before the operator that holds
    them is constructed, so an operand's index is always smaller than its
    consumer's: that is `WellFormed`, and it makes the graph acyclic. */
module Graph {

  /** The five node classes. A constant carries its fixed value, a
      variable its position in the input vector. */
  datatype Kind =
    | Constant(c: real)
    | Variable(location: int)
    | Mul
    | Sin
    | Sum

  /** One node: its class and its operand references, in the order
      `children()` returns them (`[left, right]` or `[expr]`). The mutable
      `value` and `grad` fields are kept beside the arena. */
  datatype Node = Node(kind: Kind, args: seq<nat>)

  /** Number of operands each class holds. */
  function Arity(k: Kind): nat {
    match k
    case Constant(_) => 0
    case Variable(_) => 0
    case Mul => 2
    case Sin => 1
    case Sum => 2
  }

  predicate IsLeaf(n: Node) {
    n.kind.Constant? || n.kind.Variable?
  }

  /** Every index in `P` names a node of the arena. */
  predicate InArena(g: seq<Node>, P: seq<nat>) {
    forall i :: 0 <= i < |P| ==> P[i] < |g|
  }

  /** Every operand was built before its consumer (hence: no cycles), and
      no node has more than two operands. */
  ghost predicate Acyclic(g: seq<Node>) {
    forall i :: 0 <= i < |g| ==>
      |g[i].args| <= 2 &&
      forall j :: 0 <= j < |g[i].args| ==> g[i].args[j] < i
  }

  /** An acyclic arena where each node holds as many operands as its class takes. */
  ghost predicate WellFormed(g: seq<Node>) {
    Acyclic(g) && forall i :: 0 <= i < |g| ==> |g[i].args| == Arity(g[i].kind)
  }

  /** What `loop_df(n, to_visit)` appends: the node itself, then the
      listing of each operand in turn. Nothing is deduplicated. */
  function PreOrder(g: seq<Node>, n: nat): (p: seq<nat>)
    requires Acyclic(g) && n < |g|
    ensures 1 <= |p| && p[0] == n
    ensures InArena(g, p)
    decreases n
  {
    var cs := g[n].args;
    if |cs| == 0 then [n]
    else if |cs| == 1 then [n] + PreOrder(g, cs[0])
    else [n] + PreOrder(g, cs[0]) + PreOrder(g, cs[1])
  }

  /** The listings of several siblings, one after another. */
  function Forest(g: seq<Node>, cs: seq<nat>): (p: seq<nat>)
    requires Acyclic(g) && InArena(g, cs)
    ensures InArena(g, p)
  {
    if cs == [] then []
    else Forest(g, cs[..|cs| - 1]) + PreOrder(g, cs[|cs| - 1])
  }

  /** The recursion of `loop_df`: visit the node, then loop over its operands. */
  lemma PreOrderUnfold(g: seq<Node>, n: nat)
    requires Acyclic(g) && n < |g|
    ensures PreOrder(g, n) == [n] + Forest(g, g[n].args)
  {
    var cs := g[n].args;
    if |cs| == 0 {
      assert cs == [];
    } else if |cs| == 1 {
      assert cs == [cs[0]];
      ForestOfOne(g, cs[0]);
    } else {
      assert cs == [cs[0], cs[1]];
      UnfoldTwo(g, n, cs[0], cs[1]);
    }
  }

  lemma UnfoldTwo(g: seq<Node>, n: nat, a: nat, b: nat)
    requires Acyclic(g) && n < |g| && a < |g| && b < |g| && g[n].args == [a, b]
    ensures PreOrder(g, n) == [n] + Forest(g, [a, b])
  {
    var A, B := PreOrder(g, a), PreOrder(g, b);
    assert PreOrder(g, n) == [n] + A + B;
    ForestOfTwo(g, a, b);
    AppendAssoc([n], A, B);
  }

  /** Listing one more sibling appends its listing. */
  lemma ForestStep(g: seq<Node>, cs: seq<nat>, j: nat)
    requires Acyclic(g) && InArena(g, cs) && j < |cs|
    ensures InArena(g, cs[..j]) && InArena(g, cs[..j + 1])
    ensures Forest(g, cs[..j + 1]) == Forest(g, cs[..j]) + PreOrder(g, cs[j])
  {
    assert cs[..j + 1][..j] == cs[..j];
  }

  lemma AppendAssoc(a: seq<nat>, b: seq<nat>, c: seq<nat>)
    ensures a + b + c == a + (b + c)
  {
  }

  lemma ForestOfOne(g: seq<Node>, a: nat)
    requires Acyclic(g) && a < |g|
    ensures Forest(g, [a]) == PreOrder(g, a)
  {
    assert [a][..0] == [];
  }

  lemma ForestOfTwo(g: seq<Node>, a: nat, b: nat)
    requires Acyclic(g) && a < |g| && b < |g|
    ensures Forest(g, [a, b]) == PreOrder(g, a) + PreOrder(g, b)
  {
    assert [a, b][..1] == [a];
    ForestOfOne(g, a);
  }

  /** Number of distinct paths from `n` down to `k` (the empty path included). */
  function PathCount(g: seq<Node>, n: nat, k: nat): nat
    requires Acyclic(g) && n < |g|
    decreases n
  {
    var cs := g[n].args;
    (if n == k then 1 else 0) +
    (if |cs| == 0 then 0
     else if |cs| == 1 then PathCount(g, cs[0], k)
     else PathCount(g, cs[0], k) + PathCount(g, cs[1], k))
  }

  /** The listing holds one occurrence of `k` per path from `n` to `k`:
      duplicates are kept, so its length is the size of the tree unfolding. */
  lemma {:induction false} OccurrencesArePaths(g: seq<Node>, n: nat, k: nat)
    requires Acyclic(g) && n < |g|
    ensures multiset(PreOrder(g, n))[k] == PathCount(g, n, k)
    decreases n
  {
    var cs := g[n].args;
    if |cs| == 1 {
      OccurrencesArePaths(g, cs[0], k);
      assert PreOrder(g, n) == [n] + PreOrder(g, cs[0]);
    } else if |cs| == 2 {
      OccurrencesArePaths(g, cs[0], k);
      OccurrencesArePaths(g, cs[1], k);
      assert PreOrder(g, n) == [n] + PreOrder(g, cs[0]) + PreOrder(g, cs[1]);
    }
  }

  /** `S` appears in `P` as the contiguous block starting at position `at`. */
  ghost predicate OccursAt(S: seq<nat>, P: seq<nat>, at: nat) {
    at + |S| <= |P| && forall i :: 0 <= i < |S| ==> P[at + i] == S[i]
  }

  lemma OccursAtTrans(S: seq<nat>, A: seq<nat>, q: nat, P: seq<nat>, off: nat)
    requires OccursAt(S, A, q) && OccursAt(A, P, off)
    ensures OccursAt(S, P, off + q)
  {
    forall i | 0 <= i < |S|
      ensures P[off + q + i] == S[i]
    {
      assert P[off + (q + i)] == A[q + i];
    }
  }

  /** The listing of a node with operands is the node, then the listing of
      its first operand, then that of its second. */
  lemma PreOrderBlocks(g: seq<Node>, n: nat)
    requires Acyclic(g) && n < |g|
    ensures |g[n].args| >= 1 ==> OccursAt(PreOrder(g, g[n].args[0]), PreOrder(g, n), 1)
    ensures |g[n].args| == 2 ==>
      OccursAt(PreOrder(g, g[n].args[1]), PreOrder(g, n), 1 + |PreOrder(g, g[n].args[0])|)
  {
    var cs := g[n].args;
    if |cs| == 1 {
      var A := PreOrder(g, cs[0]);
      assert PreOrder(g, n) == [n] + A;
      OccursInConcat([n], A);
    } else if |cs| == 2 {
      var A, B := PreOrder(g, cs[0]), PreOrder(g, cs[1]);
      assert PreOrder(g, n) == ([n] + A) + B;
      OccursInConcat([n], A);
      OccursInConcat([n] + A, B);
      OccursAtTrans(A, [n] + A, 1, ([n] + A) + B, 0);
    }
  }

  lemma OccursInConcat(A: seq<nat>, B: seq<nat>)
    ensures OccursAt(A, A + B, 0) && OccursAt(B, A + B, |A|)
  {
    assert forall i :: 0 <= i < |A| ==> (A + B)[0 + i] == A[i];
    assert forall i :: 0 <= i < |B| ==> (A + B)[|A| + i] == B[i];
  }

  /** Pre-order: every occurrence of a node in the listing is followed
      immediately by the full listing of that node (itself, then its first
      operand's listing, then its second's). */
  lemma {:induction false} SubtreeContiguous(g: seq<Node>, n: nat, p: nat)
    requires Acyclic(g) && n < |g|
    requires p < |PreOrder(g, n)|
    ensures PreOrder(g, n)[p] < |g|
    ensures OccursAt(PreOrder(g, PreOrder(g, n)[p]), PreOrder(g, n), p)
    decreases n
  {
    var P := PreOrder(g, n);
    var cs := g[n].args;
    PreOrderBlocks(g, n);
    if p == 0 {
      assert OccursAt(P, P, 0);
    } else {
      var A := PreOrder(g, cs[0]);
      if p <= |A| {
        SubtreeContiguous(g, cs[0], p - 1);
        assert P[1 + (p - 1)] == A[p - 1];
        OccursAtTrans(PreOrder(g, A[p - 1]), A, p - 1, P, 1);
      } else {
        var B := PreOrder(g, cs[1]);
        var q := p - 1 - |A|;
        SubtreeContiguous(g, cs[1], q);
        assert P[1 + |A| + q] == B[q];
        OccursAtTrans(PreOrder(g, B[q]), B, q, P, 1 + |A|);
      }
    }
  }

  /** The operands of the node at position `p` occur later in the listing
      (the first right after it, the second after the first's listing), so
      running `forward` over the reversed listing reaches the operands
      before their consumer. */
  lemma OperandsFollow(g: seq<Node>, n: nat, p: nat)
    requires Acyclic(g) && n < |g|
    requires p < |PreOrder(g, n)|
    ensures PreOrder(g, n)[p] < |g|
    ensures |g[PreOrder(g, n)[p]].args| >= 1 ==>
      p + 1 < |PreOrder(g, n)| &&
      PreOrder(g, n)[p + 1] == g[PreOrder(g, n)[p]].args[0]
    ensures |g[PreOrder(g, n)[p]].args| == 2 ==>
      var second := p + 1 + |PreOrder(g, g[PreOrder(g, n)[p]].args[0])|;
      second < |PreOrder(g, n)| &&
      PreOrder(g, n)[second] == g[PreOrder(g, n)[p]].args[1]
  {
    var P := PreOrder(g, n);
    SubtreeContiguous(g, n, p);
    var m := P[p];
    var S := PreOrder(g, m);
    var cs := g[m].args;
    OperandsInBlock(g, m);
    if |cs| >= 1 {
      OccursAtIndex(S, P, p, 1);
    }
    if |cs| == 2 {
      OccursAtIndex(S, P, p, 1 + |PreOrder(g, cs[0])|);
    }
  }

  lemma OccursAtIndex(S: seq<nat>, P: seq<nat>, at: nat, i: nat)
    requires OccursAt(S, P, at) && i < |S|
    ensures at + i < |P| && P[at + i] == S[i]
  {
  }

  /** Inside a node's own listing, its operands sit right after it and
      right after the first operand's listing. */
  lemma OperandsInBlock(g: seq<Node>, m: nat)
    requires Acyclic(g) && m < |g|
    ensures |g[m].args| >= 1 ==> 1 < |PreOrder(g, m)| && PreOrder(g, m)[1] == g[m].args[0]
    ensures |g[m].args| == 2 ==>
      1 + |PreOrder(g, g[m].args[0])| < |PreOrder(g, m)| &&
      PreOrder(g, m)[1 + |PreOrder(g, g[m].args[0])|] == g[m].args[1]
  {
    PreOrderBlocks(g, m);
    var cs := g[m].args;
    if |cs| >= 1 {
      OccursAtIndex(PreOrder(g, cs[0]), PreOrder(g, m), 1, 0);
    }
    if |cs| == 2 {
      OccursAtIndex(PreOrder(g, cs[1]), PreOrder(g, m), 1 + |PreOrder(g, cs[0])|, 0);
    }
  }

  /** No operator node occurs twice in the listing from `n`: only leaves
      are shared. */
  ghost predicate TreeShaped(g: seq<Node>, n: nat)
    requires Acyclic(g) && n < |g|
  {
    NoRepeatedOperator(g, PreOrder(g, n))
  }

  ghost predicate NoRepeatedOperator(g: seq<Node>, P: seq<nat>)
    requires InArena(g, P)
  {
    forall i, j :: 0 <= i < j < |P| && P[i] == P[j] ==> IsLeaf(g[P[i]])
  }

  lemma NoRepeatedSplit(g: seq<Node>, A: seq<nat>, B: seq<nat>)
    requires InArena(g, A + B)
    requires NoRepeatedOperator(g, A + B)
    ensures InArena(g, A) && InArena(g, B)
    ensures NoRepeatedOperator(g, A) && NoRepeatedOperator(g, B)
    ensures forall m :: m in A && m in B ==> IsLeaf(g[m])
  {
    var P := A + B;
    assert forall i :: 0 <= i < |A| ==> A[i] == P[i];
    assert forall i :: 0 <= i < |B| ==> B[i] == P[|A| + i];
    assert InArena(g, A) && InArena(g, B);
    forall i, j | 0 <= i < j < |B| && B[i] == B[j]
      ensures IsLeaf(g[B[i]])
    {
      assert P[|A| + i] == P[|A| + j];
    }
    forall m | m in A && m in B
      ensures IsLeaf(g[m])
    {
      var i :| 0 <= i < |A| && A[i] == m;
      var j :| 0 <= j < |B| && B[j] == m;
      assert P[i] == P[|A| + j];
    }
    forall i, j | 0 <= i < j < |A| && A[i] == A[j]
      ensures IsLeaf(g[A[i]])
    {
      assert P[i] == P[j];
    }
  }

  /** Every node listed from `n` was built no later than `n`. */
  lemma {:induction false} PreOrderBounded(g: seq<Node>, n: nat)
    requires Acyclic(g) && n < |g|
    ensures forall m :: m in PreOrder(g, n) ==> m <= n
    decreases n
  {
    var cs := g[n].args;
    if |cs| == 1 {
      PreOrderBounded(g, cs[0]);
      assert PreOrder(g, n) == [n] + PreOrder(g, cs[0]);
    } else if |cs| == 2 {
      PreOrderBounded(g, cs[0]);
      PreOrderBounded(g, cs[1]);
      assert PreOrder(g, n) == [n] + PreOrder(g, cs[0]) + PreOrder(g, cs[1]);
    }
  }

  /** The example graph the script builds, in construction order:
      `x1 = Variable(0)`, `x2 = Variable(1)`, `MulExpr(x1, x2)`,
      `SinExpr(x1)` and the root `f = SumExpr(...)` at index 4. */
  const ExampleGraph: seq<Node> :=
    [Node(Variable(0), []), Node(Variable(1), []), Node(Mul, [0, 1]), Node(Sin, [0]), Node(Sum, [2, 3])]

  lemma ExampleWellFormed()
    ensures WellFormed(ExampleGraph) && |ExampleGraph| == 5
  {
    var g := ExampleGraph;
    assert g[0].args == [] && g[1].args == [] && g[3].args == [0];
    assert g[2].args == [0, 1] && g[4].args == [2, 3];
  }

  /** The script's listing: `[f, MulExpr, x1, x2, SinExpr, x1]`. */
  lemma PreOrderExample()
    ensures WellFormed(ExampleGraph)
    ensures PreOrder(ExampleGraph, 4) == [4, 2, 0, 1, 3, 0]
  {
    ExampleWellFormed();
    var g := ExampleGraph;
    assert PreOrder(g, 0) == [0] && PreOrder(g, 1) == [1];
    assert PreOrder(g, 2) == [2, 0, 1];
    assert PreOrder(g, 3) == [3, 0];
  }

  /** Only the leaf `x1` is reached twice in the example. */
  lemma ExampleTree()
    ensures WellFormed(ExampleGraph) && TreeShaped(ExampleGraph, 4)
  {
    PreOrderExample();
    var P := PreOrder(ExampleGraph, 4);
    forall i, j | 0 <= i < j < |P| && P[i] == P[j]
      ensures IsLeaf(ExampleGraph[P[i]])
    {
      assert P[i] == 0;
    }
  }
}
