/** Corrected counterparts of the two places where the engine does not
    compute what it evidently means to: `MulExpr.forward` adds where the
    product rule in its `backward` assumes a product, and the pre-order
    backward pass runs a shared operator's `backward` once per path. */
module Corrected {
  import opened Graph
  import opened Semantics

  // ------------------------------------------------- MulExpr.forward

  /** `Eval` with `MulExpr.forward` computing `left.value * right.value`. */
  function EvalProduct(g: seq<Node>, sin: real -> real, x: seq<real>, n: nat): Option<real>
    requires WellFormed(g) && n < |g|
    decreases n
  {
    var cs := g[n].args;
    assert |cs| == Arity(g[n].kind);
    match g[n].kind
    case Constant(c) => Some(c)
    case Variable(loc) => Lookup(x, loc)
    case Mul =>
      var a, b := EvalProduct(g, sin, x, cs[0]), EvalProduct(g, sin, x, cs[1]);
      if a.Some? && b.Some? then Some(a.value * b.value) else None
    case Sin =>
      var a := EvalProduct(g, sin, x, cs[0]);
      if a.Some? then Some(sin(a.value)) else None
    case Sum =>
      var a, b := EvalProduct(g, sin, x, cs[0]), EvalProduct(g, sin, x, cs[1]);
      if a.Some? && b.Some? then Some(a.value + b.value) else None
  }

  /** The example's value, as written: `x1 + x2 + sin(x1)`. */
  lemma ExampleWritten(sin: real -> real, x: seq<real>)
    requires |x| == 2
    ensures WellFormed(ExampleGraph)
    ensures Eval(ExampleGraph, sin, x, 4) == Some(x[0] + x[1] + sin(x[0]))
  {
    var g := ExampleGraph;
    ExampleWellFormed();
    assert Eval(g, sin, x, 0) == Some(x[0]);
    assert Eval(g, sin, x, 1) == Some(x[1]);
    assert Eval(g, sin, x, 2) == Some(x[0] + x[1]);
    assert Eval(g, sin, x, 3) == Some(sin(x[0]));
  }

  /** The example's value with the product: `x1 * x2 + sin(x1)`. */
  lemma ExampleProduct(sin: real -> real, x: seq<real>)
    requires |x| == 2
    ensures WellFormed(ExampleGraph)
    ensures EvalProduct(ExampleGraph, sin, x, 4) == Some(x[0] * x[1] + sin(x[0]))
  {
    var g := ExampleGraph;
    ExampleWellFormed();
    var a, b := EvalProduct(g, sin, x, 0), EvalProduct(g, sin, x, 1);
    assert a == Some(x[0]) && b == Some(x[1]);
    assert g[2].kind == Mul && g[2].args == [0, 1];
    assert EvalProduct(g, sin, x, 2).Some? && EvalProduct(g, sin, x, 2).value == x[0] * x[1];
    assert EvalProduct(g, sin, x, 3) == Some(sin(x[0]));
  }

  /** The chain-rule gradient of the example's root at `x2`, the one the engine reports: the value of `x1`. */
  lemma ExampleDerivativeX2(val: seq<real>, cos: real -> real)
    requires |val| == |ExampleGraph|
    ensures WellFormed(ExampleGraph)
    ensures Via(ExampleGraph, val, cos, 4, 1, 1.0) == val[0]
  {
    var g := ExampleGraph;
    ExampleWellFormed();
    assert Pass(g, val, cos, 4, 0, 1.0) == 1.0 && Pass(g, val, cos, 4, 1, 1.0) == 1.0;
    assert Pass(g, val, cos, 2, 1, 1.0) == val[0];
    assert Via(g, val, cos, 1, 1, val[0]) == val[0];
    assert Via(g, val, cos, 0, 1, Pass(g, val, cos, 2, 0, 1.0)) == 0.0;
    assert Via(g, val, cos, 2, 1, 1.0) == val[0];
    assert Via(g, val, cos, 0, 1, Pass(g, val, cos, 3, 0, 1.0)) == 0.0;
    assert Via(g, val, cos, 3, 1, 1.0) == 0.0;
  }

  /** The chain-rule gradient of the example's root at `x1`: the value of `x2` plus `cos` of the value of `x1`. */
  lemma ExampleDerivativeX1(val: seq<real>, cos: real -> real)
    requires |val| == |ExampleGraph|
    ensures WellFormed(ExampleGraph)
    ensures Via(ExampleGraph, val, cos, 4, 0, 1.0) == val[1] + cos(val[0])
  {
    var g := ExampleGraph;
    ExampleWellFormed();
    assert Pass(g, val, cos, 4, 0, 1.0) == 1.0 && Pass(g, val, cos, 4, 1, 1.0) == 1.0;
    assert Pass(g, val, cos, 2, 0, 1.0) == val[1];
    assert Via(g, val, cos, 0, 0, val[1]) == val[1];
    assert Via(g, val, cos, 1, 0, Pass(g, val, cos, 2, 1, 1.0)) == 0.0;
    assert Via(g, val, cos, 2, 0, 1.0) == val[1];
    assert Pass(g, val, cos, 3, 0, 1.0) == cos(val[0]);
    assert Via(g, val, cos, 0, 0, cos(val[0])) == cos(val[0]);
    assert Via(g, val, cos, 3, 0, 1.0) == cos(val[0]);
  }

  /** The values the forward pass as written stores in the example's nodes
      `x1`, `x2`, `MulExpr`, `SinExpr`, `SumExpr`. */
  function ForwardValues(sin: real -> real, x: seq<real>): seq<real>
    requires |x| == 2
  {
    [x[0], x[1], x[0] + x[1], sin(x[0]), x[0] + x[1] + sin(x[0])]
  }

  /** As written, the example computes `x1 + x2 + sin(x1)`; moving `x2` by
      `h` moves it by `h`, while the gradient reported for `x2` is `x1`.
      At `x = [2, 1]` the change is 1 and the reported slope is 2. */
  lemma WrittenMulMisleads(sin: real -> real, cos: real -> real, x: seq<real>, h: real)
    requires |x| == 2
    ensures WellFormed(ExampleGraph)
    ensures Eval(ExampleGraph, sin, x, 4) == Some(x[0] + x[1] + sin(x[0]))
    ensures Eval(ExampleGraph, sin, x[1 := x[1] + h], 4).Some?
    ensures Eval(ExampleGraph, sin, x[1 := x[1] + h], 4).value - Eval(ExampleGraph, sin, x, 4).value == h
    ensures Via(ExampleGraph, ForwardValues(sin, x), cos, 4, 1, 1.0) == x[0]
    ensures x == [2.0, 1.0] && h == 1.0 ==>
      Via(ExampleGraph, ForwardValues(sin, x), cos, 4, 1, 1.0) * h == 2.0 != h
  {
    var y := x[1 := x[1] + h];
    ExampleWritten(sin, x);
    ExampleWritten(sin, y);
    ExampleDerivativeX2(ForwardValues(sin, x), cos);
  }

  /** With the product, the example computes `x1 * x2 + sin(x1)`, and
      moving `x2` by `h` moves it by exactly the reported gradient times
      `h` (the function is linear in `x2`). */
  lemma ProductMatchesGradient(sin: real -> real, cos: real -> real, x: seq<real>, h: real)
    requires |x| == 2
    ensures WellFormed(ExampleGraph)
    ensures EvalProduct(ExampleGraph, sin, x, 4) == Some(x[0] * x[1] + sin(x[0]))
    ensures EvalProduct(ExampleGraph, sin, x[1 := x[1] + h], 4).Some?
    ensures EvalProduct(ExampleGraph, sin, x[1 := x[1] + h], 4).value - EvalProduct(ExampleGraph, sin, x, 4).value ==
            Via(ExampleGraph, [x[0], x[1], x[0] * x[1], sin(x[0]), x[0] * x[1] + sin(x[0])], cos, 4, 1, 1.0) * h
  {
    var y := x[1 := x[1] + h];
    ExampleProduct(sin, x);
    ExampleProduct(sin, y);
    assert y[0] * y[1] == x[0] * x[1] + x[0] * h;
    ExampleDerivativeX2([x[0], x[1], x[0] * x[1], sin(x[0]), x[0] * x[1] + sin(x[0])], cos);
  }

  // ------------------------------------------- backward visiting order

  /** The nodes `i - 1, i - 2, ..., 0`: every consumer before its operands,
      each node once. Used in place of the pre-order listing it is a
      reverse topological order of the whole arena. */
  function Descending(i: nat): (p: seq<nat>)
    ensures |p| == i
    ensures forall q :: 0 <= q < i ==> p[q] == i - 1 - q
  {
    if i == 0 then [] else [i - 1] + Descending(i - 1)
  }

  /** What the grads `gr` of nodes `0 .. i - 1` contribute to `k` by the
      chain rule. */
  function Total(g: seq<Node>, val: seq<real>, cos: real -> real, gr: seq<real>, i: nat, k: nat): real
    requires WellFormed(g) && |val| == |g| && |gr| == |g| && i <= |g|
  {
    if i == 0 then 0.0 else Total(g, val, cos, gr, i - 1, k) + Via(g, val, cos, i - 1, k, gr[i - 1])
  }

  /** The chain-rule contribution is linear in the grad passed in. */
  lemma {:induction false} BelowLinear(g: seq<Node>, val: seq<real>, cos: real -> real, n: nat, k: nat, a: real, b: real)
    requires WellFormed(g) && |val| == |g| && n < |g|
    ensures Below(g, val, cos, n, k, a + b) == Below(g, val, cos, n, k, a) + Below(g, val, cos, n, k, b)
    decreases n, 0
  {
    var cs := g[n].args;
    assert |cs| == Arity(g[n].kind);
    if |cs| >= 1 {
      var pa, pb := Pass(g, val, cos, n, 0, a), Pass(g, val, cos, n, 0, b);
      assert Pass(g, val, cos, n, 0, a + b) == pa + pb;
      ViaLinear(g, val, cos, cs[0], k, pa, pb);
    }
    if |cs| == 2 {
      var pa, pb := Pass(g, val, cos, n, 1, a), Pass(g, val, cos, n, 1, b);
      assert Pass(g, val, cos, n, 1, a + b) == pa + pb;
      ViaLinear(g, val, cos, cs[1], k, pa, pb);
    }
  }

  lemma {:induction false} ViaLinear(g: seq<Node>, val: seq<real>, cos: real -> real, c: nat, k: nat, a: real, b: real)
    requires WellFormed(g) && |val| == |g| && c < |g|
    ensures Via(g, val, cos, c, k, a + b) == Via(g, val, cos, c, k, a) + Via(g, val, cos, c, k, b)
    decreases c, 1
  {
    BelowLinear(g, val, cos, c, k, a, b);
  }

  lemma {:induction false} TotalFrame(g: seq<Node>, val: seq<real>, cos: real -> real, gr: seq<real>, gr': seq<real>, i: nat, k: nat)
    requires WellFormed(g) && |val| == |g| && |gr| == |g| && |gr'| == |g| && i <= |g|
    requires forall n :: 0 <= n < i ==> gr[n] == gr'[n]
    ensures Total(g, val, cos, gr, i, k) == Total(g, val, cos, gr', i, k)
    decreases i
  {
    if i > 0 {
      TotalFrame(g, val, cos, gr, gr', i - 1, k);
    }
  }

  /** Adding `d` to the grad of one node `a` below `i` adds what `d`
      contributes from `a`. */
  lemma {:induction false} TotalUpdate(g: seq<Node>, val: seq<real>, cos: real -> real, gr: seq<real>, i: nat, a: nat, d: real, k: nat)
    requires WellFormed(g) && |val| == |g| && |gr| == |g| && a < i <= |g|
    ensures Total(g, val, cos, gr[a := gr[a] + d], i, k) ==
            Total(g, val, cos, gr, i, k) + Via(g, val, cos, a, k, d)
    decreases i
  {
    var gr' := gr[a := gr[a] + d];
    if a == i - 1 {
      TotalFrame(g, val, cos, gr, gr', i - 1, k);
      ViaLinear(g, val, cos, a, k, gr[a], d);
    } else {
      TotalUpdate(g, val, cos, gr, i - 1, a, d, k);
    }
  }

  /** With no grad below `i`, nothing is contributed. */
  lemma {:induction false} TotalOfZeros(g: seq<Node>, val: seq<real>, cos: real -> real, gr: seq<real>, i: nat, k: nat)
    requires WellFormed(g) && |val| == |g| && |gr| == |g| && i <= |g|
    requires forall n :: 0 <= n < i ==> gr[n] == 0.0
    ensures Total(g, val, cos, gr, i, k) == 0.0
    decreases i
  {
    if i > 0 {
      TotalOfZeros(g, val, cos, gr, i - 1, k);
      ViaLinear(g, val, cos, i - 1, k, 0.0, 0.0);
    }
  }

  /** Nodes no later than `k` contribute nothing to `k`. */
  lemma {:induction false} TotalBelowNode(g: seq<Node>, val: seq<real>, cos: real -> real, gr: seq<real>, i: nat, k: nat)
    requires WellFormed(g) && |val| == |g| && |gr| == |g| && i <= |g| && i <= k
    ensures Total(g, val, cos, gr, i, k) == 0.0
    decreases i
  {
    if i > 0 {
      TotalBelowNode(g, val, cos, gr, i - 1, k);
      BelowAbove(g, val, cos, i - 1, k, gr[i - 1]);
    }
  }

  /** One `backward()` of node `m` hands on, to the nodes below it, exactly
      the chain-rule contribution of `m`'s grad. */
  lemma StepTotal(g: seq<Node>, val: seq<real>, cos: real -> real, gr: seq<real>, m: nat, k: nat)
    requires WellFormed(g) && |val| == |g| && |gr| == |g| && m < |g|
    ensures Total(g, val, cos, BackStep(g, val, cos, gr, m), m, k) ==
            Total(g, val, cos, gr, m, k) + Below(g, val, cos, m, k, gr[m])
  {
    var cs := g[m].args;
    assert |cs| == Arity(g[m].kind);
    if |cs| == 0 {
      assert BackStep(g, val, cos, gr, m) == gr[m := 0.0] || BackStep(g, val, cos, gr, m) == gr;
      TotalFrame(g, val, cos, gr, BackStep(g, val, cos, gr, m), m, k);
    } else if |cs| == 1 {
      StepTotalUnary(g, val, cos, gr, m, k);
    } else {
      StepTotalBinary(g, val, cos, gr, m, k);
    }
  }

  lemma StepTotalUnary(g: seq<Node>, val: seq<real>, cos: real -> real, gr: seq<real>, m: nat, k: nat)
    requires WellFormed(g) && |val| == |g| && |gr| == |g| && m < |g| && |g[m].args| == 1
    ensures Total(g, val, cos, BackStep(g, val, cos, gr, m), m, k) ==
            Total(g, val, cos, gr, m, k) + Below(g, val, cos, m, k, gr[m])
  {
    var e := g[m].args[0];
    assert g[m].kind.Sin?;
    var d := Pass(g, val, cos, m, 0, gr[m]);
    assert Partial(g, val, cos, m, 0) == cos(val[e]);
    assert d == cos(val[e]) * gr[m];
    var next := BackStep(g, val, cos, gr, m);
    assert next[e] == gr[e] + d;
    assert forall q :: 0 <= q < |g| && q != e ==> next[q] == gr[q];
    assert BackStep(g, val, cos, gr, m) == gr[e := gr[e] + d];
    TotalUpdate(g, val, cos, gr, m, e, d, k);
  }

  lemma StepTotalBinary(g: seq<Node>, val: seq<real>, cos: real -> real, gr: seq<real>, m: nat, k: nat)
    requires WellFormed(g) && |val| == |g| && |gr| == |g| && m < |g| && |g[m].args| == 2
    ensures Total(g, val, cos, BackStep(g, val, cos, gr, m), m, k) ==
            Total(g, val, cos, gr, m, k) + Below(g, val, cos, m, k, gr[m])
  {
    var l, r := g[m].args[0], g[m].args[1];
    assert g[m].kind.Mul? || g[m].kind.Sum?;
    var d0, d1 := Pass(g, val, cos, m, 0, gr[m]), Pass(g, val, cos, m, 1, gr[m]);
    var g1 := gr[l := gr[l] + d0];
    assert g1[m] == gr[m];
    if g[m].kind.Mul? {
      assert Partial(g, val, cos, m, 0) == val[r] && Partial(g, val, cos, m, 1) == val[l];
      assert d0 == val[r] * gr[m] && d1 == val[l] * g1[m];
    } else {
      assert Partial(g, val, cos, m, 0) == 1.0 == Partial(g, val, cos, m, 1);
      assert d0 == 1.0 * gr[m] && d1 == 1.0 * g1[m];
    }
    var next := BackStep(g, val, cos, gr, m);
    assert next[r] == g1[r] + d1;
    assert forall q :: 0 <= q < |g| && q != r ==> next[q] == g1[q];
    assert BackStep(g, val, cos, gr, m) == g1[r := g1[r] + d1];
    TotalUpdate(g, val, cos, gr, m, l, d0, k);
    TotalUpdate(g, val, cos, g1, m, r, d1, k);
  }

  /** Visiting `i - 1, ..., 0` changes no grad of a node from `i` on. */
  lemma {:induction false} DescendingAbove(g: seq<Node>, val: seq<real>, cos: real -> real, gr: seq<real>, i: nat, k: nat)
    requires WellFormed(g) && |val| == |g| && |gr| == |g| && i <= k < |g|
    ensures InArena(g, Descending(i))
    ensures BackRun(g, val, cos, gr, Descending(i))[k] == gr[k]
    decreases i
  {
    if i > 0 {
      var gr1 := BackStep(g, val, cos, gr, i - 1);
      StepAbove(g, val, cos, gr, i - 1, k);
      DescendingAbove(g, val, cos, gr1, i - 1, k);
      DescendingCons(g, val, cos, gr, i);
    }
  }

  /** `backward()` of `m` does not touch a node built after `m`. */
  lemma StepAbove(g: seq<Node>, val: seq<real>, cos: real -> real, gr: seq<real>, m: nat, k: nat)
    requires WellFormed(g) && |val| == |g| && |gr| == |g| && m < k < |g|
    ensures BackStep(g, val, cos, gr, m)[k] == gr[k]
  {
    BackStepAdds(g, val, cos, gr, m);
    assert |g[m].args| == Arity(g[m].kind);
    assert forall j :: 0 <= j < |g[m].args| ==> g[m].args[j] < m;
  }

  /** Visiting every node below `i` once, consumers first, leaves each
      non-constant node below `i` with the chain-rule total of the grads
      below `i`. */
  lemma {:induction false} DescendingRun(g: seq<Node>, val: seq<real>, cos: real -> real, gr: seq<real>, i: nat, k: nat)
    requires WellFormed(g) && |val| == |g| && |gr| == |g| && i <= |g| && k < i && !g[k].kind.Constant?
    ensures InArena(g, Descending(i))
    ensures BackRun(g, val, cos, gr, Descending(i))[k] == Total(g, val, cos, gr, i, k)
    decreases i
  {
    var gr1 := BackStep(g, val, cos, gr, i - 1);
    DescendingCons(g, val, cos, gr, i);
    if k == i - 1 {
      DescendingAbove(g, val, cos, gr1, i - 1, i - 1);
      DescendingTop(g, val, cos, gr, k);
    } else {
      DescendingRun(g, val, cos, gr1, i - 1, k);
      StepTotal(g, val, cos, gr, i - 1, k);
    }
  }

  /** The first node visited is `i - 1`. */
  lemma DescendingCons(g: seq<Node>, val: seq<real>, cos: real -> real, gr: seq<real>, i: nat)
    requires WellFormed(g) && |val| == |g| && |gr| == |g| && 0 < i <= |g|
    ensures InArena(g, Descending(i - 1)) && InArena(g, Descending(i))
    ensures BackRun(g, val, cos, gr, Descending(i)) ==
            BackRun(g, val, cos, BackStep(g, val, cos, gr, i - 1), Descending(i - 1))
  {
    assert Descending(i) == [i - 1] + Descending(i - 1);
    BackRunCons(g, val, cos, gr, i - 1, Descending(i - 1));
  }

  /** A non-constant node keeps its grad through its own `backward()`, and
      its chain-rule total is that grad. */
  lemma DescendingTop(g: seq<Node>, val: seq<real>, cos: real -> real, gr: seq<real>, k: nat)
    requires WellFormed(g) && |val| == |g| && |gr| == |g| && k < |g| && !g[k].kind.Constant?
    ensures BackStep(g, val, cos, gr, k)[k] == gr[k]
    ensures Total(g, val, cos, gr, k + 1, k) == gr[k]
  {
    BackStepAdds(g, val, cos, gr, k);
    assert |g[k].args| == Arity(g[k].kind);
    TotalBelowNode(g, val, cos, gr, k, k);
    BelowAbove(g, val, cos, k, k, gr[k]);
  }

  /** The corrected backward pass: seed `f.grad = 1` on zero grads and call
      every node's `backward()` once, consumers first. Every non-constant
      node then holds the chain-rule gradient of `f` at it, on any arena,
      shared operators included. */
  lemma CorrectedGradient(g: seq<Node>, val: seq<real>, cos: real -> real, f: nat, k: nat)
    requires WellFormed(g) && |val| == |g| && f < |g| && k < |g| && !g[k].kind.Constant?
    ensures InArena(g, Descending(f + 1))
    ensures BackRun(g, val, cos, Seed(|g|, f), Descending(f + 1))[k] == Via(g, val, cos, f, k, 1.0)
  {
    var gr := Seed(|g|, f);
    if k <= f {
      DescendingRun(g, val, cos, gr, f + 1, k);
      TotalOfZeros(g, val, cos, gr, f, k);
    } else {
      DescendingAbove(g, val, cos, gr, f + 1, k);
      BelowAbove(g, val, cos, f, k, 1.0);
    }
  }

  /** On the two-path example the corrected pass gives `x` its true
      derivative 4, where the pass as written gives 8. */
  lemma CorrectedSharedInterior(g: seq<Node>, val: seq<real>, cos: real -> real)
    requires g == [Node(Variable(0), []), Node(Sum, [0, 0]), Node(Sum, [1, 1])]
    requires |val| == 3
    ensures WellFormed(g) && InArena(g, Descending(3))
    ensures BackRun(g, val, cos, Seed(3, 2), Descending(3))[0] == 4.0
  {
    DoubledOuterVia(g, val, cos);
    CorrectedGradient(g, val, cos, 2, 0);
  }
}
