/** The engine itself: the node objects with their mutable `value` and
    `grad` fields, their `forward`/`backward`/`children` methods, the
    depth-first `loop_df`, and the script that runs the forward pass over
    the reversed listing, seeds `f.grad = 1` and runs the backward pass. */
module Engine {
  import opened Graph
  import opened Semantics
  import opened Corrected

  /** The nodes of one expression graph. Node `i` is `nodes[i]`; its
      `value` and `grad` fields are `value[i]` and `grad[i]`; `toVisit` is
      the script's `to_visit` list. */
  class Engine {
    const nodes: seq<Node>
    const sin: real -> real
    const cos: real -> real
    const value: array<real>
    const grad: array<real>
    var toVisit: seq<nat>

    /** The arena is acyclic, the field arrays are one slot per node, the
        listing names only nodes, and a constant still holds the value it
        was built with (nothing ever writes a constant's `value`). */
    ghost predicate Valid()
      reads this, value
    {
      WellFormed(nodes) && value.Length == |nodes| && grad.Length == |nodes| && value != grad &&
      InArena(nodes, toVisit) &&
      forall i :: 0 <= i < |nodes| && nodes[i].kind.Constant? ==> value[i] == nodes[i].kind.c
    }

    /** Building the nodes: every `grad` starts at 0, a constant's `value`
        is its argument. Other nodes have no `value` until their `forward`
        runs; they read as 0 here. */
    constructor (nodes: seq<Node>, sin: real -> real, cos: real -> real)
      requires WellFormed(nodes)
      ensures Valid()
      ensures this.nodes == nodes && this.sin == sin && this.cos == cos && toVisit == []
      ensures fresh(value) && fresh(grad)
      ensures forall i :: 0 <= i < |nodes| ==> grad[i] == 0.0
      ensures forall i :: 0 <= i < |nodes| ==>
        value[i] == if nodes[i].kind.Constant? then nodes[i].kind.c else 0.0
    {
      this.nodes := nodes;
      this.sin := sin;
      this.cos := cos;
      value := new real[|nodes|]((i: int) => if 0 <= i < |nodes| && nodes[i].kind.Constant? then nodes[i].kind.c else 0.0);
      grad := new real[|nodes|](i => 0.0);
      toVisit := [];
    }

    /** `children()`: the operands, in the order the node holds them. */
    function Children(i: nat): (cs: seq<nat>)
      requires WellFormed(nodes) && i < |nodes|
      reads this
      ensures |cs| == Arity(nodes[i].kind) && InArena(nodes, cs)
      ensures forall j :: 0 <= j < |cs| ==> cs[j] < i
      ensures IsLeaf(nodes[i]) <==> cs == []
    {
      nodes[i].args
    }

    /** `forward(x)` of node `i`. `ok` is false when a variable's `x[location]`
        raises `IndexError`; then nothing is written. Otherwise the node's own
        `value`, and no other, becomes `Step` of the old values. */
    method Forward(i: nat, x: seq<real>) returns (ok: bool)
      requires Valid() && i < |nodes|
      modifies value
      ensures Valid()
      ensures ok <==> Step(nodes, sin, x, old(value[..]), i).Some?
      ensures ok ==> value[..] == old(value[..])[i := Step(nodes, sin, x, old(value[..]), i).value]
      ensures !ok ==> value[..] == old(value[..])
      ensures nodes[i].kind.Constant? ==> ok && value[..] == old(value[..])
    {
      var cs := nodes[i].args;
      assert |cs| == Arity(nodes[i].kind);
      match nodes[i].kind
      case Constant(_) =>
        ok := true;
      case Variable(loc) =>
        if 0 <= loc < |x| {
          value[i] := x[loc];
          ok := true;
        } else if -|x| <= loc < 0 {
          value[i] := x[|x| + loc];
          ok := true;
        } else {
          ok := false;
        }
      case Mul =>
        value[i] := value[cs[0]] + value[cs[1]];
        ok := true;
      case Sin =>
        value[i] := sin(value[cs[0]]);
        ok := true;
      case Sum =>
        value[i] := value[cs[0]] + value[cs[1]];
        ok := true;
    }

    /** `backward()` of node `i`: its grads become `BackStep` of the old
        ones. A constant clears its own grad; a variable does nothing; an
        operator adds to its operands and changes nothing else. */
    method Backward(i: nat)
      requires Valid() && i < |nodes|
      modifies grad
      ensures grad[..] == BackStep(nodes, value[..], cos, old(grad[..]), i)
      ensures nodes[i].kind.Constant? ==> grad[..] == old(grad[..])[i := 0.0]
      ensures nodes[i].kind.Variable? ==> grad[..] == old(grad[..])
      ensures forall k :: 0 <= k < |nodes| && k !in nodes[i].args && !(k == i && nodes[i].kind.Constant?) ==>
        grad[k] == old(grad[k])
    {
      assert |nodes[i].args| == Arity(nodes[i].kind);
      BackStepAdds(nodes, value[..], cos, old(grad[..]), i);
      match nodes[i].kind
      case Constant(_) =>
        grad[i] := 0.0;
      case Variable(_) =>
      case Mul =>
        MulBackward(i);
      case Sin =>
        SinBackward(i);
      case Sum =>
        SumBackward(i);
    }

    /** `MulExpr.backward()`: the product rule, `left.grad += right.value *
        grad`, then `right.grad += left.value * grad`. */
    method MulBackward(i: nat)
      requires Valid() && i < |nodes| && nodes[i].kind.Mul?
      modifies grad
      ensures grad[..] == BackStep(nodes, value[..], cos, old(grad[..]), i)
    {
      var cs := nodes[i].args;
      assert |cs| == 2;
      var l, r := cs[0], cs[1];
      ghost var g0, v := grad[..], value[..];
      grad[l] := grad[l] + value[r] * grad[i];
      assert grad[l] == g0[l] + v[r] * g0[i];
      assert forall k :: 0 <= k < |nodes| && k != l ==> grad[k] == g0[k];
      ghost var g1 := grad[..];
      assert g1 == g0[l := g0[l] + v[r] * g0[i]];
      grad[r] := grad[r] + value[l] * grad[i];
      assert grad[r] == g1[r] + v[l] * g1[i];
      assert forall k :: 0 <= k < |nodes| && k != r ==> grad[k] == g1[k];
      assert grad[..] == g1[r := g1[r] + v[l] * g1[i]];
      ghost var b := BackStep(nodes, v, cos, g0, i);
      assert b[r] == g1[r] + v[l] * g1[i];
      assert forall k :: 0 <= k < |nodes| && k != r ==> b[k] == g1[k];
    }

    /** `SinExpr.backward()`: `expr.grad += cos(expr.value) * grad`. */
    method SinBackward(i: nat)
      requires Valid() && i < |nodes| && nodes[i].kind.Sin?
      modifies grad
      ensures grad[..] == BackStep(nodes, value[..], cos, old(grad[..]), i)
    {
      var cs := nodes[i].args;
      assert |cs| == 1;
      var e := cs[0];
      ghost var g0, v := grad[..], value[..];
      grad[e] := grad[e] + cos(value[e]) * grad[i];
      assert grad[e] == g0[e] + cos(v[e]) * g0[i];
      assert forall k :: 0 <= k < |nodes| && k != e ==> grad[k] == g0[k];
      assert grad[..] == g0[e := g0[e] + cos(v[e]) * g0[i]];
      ghost var b := BackStep(nodes, v, cos, g0, i);
      assert b[e] == g0[e] + cos(v[e]) * g0[i];
      assert forall k :: 0 <= k < |nodes| && k != e ==> b[k] == g0[k];
    }

    /** `SumExpr.backward()`: `left.grad += 1 * grad`, then
        `right.grad += 1 * grad`. */
    method SumBackward(i: nat)
      requires Valid() && i < |nodes| && nodes[i].kind.Sum?
      modifies grad
      ensures grad[..] == BackStep(nodes, value[..], cos, old(grad[..]), i)
    {
      var cs := nodes[i].args;
      assert |cs| == 2;
      var l, r := cs[0], cs[1];
      ghost var g0 := grad[..];
      grad[l] := grad[l] + 1.0 * grad[i];
      ghost var g1 := grad[..];
      assert g1 == g0[l := g0[l] + 1.0 * g0[i]];
      grad[r] := grad[r] + 1.0 * grad[i];
      assert grad[..] == g1[r := g1[r] + 1.0 * g1[i]];
    }

    /** `loop_df(n, to_visit)`: append `n`, then recurse into each child in
        turn. */
    method LoopDf(n: nat)
      requires Valid() && n < |nodes|
      modifies this`toVisit
      ensures Valid()
      ensures toVisit == old(toVisit) + PreOrder(nodes, n)
      decreases n
    {
      ghost var before := toVisit;
      InArenaAppend(nodes, before, [n]);
      toVisit := toVisit + [n];
      var cs := Children(n);
      for j := 0 to |cs|
        invariant Valid()
        invariant toVisit == before + [n] + Forest(nodes, cs[..j])
      {
        ForestStep(nodes, cs, j);
        LoopDf(cs[j]);
      }
      assert cs[..|cs|] == cs;
      PreOrderUnfold(nodes, n);
      AppendAssoc(before, [n], Forest(nodes, cs));
    }

    /** `for n in reversed(to_visit): n.forward(x)`, with `to_visit` the
        listing from `f`. It stops at the first `IndexError`, which happens
        exactly when `f` has no value; otherwise every listed node ends with
        its value. Nodes outside the listing are not touched. */
    method ForwardPass(ghost f: nat, x: seq<real>) returns (ok: bool)
      requires Valid() && f < |nodes| && toVisit == PreOrder(nodes, f)
      modifies value
      ensures Valid()
      ensures ok <==> Eval(nodes, sin, x, f).Some?
      ensures ok ==> forall q :: 0 <= q < |toVisit| ==>
        Eval(nodes, sin, x, toVisit[q]).Some? && value[toVisit[q]] == Eval(nodes, sin, x, toVisit[q]).value
      ensures forall m :: 0 <= m < |nodes| && m !in toVisit ==> value[m] == old(value[m])
    {
      var P := toVisit;
      var j := |P|;
      while j > 0
        invariant 0 <= j <= |P|
        invariant Valid()
        invariant forall q :: j <= q < |P| ==>
          Eval(nodes, sin, x, P[q]).Some? && value[P[q]] == Eval(nodes, sin, x, P[q]).value
        invariant forall m :: 0 <= m < |nodes| && m !in P[j..] ==> value[m] == old(value[m])
      {
        j := j - 1;
        var m := P[j];
        ForwardReady(f, x, j);
        StepAgreesWithEval(nodes, sin, x, value[..], m);
        ok := Forward(m, x);
        if !ok {
          EvalNoneSpreads(nodes, sin, x, f, j);
          return;
        }
        assert value[m] == Eval(nodes, sin, x, m).value;
        SuffixCons(P, j);
      }
      ok := true;
      assert P[0] == f;
    }

    /** Before `forward` of the node at position `j` of the listing, its
        operands, which come later in the listing, already hold their values. */
    lemma ForwardReady(f: nat, x: seq<real>, j: nat)
      requires Valid() && f < |nodes| && j < |PreOrder(nodes, f)|
      requires forall q :: j < q < |PreOrder(nodes, f)| ==>
        Eval(nodes, sin, x, PreOrder(nodes, f)[q]).Some? &&
        value[PreOrder(nodes, f)[q]] == Eval(nodes, sin, x, PreOrder(nodes, f)[q]).value
      ensures var m := PreOrder(nodes, f)[j];
        forall i :: 0 <= i < |nodes[m].args| ==>
          Eval(nodes, sin, x, nodes[m].args[i]).Some? &&
          value[..][nodes[m].args[i]] == Eval(nodes, sin, x, nodes[m].args[i]).value
      ensures var m := PreOrder(nodes, f)[j];
        nodes[m].kind.Constant? ==> value[..][m] == nodes[m].kind.c
    {
      OperandsFollow(nodes, f, j);
    }

    /** `for n in to_visit: n.backward()`: the grads become `BackRun` of the
        old ones over the listing. */
    method BackwardPass()
      requires Valid()
      modifies grad
      ensures grad[..] == BackRun(nodes, value[..], cos, old(grad[..]), toVisit)
    {
      for j := 0 to |toVisit|
        invariant InArena(nodes, toVisit[..j])
        invariant grad[..] == BackRun(nodes, value[..], cos, old(grad[..]), toVisit[..j])
      {
        assert toVisit[..j + 1][..j] == toVisit[..j];
        Backward(toVisit[j]);
      }
      assert toVisit[..|toVisit|] == toVisit;
    }

    /** The script from `to_visit = []` on, for root `f` and input `x`:
        list, run forward, seed `f.grad = 1`, run backward. It stops with
        `ok` false where the forward pass raises `IndexError`, before any
        grad is touched. On a tree, from zero grads, every non-constant node
        ends with the chain-rule gradient of `f` at it; the grads it
        starts from are not reset, so a second run accumulates. */
    method Run(f: nat, x: seq<real>) returns (ok: bool)
      requires Valid() && f < |nodes|
      modifies this, value, grad
      ensures Valid()
      ensures toVisit == PreOrder(nodes, f)
      ensures ok <==> Eval(nodes, sin, x, f).Some?
      ensures ok ==> forall q :: 0 <= q < |toVisit| ==>
        Eval(nodes, sin, x, toVisit[q]).Some? && value[toVisit[q]] == Eval(nodes, sin, x, toVisit[q]).value
      ensures ok ==> grad[..] == BackRun(nodes, value[..], cos, old(grad[..])[f := 1.0], toVisit)
      ensures forall m :: 0 <= m < |nodes| && m !in toVisit ==> value[m] == old(value[m])
      ensures !ok ==> grad[..] == old(grad[..])
      ensures ok && TreeShaped(nodes, f) && (forall k :: 0 <= k < |nodes| ==> old(grad[k]) == 0.0) ==>
        forall k :: 0 <= k < |nodes| && !nodes[k].kind.Constant? ==>
          grad[k] == Via(nodes, value[..], cos, f, k, 1.0)
    {
      toVisit := [];
      LoopDf(f);
      ok := ForwardPass(f, x);
      if !ok {
        return;
      }
      SeededBackward(f);
    }

    /** `f.grad = 1`, then `for n in to_visit: n.backward()`. When the
        listing is the tree-shaped one from `f` and every grad started at 0,
        every non-constant node ends with the chain-rule gradient of `f` at
        it. */
    method SeededBackward(f: nat)
      requires Valid() && f < |nodes|
      modifies grad
      ensures grad[..] == BackRun(nodes, value[..], cos, old(grad[..])[f := 1.0], toVisit)
      ensures toVisit == PreOrder(nodes, f) && TreeShaped(nodes, f) &&
              (forall k :: 0 <= k < |nodes| ==> old(grad[k]) == 0.0) ==>
        forall k :: 0 <= k < |nodes| && !nodes[k].kind.Constant? ==>
          grad[k] == Via(nodes, value[..], cos, f, k, 1.0)
    {
      ghost var start := grad[..];
      grad[f] := 1.0;
      assert grad[..] == start[f := 1.0];
      BackwardPass();
      if toVisit == PreOrder(nodes, f) && TreeShaped(nodes, f) && (forall k :: 0 <= k < |nodes| ==> start[k] == 0.0) {
        TreeGradient(nodes, value[..], cos, start, f);
      }
    }

    /** The corrected backward pass: seed `f.grad = 1` and call `backward()`
        once per node, every consumer before its operands (descending
        construction order). */
    method CorrectedBackward(f: nat)
      requires Valid() && f < |nodes|
      modifies this`toVisit, grad
      ensures Valid()
      ensures toVisit == Descending(f + 1)
      ensures grad[..] == BackRun(nodes, value[..], cos, old(grad[..])[f := 1.0], toVisit)
    {
      toVisit := Descending(f + 1);
      ghost var start := grad[..];
      grad[f] := 1.0;
      assert grad[..] == start[f := 1.0];
      BackwardPass();
    }

    /** The script with the corrected backward pass. From zero grads every
        non-constant node ends with the chain-rule gradient of `f` at it,
        whether or not operators are shared. */
    method RunCorrected(f: nat, x: seq<real>) returns (ok: bool)
      requires Valid() && f < |nodes|
      modifies this, value, grad
      ensures Valid()
      ensures ok <==> Eval(nodes, sin, x, f).Some?
      ensures ok ==> forall q :: 0 <= q < |PreOrder(nodes, f)| ==>
        Eval(nodes, sin, x, PreOrder(nodes, f)[q]).Some? && value[PreOrder(nodes, f)[q]] == Eval(nodes, sin, x, PreOrder(nodes, f)[q]).value
      ensures forall m :: 0 <= m < |nodes| && m !in PreOrder(nodes, f) ==> value[m] == old(value[m])
      ensures ok ==> toVisit == Descending(f + 1)
      ensures ok ==> grad[..] == BackRun(nodes, value[..], cos, old(grad[..])[f := 1.0], toVisit)
      ensures !ok ==> toVisit == PreOrder(nodes, f) && grad[..] == old(grad[..])
      ensures ok && (forall k :: 0 <= k < |nodes| ==> old(grad[k]) == 0.0) ==>
        forall k :: 0 <= k < |nodes| && !nodes[k].kind.Constant? ==>
          grad[k] == Via(nodes, value[..], cos, f, k, 1.0)
    {
      toVisit := [];
      LoopDf(f);
      ok := ForwardPass(f, x);
      if !ok {
        return;
      }
      ghost var start := grad[..];
      CorrectedBackward(f);
      if forall k :: 0 <= k < |nodes| ==> old(grad[k]) == 0.0 {
        assert start[f := 1.0] == Seed(|nodes|, f);
        forall k | 0 <= k < |nodes| && !nodes[k].kind.Constant?
          ensures grad[k] == Via(nodes, value[..], cos, f, k, 1.0)
        {
          CorrectedGradient(nodes, value[..], cos, f, k);
        }
      }
    }
  }

  lemma SuffixCons(P: seq<nat>, j: nat)
    requires j < |P|
    ensures forall m :: m in P[j..] <==> m == P[j] || m in P[j + 1..]
  {
    assert P[j..] == [P[j]] + P[j + 1..];
  }

  /** The script's example: `f = SumExpr(MulExpr(x1, x2), SinExpr(x1))`
      with `x1 = Variable(0)`, `x2 = Variable(1)`. The grads it ends with
      are the expected `[cos(x[0]) + x[1], x[0]]` it prints beside them. */
  method Example(x: seq<real>, sin: real -> real, cos: real -> real)
    returns (grad1Exp: real, grad2Exp: real, grad1: real, grad2: real)
    requires |x| == 2
    ensures grad1Exp == cos(x[0]) + x[1] && grad2Exp == x[0]
    ensures grad1 == grad1Exp && grad2 == grad2Exp
  {
    ExampleWellFormed();
    var e := new Engine(ExampleGraph, sin, cos);
    grad1Exp := cos(x[0]) + x[1];
    grad2Exp := x[0];
    ExampleTree();
    var ok := e.Run(4, x);
    ExampleWritten(sin, x);
    assert ok;
    PreOrderExample();
    assert e.toVisit[2] == 0 && e.toVisit[3] == 1;
    assert e.value[0] == x[0] && e.value[1] == x[1];
    ExampleDerivativeX1(e.value[..], cos);
    ExampleDerivativeX2(e.value[..], cos);
    grad1 := e.grad[0];
    grad2 := e.grad[1];
  }
}
