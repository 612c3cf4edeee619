/** What the nodes compute: the value each `forward` stores, the grads each
    `backward` accumulates, and the chain-rule gradient the backward pass is
    meant to produce.

    `sin` and `cos` stand for `math.sin` and `math.cos`; they are parameters
    because Dafny knows nothing about them, and no property proved here
    depends on what they compute. */
module Semantics {
  import opened Graph

  datatype Option<T> = None | Some(value: T)

  /** Python list indexing `x[loc]`: a negative position counts from the
      end, anything outside `-len(x) .. len(x) - 1` raises `IndexError`
      (here `None`). */
  function Lookup(x: seq<real>, loc: int): (r: Option<real>)
    ensures r.Some? <==> -|x| <= loc < |x|
    ensures r.Some? ==> r.value == x[(loc + |x|) % |x|]
  {
    if 0 <= loc < |x| then Some(x[loc])
    else if -|x| <= loc < 0 then Some(x[|x| + loc])
    else None
  }

  // ---------------------------------------------------------------- forward

  /** The value node `i`'s `forward(x)` stores, reading the current values
      `val` of its operands; `None` is the `IndexError` of a variable whose
      location is outside `x`. A constant's `forward` does nothing, so its
      value stays as it is. `MulExpr.forward` adds its operands. */
  function Step(g: seq<Node>, sin: real -> real, x: seq<real>, val: seq<real>, i: nat): Option<real>
    requires WellFormed(g) && i < |g| && |val| == |g|
  {
    var cs := g[i].args;
    assert |cs| == Arity(g[i].kind);
    match g[i].kind
    case Constant(_) => Some(val[i])
    case Variable(loc) => Lookup(x, loc)
    case Mul => Some(val[cs[0]] + val[cs[1]])
    case Sin => Some(sin(val[cs[0]]))
    case Sum => Some(val[cs[0]] + val[cs[1]])
  }

  /** The value of the expression rooted at `n`, computed bottom-up as the
      forward pass does; `None` when evaluating it raises `IndexError`. */
  function Eval(g: seq<Node>, sin: real -> real, x: seq<real>, n: nat): Option<real>
    requires WellFormed(g) && n < |g|
    decreases n
  {
    var cs := g[n].args;
    assert |cs| == Arity(g[n].kind);
    match g[n].kind
    case Constant(c) => Some(c)
    case Variable(loc) => Lookup(x, loc)
    case Mul =>
      var a, b := Eval(g, sin, x, cs[0]), Eval(g, sin, x, cs[1]);
      if a.Some? && b.Some? then Some(a.value + b.value) else None
    case Sin =>
      var a := Eval(g, sin, x, cs[0]);
      if a.Some? then Some(sin(a.value)) else None
    case Sum =>
      var a, b := Eval(g, sin, x, cs[0]), Eval(g, sin, x, cs[1]);
      if a.Some? && b.Some? then Some(a.value + b.value) else None
  }

  /** A node's `forward` reads nothing but its operands' values (and, for a
      constant, its own). */
  lemma StepReadsOperands(g: seq<Node>, sin: real -> real, x: seq<real>, v: seq<real>, w: seq<real>, i: nat)
    requires WellFormed(g) && i < |g| && |v| == |g| && |w| == |g|
    requires forall j :: 0 <= j < |g[i].args| ==> v[g[i].args[j]] == w[g[i].args[j]]
    requires g[i].kind.Constant? ==> v[i] == w[i]
    ensures Step(g, sin, x, v, i) == Step(g, sin, x, w, i)
  {
    var cs := g[i].args;
    assert |cs| == Arity(g[i].kind);
    if |cs| >= 1 {
      assert v[cs[0]] == w[cs[0]];
    }
    if |cs| == 2 {
      assert v[cs[1]] == w[cs[1]];
    }
  }

  /** Once the operands hold their values, `forward` stores the node's own. */
  lemma StepAgreesWithEval(g: seq<Node>, sin: real -> real, x: seq<real>, val: seq<real>, i: nat)
    requires WellFormed(g) && i < |g| && |val| == |g|
    requires g[i].kind.Constant? ==> val[i] == g[i].kind.c
    requires forall j :: 0 <= j < |g[i].args| ==>
      Eval(g, sin, x, g[i].args[j]).Some? && val[g[i].args[j]] == Eval(g, sin, x, g[i].args[j]).value
    ensures Step(g, sin, x, val, i) == Eval(g, sin, x, i)
  {
    var cs := g[i].args;
    assert |cs| == Arity(g[i].kind);
    if |cs| >= 1 {
      assert Eval(g, sin, x, cs[0]).Some? && val[cs[0]] == Eval(g, sin, x, cs[0]).value;
    }
    if |cs| == 2 {
      assert Eval(g, sin, x, cs[1]).Some? && val[cs[1]] == Eval(g, sin, x, cs[1]).value;
    }
  }

  /** An `IndexError` anywhere in the listing stops the whole evaluation. */
  lemma {:induction false} EvalNoneSpreads(g: seq<Node>, sin: real -> real, x: seq<real>, n: nat, p: nat)
    requires WellFormed(g) && n < |g|
    requires p < |PreOrder(g, n)|
    requires Eval(g, sin, x, PreOrder(g, n)[p]).None?
    ensures Eval(g, sin, x, n).None?
    decreases n
  {
    var P := PreOrder(g, n);
    var cs := g[n].args;
    if p > 0 {
      PreOrderBlocks(g, n);
      var A := PreOrder(g, cs[0]);
      if p <= |A| {
        OccursAtIndex(A, P, 1, p - 1);
        EvalNoneSpreads(g, sin, x, cs[0], p - 1);
      } else {
        var B := PreOrder(g, cs[1]);
        OccursAtIndex(B, P, 1 + |A|, p - 1 - |A|);
        EvalNoneSpreads(g, sin, x, cs[1], p - 1 - |A|);
      }
      assert Eval(g, sin, x, n).None?;
    }
  }

  /** Every variable listed in `P` has a location inside `x`. */
  ghost predicate InputsInRange(g: seq<Node>, x: seq<real>, P: seq<nat>)
    requires InArena(g, P)
  {
    forall p :: 0 <= p < |P| && g[P[p]].kind.Variable? ==> -|x| <= g[P[p]].kind.location < |x|
  }

  lemma InputsInBlock(g: seq<Node>, x: seq<real>, S: seq<nat>, P: seq<nat>, at: nat)
    requires InArena(g, S) && InArena(g, P) && OccursAt(S, P, at)
    requires InputsInRange(g, x, P)
    ensures InputsInRange(g, x, S)
  {
    forall q | 0 <= q < |S| && g[S[q]].kind.Variable?
      ensures -|x| <= g[S[q]].kind.location < |x|
    {
      OccursAtIndex(S, P, at, q);
    }
  }

  /** The forward pass raises `IndexError` exactly when some variable it
      visits indexes outside `x`: otherwise every node gets a value. */
  lemma EvalDefinedIff(g: seq<Node>, sin: real -> real, x: seq<real>, n: nat)
    requires WellFormed(g) && n < |g|
    ensures Eval(g, sin, x, n).Some? <==> InputsInRange(g, x, PreOrder(g, n))
  {
    var P := PreOrder(g, n);
    if InputsInRange(g, x, P) {
      InputsGiveValue(g, sin, x, n);
    } else {
      var p :| 0 <= p < |P| && g[P[p]].kind.Variable? && !(-|x| <= g[P[p]].kind.location < |x|);
      assert Eval(g, sin, x, P[p]).None?;
      EvalNoneSpreads(g, sin, x, n, p);
    }
  }

  lemma {:induction false} InputsGiveValue(g: seq<Node>, sin: real -> real, x: seq<real>, n: nat)
    requires WellFormed(g) && n < |g| && InputsInRange(g, x, PreOrder(g, n))
    ensures Eval(g, sin, x, n).Some?
    decreases n
  {
    var P := PreOrder(g, n);
    var cs := g[n].args;
    assert |cs| == Arity(g[n].kind);
    PreOrderBlocks(g, n);
    if |cs| >= 1 {
      InputsInBlock(g, x, PreOrder(g, cs[0]), P, 1);
      InputsGiveValue(g, sin, x, cs[0]);
    }
    if |cs| == 2 {
      InputsInBlock(g, x, PreOrder(g, cs[1]), P, 1 + |PreOrder(g, cs[0])|);
      InputsGiveValue(g, sin, x, cs[1]);
    }
    assert P[0] == n;
  }

  // --------------------------------------------------------------- backward

  /** The local derivative each `backward` multiplies the consumer's grad
      by, for operand `j`: the other factor for `MulExpr` (product rule),
      `cos` of the operand for `SinExpr`, `1` for `SumExpr`. */
  function Partial(g: seq<Node>, val: seq<real>, cos: real -> real, n: nat, j: nat): real
    requires WellFormed(g) && n < |g| && |val| == |g| && j < |g[n].args|
  {
    var cs := g[n].args;
    assert |cs| == Arity(g[n].kind);
    match g[n].kind
    case Constant(_) => 0.0
    case Variable(_) => 0.0
    case Mul => if j == 0 then val[cs[1]] else val[cs[0]]
    case Sin => cos(val[cs[0]])
    case Sum => 1.0
  }

  /** The grads after node `i`'s `backward()`, the updates done one after
      the other exactly as written (so `MulExpr(x, x)` adds to `x.grad`
      twice). A constant resets its own grad to 0; a variable does nothing. */
  function BackStep(g: seq<Node>, val: seq<real>, cos: real -> real, gr: seq<real>, i: nat): (r: seq<real>)
    requires WellFormed(g) && i < |g| && |val| == |g| && |gr| == |g|
    ensures |r| == |g|
  {
    var cs := g[i].args;
    assert |cs| == Arity(g[i].kind);
    match g[i].kind
    case Constant(_) => gr[i := 0.0]
    case Variable(_) => gr
    case Mul =>
      var l, r := cs[0], cs[1];
      var g1 := gr[l := gr[l] + val[r] * gr[i]];
      g1[r := g1[r] + val[l] * g1[i]]
    case Sin =>
      var e := cs[0];
      gr[e := gr[e] + cos(val[e]) * gr[i]]
    case Sum =>
      var l, r := cs[0], cs[1];
      var g1 := gr[l := gr[l] + 1.0 * gr[i]];
      g1[r := g1[r] + 1.0 * g1[i]]
  }

  /** The part of a grad `s` at `n` that `backward()` hands to operand
      slot `j`: the slot's partial times `s`. */
  function Pass(g: seq<Node>, val: seq<real>, cos: real -> real, n: nat, j: nat, s: real): real
    requires WellFormed(g) && n < |g| && |val| == |g| && j < |g[n].args|
  {
    Partial(g, val, cos, n, j) * s
  }

  /** What node `n` with grad `s` passes on to node `k`: the sum, over the
      operand slots that hold `k`, of that slot's partial times `s`. */
  function Flow(g: seq<Node>, val: seq<real>, cos: real -> real, n: nat, k: nat, s: real): real
    requires WellFormed(g) && n < |g| && |val| == |g|
  {
    var cs := g[n].args;
    (if |cs| >= 1 && cs[0] == k then Pass(g, val, cos, n, 0, s) else 0.0) +
    (if |cs| == 2 && cs[1] == k then Pass(g, val, cos, n, 1, s) else 0.0)
  }

  /** `backward()` of node `i` adds to each node what `i` passes on to it,
      and nothing else, except that a constant's own grad becomes 0. */
  lemma BackStepAdds(g: seq<Node>, val: seq<real>, cos: real -> real, gr: seq<real>, i: nat)
    requires WellFormed(g) && i < |g| && |val| == |g| && |gr| == |g|
    ensures forall k :: 0 <= k < |g| ==>
      BackStep(g, val, cos, gr, i)[k] ==
        if k == i && g[i].kind.Constant? then 0.0 else gr[k] + Flow(g, val, cos, i, k, gr[i])
  {
    var cs := g[i].args;
    assert |cs| == Arity(g[i].kind);
    assert forall j :: 0 <= j < |cs| ==> cs[j] < i;
  }

  /** The grads after running `backward()` on every node of `P` in order. */
  function BackRun(g: seq<Node>, val: seq<real>, cos: real -> real, gr: seq<real>, P: seq<nat>): (r: seq<real>)
    requires WellFormed(g) && |val| == |g| && |gr| == |g| && InArena(g, P)
    ensures |r| == |g|
    decreases |P|
  {
    if P == [] then gr
    else BackStep(g, val, cos, BackRun(g, val, cos, gr, P[..|P| - 1]), P[|P| - 1])
  }

  lemma InArenaAppend(g: seq<Node>, A: seq<nat>, B: seq<nat>)
    requires InArena(g, A) && InArena(g, B)
    ensures InArena(g, A + B)
  {
    assert forall i :: 0 <= i < |A| ==> (A + B)[i] == A[i];
    assert forall i :: |A| <= i < |A + B| ==> (A + B)[i] == B[i - |A|];
  }

  /** Running two lists one after the other is running their concatenation. */
  lemma {:induction false} BackRunAppend(g: seq<Node>, val: seq<real>, cos: real -> real, gr: seq<real>, A: seq<nat>, B: seq<nat>)
    requires WellFormed(g) && |val| == |g| && |gr| == |g| && InArena(g, A) && InArena(g, B)
    ensures InArena(g, A + B)
    ensures BackRun(g, val, cos, gr, A + B) == BackRun(g, val, cos, BackRun(g, val, cos, gr, A), B)
    decreases |B|
  {
    InArenaAppend(g, A, B);
    if B == [] {
      assert A + B == A;
    } else {
      var B' := B[..|B| - 1];
      assert (A + B)[..|A + B| - 1] == A + B';
      assert (A + B)[|A + B| - 1] == B[|B| - 1];
      BackRunAppend(g, val, cos, gr, A, B');
    }
  }

  lemma BackRunSingle(g: seq<Node>, val: seq<real>, cos: real -> real, gr: seq<real>, n: nat)
    requires WellFormed(g) && |val| == |g| && |gr| == |g| && n < |g|
    ensures InArena(g, [n])
    ensures BackRun(g, val, cos, gr, [n]) == BackStep(g, val, cos, gr, n)
  {
    assert [n][..0] == [];
  }

  // ------------------------------------------------------------ chain rule

  /** Chain rule, summed over the paths leaving `n` through its operands:
      what a grad `s` sitting at `n` contributes to the grad of `k`.
      Mutually recursive with `Via`. */
  function Below(g: seq<Node>, val: seq<real>, cos: real -> real, n: nat, k: nat, s: real): real
    requires WellFormed(g) && n < |g| && |val| == |g|
    decreases n, 0
  {
    var cs := g[n].args;
    if |cs| == 0 then 0.0
    else if |cs| == 1 then Via(g, val, cos, cs[0], k, Pass(g, val, cos, n, 0, s))
    else Via(g, val, cos, cs[0], k, Pass(g, val, cos, n, 0, s)) +
         Via(g, val, cos, cs[1], k, Pass(g, val, cos, n, 1, s))
  }

  /** What a grad `t` arriving at `c` contributes to the grad of `k`:
      all of it if `c` is `k`, plus what flows on below `c`. `Via(f, k, 1)`,
      the chain-rule gradient of `f` at `k`, is the sum over the paths from
      `f` to `k` of the products of the local partials that `backward`
      applies. Those partials are the product rule at `MulExpr` and `cos`
      at `SinExpr`, so this is the derivative of the root of `EvalProduct`
      (not of `Eval`, whose `MulExpr` adds) only when `cos` is the
      derivative of `sin`, which the model does not assume. */
  function Via(g: seq<Node>, val: seq<real>, cos: real -> real, c: nat, k: nat, t: real): real
    requires WellFormed(g) && c < |g| && |val| == |g|
    decreases c, 1
  {
    (if c == k then t else 0.0) + Below(g, val, cos, c, k, t)
  }

  /** A pass over `n`'s listing changes no grad outside that listing. */
  lemma {:induction false} PreOrderUntouched(g: seq<Node>, val: seq<real>, cos: real -> real, gr: seq<real>, n: nat, k: nat)
    requires WellFormed(g) && |val| == |g| && |gr| == |g| && n < |g|
    requires k < |g| && k !in PreOrder(g, n)
    ensures BackRun(g, val, cos, gr, PreOrder(g, n))[k] == gr[k]
    decreases n
  {
    var cs := g[n].args;
    assert |cs| == Arity(g[n].kind);
    BackRunSingle(g, val, cos, gr, n);
    BackStepAdds(g, val, cos, gr, n);
    var gr1 := BackStep(g, val, cos, gr, n);
    if |cs| == 0 {
      assert PreOrder(g, n) == [n];
      assert gr1[k] == gr[k];
    } else if |cs| == 1 {
      var A := PreOrder(g, cs[0]);
      assert PreOrder(g, n) == [n] + A;
      assert A[0] == cs[0];
      assert gr1[k] == gr[k];
      BackRunAppend(g, val, cos, gr, [n], A);
      PreOrderUntouched(g, val, cos, gr1, cs[0], k);
      assert BackRun(g, val, cos, gr, PreOrder(g, n))[k] == gr[k];
    } else {
      var A, B := PreOrder(g, cs[0]), PreOrder(g, cs[1]);
      assert PreOrder(g, n) == [n] + A + B;
      assert A[0] == cs[0] && B[0] == cs[1];
      assert gr1[k] == gr[k];
      BackRunAppend(g, val, cos, gr, [n], A);
      BackRunAppend(g, val, cos, gr, [n] + A, B);
      PreOrderUntouched(g, val, cos, gr1, cs[0], k);
      PreOrderUntouched(g, val, cos, BackRun(g, val, cos, gr1, A), cs[1], k);
      assert BackRun(g, val, cos, gr, PreOrder(g, n))[k] == gr[k];
    }
  }

  /** Every constant the pass visits ends with grad 0: each time a
      consumer adds to it, the constant's own `backward` follows and
      resets it. */
  lemma {:induction false} ConstantsCleared(g: seq<Node>, val: seq<real>, cos: real -> real, gr: seq<real>, n: nat, k: nat)
    requires WellFormed(g) && |val| == |g| && |gr| == |g| && n < |g|
    requires k in PreOrder(g, n) && g[k].kind.Constant?
    ensures BackRun(g, val, cos, gr, PreOrder(g, n))[k] == 0.0
    decreases n
  {
    var cs := g[n].args;
    assert |cs| == Arity(g[n].kind);
    BackRunSingle(g, val, cos, gr, n);
    BackStepAdds(g, val, cos, gr, n);
    var gr1 := BackStep(g, val, cos, gr, n);
    if |cs| == 0 {
      assert PreOrder(g, n) == [n];
    } else if |cs| == 1 {
      var A := PreOrder(g, cs[0]);
      assert PreOrder(g, n) == [n] + A;
      BackRunAppend(g, val, cos, gr, [n], A);
      ConstantsCleared(g, val, cos, gr1, cs[0], k);
    } else {
      var A, B := PreOrder(g, cs[0]), PreOrder(g, cs[1]);
      assert PreOrder(g, n) == [n] + A + B;
      BackRunAppend(g, val, cos, gr, [n], A);
      BackRunAppend(g, val, cos, gr, [n] + A, B);
      var gr2 := BackRun(g, val, cos, gr1, A);
      if k in B {
        ConstantsCleared(g, val, cos, gr2, cs[1], k);
      } else {
        ConstantsCleared(g, val, cos, gr1, cs[0], k);
        PreOrderUntouched(g, val, cos, gr2, cs[1], k);
      }
    }
  }

  /** The operator nodes below `n` in its listing start with grad 0. */
  ghost predicate ZeroInterior(g: seq<Node>, gr: seq<real>, n: nat)
    requires Acyclic(g) && |gr| == |g| && n < |g|
  {
    forall m :: m in PreOrder(g, n) && m != n && !IsLeaf(g[m]) ==> gr[m] == 0.0
  }

  /** On a tree-shaped listing (only leaves shared), the backward pass as
      written leaves every variable and operator `k` with its starting
      grad plus the chain-rule gradient of `n` at `k`, scaled by `n`'s
      grad. */
  lemma {:induction false} TreeBackward(g: seq<Node>, val: seq<real>, cos: real -> real, gr: seq<real>, n: nat)
    requires WellFormed(g) && |val| == |g| && |gr| == |g| && n < |g|
    requires TreeShaped(g, n) && ZeroInterior(g, gr, n)
    ensures forall k :: 0 <= k < |g| && !g[k].kind.Constant? ==>
      BackRun(g, val, cos, gr, PreOrder(g, n))[k] == gr[k] + Below(g, val, cos, n, k, gr[n])
    decreases n, 1
  {
    var cs := g[n].args;
    assert |cs| == Arity(g[n].kind);
    if |cs| == 0 {
      BackRunSingle(g, val, cos, gr, n);
      BackStepAdds(g, val, cos, gr, n);
      assert PreOrder(g, n) == [n];
    } else if |cs| == 1 {
      TreeUnary(g, val, cos, gr, n);
    } else {
      TreeBinary(g, val, cos, gr, n);
    }
  }

  lemma {:induction false} TreeUnary(g: seq<Node>, val: seq<real>, cos: real -> real, gr: seq<real>, n: nat)
    requires WellFormed(g) && |val| == |g| && |gr| == |g| && n < |g| && |g[n].args| == 1
    requires TreeShaped(g, n) && ZeroInterior(g, gr, n)
    ensures forall k :: 0 <= k < |g| && !g[k].kind.Constant? ==>
      BackRun(g, val, cos, gr, PreOrder(g, n))[k] == gr[k] + Below(g, val, cos, n, k, gr[n])
    decreases n, 0
  {
    var P := PreOrder(g, n);
    var c0 := g[n].args[0];
    var A := PreOrder(g, c0);
    BackRunSingle(g, val, cos, gr, n);
    BackStepAdds(g, val, cos, gr, n);
    var gr1 := BackStep(g, val, cos, gr, n);
    UnaryShape(g, n);
    assert forall m :: m in A && m != c0 && !IsLeaf(g[m]) ==> gr1[m] == gr[m];
    TreeBackward(g, val, cos, gr1, c0);
    BackRunAppend(g, val, cos, gr, [n], A);
    forall k | 0 <= k < |g| && !g[k].kind.Constant?
      ensures BackRun(g, val, cos, gr, P)[k] == gr[k] + Below(g, val, cos, n, k, gr[n])
    {
      UnaryCombine(g, val, cos, gr, n, k, gr1, BackRun(g, val, cos, gr1, A));
    }
  }

  /** The listing facts the unary case needs. */
  lemma UnaryShape(g: seq<Node>, n: nat)
    requires WellFormed(g) && n < |g| && |g[n].args| == 1
    requires TreeShaped(g, n)
    ensures PreOrder(g, n) == [n] + PreOrder(g, g[n].args[0])
    ensures TreeShaped(g, g[n].args[0])
    ensures forall m :: m in PreOrder(g, g[n].args[0]) ==> m in PreOrder(g, n) && m != n
  {
    var c0 := g[n].args[0];
    var A := PreOrder(g, c0);
    assert PreOrder(g, n) == [n] + A;
    PreOrderBounded(g, c0);
    NoRepeatedSplit(g, [n], A);
  }

  lemma UnaryCombine(g: seq<Node>, val: seq<real>, cos: real -> real, gr: seq<real>, n: nat, k: nat,
                     gr1: seq<real>, gr2: seq<real>)
    requires WellFormed(g) && |val| == |g| && |gr| == |g| && n < |g| && |g[n].args| == 1
    requires k < |g| && |gr1| == |g| && |gr2| == |g|
    requires gr1[k] == gr[k] + Flow(g, val, cos, n, k, gr[n])
    requires gr1[g[n].args[0]] == gr[g[n].args[0]] + Flow(g, val, cos, n, g[n].args[0], gr[n])
    requires IsLeaf(g[g[n].args[0]]) || gr[g[n].args[0]] == 0.0
    requires gr2[k] == gr1[k] + Below(g, val, cos, g[n].args[0], k, gr1[g[n].args[0]])
    ensures gr2[k] == gr[k] + Below(g, val, cos, n, k, gr[n])
  {
    var c0 := g[n].args[0];
    var t0 := Pass(g, val, cos, n, 0, gr[n]);
    if IsLeaf(g[c0]) {
      assert |g[c0].args| == Arity(g[c0].kind);
      assert Below(g, val, cos, c0, k, gr1[c0]) == 0.0 == Below(g, val, cos, c0, k, t0);
    } else {
      assert gr1[c0] == t0;
    }
  }

  lemma {:induction false} TreeBinary(g: seq<Node>, val: seq<real>, cos: real -> real, gr: seq<real>, n: nat)
    requires WellFormed(g) && |val| == |g| && |gr| == |g| && n < |g| && |g[n].args| == 2
    requires TreeShaped(g, n) && ZeroInterior(g, gr, n)
    ensures forall k :: 0 <= k < |g| && !g[k].kind.Constant? ==>
      BackRun(g, val, cos, gr, PreOrder(g, n))[k] == gr[k] + Below(g, val, cos, n, k, gr[n])
    decreases n, 0
  {
    var P := PreOrder(g, n);
    var c0, c1 := g[n].args[0], g[n].args[1];
    var A, B := PreOrder(g, c0), PreOrder(g, c1);
    BackRunSingle(g, val, cos, gr, n);
    BackStepAdds(g, val, cos, gr, n);
    var gr1 := BackStep(g, val, cos, gr, n);
    BinaryShape(g, n);
    assert A[0] == c0 && B[0] == c1;
    ZeroInteriorFrom(g, gr, gr1, n, c0);
    TreeBackward(g, val, cos, gr1, c0);
    var gr2 := BackRun(g, val, cos, gr1, A);
    forall m | m in B && !IsLeaf(g[m])
      ensures gr2[m] == gr1[m]
    {
      PreOrderUntouched(g, val, cos, gr1, c0, m);
    }
    ZeroInteriorFrom(g, gr, gr2, n, c1);
    TreeBackward(g, val, cos, gr2, c1);
    var gr3 := BackRun(g, val, cos, gr2, B);
    BackRunAppend(g, val, cos, gr, [n], A);
    BackRunAppend(g, val, cos, gr, [n] + A, B);
    assert BackRun(g, val, cos, gr, P) == gr3;
    assert |g[n].args| == Arity(g[n].kind);
    assert forall m :: 0 <= m < |g| ==> gr1[m] == gr[m] + Flow(g, val, cos, n, m, gr[n]);
    assert c0 in A && c0 in P && c0 != n;
    assert c1 in B && c1 in P && c1 != n;
    assert IsLeaf(g[c0]) || gr[c0] == 0.0;
    assert IsLeaf(g[c1]) || (gr[c1] == 0.0 && gr2[c1] == gr1[c1]);
    assert IsLeaf(g[c0]) || c0 != c1;
    BinaryFinish(g, val, cos, gr, n, gr1, gr2, gr3);
  }

  /** Grads of the operators below `c` are unchanged from `gr`, which held
      zeros below `n`; so they are zeros below `c`. */
  lemma ZeroInteriorFrom(g: seq<Node>, gr: seq<real>, gr': seq<real>, n: nat, c: nat)
    requires WellFormed(g) && |gr| == |g| && |gr'| == |g| && n < |g| && c < |g|
    requires ZeroInterior(g, gr, n)
    requires forall m :: m in PreOrder(g, c) ==> m in PreOrder(g, n) && m != n
    requires forall m :: m in PreOrder(g, c) && m != c && !IsLeaf(g[m]) ==> gr'[m] == gr[m]
    ensures ZeroInterior(g, gr', c)
  {
  }

  lemma BinaryFinish(g: seq<Node>, val: seq<real>, cos: real -> real, gr: seq<real>, n: nat,
                     gr1: seq<real>, gr2: seq<real>, gr3: seq<real>)
    requires WellFormed(g) && |val| == |g| && |gr| == |g| && n < |g| && |g[n].args| == 2
    requires |gr1| == |g| && |gr2| == |g| && |gr3| == |g|
    requires forall m :: 0 <= m < |g| ==> gr1[m] == gr[m] + Flow(g, val, cos, n, m, gr[n])
    requires IsLeaf(g[g[n].args[0]]) || gr[g[n].args[0]] == 0.0
    requires IsLeaf(g[g[n].args[1]]) || (gr[g[n].args[1]] == 0.0 && gr2[g[n].args[1]] == gr1[g[n].args[1]])
    requires IsLeaf(g[g[n].args[0]]) || g[n].args[0] != g[n].args[1]
    requires forall k :: 0 <= k < |g| && !g[k].kind.Constant? ==>
      gr2[k] == gr1[k] + Below(g, val, cos, g[n].args[0], k, gr1[g[n].args[0]])
    requires forall k :: 0 <= k < |g| && !g[k].kind.Constant? ==>
      gr3[k] == gr2[k] + Below(g, val, cos, g[n].args[1], k, gr2[g[n].args[1]])
    ensures forall k :: 0 <= k < |g| && !g[k].kind.Constant? ==>
      gr3[k] == gr[k] + Below(g, val, cos, n, k, gr[n])
  {
    forall k | 0 <= k < |g| && !g[k].kind.Constant?
      ensures gr3[k] == gr[k] + Below(g, val, cos, n, k, gr[n])
    {
      BinaryCombine(g, val, cos, gr, n, k, gr1, gr2, gr3);
    }
  }

  /** The listing facts the binary case needs: the two operand listings
      follow the node, each is tree-shaped, and they share only leaves. */
  lemma BinaryShape(g: seq<Node>, n: nat)
    requires WellFormed(g) && n < |g| && |g[n].args| == 2
    requires TreeShaped(g, n)
    ensures PreOrder(g, n) == [n] + PreOrder(g, g[n].args[0]) + PreOrder(g, g[n].args[1])
    ensures TreeShaped(g, g[n].args[0]) && TreeShaped(g, g[n].args[1])
    ensures forall m :: m in PreOrder(g, g[n].args[0]) ==> m in PreOrder(g, n) && m != n
    ensures forall m :: m in PreOrder(g, g[n].args[1]) ==> m in PreOrder(g, n) && m != n
    ensures forall m :: m in PreOrder(g, g[n].args[0]) && m in PreOrder(g, g[n].args[1]) ==> IsLeaf(g[m])
  {
    var c0, c1 := g[n].args[0], g[n].args[1];
    var A, B := PreOrder(g, c0), PreOrder(g, c1);
    assert PreOrder(g, n) == [n] + A + B;
    PreOrderBounded(g, c0);
    PreOrderBounded(g, c1);
    InArenaAppend(g, [n], A);
    NoRepeatedSplit(g, [n] + A, B);
    NoRepeatedSplit(g, [n], A);
  }

  lemma BinaryCombine(g: seq<Node>, val: seq<real>, cos: real -> real, gr: seq<real>, n: nat, k: nat,
                      gr1: seq<real>, gr2: seq<real>, gr3: seq<real>)
    requires WellFormed(g) && |val| == |g| && |gr| == |g| && n < |g| && |g[n].args| == 2
    requires k < |g| && |gr1| == |g| && |gr2| == |g| && |gr3| == |g|
    requires gr1[k] == gr[k] + Flow(g, val, cos, n, k, gr[n])
    requires gr1[g[n].args[0]] == gr[g[n].args[0]] + Flow(g, val, cos, n, g[n].args[0], gr[n])
    requires gr1[g[n].args[1]] == gr[g[n].args[1]] + Flow(g, val, cos, n, g[n].args[1], gr[n])
    requires IsLeaf(g[g[n].args[0]]) || gr[g[n].args[0]] == 0.0
    requires IsLeaf(g[g[n].args[1]]) || (gr[g[n].args[1]] == 0.0 && gr2[g[n].args[1]] == gr1[g[n].args[1]])
    requires IsLeaf(g[g[n].args[0]]) || g[n].args[0] != g[n].args[1]
    requires gr2[k] == gr1[k] + Below(g, val, cos, g[n].args[0], k, gr1[g[n].args[0]])
    requires gr3[k] == gr2[k] + Below(g, val, cos, g[n].args[1], k, gr2[g[n].args[1]])
    ensures gr3[k] == gr[k] + Below(g, val, cos, n, k, gr[n])
  {
    var c0, c1 := g[n].args[0], g[n].args[1];
    var t0 := Pass(g, val, cos, n, 0, gr[n]);
    var t1 := Pass(g, val, cos, n, 1, gr[n]);
    var f0 := if c0 == k then t0 else 0.0;
    var f1 := if c1 == k then t1 else 0.0;
    assert Flow(g, val, cos, n, k, gr[n]) == f0 + f1;
    assert Below(g, val, cos, n, k, gr[n]) == Via(g, val, cos, c0, k, t0) + Via(g, val, cos, c1, k, t1);
    assert Via(g, val, cos, c0, k, t0) == f0 + Below(g, val, cos, c0, k, t0);
    assert Via(g, val, cos, c1, k, t1) == f1 + Below(g, val, cos, c1, k, t1);
    var b0, b1 := Below(g, val, cos, c0, k, gr1[c0]), Below(g, val, cos, c1, k, gr2[c1]);
    if IsLeaf(g[c0]) {
      assert |g[c0].args| == Arity(g[c0].kind);
      assert b0 == 0.0 == Below(g, val, cos, c0, k, t0);
    } else {
      assert c0 != c1;
      assert Flow(g, val, cos, n, c0, gr[n]) == t0;
      assert gr1[c0] == t0;
      assert b0 == Below(g, val, cos, c0, k, t0);
    }
    if IsLeaf(g[c1]) {
      assert |g[c1].args| == Arity(g[c1].kind);
      assert b1 == 0.0 == Below(g, val, cos, c1, k, t1);
    } else {
      assert Flow(g, val, cos, n, c1, gr[n]) == t1;
      assert gr2[c1] == t1;
      assert b1 == Below(g, val, cos, c1, k, t1);
    }
    assert gr3[k] == gr[k] + f0 + f1 + b0 + b1;
  }

  /** Nothing flows from `n` to a node built after it, or to itself. */
  lemma {:induction false} BelowAbove(g: seq<Node>, val: seq<real>, cos: real -> real, n: nat, k: nat, s: real)
    requires WellFormed(g) && |val| == |g| && n < |g| && n <= k
    ensures Below(g, val, cos, n, k, s) == 0.0
    decreases n
  {
    var cs := g[n].args;
    assert |cs| == Arity(g[n].kind);
    if |cs| >= 1 {
      BelowAbove(g, val, cos, cs[0], k, Pass(g, val, cos, n, 0, s));
    }
    if |cs| == 2 {
      BelowAbove(g, val, cos, cs[1], k, Pass(g, val, cos, n, 1, s));
    }
  }

  /** The grads when `f.grad = 1` is set on an arena whose grads are all 0. */
  function Seed(size: nat, f: nat): seq<real>
  {
    seq(size, k => if k == f then 1.0 else 0.0)
  }

  /** On a tree, the pass as written, started from zero grads with
      `f.grad = 1`, ends with every non-constant node holding the
      chain-rule gradient of the root `f` at it. */
  lemma TreeGradient(g: seq<Node>, val: seq<real>, cos: real -> real, gr: seq<real>, f: nat)
    requires WellFormed(g) && |val| == |g| && |gr| == |g| && f < |g| && TreeShaped(g, f)
    requires forall k :: 0 <= k < |g| ==> gr[k] == 0.0
    ensures forall k :: 0 <= k < |g| && !g[k].kind.Constant? ==>
      BackRun(g, val, cos, gr[f := 1.0], PreOrder(g, f))[k] == Via(g, val, cos, f, k, 1.0)
  {
    var seed := gr[f := 1.0];
    assert ZeroInterior(g, seed, f);
    TreeBackward(g, val, cos, seed, f);
    forall k | 0 <= k < |g| && !g[k].kind.Constant?
      ensures BackRun(g, val, cos, seed, PreOrder(g, f))[k] == Via(g, val, cos, f, k, 1.0)
    {
      if k == f {
        BelowAbove(g, val, cos, f, k, 1.0);
      }
    }
  }

  /** Visiting `i` first, then the rest. */
  lemma BackRunCons(g: seq<Node>, val: seq<real>, cos: real -> real, gr: seq<real>, i: nat, P: seq<nat>)
    requires WellFormed(g) && |val| == |g| && |gr| == |g| && i < |g| && InArena(g, P)
    ensures InArena(g, [i] + P)
    ensures BackRun(g, val, cos, gr, [i] + P) == BackRun(g, val, cos, BackStep(g, val, cos, gr, i), P)
  {
    BackRunSingle(g, val, cos, gr, i);
    BackRunAppend(g, val, cos, gr, [i], P);
  }

  /** One pass over the listing `[1, 0, 0]` of `s = SumExpr(x, x)`. */
  lemma DoubledInnerRun(g: seq<Node>, val: seq<real>, cos: real -> real, gr: seq<real>)
    requires g == [Node(Variable(0), []), Node(Sum, [0, 0]), Node(Sum, [1, 1])]
    requires |val| == 3 && |gr| == 3
    ensures WellFormed(g) && InArena(g, [1, 0, 0])
    ensures BackRun(g, val, cos, gr, [1, 0, 0])[0] == gr[0] + 2.0 * gr[1]
    ensures BackRun(g, val, cos, gr, [1, 0, 0])[1] == gr[1]
  {
    assert WellFormed(g);
    var t := BackStep(g, val, cos, gr, 1);
    assert t[0] == gr[0] + 2.0 * gr[1] && t[1] == gr[1];
    assert BackStep(g, val, cos, t, 0) == t;
    BackRunSingle(g, val, cos, t, 0);
    assert BackRun(g, val, cos, t, [0]) == t;
    BackRunCons(g, val, cos, t, 0, [0]);
    assert [0] + [0] == [0, 0];
    assert BackRun(g, val, cos, t, [0, 0]) == t;
    BackRunCons(g, val, cos, gr, 1, [0, 0]);
    assert [1] + [0, 0] == [1, 0, 0];
    assert BackRun(g, val, cos, gr, [1, 0, 0]) == t;
  }

  /** Down from `s = SumExpr(x, x)`, a grad `t` reaches `x` twice. */
  lemma DoubledInnerVia(g: seq<Node>, val: seq<real>, cos: real -> real, t: real)
    requires g == [Node(Variable(0), []), Node(Sum, [0, 0]), Node(Sum, [1, 1])]
    requires |val| == 3
    ensures WellFormed(g)
    ensures Via(g, val, cos, 1, 0, t) == 2.0 * t
  {
    assert WellFormed(g);
    assert Pass(g, val, cos, 1, 0, t) == t && Pass(g, val, cos, 1, 1, t) == t;
    assert Below(g, val, cos, 0, 0, t) == 0.0;
    assert Via(g, val, cos, 0, 0, t) == t;
    assert Below(g, val, cos, 1, 0, t) == Via(g, val, cos, 0, 0, t) + Via(g, val, cos, 0, 0, t);
  }

  /** Down from `f = SumExpr(s, s)`, the derivative with respect to `x` is 4. */
  lemma DoubledOuterVia(g: seq<Node>, val: seq<real>, cos: real -> real)
    requires g == [Node(Variable(0), []), Node(Sum, [0, 0]), Node(Sum, [1, 1])]
    requires |val| == 3
    ensures WellFormed(g)
    ensures Via(g, val, cos, 2, 0, 1.0) == 4.0
  {
    assert WellFormed(g);
    assert Pass(g, val, cos, 2, 0, 1.0) == 1.0 && Pass(g, val, cos, 2, 1, 1.0) == 1.0;
    DoubledInnerVia(g, val, cos, 1.0);
    assert Below(g, val, cos, 2, 0, 1.0) == Via(g, val, cos, 1, 0, 1.0) + Via(g, val, cos, 1, 0, 1.0);
  }

  /** When an operator node is reached along two paths, the pass as written
      runs its `backward` twice, each time passing on its whole accumulated
      grad. With `x`, `s = SumExpr(x, x)` and `f = SumExpr(s, s)`, `df/dx`
      is 4 but `x.grad` ends at 8. */
  lemma SharedInteriorOvercounts(g: seq<Node>, val: seq<real>, cos: real -> real)
    requires g == [Node(Variable(0), []), Node(Sum, [0, 0]), Node(Sum, [1, 1])]
    requires |val| == 3
    ensures WellFormed(g)
    ensures PreOrder(g, 2) == [2, 1, 0, 0, 1, 0, 0] && !TreeShaped(g, 2)
    ensures BackRun(g, val, cos, [0.0, 0.0, 1.0], PreOrder(g, 2))[0] == 8.0
    ensures Via(g, val, cos, 2, 0, 1.0) == 4.0
  {
    assert WellFormed(g);
    assert PreOrder(g, 0) == [0];
    assert PreOrder(g, 1) == [1, 0, 0];
    var P := PreOrder(g, 2);
    assert P == [2, 1, 0, 0, 1, 0, 0];
    assert P[1] == P[4] && !IsLeaf(g[1]);
    var A := [1, 0, 0];
    assert P == [2] + A + A;
    var s0 := [0.0, 0.0, 1.0];
    var s1 := BackStep(g, val, cos, s0, 2);
    assert s1[0] == 0.0 && s1[1] == 2.0;
    BackRunCons(g, val, cos, s0, 2, A + A);
    assert [2] + A + A == [2] + (A + A);
    BackRunAppend(g, val, cos, s1, A, A);
    DoubledInnerRun(g, val, cos, s1);
    DoubledInnerRun(g, val, cos, BackRun(g, val, cos, s1, A));
    DoubledOuterVia(g, val, cos);
  }
}
