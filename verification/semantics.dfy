/**
  Fuel-free meaning of a call. `Ap(f, x)` is what calling `f` with `x`
  eventually gives, or `Diverge` when no amount of fuel is enough; by fuel
  monotonicity it does not depend on which sufficient fuel is chosen.
  `Denote` reads a body structurally through `Ap`, and `ApUnfold` is the one
  reduction rule every law about lambda.js is derived from: a closure short
  of arguments collects one more, a saturated one means its body.
 */
module Semantics {
  import opened Syntax
  import opened Machine

  ghost predicate Halts(f: Val, x: Val) {
    exists fuel: nat :: !Apply(fuel, f, x).Diverge?
  }

  /** The outcome of the JS call `f(x)`. */
  ghost function Ap(f: Val, x: Val): Outcome {
    if Halts(f, x) then
      var fuel: nat :| !Apply(fuel, f, x).Diverge?; Apply(fuel, f, x)
    else Diverge
  }

  /** The JS call `fo(xo)` where callee and argument are themselves results
      of calls: the callee's failure comes first, then the argument's. */
  ghost function Call(fo: Outcome, xo: Outcome): Outcome {
    if !fo.Value? then fo
    else if !xo.Value? then xo
    else Ap(fo.v, xo.v)
  }

  /** `f(a)(b)`, `f(a)(b)(c)` and `f(a)(b)(c)(d)`. */
  ghost function Ap2(f: Val, a: Val, b: Val): Outcome {
    Call(Ap(f, a), Value(b))
  }

  ghost function Ap3(f: Val, a: Val, b: Val, c: Val): Outcome {
    Call(Ap2(f, a, b), Value(c))
  }

  ghost function Ap4(f: Val, a: Val, b: Val, c: Val, d: Val): Outcome {
    Call(Ap3(f, a, b, c), Value(d))
  }

  /** Meaning of a body with its parameters bound to `env`. */
  ghost function Denote(e: Expr, env: seq<Val>): Outcome {
    match e
    case Arg(i) => if i < |env| then Value(env[i]) else Stuck
    case Lit(v) => Value(v)
    case Incr(e1) => Increment(Denote(e1, env))
    case App(e1, e2) => Call(Denote(e1, env), Denote(e2, env))
  }

  /** Any run that finishes agrees with `Ap`. */
  lemma ApFuel(fuel: nat, f: Val, x: Val)
    ensures !Apply(fuel, f, x).Diverge? ==> Ap(f, x) == Apply(fuel, f, x)
  {
    if !Apply(fuel, f, x).Diverge? {
      assert Halts(f, x);
      var k: nat :| !Apply(k, f, x).Diverge? && Ap(f, x) == Apply(k, f, x);
      if k <= fuel {
        ApplyMono(k, fuel, f, x);
      } else {
        ApplyMono(fuel, k, f, x);
      }
    }
  }

  /** A finished evaluation of a body is its meaning. */
  lemma {:induction false} EvalSound(fuel: nat, e: Expr, env: seq<Val>)
    ensures !Eval(fuel, e, env).Diverge? ==> Denote(e, env) == Eval(fuel, e, env)
  {
    match e
    case Arg(_) =>
    case Lit(_) =>
    case Incr(e1) =>
      EvalSound(fuel, e1, env);
    case App(e1, e2) =>
      EvalSound(fuel, e1, env);
      EvalSound(fuel, e2, env);
      var fo := Eval(fuel, e1, env);
      var xo := Eval(fuel, e2, env);
      if fo.Value? && xo.Value? {
        ApFuel(fuel, fo.v, xo.v);
      }
  }

  /** A body whose meaning is not `Diverge` is reached by some finite fuel. */
  lemma {:induction false} EvalComplete(e: Expr, env: seq<Val>) returns (fuel: nat)
    requires !Denote(e, env).Diverge?
    ensures Eval(fuel, e, env) == Denote(e, env)
  {
    match e
    case Arg(_) =>
      fuel := 0;
    case Lit(_) =>
      fuel := 0;
    case Incr(e1) =>
      fuel := EvalComplete(e1, env);
    case App(e1, e2) =>
      var fo := Denote(e1, env);
      var f1 := EvalComplete(e1, env);
      if !fo.Value? {
        fuel := f1;
      } else {
        var xo := Denote(e2, env);
        var f2 := EvalComplete(e2, env);
        if !xo.Value? {
          fuel := if f1 <= f2 then f2 else f1;
          EvalMono(f1, fuel, e1, env);
          EvalMono(f2, fuel, e2, env);
        } else {
          assert Halts(fo.v, xo.v);
          var f3: nat :| !Apply(f3, fo.v, xo.v).Diverge?;
          ApFuel(f3, fo.v, xo.v);
          fuel := if f1 <= f2 then f2 else f1;
          fuel := if fuel <= f3 then f3 else fuel;
          EvalMono(f1, fuel, e1, env);
          EvalMono(f2, fuel, e2, env);
          ApplyMono(f3, fuel, fo.v, xo.v);
        }
      }
  }

  /** One step of the evaluator: a saturated call spends one unit of fuel
      to enter the body. */
  lemma ApplyEntersBody(fuel: nat, p: Prim, args: seq<Val>, x: Val)
    requires |args| + 1 >= Arity(p)
    ensures Apply(fuel + 1, Fn(p, args), x) == Eval(fuel, Body(p), args + [x])
  {
  }

  /** A saturated call whose body has a meaning that is not `Diverge`
      reaches it with enough fuel. */
  lemma ApSaturatedHalts(p: Prim, args: seq<Val>, x: Val)
    requires |args| + 1 >= Arity(p)
    requires !Denote(Body(p), args + [x]).Diverge?
    ensures Ap(Fn(p, args), x) == Denote(Body(p), args + [x])
  {
    var k := EvalComplete(Body(p), args + [x]);
    ApplyEntersBody(k, p, args, x);
    ApFuel(k + 1, Fn(p, args), x);
  }

  /** A saturated call whose body diverges diverges with every fuel. */
  lemma ApSaturatedDiverges(p: Prim, args: seq<Val>, x: Val)
    requires |args| + 1 >= Arity(p)
    requires Denote(Body(p), args + [x]).Diverge?
    ensures Ap(Fn(p, args), x) == Diverge
  {
    forall fuel: nat
      ensures Apply(fuel, Fn(p, args), x).Diverge?
    {
      if fuel > 0 {
        EvalSound(fuel - 1, Body(p), args + [x]);
      }
    }
  }

  /** The reduction rule of a curried definition: short of its arity it
      records the argument, otherwise it means its body. */
  lemma ApUnfold(p: Prim, args: seq<Val>, x: Val)
    ensures Ap(Fn(p, args), x) ==
            if |args| + 1 < Arity(p) then Value(Fn(p, args + [x]))
            else Denote(Body(p), args + [x])
  {
    if |args| + 1 < Arity(p) {
      ApFuel(0, Fn(p, args), x);
    } else if !Denote(Body(p), args + [x]).Diverge? {
      ApSaturatedHalts(p, args, x);
    } else {
      ApSaturatedDiverges(p, args, x);
    }
  }

  /** A host number is not a function: calling it is an error. */
  lemma ApNum(n: nat, x: Val)
    ensures Ap(Num(n), x) == Stuck
  {
    ApFuel(0, Num(n), x);
  }

  /** A definition of arity 1, 2, 3 or 4 given all its arguments one call
      at a time means its body over those arguments. */
  lemma Saturate1(p: Prim, a: Val)
    requires Arity(p) == 1
    ensures Ap(Def(p), a) == Denote(Body(p), [a])
  {
    ApUnfold(p, [], a);
    assert [] + [a] == [a];
  }

  lemma Saturate2(p: Prim, a: Val, b: Val)
    requires Arity(p) == 2
    ensures Ap(Def(p), a) == Value(Fn(p, [a]))
    ensures Ap2(Def(p), a, b) == Denote(Body(p), [a, b])
  {
    ApUnfold(p, [], a);
    assert [] + [a] == [a];
    ApUnfold(p, [a], b);
    assert [a] + [b] == [a, b];
  }

  lemma Saturate3(p: Prim, a: Val, b: Val, c: Val)
    requires Arity(p) == 3
    ensures Ap(Def(p), a) == Value(Fn(p, [a]))
    ensures Ap2(Def(p), a, b) == Value(Fn(p, [a, b]))
    ensures Ap3(Def(p), a, b, c) == Denote(Body(p), [a, b, c])
  {
    ApUnfold(p, [], a);
    assert [] + [a] == [a];
    ApUnfold(p, [a], b);
    assert [a] + [b] == [a, b];
    ApUnfold(p, [a, b], c);
    assert [a, b] + [c] == [a, b, c];
  }

  lemma Saturate4(p: Prim, a: Val, b: Val, c: Val, d: Val)
    requires Arity(p) == 4
    ensures Ap3(Def(p), a, b, c) == Value(Fn(p, [a, b, c]))
    ensures Ap4(Def(p), a, b, c, d) == Denote(Body(p), [a, b, c, d])
  {
    ApUnfold(p, [], a);
    assert [] + [a] == [a];
    ApUnfold(p, [a], b);
    assert [a] + [b] == [a, b];
    ApUnfold(p, [a, b], c);
    assert [a, b] + [c] == [a, b, c];
    ApUnfold(p, [a, b, c], d);
    assert [a, b, c] + [d] == [a, b, c, d];
  }
}
