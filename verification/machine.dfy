/**
  A strict evaluator for the values of lambda.js, the way a JavaScript engine
  runs the arrow functions: a call first evaluates the callee, then the
  argument, then enters the function. A closure that has not yet received all
  its curried parameters just records the new argument; a saturated one runs
  its body. Untyped self-application can run forever (`M(M)`), so evaluation
  carries fuel, spent once per function body entered; running out is reported
  as `Diverge`.
 */
module Machine {
  import opened Syntax

  /** Call `f` with argument `x`. */
  function Apply(fuel: nat, f: Val, x: Val): Outcome
    decreases fuel, 0
  {
    match f
    case Num(_) => Stuck
    case Fn(p, args) =>
      if |args| + 1 < Arity(p) then Value(Fn(p, args + [x]))
      else if fuel == 0 then Diverge
      else Eval(fuel - 1, Body(p), args + [x])
  }

  /** Evaluate a body with its parameters bound to `env`. */
  function Eval(fuel: nat, e: Expr, env: seq<Val>): Outcome
    decreases fuel, 1, e
  {
    match e
    case Arg(i) => if i < |env| then Value(env[i]) else Stuck
    case Lit(v) => Value(v)
    case Incr(e1) => Increment(Eval(fuel, e1, env))
    case App(e1, e2) =>
      var fo := Eval(fuel, e1, env);
      if !fo.Value? then fo
      else
        var xo := Eval(fuel, e2, env);
        if !xo.Value? then xo else Apply(fuel, fo.v, xo.v)
  }

  /** More fuel never changes an outcome that was reached: the evaluator is
      deterministic and fuel only bounds how long it may run. */
  lemma {:induction false} ApplyMono(fuel: nat, more: nat, f: Val, x: Val)
    requires fuel <= more
    ensures !Apply(fuel, f, x).Diverge? ==> Apply(more, f, x) == Apply(fuel, f, x)
    decreases fuel, 0
  {
    match f
    case Num(_) =>
    case Fn(p, args) =>
      if |args| + 1 >= Arity(p) && fuel > 0 {
        EvalMono(fuel - 1, more - 1, Body(p), args + [x]);
      }
  }

  lemma {:induction false} EvalMono(fuel: nat, more: nat, e: Expr, env: seq<Val>)
    requires fuel <= more
    ensures !Eval(fuel, e, env).Diverge? ==> Eval(more, e, env) == Eval(fuel, e, env)
    decreases fuel, 1, e
  {
    match e
    case Arg(_) =>
    case Lit(_) =>
    case Incr(e1) =>
      EvalMono(fuel, more, e1, env);
    case App(e1, e2) =>
      EvalMono(fuel, more, e1, env);
      EvalMono(fuel, more, e2, env);
      var fo := Eval(fuel, e1, env);
      var xo := Eval(fuel, e2, env);
      if fo.Value? && xo.Value? {
        ApplyMono(fuel, more, fo.v, xo.v);
      }
  }

  /** Self-application of the Mockingbird never returns: with any amount of
      fuel, `M(M)` runs out of it. */
  lemma {:induction false} MockingbirdSelfDiverges(fuel: nat)
    ensures Apply(fuel, Def(M), Def(M)) == Diverge
  {
    if fuel > 0 {
      MockingbirdSelfDiverges(fuel - 1);
      var env := [] + [Def(M)];
      assert env[0] == Def(M);
      assert Eval(fuel - 1, Body(M), env) == Apply(fuel - 1, Def(M), Def(M));
    }
  }
}
