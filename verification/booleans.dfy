/**
  Church booleans of lambda.js: true is Kestrel and false is Kite, so a
  boolean selects the first or the second of the two values it is given.
  `Bool` encodes a host boolean; each operator is proved against the host
  operator on all four (or two) inputs.
 */
module Booleans {
  import opened Syntax
  import opened Semantics
  import opened Combinators

  /** `T` is `K` and `F` is `KI`: the same definitions, not copies. */
  const T: Val := Def(K)
  const F: Val := Def(KI)

  function Bool(b: bool): Val {
    if b then T else F
  }

  /** A boolean selects: true keeps the first value, false the second. */
  lemma Select(b: bool, x: Val, y: Val)
    ensures Ap2(Bool(b), x, y) == Value(if b then x else y)
  {
    if b {
      KestrelLaw(x, y);
    } else {
      KiteLaw(x, y);
    }
  }

  /** `not` swaps `T` and `F`. */
  lemma NotTable(b: bool)
    ensures Ap(Def(Not), Bool(b)) == Value(Bool(!b))
  {
    Saturate1(Not, Bool(b));
    assert Denote(App(Arg(0), Ref(KI)), [Bool(b)]) == Ap(Bool(b), F);
    Select(b, F, T);
  }

  /** Double negation is the identity, also when written as the composition
      `B(not)(not)`. */
  lemma NotInvolution(b: bool)
    ensures Call(Value(Def(Not)), Ap(Def(Not), Bool(b))) == Value(Bool(b))
    ensures Ap3(Def(B), Def(Not), Def(Not), Bool(b)) == Value(Bool(b))
  {
    NotTable(b);
    NotTable(!b);
    BluebirdLaw(Def(Not), Def(Not), Bool(b));
  }

  /** `not(p)` is Cardinal's swap of `p` on `T` and `F`: `p(F)(T)`. */
  lemma NotIsCardinal(p: Val)
    ensures Ap(Def(Not), p) == Ap3(Def(C), p, T, F)
  {
    Saturate1(Not, p);
    assert Denote(App(Arg(0), Ref(KI)), [p]) == Ap(p, F);
    CardinalLaw(p, T, F);
  }

  /** `and` agrees with `&&`. */
  lemma AndTable(p: bool, q: bool)
    ensures Ap2(Def(And), Bool(p), Bool(q)) == Value(Bool(p && q))
  {
    Saturate2(And, Bool(p), Bool(q));
    assert Denote(App(Arg(0), Arg(1)), [Bool(p), Bool(q)]) == Ap(Bool(p), Bool(q));
    Select(p, Bool(q), Bool(p));
  }

  /** `or` agrees with `||`. */
  lemma OrTable(p: bool, q: bool)
    ensures Ap2(Def(Or), Bool(p), Bool(q)) == Value(Bool(p || q))
  {
    Saturate2(Or, Bool(p), Bool(q));
    assert Denote(App(Arg(0), Arg(0)), [Bool(p), Bool(q)]) == Ap(Bool(p), Bool(p));
    Select(p, Bool(p), Bool(q));
  }

  /** `or(p)(q)` is Mockingbird once removed, `M(p)(q)`: both call `p` on
      itself and then on `q`, for every `p` and `q`. On booleans this gives
      `M(T)(F)` is `T` and `M(F)(F)` is `F`. */
  lemma OrIsMockingbirdOnceRemoved(p: Val, q: Val)
    ensures Call(Ap(Def(M), p), Value(q)) == Ap2(Def(Or), p, q)
    ensures Call(Ap(Def(M), T), Value(F)) == Value(T)
    ensures Call(Ap(Def(M), F), Value(F)) == Value(F)
  {
    MockingbirdLaw(p);
    Saturate2(Or, p, q);
    assert Denote(App(Arg(0), Arg(0)), [p, q]) == Ap(p, p);
    MockingbirdLaw(T);
    MockingbirdLaw(F);
    Saturate2(Or, T, F);
    Saturate2(Or, F, F);
    assert Denote(App(Arg(0), Arg(0)), [T, F]) == Ap(T, T);
    assert Denote(App(Arg(0), Arg(0)), [F, F]) == Ap(F, F);
    OrTable(true, false);
    OrTable(false, false);
  }

  /** `beq` agrees with `==` on booleans. */
  lemma BeqTable(p: bool, q: bool)
    ensures Ap2(Def(Beq), Bool(p), Bool(q)) == Value(Bool(p == q))
  {
    Saturate2(Beq, Bool(p), Bool(q));
    var env := [Bool(p), Bool(q)];
    Select(q, T, F);
    Select(q, F, T);
    assert Denote(App(Arg(1), Ref(K)), env) == Ap(Bool(q), T);
    assert Denote(App(App(Arg(1), Ref(K)), Ref(KI)), env) == Value(Bool(q));
    assert Denote(App(Arg(1), Ref(KI)), env) == Ap(Bool(q), F);
    assert Denote(App(App(Arg(1), Ref(KI)), Ref(K)), env) == Value(Bool(!q));
    assert Denote(App(Arg(0), App(App(Arg(1), Ref(K)), Ref(KI))), env) == Ap(Bool(p), Bool(q));
    Select(p, Bool(q), Bool(!q));
  }

  /** Cardinal of true is false, pointwise: `F = KI = C K`. */
  lemma CardinalOfTrueIsFalse(x: Val, y: Val)
    ensures Ap3(Def(C), T, x, y) == Ap2(F, x, y)
  {
    KiteIsCardinalOfKestrel(x, y);
  }
}
