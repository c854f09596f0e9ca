/**
  The primitive combinators of lambda.js and their reduction laws, each
  stated for arbitrary argument values (including arguments whose own calls
  fail or never return).
 */
module Combinators {
  import opened Syntax
  import opened Machine
  import opened Semantics

  /** Identity returns its argument. */
  lemma IdentityLaw(a: Val)
    ensures Ap(Def(I), a) == Value(a)
  {
    Saturate1(I, a);
  }

  /** Mockingbird calls its argument on itself. */
  lemma MockingbirdLaw(f: Val)
    ensures Ap(Def(M), f) == Ap(f, f)
  {
    Saturate1(M, f);
  }

  /** `M(I)` is `I(I)`, which is `I`. */
  lemma MockingbirdOfIdentity()
    ensures Ap(Def(M), Def(I)) == Value(Def(I))
  {
    MockingbirdLaw(Def(I));
    IdentityLaw(Def(I));
  }

  /** `M(M)` has no value: a strict host runs it until it gives up. */
  lemma MockingbirdSelfApplication()
    ensures Ap(Def(M), Def(M)) == Diverge
  {
    forall fuel: nat
      ensures Apply(fuel, Def(M), Def(M)).Diverge?
    {
      MockingbirdSelfDiverges(fuel);
    }
  }

  /** Kestrel keeps its first argument: `K(a)` is a constant function. */
  lemma KestrelLaw(a: Val, b: Val)
    ensures Ap(Def(K), a) == Value(Fn(K, [a]))
    ensures Ap2(Def(K), a, b) == Value(a)
  {
    Saturate2(K, a, b);
  }

  /** Kite keeps its second argument. */
  lemma KiteLaw(a: Val, b: Val)
    ensures Ap2(Def(KI), a, b) == Value(b)
  {
    Saturate2(KI, a, b);
  }

  /** Kite agrees with Kestrel applied to Identity, on every two arguments. */
  lemma KiteIsKestrelOfIdentity(a: Val, b: Val)
    ensures Ap3(Def(K), Def(I), a, b) == Ap2(Def(KI), a, b)
  {
    KestrelLaw(Def(I), a);
    IdentityLaw(b);
    KiteLaw(a, b);
  }

  /** Cardinal calls `f` with its two arguments swapped. */
  lemma CardinalLaw(f: Val, a: Val, b: Val)
    ensures Ap3(Def(C), f, a, b) == Ap2(f, b, a)
  {
    Saturate3(C, f, a, b);
    assert Denote(App(Arg(0), Arg(2)), [f, a, b]) == Ap(f, b);
  }

  /** Kite is also Cardinal of Kestrel: swapping the arguments of "keep the
      first" keeps the second. */
  lemma KiteIsCardinalOfKestrel(a: Val, b: Val)
    ensures Ap3(Def(C), Def(K), a, b) == Ap2(Def(KI), a, b)
  {
    CardinalLaw(Def(K), a, b);
    KestrelLaw(b, a);
    KiteLaw(a, b);
  }

  /** Bluebird composes: `B(f)(g)(a)` is `f(g(a))`. */
  lemma BluebirdLaw(f: Val, g: Val, a: Val)
    ensures Ap3(Def(B), f, g, a) == Call(Value(f), Ap(g, a))
  {
    Saturate3(B, f, g, a);
    assert Denote(App(Arg(1), Arg(2)), [f, g, a]) == Ap(g, a);
  }

  /** Thrush applies its second argument to its first. */
  lemma ThrushLaw(a: Val, f: Val)
    ensures Ap2(Def(Thrush), a, f) == Ap(f, a)
  {
    Saturate2(Thrush, a, f);
  }

  /** Vireo holds two values and hands both, in order, to the function it
      is finally given. */
  lemma VireoLaw(a: Val, b: Val, f: Val)
    ensures Ap2(Def(V), a, b) == Value(Fn(V, [a, b]))
    ensures Ap3(Def(V), a, b, f) == Ap2(f, a, b)
  {
    Saturate3(V, a, b, f);
    assert Denote(App(Arg(2), Arg(0)), [a, b, f]) == Ap(f, a);
  }

  /** `B1` as written passes `g` itself to `f`, and then `a` and `b`. */
  lemma BlackbirdAsWritten(f: Val, g: Val, a: Val, b: Val)
    ensures Ap4(Def(B1), f, g, a, b) == Ap3(f, g, a, b)
  {
    Saturate4(B1, f, g, a, b);
    var env := [f, g, a, b];
    assert Denote(App(Arg(0), Arg(1)), env) == Ap(f, g);
    assert Denote(App(App(Arg(0), Arg(1)), Arg(2)), env) == Ap2(f, g, a);
  }

  /** ... which is not the documented law `f(g(a)(b))`: with `f` and `g`
      both Kestrel and `a`, `b` the numbers 0 and 1, the code gives `K(1)`
      where the law gives `K(0)`. */
  lemma BlackbirdAsWrittenMissesLaw()
    ensures Ap4(Def(B1), Def(K), Def(K), Num(0), Num(1)) == Value(Fn(K, [Num(1)]))
    ensures Call(Value(Def(K)), Ap2(Def(K), Num(0), Num(1))) == Value(Fn(K, [Num(0)]))
    ensures Ap4(Def(B1), Def(K), Def(K), Num(0), Num(1)) != Call(Value(Def(K)), Ap2(Def(K), Num(0), Num(1)))
  {
    BlackbirdAsWritten(Def(K), Def(K), Num(0), Num(1));
    KestrelLaw(Def(K), Num(0));
    KestrelLaw(Num(1), Num(0));
    KestrelLaw(Num(0), Num(1));
  }

  /** The corrected Blackbird composes `f` after the two-argument `g`. */
  lemma BlackbirdLaw(f: Val, g: Val, a: Val, b: Val)
    ensures Ap4(Def(Blackbird), f, g, a, b) == Call(Value(f), Ap2(g, a, b))
  {
    Saturate4(Blackbird, f, g, a, b);
    var env := [f, g, a, b];
    assert Denote(App(Arg(1), Arg(2)), env) == Ap(g, a);
    assert Denote(App(App(Arg(1), Arg(2)), Arg(3)), env) == Ap2(g, a, b);
  }

  /** The corrected Blackbird is `BBB`, as its description says:
      `B(B)(B)(f)(g)(a)(b)` and `Blackbird(f)(g)(a)(b)` have the same
      outcome for every four arguments. */
  lemma BlackbirdIsBBB(f: Val, g: Val, a: Val, b: Val)
    ensures Call(Call(Ap4(Def(B), Def(B), Def(B), f, g), Value(a)), Value(b))
            == Ap4(Def(Blackbird), f, g, a, b)
  {
    var bf := Fn(B, [f]);
    Saturate3(B, f, g, a);
    BluebirdLaw(Def(B), Def(B), f);
    Saturate3(B, bf, g, a);
    assert Ap3(Def(B), Def(B), Def(B), f) == Value(Fn(B, [bf]));
    assert Ap4(Def(B), Def(B), Def(B), f, g) == Value(Fn(B, [bf, g]));
    BluebirdLaw(bf, g, a);
    BlackbirdLaw(f, g, a, b);
    if Ap(g, a).Value? {
      var h := Ap(g, a).v;
      Saturate3(B, f, h, b);
      BluebirdLaw(f, h, b);
    }
  }
}
