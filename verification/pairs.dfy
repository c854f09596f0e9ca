/**
  Pairs and numeral predicates of lambda.js. A pair is Vireo holding its two
  components; `first` and `second` hand it the two booleans. The predecessor
  shifts pairs of numerals with `phi`, subtraction iterates the predecessor,
  and the comparisons test the truncated difference with `is0`.
 */
module Pairs {
  import opened Syntax
  import opened Semantics
  import opened Combinators
  import opened Booleans
  import opened Numerals

  /** The pair `V(a)(b)`, a closure of Vireo that holds `a` and `b`. */
  function Pair(a: Val, b: Val): Val {
    Fn(V, [a, b])
  }

  /** Truncated subtraction on the host naturals. */
  function Monus(m: nat, k: nat): nat {
    if m <= k then 0 else m - k
  }

  /** `first` and `second` return the components the pair was built from,
      in order; the pair itself is an immutable value, so either may be
      taken again with the same result. */
  lemma PairRoundTrip(a: Val, b: Val)
    ensures Ap2(Def(V), a, b) == Value(Pair(a, b))
    ensures Ap(Def(First), Pair(a, b)) == Value(a)
    ensures Ap(Def(Second), Pair(a, b)) == Value(b)
    ensures Call(Value(Def(First)), Ap2(Def(V), a, b)) == Value(a)
    ensures Call(Value(Def(Second)), Ap2(Def(V), a, b)) == Value(b)
  {
    VireoLaw(a, b, T);
    VireoLaw(a, b, F);
    Saturate1(First, Pair(a, b));
    Saturate1(Second, Pair(a, b));
    Saturate3(V, a, b, T);
    Saturate3(V, a, b, F);
    KestrelLaw(a, b);
    KiteLaw(a, b);
  }

  /** `K(F)` called `m` times on `T` gives `T` only when `m` is 0. */
  lemma {:induction false} IterConstFalse(m: nat)
    ensures Iter(Fn(K, [F]), m, T) == Value(Bool(m == 0))
  {
    if m > 0 {
      IterConstFalse(m - 1);
      KestrelLaw(F, Bool(m - 1 == 0));
    }
  }

  /** `is0(n)` calls `n` on `K(F)` and then on `T`. */
  lemma Is0Unfold(n: Val)
    ensures Ap(Def(Is0), n) == Call(Ap(n, Fn(K, [F])), Value(T))
  {
    Saturate1(Is0, n);
    KestrelLaw(F, F);
    assert Denote(App(Ref(K), Ref(KI)), [n]) == Value(Fn(K, [F]));
    assert Denote(App(Arg(0), App(Ref(K), Ref(KI))), [n]) == Ap(n, Fn(K, [F]));
  }

  /** `is0(n)` is `T` exactly when `n` is the numeral for 0. */
  lemma Is0Correct(n: Val, m: nat)
    requires IsNum(n, m)
    ensures Ap(Def(Is0), n) == Value(Bool(m == 0))
  {
    Is0Unfold(n);
    assert Ap(n, Fn(K, [F])).Value?;
    IterConstFalse(m);
  }

  /** `phi` takes `(x, y)` to `(y, succ(y))`. */
  lemma PhiStep(x: Val, y: Val)
    ensures Ap(Def(Phi), Pair(x, y)) == Value(Pair(y, Fn(Succ, [y])))
  {
    var p := Pair(x, y);
    Saturate1(Phi, p);
    PairRoundTrip(x, y);
    Saturate3(Succ, y, y, y);
    VireoLaw(y, Fn(Succ, [y]), y);
    assert Denote(App(Ref(Second), Arg(0)), [p]) == Value(y);
    assert Denote(App(Ref(V), App(Ref(Second), Arg(0))), [p]) == Value(Fn(V, [y]));
    assert Denote(App(Ref(Succ), App(Ref(Second), Arg(0))), [p]) == Value(Fn(Succ, [y]));
    ApUnfold(V, [y], Fn(Succ, [y]));
    assert [y] + [Fn(Succ, [y])] == [y, Fn(Succ, [y])];
  }

  /** `m` steps of `phi` from `(0, 0)` reach `(m - 1, m)`, the first
      component saturating at 0. */
  lemma {:induction false} PhiIter(m: nat)
    ensures Iter(Def(Phi), m, Pair(Def(Zero), Def(Zero))) == Value(Pair(Church(Monus(m, 1)), Church(m)))
  {
    if m > 0 {
      PhiIter(m - 1);
      PhiStep(Church(Monus(m - 1, 1)), Church(m - 1));
    }
  }

  /** `pred(n)` takes the first component of `n` calls of `phi` on the
      pair `V(n0)(n0)`. */
  lemma PredUnfold(n: Val)
    ensures Ap(Def(Pred), n) ==
            Call(Value(Def(First)), Call(Ap(n, Def(Phi)), Value(Pair(Def(Zero), Def(Zero)))))
  {
    Saturate1(Pred, n);
    var env := [n];
    VireoLaw(Def(Zero), Def(Zero), Def(Zero));
    assert Denote(App(Ref(V), Ref(Zero)), env) == Ap(Def(V), Def(Zero));
    assert Denote(App(App(Ref(V), Ref(Zero)), Ref(Zero)), env) == Value(Pair(Def(Zero), Def(Zero)));
    assert Denote(App(Arg(0), Ref(Phi)), env) == Ap(n, Def(Phi));
  }

  /** `pred(n)` is the numeral for `m - 1`, and `pred` of zero is zero. */
  lemma PredCorrect(n: Val, m: nat)
    requires IsNum(n, m)
    ensures Ap(Def(Pred), n) == Value(Church(Monus(m, 1)))
    ensures IsNum(Church(Monus(m, 1)), Monus(m, 1))
    ensures Call(Value(Def(Jsnum)), Ap(Def(Pred), n)) == Value(Num(Monus(m, 1)))
  {
    PredUnfold(n);
    var g := Ap(n, Def(Phi)).v;
    assert Ap(g, Pair(Def(Zero), Def(Zero))) == Iter(Def(Phi), m, Pair(Def(Zero), Def(Zero)));
    PhiIter(m);
    PairRoundTrip(Church(Monus(m, 1)), Church(m));
    ChurchIsNumeral(Monus(m, 1));
    JsnumDecodes(Church(Monus(m, 1)), Monus(m, 1));
  }

  /** `j` calls of `pred` on the numeral for `m` give the numeral for
      `m - j`, truncated at 0. */
  lemma {:induction false} IterPred(n: Val, m: nat, j: nat)
    requires IsNum(n, m)
    ensures Iter(Def(Pred), j, n).Value?
    ensures IsNum(Iter(Def(Pred), j, n).v, Monus(m, j))
  {
    if j > 0 {
      IterPred(n, m, j - 1);
      PredCorrect(Iter(Def(Pred), j - 1, n).v, Monus(m, j - 1));
    }
  }

  /** `sub(n)(k)` calls `k` on `pred` and then on `n`. */
  lemma SubUnfold(n: Val, k: Val)
    ensures Ap2(Def(Sub), n, k) == Call(Ap(k, Def(Pred)), Value(n))
  {
    Saturate2(Sub, n, k);
    assert Denote(App(Arg(1), Ref(Pred)), [n, k]) == Ap(k, Def(Pred));
  }

  /** `sub(n)(k)` is the numeral for `m - j`, truncated at 0. */
  lemma SubCorrect(n: Val, m: nat, k: Val, j: nat)
    requires IsNum(n, m) && IsNum(k, j)
    ensures Ap2(Def(Sub), n, k).Value?
    ensures IsNum(Ap2(Def(Sub), n, k).v, Monus(m, j))
    ensures Call(Value(Def(Jsnum)), Ap2(Def(Sub), n, k)) == Value(Num(Monus(m, j)))
  {
    SubUnfold(n, k);
    assert Ap(k, Def(Pred)).Value?;
    IterPred(n, m, j);
    JsnumDecodes(Ap2(Def(Sub), n, k).v, Monus(m, j));
  }

  /** `leq(n)(k)` is `is0(sub(n)(k))`. */
  lemma LeqUnfold(n: Val, k: Val)
    ensures Ap2(Def(Leq), n, k) == Call(Value(Def(Is0)), Ap2(Def(Sub), n, k))
  {
    Saturate2(Leq, n, k);
    assert Denote(App(Ref(Sub), Arg(0)), [n, k]) == Ap(Def(Sub), n);
    assert Denote(App(App(Ref(Sub), Arg(0)), Arg(1)), [n, k]) == Ap2(Def(Sub), n, k);
  }

  /** `leq(n)(k)` is `T` exactly when `m <= j`. */
  lemma LeqCorrect(n: Val, m: nat, k: Val, j: nat)
    requires IsNum(n, m) && IsNum(k, j)
    ensures Ap2(Def(Leq), n, k) == Value(Bool(m <= j))
  {
    LeqUnfold(n, k);
    SubCorrect(n, m, k, j);
    Is0Correct(Ap2(Def(Sub), n, k).v, Monus(m, j));
  }

  /** `eq(n)(k)` is `and(leq(n)(k))(leq(k)(n))`. */
  lemma EqUnfold(n: Val, k: Val)
    ensures Ap2(Def(Eq), n, k) == Call(Call(Value(Def(And)), Ap2(Def(Leq), n, k)), Ap2(Def(Leq), k, n))
  {
    Saturate2(Eq, n, k);
    var env := [n, k];
    assert Denote(App(Ref(Leq), Arg(0)), env) == Ap(Def(Leq), n);
    assert Denote(App(App(Ref(Leq), Arg(0)), Arg(1)), env) == Ap2(Def(Leq), n, k);
    assert Denote(App(Ref(Leq), Arg(1)), env) == Ap(Def(Leq), k);
    assert Denote(App(App(Ref(Leq), Arg(1)), Arg(0)), env) == Ap2(Def(Leq), k, n);
    assert Denote(App(Ref(And), App(App(Ref(Leq), Arg(0)), Arg(1))), env)
        == Call(Value(Def(And)), Ap2(Def(Leq), n, k));
  }

  /** `eq(n)(k)` is `T` exactly when `m == j`. */
  lemma EqCorrect(n: Val, m: nat, k: Val, j: nat)
    requires IsNum(n, m) && IsNum(k, j)
    ensures Ap2(Def(Eq), n, k) == Value(Bool(m == j))
  {
    EqUnfold(n, k);
    LeqCorrect(n, m, k, j);
    LeqCorrect(k, j, n, m);
    AndTable(m <= j, j <= m);
  }

  /** `gt(n)(k)` is `not(leq(n)(k))`. */
  lemma GtUnfold(n: Val, k: Val)
    ensures Ap2(Def(Gt), n, k) == Call(Value(Def(Not)), Ap2(Def(Leq), n, k))
  {
    Saturate2(Gt, n, k);
    assert Denote(App(Ref(Leq), Arg(0)), [n, k]) == Ap(Def(Leq), n);
    assert Denote(App(App(Ref(Leq), Arg(0)), Arg(1)), [n, k]) == Ap2(Def(Leq), n, k);
  }

  /** `gt(n)(k)` is `T` exactly when `m > j`. */
  lemma GtCorrect(n: Val, m: nat, k: Val, j: nat)
    requires IsNum(n, m) && IsNum(k, j)
    ensures Ap2(Def(Gt), n, k) == Value(Bool(m > j))
  {
    GtUnfold(n, k);
    LeqCorrect(n, m, k, j);
    NotTable(m <= j);
  }

  /** The worked examples beside the definitions: `is0` of `n0` and `n2`,
      `add(n1)(n3)`, `mult(n2)(n3)` and `pred(n3)`, where `n2` is `succ(n1)`
      and `n3` is `succ(n2)`. */
  lemma WorkedExamples()
    ensures Ap(Def(Is0), Def(Zero)) == Value(T)
    ensures Ap(Def(Is0), Fn(Succ, [Def(Once)])) == Value(F)
    ensures Call(Value(Def(Jsnum)), Ap2(Def(Add), Def(Once), Fn(Succ, [Fn(Succ, [Def(Once)])]))) == Value(Num(4))
    ensures Call(Value(Def(Jsnum)), Ap2(Def(B), Fn(Succ, [Def(Once)]), Fn(Succ, [Fn(Succ, [Def(Once)])]))) == Value(Num(6))
    ensures Call(Value(Def(Jsnum)), Ap(Def(Pred), Fn(Succ, [Fn(Succ, [Def(Once)])]))) == Value(Num(2))
  {
    var n2 := Fn(Succ, [Def(Once)]);
    var n3 := Fn(Succ, [n2]);
    OnceTwiceThrice();
    ChurchIsNumeral(0);
    SuccStep(Def(Once), 1);
    SuccStep(n2, 2);
    Is0Correct(Def(Zero), 0);
    Is0Correct(n2, 2);
    AddCorrect(Def(Once), 1, n3, 3);
    MultCorrect(n2, 2, n3, 3);
    PredCorrect(n3, 3);
  }
}
