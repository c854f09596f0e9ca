/**
  Church numerals of lambda.js. A value `n` is the numeral for `m` when,
  for every `f`, `n(f)` is a function that on any `a` behaves exactly as `m`
  strict applications of `f` to `a` (including the failure or divergence of
  any of them). Every numeral operation is proved to produce the numeral of
  the host result, and `jsnum` to decode the numeral for `m` to the host `m`.
 */
module Numerals {
  import opened Syntax
  import opened Semantics
  import opened Combinators

  /** `f(f(...f(a)...))` with `m` calls of `f`, innermost first. */
  ghost function Iter(f: Val, m: nat, a: Val): Outcome {
    if m == 0 then Value(a) else Call(Value(f), Iter(f, m - 1, a))
  }

  /** `g` is `m` applications of `f`. */
  ghost predicate Behaves(g: Val, f: Val, m: nat) {
    forall a :: Ap(g, a) == Iter(f, m, a)
  }

  /** `n` is the Church numeral for `m`. */
  ghost predicate IsNum(n: Val, m: nat) {
    forall f :: Ap(n, f).Value? && Behaves(Ap(n, f).v, f, m)
  }

  /** `succ` applied `m` times to `zero`, as lambda.js builds `n2`, `n3`. */
  function Church(m: nat): Val {
    if m == 0 then Def(Zero) else Fn(Succ, [Church(m - 1)])
  }

  function Power(b: nat, e: nat): nat {
    if e == 0 then 1 else b * Power(b, e - 1)
  }

  /** Running `p + q` applications is running `p`, then `q` more. */
  lemma {:induction false} IterAdd(f: Val, p: nat, q: nat, a: Val)
    ensures Iter(f, p + q, a) ==
            if Iter(f, p, a).Value? then Iter(f, q, Iter(f, p, a).v) else Iter(f, p, a)
  {
    if q > 0 {
      IterAdd(f, p, q - 1, a);
    }
  }

  /** Iterating a function that is `p` applications of `f` is iterating `f`
      `p` times as often. */
  lemma {:induction false} IterBehaves(g: Val, f: Val, p: nat, m: nat, a: Val)
    requires Behaves(g, f, p)
    ensures Iter(g, m, a) == Iter(f, m * p, a)
  {
    if m > 0 {
      IterBehaves(g, f, p, m - 1, a);
      IterAdd(f, (m - 1) * p, p, a);
      assert (m - 1) * p + p == m * p;
    }
  }

  /** `zero` applies `f` no times and so behaves as false. */
  lemma ZeroIsNumeral(f: Val, a: Val)
    ensures IsNum(Def(Zero), 0)
    ensures Ap2(Def(Zero), f, a) == Ap2(Def(KI), f, a)
  {
    forall g ensures Ap(Def(Zero), g).Value? && Behaves(Ap(Def(Zero), g).v, g, 0) {
      forall x ensures Ap2(Def(Zero), g, x) == Iter(g, 0, x) {
        Saturate2(Zero, g, x);
      }
      Saturate2(Zero, g, a);
    }
    Saturate2(Zero, f, a);
    KiteLaw(f, a);
  }

  /** `once`, `twice` and `thrice` are the numerals 1, 2 and 3. */
  lemma OnceTwiceThrice()
    ensures IsNum(Def(Once), 1)
    ensures IsNum(Def(Twice), 2)
    ensures IsNum(Def(Thrice), 3)
  {
    forall f ensures Ap(Def(Once), f).Value? && Behaves(Ap(Def(Once), f).v, f, 1) {
      forall a ensures Ap2(Def(Once), f, a) == Iter(f, 1, a) {
        Saturate2(Once, f, a);
        assert Iter(f, 0, a) == Value(a);
      }
      Saturate2(Once, f, f);
    }
    forall f ensures Ap(Def(Twice), f).Value? && Behaves(Ap(Def(Twice), f).v, f, 2) {
      forall a ensures Ap2(Def(Twice), f, a) == Iter(f, 2, a) {
        Saturate2(Twice, f, a);
        assert Iter(f, 1, a) == Ap(f, a);
        assert Denote(App(Arg(0), Arg(1)), [f, a]) == Ap(f, a);
      }
      Saturate2(Twice, f, f);
    }
    forall f ensures Ap(Def(Thrice), f).Value? && Behaves(Ap(Def(Thrice), f).v, f, 3) {
      forall a ensures Ap2(Def(Thrice), f, a) == Iter(f, 3, a) {
        Saturate2(Thrice, f, a);
        assert Iter(f, 1, a) == Ap(f, a);
        assert Iter(f, 2, a) == Call(Value(f), Ap(f, a));
        assert Denote(App(Arg(0), Arg(1)), [f, a]) == Ap(f, a);
        assert Denote(App(Arg(0), App(Arg(0), Arg(1))), [f, a]) == Call(Value(f), Ap(f, a));
      }
      Saturate2(Thrice, f, f);
    }
  }

  /** `succ(n)` is the closure that waits for `f` and `a`, and it is the
      numeral one above `n`. */
  lemma SuccStep(n: Val, m: nat)
    requires IsNum(n, m)
    ensures Ap(Def(Succ), n) == Value(Fn(Succ, [n]))
    ensures IsNum(Fn(Succ, [n]), m + 1)
  {
    forall f ensures Ap(Fn(Succ, [n]), f).Value? && Behaves(Ap(Fn(Succ, [n]), f).v, f, m + 1) {
      Saturate3(Succ, n, f, f);
      assert Ap(Fn(Succ, [n]), f) == Value(Fn(Succ, [n, f]));
      var g := Ap(n, f).v;
      forall a ensures Ap(Fn(Succ, [n, f]), a) == Iter(f, m + 1, a) {
        Saturate3(Succ, n, f, a);
        assert Denote(App(Arg(0), Arg(1)), [n, f, a]) == Value(g);
        assert Denote(App(App(Arg(0), Arg(1)), Arg(2)), [n, f, a]) == Iter(f, m, a);
      }
    }
    Saturate3(Succ, n, n, n);
  }

  /** The `m`-th numeral built by `succ` from `zero` is the numeral for `m`,
      and it is what `m` calls of `succ` on `zero` return. */
  lemma {:induction false} ChurchIsNumeral(m: nat)
    ensures IsNum(Church(m), m)
    ensures Iter(Def(Succ), m, Def(Zero)) == Value(Church(m))
  {
    if m == 0 {
      ZeroIsNumeral(Def(Zero), Def(Zero));
    } else {
      ChurchIsNumeral(m - 1);
      SuccStep(Church(m - 1), m - 1);
    }
  }

  /** The host increment adds one to a host number. */
  lemma IncLaw(c: nat)
    ensures Ap(Def(Inc), Num(c)) == Value(Num(c + 1))
  {
    Saturate1(Inc, Num(c));
  }

  lemma {:induction false} IterInc(m: nat, c: nat)
    ensures Iter(Def(Inc), m, Num(c)) == Value(Num(c + m))
  {
    if m > 0 {
      IterInc(m - 1, c);
      IncLaw(c + m - 1);
    }
  }

  /** `jsnum` decodes the numeral for `m` to the host number `m`. */
  lemma JsnumDecodes(n: Val, m: nat)
    requires IsNum(n, m)
    ensures Ap(Def(Jsnum), n) == Value(Num(m))
  {
    Saturate1(Jsnum, n);
    assert Denote(App(Arg(0), Ref(Inc)), [n]) == Ap(n, Def(Inc));
    IterInc(m, 0);
  }

  /** A value is the numeral of at most one number: `jsnum` tells them apart. */
  lemma NumeralUnique(n: Val, m: nat, k: nat)
    requires IsNum(n, m) && IsNum(n, k)
    ensures m == k
  {
    JsnumDecodes(n, m);
    JsnumDecodes(n, k);
  }

  /** `jsnum(zero)` is 0 and `jsnum(succ(n))` is one more than `jsnum(n)`;
      the examples `n1`, `n2`, `n3` and `thrice` decode to 1, 2, 3 and 3. */
  lemma JsnumZeroSucc(n: Val, m: nat)
    requires IsNum(n, m)
    ensures Ap(Def(Jsnum), Def(Zero)) == Value(Num(0))
    ensures Call(Value(Def(Jsnum)), Ap(Def(Succ), n)) == Value(Num(m + 1))
    ensures Ap(Def(Jsnum), Def(Once)) == Value(Num(1))
    ensures Ap(Def(Jsnum), Fn(Succ, [Def(Once)])) == Value(Num(2))
    ensures Ap(Def(Jsnum), Fn(Succ, [Fn(Succ, [Def(Once)])])) == Value(Num(3))
    ensures Ap(Def(Jsnum), Def(Thrice)) == Value(Num(3))
  {
    ZeroIsNumeral(n, n);
    JsnumDecodes(Def(Zero), 0);
    SuccStep(n, m);
    JsnumDecodes(Fn(Succ, [n]), m + 1);
    OnceTwiceThrice();
    JsnumDecodes(Def(Once), 1);
    SuccStep(Def(Once), 1);
    JsnumDecodes(Fn(Succ, [Def(Once)]), 2);
    SuccStep(Fn(Succ, [Def(Once)]), 2);
    JsnumDecodes(Fn(Succ, [Fn(Succ, [Def(Once)])]), 3);
    JsnumDecodes(Def(Thrice), 3);
  }

  /** `m` calls of `succ` on the numeral for `j` give the numeral for `j + m`. */
  lemma {:induction false} IterSucc(m: nat, k: Val, j: nat)
    requires IsNum(k, j)
    ensures Iter(Def(Succ), m, k).Value?
    ensures IsNum(Iter(Def(Succ), m, k).v, j + m)
  {
    if m > 0 {
      IterSucc(m - 1, k, j);
      SuccStep(Iter(Def(Succ), m - 1, k).v, j + m - 1);
    }
  }

  /** `add(n)(k)` is the numeral for `m + j` and decodes to it. */
  lemma AddCorrect(n: Val, m: nat, k: Val, j: nat)
    requires IsNum(n, m) && IsNum(k, j)
    ensures Ap2(Def(Add), n, k).Value?
    ensures IsNum(Ap2(Def(Add), n, k).v, m + j)
    ensures Call(Value(Def(Jsnum)), Ap2(Def(Add), n, k)) == Value(Num(m + j))
  {
    Saturate2(Add, n, k);
    assert Denote(App(Arg(0), Ref(Succ)), [n, k]) == Ap(n, Def(Succ));
    IterSucc(m, k, j);
    JsnumDecodes(Ap2(Def(Add), n, k).v, m + j);
  }

  /** `mult`, which is `B`, gives the numeral for `m * j`. */
  lemma MultCorrect(n: Val, m: nat, k: Val, j: nat)
    requires IsNum(n, m) && IsNum(k, j)
    ensures Ap2(Def(B), n, k) == Value(Fn(B, [n, k]))
    ensures IsNum(Fn(B, [n, k]), m * j)
    ensures Call(Value(Def(Jsnum)), Ap2(Def(B), n, k)) == Value(Num(m * j))
  {
    forall f ensures Ap(Fn(B, [n, k]), f).Value? && Behaves(Ap(Fn(B, [n, k]), f).v, f, m * j) {
      var gk := Ap(k, f).v;
      var gn := Ap(n, gk).v;
      BluebirdLaw(n, k, f);
      Saturate3(B, n, k, f);
      forall a ensures Ap(gn, a) == Iter(f, m * j, a) {
        IterBehaves(gk, f, j, m, a);
      }
    }
    Saturate3(B, n, k, n);
    JsnumDecodes(Fn(B, [n, k]), m * j);
  }

  /** `m` calls of the numeral for `m` on `f` behave as `m^j` calls of `f`. */
  lemma {:induction false} IterNumeral(n: Val, m: nat, j: nat, f: Val)
    requires IsNum(n, m)
    ensures Iter(n, j, f).Value?
    ensures Behaves(Iter(n, j, f).v, f, Power(m, j))
  {
    if j == 0 {
      forall a ensures Ap(f, a) == Iter(f, 1, a) {
        assert Iter(f, 0, a) == Value(a);
      }
    } else {
      IterNumeral(n, m, j - 1, f);
      var h := Iter(n, j - 1, f).v;
      var h' := Ap(n, h).v;
      forall a ensures Ap(h', a) == Iter(f, Power(m, j), a) {
        IterBehaves(h, f, Power(m, j - 1), m, a);
      }
    }
  }

  /** `pow` is Thrush, and also Cardinal of Identity, on all arguments. */
  lemma PowIsThrush(n: Val, k: Val)
    ensures Ap2(Def(Pow), n, k) == Ap2(Def(Thrush), n, k)
    ensures Ap2(Def(Pow), n, k) == Ap3(Def(C), Def(I), n, k)
  {
    Saturate2(Pow, n, k);
    ThrushLaw(n, k);
    CardinalLaw(Def(I), n, k);
    IdentityLaw(k);
  }

  /** `pow(n)(k)`, which calls `k` on `n`, gives the numeral for `m^j`. */
  lemma PowCorrect(n: Val, m: nat, k: Val, j: nat)
    requires IsNum(n, m) && IsNum(k, j)
    ensures Ap2(Def(Pow), n, k).Value?
    ensures IsNum(Ap2(Def(Pow), n, k).v, Power(m, j))
    ensures Call(Value(Def(Jsnum)), Ap2(Def(Pow), n, k)) == Value(Num(Power(m, j)))
  {
    Saturate2(Pow, n, k);
    var g := Ap(k, n).v;
    forall f ensures Ap(g, f).Value? && Behaves(Ap(g, f).v, f, Power(m, j)) {
      IterNumeral(n, m, j, f);
    }
    JsnumDecodes(g, Power(m, j));
  }
}
