# Church encodings of lambda.js, verified in Dafny

`lambda.js` is a library of untyped lambda-calculus combinators written as curried JavaScript arrow functions:

- Identity, Mockingbird, Kestrel, Kite, Cardinal, Bluebird, Thrush, Vireo and Blackbird.
- Church booleans (`T = K`, `F = KI`, `not`, `and`, `or`, `beq`).
- Church numerals (`zero`, `once`, `twice`, `thrice`, `succ`, `add`, `mult = B`, `pow`) and the decoder `jsnum`.
- Pairs (`V`, `first`, `second`) and the numeral predicates `is0`, `phi`, `pred`, `sub`, `leq`, `eq` and `gt`.

This project models that library as an untyped deep embedding and proves that every definition obeys its reduction law. Every encoded operation agrees with its meaning on host booleans and naturals.

## How the model is built

- `syntax.dfy` (module `Syntax`): every definition is a `Prim` with an arity and a body `Expr` that transcribes its arrow function. `Arg(i)` is the i-th curried parameter and `Ref(p)` is another top-level definition.
  - A run-time value is either `Fn(p, args)`, a closure of `p` that has collected `args`, or a host number `Num(n)`.
  - `T`, `F`, `mult`, `n0` and `n1` are aliases in the source, so they are the same values here: `Def(K)`, `Def(KI)`, `Def(B)`, `Def(Zero)` and `Def(Once)`.
- `machine.dfy` (module `Machine`): a strict evaluator that runs calls the way a JavaScript engine does.
  - It evaluates the callee, then the argument, then the call.
  - A closure short of its arity records the argument. A saturated closure runs its body.
  - Calling a host number is an error (`Stuck`).
  - Running out of fuel is `Diverge`.
- `semantics.dfy` (module `Semantics`): the fuel-free meaning of a call.
  - `Ap(f, x)` is the outcome that some amount of fuel reaches. Fuel monotonicity makes this outcome unique.
  - `Call` chains calls strictly.
  - `Denote` reads a body through `Ap`.
  - `ApUnfold` is the single reduction rule. Every law below except one is derived from it.
  - The exception is the divergence of `M(M)`: `ApUnfold` only restates it as itself, so it is proved directly on the fuelled machine (`Machine.MockingbirdSelfDiverges`) and carried over to `Ap`.
- `combinators.dfy`, `booleans.dfy`, `numerals.dfy` and `pairs.dfy`: the laws.
  - A host boolean `b` is encoded as `Bool(b)`.
  - A value `n` is the numeral for `m` (`IsNum(n, m)`) when, for every `f`, `n(f)` is a function that on any `a` gives exactly the outcome of `m` strict calls of `f` on `a` (`Iter(f, m, a)`), failures and divergence included.
  - `Church(m)` is `succ` applied `m` times to `zero`.
  - `Monus` is truncated subtraction and `Power` is exponentiation on `nat`.

## Model

| member | source | states |
|---|---|---|
| Syntax.BodiesClosed | lambda.js:1-7 | every definition is a combinator: its body mentions only its own parameters and other top-level definitions |
| Semantics.ApUnfold | lambda.js:26-31 | a curried definition given fewer arguments than its arity returns a closure holding them, as `K(5)` does; given the last one it means its body |
| Combinators.IdentityLaw | lambda.js:10-12 | `I(a)` is `a` for every `a` |
| Combinators.MockingbirdLaw | lambda.js:15-18 | `M(f)` has exactly the outcome of `f(f)` |
| Combinators.MockingbirdOfIdentity | lambda.js:18-21 | `M(I)` is `I` |
| Machine.MockingbirdSelfDiverges | lambda.js:18 | evaluating `M(M)` runs out of fuel whatever fuel it is given |
| Combinators.MockingbirdSelfApplication | lambda.js:18 | `M(M)` has no value (`Diverge`) |
| Combinators.KestrelLaw | lambda.js:24-31 | `K(a)` is a closure that ignores its next argument: `K(a)(b)` is `a` |
| Combinators.KiteLaw | lambda.js:34-38 | `KI(a)(b)` is `b` |
| Combinators.KiteIsKestrelOfIdentity | lambda.js:35-36 | `K(I)(a)(b)` and `KI(a)(b)` have the same outcome for all `a`, `b` |
| Combinators.CardinalLaw | lambda.js:42-45 | `C(f)(a)(b)` has the outcome of `f(b)(a)` |
| Combinators.KiteIsCardinalOfKestrel | lambda.js:47-49 | `C(K)(a)(b)` and `KI(a)(b)` agree for all `a`, `b` (so `C(K)(I)(M)` and `KI(I)(M)` are both `M`) |
| Combinators.BluebirdLaw | lambda.js:52-54 | `B(f)(g)(a)` has the outcome of `f(g(a))` |
| Combinators.ThrushLaw | lambda.js:60-61 | `Thrush(a)(f)` has the outcome of `f(a)` |
| Combinators.VireoLaw | lambda.js:63-67 | `V(a)(b)` is a closure holding `a` and `b`, and `V(a)(b)(f)` has the outcome of `f(a)(b)` |
| Combinators.BlackbirdAsWritten | lambda.js:70-71 | `B1(f)(g)(a)(b)` as written has the outcome of `f(g)(a)(b)` |
| Combinators.BlackbirdAsWrittenMissesLaw | lambda.js:70-71 | for `f = g = K`, `a = 0`, `b = 1` the code gives `K(1)` where the documented law gives `K(0)` |
| Combinators.BlackbirdLaw | lambda.js:70 | the corrected Blackbird gives the outcome of `f(g(a)(b))` for all arguments |
| Combinators.BlackbirdIsBBB | lambda.js:70 | the corrected Blackbird agrees with `B(B)(B)`, the form named beside it, on every four arguments |
| Booleans.Select | lambda.js:76-80 | `T(x)(y)` is `x` and `F(x)(y)` is `y`: a boolean selects |
| Booleans.NotTable | lambda.js:83-86 | `not(T)` is `F` and `not(F)` is `T` |
| Booleans.NotIsCardinal | lambda.js:83-85 | for every value `p`, `not(p)` has the outcome of `C(p)(T)(F)` |
| Booleans.NotInvolution | lambda.js:54-55 | `not(not(b))` is `b`, and so is `B(not)(not)(b)`, for both booleans |
| Booleans.AndTable | lambda.js:90-93 | `and(p)(q)` is the encoding of `p && q` on all four inputs |
| Booleans.OrTable | lambda.js:96-99 | `or(p)(q)` is the encoding of the host disjunction of `p` and `q` on all four inputs |
| Booleans.OrIsMockingbirdOnceRemoved | lambda.js:96-105 | `M(x)(y)` and `or(x)(y)` have the same outcome for every `x` and `y` (`Mxy == xxy`); hence `M(T)(F)` is `T` and `M(F)(F)` is `F` |
| Booleans.BeqTable | lambda.js:108-113 | `beq(p)(q)` is the encoding of `p == q` on all four inputs |
| Booleans.CardinalOfTrueIsFalse | lambda.js:77-78 | `C(T)(x)(y)` and `F(x)(y)` agree for all `x`, `y` (false is `C K`) |
| Numerals.ZeroIsNumeral | lambda.js:140-145 | `zero` is the numeral for 0 and agrees with `F` on every two arguments |
| Numerals.OnceTwiceThrice | lambda.js:119-134 | `once`, `twice` and `thrice` are the numerals for 1, 2 and 3 |
| Numerals.SuccStep | lambda.js:148-153 | `succ(n)` is a closure, and it is the numeral for `m + 1` whenever `n` is the numeral for `m` |
| Numerals.ChurchIsNumeral | lambda.js:159-163 | `m` calls of `succ` on `zero` give `Church(m)`, which is the numeral for `m` |
| Numerals.IncLaw | lambda.js:155 | the increment inside `jsnum` maps host `c` to `c + 1` |
| Numerals.JsnumDecodes | lambda.js:154-155 | `jsnum` of the numeral for `m` is the host number `m` |
| Numerals.NumeralUnique | lambda.js:154-155 | no value is the numeral of two different numbers |
| Numerals.JsnumZeroSucc | lambda.js:154-164 | `jsnum(zero)` is 0 and `jsnum(succ(n))` is `jsnum(n) + 1`; `n1`, `n2`, `n3` and `thrice` decode to 1, 2, 3 and 3 |
| Numerals.IterSucc | lambda.js:168 | `m` calls of `succ` on the numeral for `j` give the numeral for `j + m` |
| Numerals.AddCorrect | lambda.js:167-169 | `add(n)(k)` is the numeral for `m + j`, and `jsnum` of it is `m + j` |
| Numerals.MultCorrect | lambda.js:172-175 | `mult(n)(k)`, which is `B(n)(k)`, is the numeral for `m * j`, and `jsnum` of it is `m * j` |
| Numerals.IterNumeral | lambda.js:180 | `j` calls of the numeral for `m`, starting from `f`, give a function that is `m^j` calls of `f` |
| Numerals.PowIsThrush | lambda.js:178-180 | `pow(n)(k)` has the same outcome as `Thrush(n)(k)` and as `C(I)(n)(k)` |
| Numerals.PowCorrect | lambda.js:178-180 | `pow(n)(k)` (`k` applied to `n`) is the numeral for `m^j`, and `jsnum` of it is `m^j` |
| Pairs.PairRoundTrip | lambda.js:187-199 | `first(V(a)(b))` is `a` and `second(V(a)(b))` is `b` for all `a`, `b` |
| Pairs.Is0Correct | lambda.js:202-205 | `is0(n)` is `T` exactly when `n` is the numeral for 0, and `F` for every numeral of at least 1 |
| Pairs.PhiStep | lambda.js:208-211 | `phi` takes the pair `(x, y)` to `(y, succ(y))` |
| Pairs.PhiIter | lambda.js:211-216 | `m` calls of `phi` on `(0, 0)` give `(max(m - 1, 0), m)` |
| Pairs.PredCorrect | lambda.js:215-217 | `pred(n)` is the numeral for `max(m - 1, 0)` (`pred(zero)` is zero), and `jsnum` of it is that number |
| Pairs.IterPred | lambda.js:222 | `j` calls of `pred` on the numeral for `m` give the numeral for `max(m - j, 0)` |
| Pairs.SubCorrect | lambda.js:220-222 | `sub(n)(k)` is the numeral for `max(m - j, 0)`, and `jsnum` of it is that number |
| Pairs.LeqCorrect | lambda.js:225-226 | `leq(n)(k)` is `T` exactly when `m <= j`, `F` otherwise |
| Pairs.EqCorrect | lambda.js:229-230 | `eq(n)(k)` is `T` exactly when `m == j`, `F` otherwise |
| Pairs.GtCorrect | lambda.js:233-234 | `gt(n)(k)` is `T` exactly when `m > j`, `F` otherwise |
| Pairs.WorkedExamples | lambda.js:169-217 | the worked results beside the definitions hold: `is0(n0)` is `T`, `is0(n2)` is `F`, `jsnum(add(n1)(n3))` is 4, `jsnum(mult(n2)(n3))` is 6, `jsnum(pred(n3))` is 2, with `n2` and `n3` built as `succ(n1)` and `succ(n2)` |

## Left out

- Most top-level example expressions are illustrations, not behaviour, and several do not run as written:
  - `K(I)(x)(y)` at lambda.js:36 uses undefined names. Its intended law is `Combinators.KiteIsKestrelOfIdentity`.
  - lambda.js:55 and lambda.js:58 use `not` and `jsnum` before they are defined.
  - `pow(3)(2)` at lambda.js:181 passes host numbers. In the model that calls a number, which is `Stuck`.
  - `V(n0, n3)` at lambda.js:212 is an uncurried call.
  - The comment at lambda.js:135 states the wrong result: `twice(not)(F)` gives `F`.
- `V` is declared twice (lambda.js:67 and lambda.js:189) with the same body. The model has one `V`.
- The remark `gt = B1(not)(leq)` at lambda.js:235 is not modelled.
- JavaScript's `x + 1` on a value that is not a number (string concatenation) is not modelled: the model gives `Stuck`. `jsnum` of a value that is not a numeral is unspecified by the library.
- Host numbers are unbounded naturals, not IEEE doubles. Numerals are far too slow to reach 2^53, so this changes no reachable result.
- Stack depth and running time are not modelled. A call that overflows the host stack and one that runs forever are both `Diverge`, which means no finite fuel suffices.
- Identity comparison (`===`) of closures is not modelled. Values are compared structurally: two closures of the same definition holding the same arguments are equal.
- λ.js, the shorter duplicate of the first half of the library, is not part of this model.

The comment beside `B1` documents the Blackbird law, but the code computes something else. The model follows the code for `B1` and gives the documented law to the separate corrected definition `Blackbird` (see Findings). The comment at lambda.js:143 equates `zero` with `F`. In the code they are two separate arrow functions, so the model keeps them apart and proves that they agree on every two arguments (`Numerals.ZeroIsNumeral`).

## Findings

| source | as written | input that shows it | evidently intended | confidence | as-written member | corrected member |
|---|---|---|---|---|---|---|
| lambda.js:71 | `B1 = f => g => a => b => f(g)(a)(b)` passes `g` itself to `f` | `B1(K)(K)(0)(1)` gives `K(1)`, but the documented law gives `K(0)` | the Blackbird `λfgab.f(gab)` named in its comment, i.e. `f(g(a)(b))` | high, not executed | Combinators.BlackbirdAsWrittenMissesLaw | Combinators.BlackbirdLaw |
