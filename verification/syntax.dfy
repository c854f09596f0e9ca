/**
  The untyped values of lambda.js.

  Every top-level definition of lambda.js is a curried arrow function. It is
  modelled as a primitive `Prim` with an arity (how many curried arguments it
  takes before its body runs) and a body `Expr`, a transcription of the arrow
  function's body in which `Arg(i)` is its i-th parameter and `Ref(p)` names
  another top-level definition. A run-time value is either such a function
  together with the arguments it has collected so far (a JS closure) or a host
  number, written as a literal or produced by the increment inside `jsnum`.
 */
module Syntax {

  /** The named definitions of lambda.js. `T`, `F`, `mult`, `n0` and `n1` are
      aliases of `K`, `KI`, `B`, `zero` and `once` and are not separate
      definitions. `Inc` is the anonymous `x => x + 1` inside `jsnum`;
      `Blackbird` is the corrected form of `B1` (see the README). */
  datatype Prim =
    | I | M | K | KI | C | B | Thrush | V | B1 | Blackbird
    | Not | And | Or | Beq
    | Zero | Once | Twice | Thrice | Succ | Inc | Jsnum | Add | Pow
    | First | Second | Is0 | Phi | Pred | Sub | Leq | Eq | Gt

  /** A run-time value: a host number, or a closure of `prim` holding the
      arguments it has received so far. */
  datatype Val = Num(n: nat) | Fn(prim: Prim, args: seq<Val>)

  /** The body of an arrow function. `App` is a JS call `fn(arg)`; `Incr` is
      the host addition `e + 1`. */
  datatype Expr =
    | Arg(i: nat)
    | Lit(v: Val)
    | App(fn: Expr, arg: Expr)
    | Incr(e: Expr)

  /** What evaluating a call gives: a value, a host error (calling a number,
      adding to a function), or no value at all. */
  datatype Outcome = Value(v: Val) | Stuck | Diverge

  /** The top-level definition `p` as a value, before any argument. */
  function Def(p: Prim): Val {
    Fn(p, [])
  }

  function Ref(p: Prim): Expr {
    Lit(Def(p))
  }

  /** Number of curried parameters of each definition. */
  function Arity(p: Prim): (r: nat)
    ensures r >= 1
  {
    match p
    case I => 1
    case M => 1
    case K => 2
    case KI => 2
    case C => 3
    case B => 3
    case Thrush => 2
    case V => 3
    case B1 => 4
    case Blackbird => 4
    case Not => 1
    case And => 2
    case Or => 2
    case Beq => 2
    case Zero => 2
    case Once => 2
    case Twice => 2
    case Thrice => 2
    case Succ => 3
    case Inc => 1
    case Jsnum => 1
    case Add => 2
    case Pow => 2
    case First => 1
    case Second => 1
    case Is0 => 1
    case Phi => 1
    case Pred => 1
    case Sub => 2
    case Leq => 2
    case Eq => 2
    case Gt => 2
  }

  /** `e` mentions only parameters below `k` and, besides them, only
      top-level definitions and constants: it has no free variables. */
  predicate Closed(e: Expr, k: nat) {
    match e
    case Arg(i) => i < k
    case Lit(v) => v == Num(0) || (v.Fn? && v.args == [])
    case App(f, a) => Closed(f, k) && Closed(a, k)
    case Incr(e1) => Closed(e1, k)
  }

  /** The body of each definition, parameters numbered from 0 in the order
      the arrow functions take them. */
  function Body(p: Prim): Expr {
    match p
    // identity
    case I => Arg(0)
    // self-application
    case M => App(Arg(0), Arg(0))
    // keep the first of two
    case K => Arg(0)
    // keep the second of two
    case KI => Arg(1)
    // call f with its two arguments swapped
    case C => App(App(Arg(0), Arg(2)), Arg(1))
    // composition
    case B => App(Arg(0), App(Arg(1), Arg(2)))
    // reverse application
    case Thrush => App(Arg(1), Arg(0))
    // pair: hand both components to the selector
    case V => App(App(Arg(2), Arg(0)), Arg(1))
    // as written: f receives g itself, then a and b
    case B1 => App(App(App(Arg(0), Arg(1)), Arg(2)), Arg(3))
    // corrected: f receives the result of g on a and b
    case Blackbird => App(Arg(0), App(App(Arg(1), Arg(2)), Arg(3)))
    // the boolean selects the opposite constant
    case Not => App(App(Arg(0), Ref(KI)), Ref(K))
    // q when p is true, else p
    case And => App(App(Arg(0), Arg(1)), Arg(0))
    // p when p is true, else q
    case Or => App(App(Arg(0), Arg(0)), Arg(1))
    // q when p is true, the negation of q otherwise
    case Beq =>
      App(App(Arg(0), App(App(Arg(1), Ref(K)), Ref(KI))),
          App(App(Arg(1), Ref(KI)), Ref(K)))
    // no application of f
    case Zero => Arg(1)
    // one application of f
    case Once => App(Arg(0), Arg(1))
    // two applications of f
    case Twice => App(Arg(0), App(Arg(0), Arg(1)))
    // three applications of f
    case Thrice => App(Arg(0), App(Arg(0), App(Arg(0), Arg(1))))
    // one more application of f outside those of n
    case Succ => App(Arg(1), App(App(Arg(0), Arg(1)), Arg(2)))
    // host increment
    case Inc => Incr(Arg(0))
    // count the applications, starting from the host 0
    case Jsnum => App(App(Arg(0), Ref(Inc)), Lit(Num(0)))
    // n successors of k
    case Add => App(App(Arg(0), Ref(Succ)), Arg(1))
    // k applied to n
    case Pow => App(Arg(1), Arg(0))
    // select the first component
    case First => App(Arg(0), Ref(K))
    // select the second component
    case Second => App(Arg(0), Ref(KI))
    // any application replaces T by F
    case Is0 => App(App(Arg(0), App(Ref(K), Ref(KI))), Ref(K))
    // shift the pair: (x, y) becomes (y, y + 1)
    case Phi => App(App(Ref(V), App(Ref(Second), Arg(0))), App(Ref(Succ), App(Ref(Second), Arg(0))))
    // n shifts from (0, 0), then the first component
    case Pred => App(Ref(First), App(App(Arg(0), Ref(Phi)), App(App(Ref(V), Ref(Zero)), Ref(Zero))))
    // k predecessors of n
    case Sub => App(App(Arg(1), Ref(Pred)), Arg(0))
    // the truncated difference is zero
    case Leq => App(Ref(Is0), App(App(Ref(Sub), Arg(0)), Arg(1)))
    // at most in both directions
    case Eq => App(App(Ref(And), App(App(Ref(Leq), Arg(0)), Arg(1))), App(App(Ref(Leq), Arg(1)), Arg(0)))
    // not at most
    case Gt => App(Ref(Not), App(App(Ref(Leq), Arg(0)), Arg(1)))
  }

  /** Every definition is a combinator: its body refers to nothing but its
      own parameters and other top-level definitions. */
  lemma BodiesClosed(p: Prim)
    ensures Closed(Body(p), Arity(p))
  {
    match p
    case I => assert Closed(Body(I), Arity(I));
    case M => assert Closed(Body(M), Arity(M));
    case K => assert Closed(Body(K), Arity(K));
    case KI => assert Closed(Body(KI), Arity(KI));
    case C => assert Closed(Body(C), Arity(C));
    case B => assert Closed(Body(B), Arity(B));
    case Thrush => assert Closed(Body(Thrush), Arity(Thrush));
    case V => assert Closed(Body(V), Arity(V));
    case B1 => assert Closed(Body(B1), Arity(B1));
    case Blackbird => assert Closed(Body(Blackbird), Arity(Blackbird));
    case Not => assert Closed(Body(Not), Arity(Not));
    case And => assert Closed(Body(And), Arity(And));
    case Or => assert Closed(Body(Or), Arity(Or));
    case Beq => assert Closed(Body(Beq), Arity(Beq));
    case Zero => assert Closed(Body(Zero), Arity(Zero));
    case Once => assert Closed(Body(Once), Arity(Once));
    case Twice => assert Closed(Body(Twice), Arity(Twice));
    case Thrice => assert Closed(Body(Thrice), Arity(Thrice));
    case Succ => assert Closed(Body(Succ), Arity(Succ));
    case Inc => assert Closed(Body(Inc), Arity(Inc));
    case Jsnum => assert Closed(Body(Jsnum), Arity(Jsnum));
    case Add => assert Closed(Body(Add), Arity(Add));
    case Pow => assert Closed(Body(Pow), Arity(Pow));
    case First => assert Closed(Body(First), Arity(First));
    case Second => assert Closed(Body(Second), Arity(Second));
    case Is0 => assert Closed(Body(Is0), Arity(Is0));
    case Phi => assert Closed(Body(Phi), Arity(Phi));
    case Pred => assert Closed(Body(Pred), Arity(Pred));
    case Sub => assert Closed(Body(Sub), Arity(Sub));
    case Leq => assert Closed(Body(Leq), Arity(Leq));
    case Eq => assert Closed(Body(Eq), Arity(Eq));
    case Gt => assert Closed(Body(Gt), Arity(Gt));
  }

  /** Host addition `x + 1` on an outcome: defined on numbers only. */
  function Increment(o: Outcome): Outcome {
    match o
    case Value(Num(n)) => Value(Num(n + 1))
    case Value(Fn(_, _)) => Stuck
    case _ => o
  }
}
