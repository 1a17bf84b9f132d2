/** `&&` and `||` as they are described, short-circuit, against `&&` and `||` as they are evaluated, strict. */
module CalcLazy {
  import opened Basics
  import opened CalcSyntax
  import opened CalcEval

  /** The left operand alone gives the answer. */
  predicate Settles<N>(ar: Arithmetic<N>, op: BinOp, l: N) {
    (op == And && ar.isZero(l)) || (op == Or && !ar.isZero(l))
  }

  /** Evaluation that leaves out the right operand of `&&` and `||` where the left one settles the answer. */
  function Lazy<N>(ar: Arithmetic<N>, e: Expr<N>, env: map<string, N>): Result<N, CalcError<N>> {
    match e
    case Num(v) => Ok(v)
    case Var(x) => if x in env then Ok(env[x]) else Err(UnknownVariable(x))
    case Neg(a) => (match Lazy(ar, a, env) case Ok(v) => Ok(ar.neg(v)) case Err(err) => Err(err))
    case Ternary(c, a, b) => (
      match Lazy(ar, c, env)
      case Err(err) => Err(err)
      case Ok(v) => if !ar.isZero(v) then Lazy(ar, a, env) else Lazy(ar, b, env))
    case Binary(op, a, b) => (
      match Lazy(ar, a, env)
      case Err(err) => Err(err)
      case Ok(l) =>
        if Settles(ar, op, l) then Finite(ar, Truth(ar, op == Or)) else
        match Lazy(ar, b, env)
        case Err(err) => Err(err)
        case Ok(r) => Operate(ar, op, l, r))
    case Call(fn, args) =>
      match LazyAll(ar, args, env)
      case Err(err) => Err(err)
      case Ok(vals) => Apply(ar, fn, vals)
  }

  function LazyAll<N>(ar: Arithmetic<N>, es: seq<Expr<N>>, env: map<string, N>): (r: Result<seq<N>, CalcError<N>>)
    ensures r.Ok? ==> |r.value| == |es|
  {
    if es == [] then Ok([]) else
    match Lazy(ar, es[0], env)
    case Err(err) => Err(err)
    case Ok(v) =>
      match LazyAll(ar, es[1..], env)
      case Err(err) => Err(err)
      case Ok(vs) => Ok([v] + vs)
  }

  /** On the way of the lazy evaluation some left operand settles the answer while the operand it leaves out would
      fail, or hides such a place itself. */
  predicate Hidden<N>(ar: Arithmetic<N>, e: Expr<N>, env: map<string, N>) {
    match e
    case Num(_) | Var(_) => false
    case Neg(a) => Hidden(ar, a, env)
    case Ternary(c, a, b) =>
      || Hidden(ar, c, env)
      || (match Lazy(ar, c, env)
          case Err(_) => false
          case Ok(v) => if !ar.isZero(v) then Hidden(ar, a, env) else Hidden(ar, b, env))
    case Binary(op, a, b) =>
      || Hidden(ar, a, env)
      || (match Lazy(ar, a, env)
          case Err(_) => false
          case Ok(l) => Hidden(ar, b, env) || (Settles(ar, op, l) && Lazy(ar, b, env).Err?))
    case Call(_, args) => HiddenInAll(ar, args, env)
  }

  predicate HiddenInAll<N>(ar: Arithmetic<N>, es: seq<Expr<N>>, env: map<string, N>) {
    es != [] && (Hidden(ar, es[0], env) || (Lazy(ar, es[0], env).Ok? && HiddenInAll(ar, es[1..], env)))
  }

  /** For every tree: the strict evaluation gives what the lazy one does unless an operand that fails is hidden from the
      lazy one, and then it fails. */
  lemma {:induction false} StrictUnlessHidden<N>(ar: Arithmetic<N>, e: Expr<N>, env: map<string, N>)
    ensures if Hidden(ar, e, env) then Eval(ar, e, env).Err? else Eval(ar, e, env) == Lazy(ar, e, env)
    decreases e
  {
    match e {
      case Num(_) =>
      case Var(_) =>
      case Neg(a) => StrictUnlessHidden(ar, a, env);
      case Binary(_, a, b) =>
        StrictUnlessHidden(ar, a, env);
        StrictUnlessHidden(ar, b, env);
      case Ternary(c, a, b) =>
        StrictUnlessHidden(ar, c, env);
        StrictUnlessHidden(ar, a, env);
        StrictUnlessHidden(ar, b, env);
      case Call(_, args) => StrictUnlessHiddenInAll(ar, args, env);
    }
  }

  lemma {:induction false} StrictUnlessHiddenInAll<N>(ar: Arithmetic<N>, es: seq<Expr<N>>, env: map<string, N>)
    ensures if HiddenInAll(ar, es, env) then EvalAll(ar, es, env).Err? else EvalAll(ar, es, env) == LazyAll(ar, es, env)
    decreases es
  {
    if es != [] {
      StrictUnlessHidden(ar, es[0], env);
      StrictUnlessHiddenInAll(ar, es[1..], env);
    }
  }

  /** A value comes out exactly when the lazy evaluation gives one and hides nothing, and then it is that value. */
  lemma SucceedsExactlyWhenLazyHidesNothing<N>(ar: Arithmetic<N>, e: Expr<N>, env: map<string, N>)
    ensures Eval(ar, e, env).Ok? <==> Lazy(ar, e, env).Ok? && !Hidden(ar, e, env)
    ensures Eval(ar, e, env).Ok? ==> Eval(ar, e, env) == Lazy(ar, e, env)
  {
    StrictUnlessHidden(ar, e, env);
  }

  /** `0 && 1 / 0` fails instead of being 0, and so does `(0 && 1 / 0) || 1` instead of being 1. */
  lemma StrictExample<N>(ar: Arithmetic<N>)
    requires ar.isZero(ar.zero) && ar.isFinite(ar.zero) && !ar.isZero(ar.one) && ar.isFinite(ar.one)
    ensures var some := Binary(And, Num(ar.zero), Binary(Div, Num(ar.one), Num(ar.zero)));
            && Eval(ar, some, map[]) == Err(DivisionByZero) && Lazy(ar, some, map[]) == Ok(ar.zero)
            && Eval(ar, Binary(Or, some, Num(ar.one)), map[]) == Err(DivisionByZero)
            && Lazy(ar, Binary(Or, some, Num(ar.one)), map[]) == Ok(ar.one)
  {
    var zero, one, bad := Num(ar.zero), Num(ar.one), Binary(Div, Num(ar.one), Num(ar.zero));
    assert Eval(ar, zero, map[]) == Lazy(ar, zero, map[]) == Ok(ar.zero);
    assert Eval(ar, one, map[]) == Lazy(ar, one, map[]) == Ok(ar.one);
    assert Eval(ar, bad, map[]) == Err(DivisionByZero);
    var some := Binary(And, zero, bad);
    assert Settles(ar, And, ar.zero) && !Settles(ar, Or, ar.zero);
    assert Lazy(ar, some, map[]) == Ok(ar.zero);
    assert Operate(ar, Or, ar.zero, ar.one) == Ok(ar.one);
  }
}
