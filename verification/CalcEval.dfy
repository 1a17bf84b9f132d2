/** Evaluation and static analysis of a tree. */
module CalcEval {
  import opened Basics
  import opened CalcSyntax

  function Finite<N>(ar: Arithmetic<N>, v: N): Result<N, CalcError<N>> {
    if ar.isFinite(v) then Ok(v) else Err(OutOfRange)
  }

  function Truth<N>(ar: Arithmetic<N>, b: bool): N {
    if b then ar.one else ar.zero
  }

  function Operate<N>(ar: Arithmetic<N>, op: BinOp, l: N, r: N): Result<N, CalcError<N>> {
    match op
    case Div => if ar.isZero(r) then Err(DivisionByZero) else Finite(ar, ar.arith(Div, l, r))
    case Rem => if ar.isZero(r) then Err(ModuloByZero) else Finite(ar, ar.arith(Rem, l, r))
    case Add | Sub | Mul | Pow => Finite(ar, ar.arith(op, l, r))
    case And => Finite(ar, Truth(ar, !ar.isZero(l) && !ar.isZero(r)))
    case Or => Finite(ar, Truth(ar, !ar.isZero(l) || !ar.isZero(r)))
    case _ => Finite(ar, Truth(ar, ar.compare(op, l, r)))
  }

  /** The function calls the evaluator knows: `min` and `max` take any number of arguments here. */
  predicate Callable(fn: string, count: nat) {
    || (count == 1 && fn in {"abs", "round", "floor", "ceil", "sqrt", "log", "log10", "log2", "exp",
                             "sin", "cos", "tan", "asin", "acos", "atan"})
    || (count == 2 && fn in {"round", "pow", "atan2"})
    || fn == "min" || fn == "max"
  }

  function Fold<N>(ar: Arithmetic<N>, fn: string, acc: N, vals: seq<N>): N {
    if vals == [] then acc else Fold(ar, fn, ar.apply(fn, [acc, vals[0]]), vals[1..])
  }

  function Apply<N>(ar: Arithmetic<N>, fn: string, vals: seq<N>): Result<N, CalcError<N>> {
    if !Callable(fn, |vals|) then Err(UnknownFunction(fn))
    else if fn == "min" then Finite(ar, Fold(ar, fn, ar.infinity, vals))
    else if fn == "max" then Finite(ar, Fold(ar, fn, ar.neg(ar.infinity), vals))
    else Finite(ar, ar.apply(fn, vals))
  }

  /** Both operands of every binary operator are evaluated; only the ternary skips a branch. */
  function Eval<N>(ar: Arithmetic<N>, e: Expr<N>, env: map<string, N>): Result<N, CalcError<N>> {
    match e
    case Num(v) => Ok(v)
    case Var(x) => if x in env then Ok(env[x]) else Err(UnknownVariable(x))
    case Neg(a) => (match Eval(ar, a, env) case Ok(v) => Ok(ar.neg(v)) case Err(err) => Err(err))
    case Ternary(c, a, b) => (
      match Eval(ar, c, env)
      case Err(err) => Err(err)
      case Ok(v) => if !ar.isZero(v) then Eval(ar, a, env) else Eval(ar, b, env))
    case Binary(op, a, b) => (
      match Eval(ar, a, env)
      case Err(err) => Err(err)
      case Ok(l) =>
        match Eval(ar, b, env)
        case Err(err) => Err(err)
        case Ok(r) => Operate(ar, op, l, r))
    case Call(fn, args) =>
      match EvalAll(ar, args, env)
      case Err(err) => Err(err)
      case Ok(vals) => Apply(ar, fn, vals)
  }

  function EvalAll<N>(ar: Arithmetic<N>, es: seq<Expr<N>>, env: map<string, N>): (r: Result<seq<N>, CalcError<N>>)
    ensures r.Ok? ==> |r.value| == |es|
  {
    if es == [] then Ok([]) else
    match Eval(ar, es[0], env)
    case Err(err) => Err(err)
    case Ok(v) =>
      match EvalAll(ar, es[1..], env)
      case Err(err) => Err(err)
      case Ok(vs) => Ok([v] + vs)
  }

  // ------------------------------------------------------------------ static analysis

  /** Least and, unless variadic, greatest number of arguments of a known function. */
  function Signature(fn: string): Option<(nat, Option<nat>)> {
    if fn == "round" then Some((1, Some(2)))
    else if fn in {"pow", "atan2"} then Some((2, Some(2)))
    else if fn in {"min", "max"} then Some((1, None))
    else if fn in {"abs", "floor", "ceil", "sqrt", "log", "log10", "log2", "exp", "sin", "cos", "tan",
                   "asin", "acos", "atan"} then Some((1, Some(1)))
    else None
  }

  function CallFault<N>(fn: string, count: nat): Option<CalcError<N>> {
    match Signature(fn)
    case None => Some(UnknownFunction(fn))
    case Some((min, None)) => if count >= min then None else Some(ArityMin(fn, min, count))
    case Some((min, Some(max))) =>
      if min <= count <= max then None
      else if max == min then Some(ArityExact(fn, min, count))
      else Some(ArityRange(fn, min, max, count))
  }

  function OneOrNone<T>(o: Option<T>): seq<T> {
    if o.Some? then [o.value] else []
  }

  /** Every fault of the tree, a call before its arguments, from left to right. */
  function Faults<N>(e: Expr<N>): seq<CalcError<N>> {
    match e
    case Num(_) | Var(_) => []
    case Neg(a) => Faults(a)
    case Ternary(c, a, b) => Faults(c) + Faults(a) + Faults(b)
    case Binary(_, a, b) => Faults(a) + Faults(b)
    case Call(fn, args) => OneOrNone(CallFault(fn, |args|)) + FaultsOfAll(args)
  }

  function FaultsOfAll<N>(es: seq<Expr<N>>): seq<CalcError<N>> {
    if es == [] then [] else Faults(es[0]) + FaultsOfAll(es[1..])
  }

  /** The calls of a tree as they are written, each with its number of arguments: a call before those in its arguments,
      an operand before the one after it. */
  function Calls<N>(e: Expr<N>): seq<(string, nat)> {
    match e
    case Num(_) | Var(_) => []
    case Neg(a) => Calls(a)
    case Binary(_, a, b) => Calls(a) + Calls(b)
    case Ternary(c, a, b) => Calls(c) + (Calls(a) + Calls(b))
    case Call(fn, args) => [(fn, |args|)] + CallsOfAll(args)
  }

  function CallsOfAll<N>(es: seq<Expr<N>>): seq<(string, nat)> {
    if es == [] then [] else Calls(es[0]) + CallsOfAll(es[1..])
  }

  /** The faults of the calls that have one, in the order of the calls. */
  function FaultsOfCalls<N>(calls: seq<(string, nat)>): seq<CalcError<N>> {
    if calls == [] then []
    else OneOrNone(CallFault(calls[0].0, calls[0].1)) + FaultsOfCalls(calls[1..])
  }

  lemma {:induction false} FaultsOfMore<N>(a: seq<(string, nat)>, b: seq<(string, nat)>)
    ensures FaultsOfCalls<N>(a + b) == FaultsOfCalls<N>(a) + FaultsOfCalls<N>(b)
    decreases a
  {
    if a == [] {
      assert a + b == b;
    } else {
      FaultsOfMore<N>(a[1..], b);
      assert (a + b)[1..] == a[1..] + b;
      Assoc(OneOrNone(CallFault<N>(a[0].0, a[0].1)), FaultsOfCalls<N>(a[1..]), FaultsOfCalls<N>(b));
    }
  }

  /** Every call is judged once, by its name and its number of arguments, in the order the calls are written. */
  lemma {:induction false} FaultsFollowTheText<N>(e: Expr<N>)
    ensures Faults(e) == FaultsOfCalls<N>(Calls(e))
    decreases e
  {
    match e {
      case Num(_) =>
      case Var(_) =>
      case Neg(a) => FaultsFollowTheText(a);
      case Binary(_, a, b) =>
        FaultsFollowTheText(a);
        FaultsFollowTheText(b);
        FaultsOfMore<N>(Calls(a), Calls(b));
      case Ternary(c, a, b) =>
        FaultsFollowTheText(c);
        FaultsFollowTheText(a);
        FaultsFollowTheText(b);
        FaultsOfMore<N>(Calls(a), Calls(b));
        FaultsOfMore<N>(Calls(c), Calls(a) + Calls(b));
        Assoc(Faults(c), Faults(a), Faults(b));
      case Call(fn, args) =>
        FaultsOfAllFollowTheText(args);
        FaultsOfMore<N>([(fn, |args|)], CallsOfAll(args));
        assert FaultsOfCalls<N>([(fn, |args|)]) == OneOrNone(CallFault<N>(fn, |args|)) + FaultsOfCalls<N>([]);
    }
  }

  lemma {:induction false} FaultsOfAllFollowTheText<N>(es: seq<Expr<N>>)
    ensures FaultsOfAll(es) == FaultsOfCalls<N>(CallsOfAll(es))
    decreases es
  {
    if es != [] {
      FaultsFollowTheText(es[0]);
      FaultsOfAllFollowTheText(es[1..]);
      FaultsOfMore<N>(Calls(es[0]), CallsOfAll(es[1..]));
    }
  }

  method Analyze<N>(e: Expr<N>, out: seq<CalcError<N>>) returns (errors: seq<CalcError<N>>)
    ensures errors == out + Faults(e)
    decreases e
  {
    errors := out;
    match e
    case Num(_) =>
    case Var(_) =>
    case Neg(a) => errors := Analyze(a, errors);
    case Ternary(c, a, b) =>
      errors := Analyze(c, errors);
      errors := Analyze(a, errors);
      errors := Analyze(b, errors);
      Regroup(out, Faults(c), Faults(a), Faults(b));
    case Binary(_, a, b) =>
      errors := Analyze(a, errors);
      errors := Analyze(b, errors);
      Assoc(out, Faults(a), Faults(b));
    case Call(fn, args) =>
      errors := AnalyzeCall(fn, |args|, errors);
      errors := AnalyzeAll(args, errors);
      Assoc(out, OneOrNone(CallFault(fn, |args|)), FaultsOfAll(args));
  }

  /** Nothing is appended for a call the evaluator can make, `min()` and `max()` excepted; else one error, which is
      right about the numbers of arguments the evaluator takes. */
  method AnalyzeCall<N>(fn: string, count: nat, out: seq<CalcError<N>>) returns (errors: seq<CalcError<N>>)
    ensures errors == out + OneOrNone(CallFault(fn, count))
    ensures errors == out <==> Callable(fn, count) && !(count == 0 && fn in {"min", "max"})
    ensures errors != out ==> |errors| == |out| + 1 && errors[..|out|] == out && TellsArity(errors[|out|], fn, count)
  {
    errors := out;
    match Signature(fn)
    case None => errors := errors + [UnknownFunction(fn)];
    case Some((min, max)) =>
      if !(count >= min && (max.None? || count <= max.value)) {
        var error := if max.None? then ArityMin(fn, min, count)
                     else if max.value == min then ArityExact(fn, min, count)
                     else ArityRange(fn, min, max.value, count);
        errors := errors + [error];
      }
  }

  /** What the error of a call says of the function: that the evaluator makes no call of that name, or exactly which
      numbers of arguments it takes; from `min` on for a variadic one, which it takes without any as well. */
  ghost predicate TellsArity<N>(e: CalcError<N>, fn: string, count: nat) {
    match e
    case UnknownFunction(f) => f == fn && forall n: nat :: !Callable(fn, n)
    case ArityExact(f, k, got) => f == fn && got == count != k && forall n: nat :: Callable(fn, n) <==> n == k
    case ArityRange(f, min, max, got) =>
      f == fn && got == count && !(min <= count <= max) && forall n: nat :: Callable(fn, n) <==> min <= n <= max
    case ArityMin(f, min, got) => f == fn && got == count < min && forall n: nat :: Callable(fn, n)
    case _ => false
  }

  method AnalyzeAll<N>(es: seq<Expr<N>>, out: seq<CalcError<N>>) returns (errors: seq<CalcError<N>>)
    ensures errors == out + FaultsOfAll(es)
    decreases es
  {
    errors := out;
    var i := 0;
    while i < |es|
      invariant 0 <= i <= |es|
      invariant out + FaultsOfAll(es) == errors + FaultsOfAll(es[i..])
    {
      ghost var before := errors;
      errors := Analyze(es[i], errors);
      assert es[i..][1..] == es[i + 1..];
      assert before + (Faults(es[i]) + FaultsOfAll(es[i + 1..])) == errors + FaultsOfAll(es[i + 1..]);
      i := i + 1;
    }
  }

  // ------------------------------------------------------------------ validator and evaluator agree

  /** The two tables of functions differ only on `min()` and `max()`. */
  lemma TablesAgree<N>(fn: string, count: nat)
    ensures CallFault<N>(fn, count) == None ==> Callable(fn, count)
    ensures Callable(fn, count) && CallFault<N>(fn, count).Some? <==> count == 0 && fn in {"min", "max"}
    ensures CallFault<N>(fn, count).Some? ==> CallFaultOf(CallFault<N>(fn, count).value, fn)
  {
  }

  /** A fault of a call of `fn`. */
  ghost predicate CallFaultOf<N>(f: CalcError<N>, fn: string) {
    (f.UnknownFunction? || f.ArityExact? || f.ArityRange? || f.ArityMin?) && f.fn == fn
  }

  /** An error of the evaluator is a run time error, or an unknown function whose name the validator flags. */
  ghost predicate Explained<N(!new)>(r: CalcError<N>, faults: seq<CalcError<N>>) {
    r.Runtime() || (r.UnknownFunction? && exists f :: f in faults && CallFaultOf(f, r.fn))
  }

  lemma {:induction false} EvalErrorsExplained<N(!new)>(ar: Arithmetic<N>, e: Expr<N>, env: map<string, N>)
    requires Eval(ar, e, env).Err?
    ensures Explained(Eval(ar, e, env).error, Faults(e))
    decreases e
  {
    match e {
      case Num(_) =>
      case Var(_) =>
      case Neg(a) => EvalErrorsExplained(ar, a, env);
      case Binary(_, a, b) =>
        if Eval(ar, a, env).Err? {
          EvalErrorsExplained(ar, a, env);
        } else if Eval(ar, b, env).Err? {
          EvalErrorsExplained(ar, b, env);
        }
      case Ternary(c, a, b) =>
        if Eval(ar, c, env).Err? {
          EvalErrorsExplained(ar, c, env);
        } else if !ar.isZero(Eval(ar, c, env).value) {
          EvalErrorsExplained(ar, a, env);
        } else {
          EvalErrorsExplained(ar, b, env);
        }
      case Call(fn, args) =>
        if EvalAll(ar, args, env).Err? {
          EvalAllErrorsExplained(ar, args, env);
        } else {
          CallErrorExplained(ar, fn, args, EvalAll(ar, args, env).value);
        }
    }
  }

  lemma CallErrorExplained<N(!new)>(ar: Arithmetic<N>, fn: string, args: seq<Expr<N>>, vals: seq<N>)
    requires |vals| == |args| && Apply(ar, fn, vals).Err?
    ensures Explained(Apply(ar, fn, vals).error, Faults(Call(fn, args)))
  {
    TablesAgree<N>(fn, |args|);
    if !Callable(fn, |args|) {
      assert CallFault<N>(fn, |args|).value in Faults(Call(fn, args));
    }
  }

  lemma {:induction false} EvalAllErrorsExplained<N(!new)>(ar: Arithmetic<N>, es: seq<Expr<N>>, env: map<string, N>)
    requires EvalAll(ar, es, env).Err?
    ensures Explained(EvalAll(ar, es, env).error, FaultsOfAll(es))
    decreases es
  {
    if Eval(ar, es[0], env).Err? {
      EvalErrorsExplained(ar, es[0], env);
    } else {
      EvalAllErrorsExplained(ar, es[1..], env);
    }
  }

  /** The faults an evaluation goes through: those of an untaken ternary branch are left out. */
  function FaultsMet<N>(ar: Arithmetic<N>, e: Expr<N>, env: map<string, N>): seq<CalcError<N>> {
    match e
    case Num(_) | Var(_) => []
    case Neg(a) => FaultsMet(ar, a, env)
    case Binary(_, a, b) => FaultsMet(ar, a, env) + FaultsMet(ar, b, env)
    case Call(fn, args) => OneOrNone(CallFault(fn, |args|)) + FaultsMetByAll(ar, args, env)
    case Ternary(c, a, b) =>
      FaultsMet(ar, c, env) +
      (match Eval(ar, c, env)
       case Err(_) => []
       case Ok(v) => if !ar.isZero(v) then FaultsMet(ar, a, env) else FaultsMet(ar, b, env))
  }

  function FaultsMetByAll<N>(ar: Arithmetic<N>, es: seq<Expr<N>>, env: map<string, N>): seq<CalcError<N>> {
    if es == [] then [] else FaultsMet(ar, es[0], env) + FaultsMetByAll(ar, es[1..], env)
  }

  /** What the evaluator relies on: infinity and its opposite are out of range. */
  ghost predicate Lawful<N(!new)>(ar: Arithmetic<N>) {
    !ar.isFinite(ar.infinity) && !ar.isFinite(ar.neg(ar.infinity))
  }

  /** Conversely, an evaluation that succeeds met none of the faults the validator reports. */
  lemma {:induction false} SuccessMeetsNoFault<N(!new)>(ar: Arithmetic<N>, e: Expr<N>, env: map<string, N>)
    requires Lawful(ar) && Eval(ar, e, env).Ok?
    ensures FaultsMet(ar, e, env) == []
    decreases e
  {
    match e {
      case Num(_) =>
      case Var(_) =>
      case Neg(a) => SuccessMeetsNoFault(ar, a, env);
      case Binary(_, a, b) =>
        SuccessMeetsNoFault(ar, a, env);
        SuccessMeetsNoFault(ar, b, env);
      case Ternary(c, a, b) =>
        SuccessMeetsNoFault(ar, c, env);
        if !ar.isZero(Eval(ar, c, env).value) {
          SuccessMeetsNoFault(ar, a, env);
        } else {
          SuccessMeetsNoFault(ar, b, env);
        }
      case Call(fn, args) =>
        TablesAgree<N>(fn, |args|);
        SuccessMeetsNoFaultInAll(ar, args, env);
    }
  }

  lemma {:induction false} SuccessMeetsNoFaultInAll<N(!new)>(ar: Arithmetic<N>, es: seq<Expr<N>>, env: map<string, N>)
    requires Lawful(ar) && EvalAll(ar, es, env).Ok?
    ensures FaultsMetByAll(ar, es, env) == []
    decreases es
  {
    if es != [] {
      SuccessMeetsNoFault(ar, es[0], env);
      SuccessMeetsNoFaultInAll(ar, es[1..], env);
    }
  }

  // ------------------------------------------------------------------ results out of range

  /** The literal or variable whose value comes out unchecked: one reached through signs and taken branches only. */
  function Unchecked<N>(ar: Arithmetic<N>, e: Expr<N>, env: map<string, N>): Option<N> {
    match e
    case Num(v) => Some(v)
    case Var(x) => if x in env then Some(env[x]) else None
    case Neg(a) => Unchecked(ar, a, env)
    case Ternary(c, a, b) => (
      match Eval(ar, c, env)
      case Err(_) => None
      case Ok(v) => if !ar.isZero(v) then Unchecked(ar, a, env) else Unchecked(ar, b, env))
    case _ => None
  }

  ghost predicate NegKeepsFinite<N(!new)>(ar: Arithmetic<N>) {
    forall v :: ar.isFinite(ar.neg(v)) <==> ar.isFinite(v)
  }

  /** A result is out of range exactly when it is an unchecked literal or variable that is: every operator and call
      checks its own. */
  lemma {:induction false} FiniteUnlessUnchecked<N(!new)>(ar: Arithmetic<N>, e: Expr<N>, env: map<string, N>)
    requires NegKeepsFinite(ar) && Eval(ar, e, env).Ok?
    ensures ar.isFinite(Eval(ar, e, env).value)
            <==> (Unchecked(ar, e, env) == None || ar.isFinite(Unchecked(ar, e, env).value))
    decreases e
  {
    match e {
      case Neg(a) => FiniteUnlessUnchecked(ar, a, env);
      case Ternary(c, a, b) =>
        if !ar.isZero(Eval(ar, c, env).value) {
          FiniteUnlessUnchecked(ar, a, env);
        } else {
          FiniteUnlessUnchecked(ar, b, env);
        }
      case _ =>
    }
  }

  // ------------------------------------------------------------------ environments

  ghost predicate SameOn<N>(xs: set<string>, env: map<string, N>, env': map<string, N>) {
    forall x :: x in xs ==> (x in env <==> x in env') && (x in env ==> env[x] == env'[x])
  }

  /** The value depends only on the variables of the tree. */
  lemma {:induction false} EvalDependsOnVars<N>(ar: Arithmetic<N>, e: Expr<N>, env: map<string, N>, env': map<string, N>)
    requires SameOn(Vars(e), env, env')
    ensures Eval(ar, e, env) == Eval(ar, e, env')
    decreases e
  {
    match e {
      case Num(_) =>
      case Var(_) =>
      case Neg(a) => EvalDependsOnVars(ar, a, env, env');
      case Binary(_, a, b) =>
        EvalDependsOnVars(ar, a, env, env');
        EvalDependsOnVars(ar, b, env, env');
      case Ternary(c, a, b) =>
        EvalDependsOnVars(ar, c, env, env');
        EvalDependsOnVars(ar, a, env, env');
        EvalDependsOnVars(ar, b, env, env');
      case Call(_, args) => EvalAllDependsOnVars(ar, args, env, env');
    }
  }

  lemma {:induction false} EvalAllDependsOnVars<N>(
      ar: Arithmetic<N>, es: seq<Expr<N>>, env: map<string, N>, env': map<string, N>)
    requires SameOn(VarsOfAll(es), env, env')
    ensures EvalAll(ar, es, env) == EvalAll(ar, es, env')
    decreases es
  {
    if es != [] {
      EvalDependsOnVars(ar, es[0], env, env');
      EvalAllDependsOnVars(ar, es[1..], env, env');
    }
  }

  /** A variable reported unknown is one of the tree's, and is missing from the environment. */
  lemma {:induction false} UnknownIsMissing<N>(ar: Arithmetic<N>, e: Expr<N>, env: map<string, N>, x: string)
    requires Eval(ar, e, env) == Err(UnknownVariable(x))
    ensures x in Vars(e) && x !in env
    decreases e
  {
    match e {
      case Var(_) =>
      case Neg(a) => UnknownIsMissing(ar, a, env, x);
      case Binary(_, a, b) =>
        if Eval(ar, a, env).Err? {
          UnknownIsMissing(ar, a, env, x);
        } else {
          UnknownIsMissing(ar, b, env, x);
        }
      case Ternary(c, a, b) =>
        if Eval(ar, c, env).Err? {
          UnknownIsMissing(ar, c, env, x);
        } else if !ar.isZero(Eval(ar, c, env).value) {
          UnknownIsMissing(ar, a, env, x);
        } else {
          UnknownIsMissing(ar, b, env, x);
        }
      case Call(_, args) => UnknownIsMissingInAll(ar, args, env, x);
    }
  }

  lemma {:induction false} UnknownIsMissingInAll<N>(ar: Arithmetic<N>, es: seq<Expr<N>>, env: map<string, N>, x: string)
    requires EvalAll(ar, es, env) == Err(UnknownVariable(x))
    ensures x in VarsOfAll(es) && x !in env
    decreases es
  {
    if Eval(ar, es[0], env).Err? {
      UnknownIsMissing(ar, es[0], env, x);
    } else {
      UnknownIsMissingInAll(ar, es[1..], env, x);
    }
  }
}
