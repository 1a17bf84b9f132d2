/** What an expression means over the real numbers, apart from the evaluator, and that evaluation gives it. */
module CalcMeaning {
  import opened Basics
  import opened CalcSyntax
  import opened CalcEval
  import opened Calc

  /** The values of a number type without rounding. */
  datatype Number = Real(r: real) | PosInf | NegInf | NaN

  /** What is left open: powers, operations on a value that is not a real number, the transcendental functions, and how
      a number is written. */
  datatype Library = Library(
    power: (real, real) -> Number,
    special: (BinOp, Number, Number) -> Number,
    specialCompare: (BinOp, Number, Number) -> bool,
    other: (string, seq<Number>) -> Number,
    parse: string -> Number,
    pi: real,
    e: real)

  function Truncated(x: real): int {
    if x >= 0.0 then x.Floor else -((-x).Floor)
  }

  function Opposite(x: Number): Number {
    match x
    case Real(r) => Real(-r)
    case PosInf => NegInf
    case NegInf => PosInf
    case NaN => NaN
  }

  function Arith(lib: Library, op: BinOp, a: Number, b: Number): Number {
    match (op, a, b)
    case (Add, Real(x), Real(y)) => Real(x + y)
    case (Sub, Real(x), Real(y)) => Real(x - y)
    case (Mul, Real(x), Real(y)) => Real(x * y)
    case (Div, Real(x), Real(y)) => if y != 0.0 then Real(x / y) else lib.special(op, a, b)
    case (Rem, Real(x), Real(y)) => if y != 0.0 then Real(x - y * Truncated(x / y) as real) else lib.special(op, a, b)
    case (Pow, Real(x), Real(y)) => lib.power(x, y)
    case _ => lib.special(op, a, b)
  }

  function Compare(lib: Library, op: BinOp, a: Number, b: Number): bool {
    match (op, a, b)
    case (EqCmp, Real(x), Real(y)) => x == y
    case (NeCmp, Real(x), Real(y)) => x != y
    case (LtCmp, Real(x), Real(y)) => x < y
    case (LeCmp, Real(x), Real(y)) => x <= y
    case (GtCmp, Real(x), Real(y)) => x > y
    case (GeCmp, Real(x), Real(y)) => x >= y
    case _ => lib.specialCompare(op, a, b)
  }

  /** Of two values, neither of them no number, the first is not above the second. */
  predicate AtMost(a: Number, b: Number) {
    a == NegInf || b == PosInf || (a.Real? && b.Real? && a.r <= b.r)
  }

  function Smaller(a: Number, b: Number): Number {
    if a.NaN? then b else if b.NaN? || AtMost(a, b) then a else b
  }

  function Larger(a: Number, b: Number): Number {
    if a.NaN? then b else if b.NaN? || AtMost(b, a) then a else b
  }

  function Applied(lib: Library, fn: string, vals: seq<Number>): Number {
    if fn == "min" && |vals| == 2 then Smaller(vals[0], vals[1])
    else if fn == "max" && |vals| == 2 then Larger(vals[0], vals[1])
    else if fn == "pow" && |vals| == 2 && vals[0].Real? && vals[1].Real? then lib.power(vals[0].r, vals[1].r)
    else if fn == "abs" && |vals| == 1 && vals[0].Real? then Real(if vals[0].r < 0.0 then -vals[0].r else vals[0].r)
    else if fn == "floor" && |vals| == 1 && vals[0].Real? then Real(vals[0].r.Floor as real)
    else if fn == "ceil" && |vals| == 1 && vals[0].Real? then Real(-((-vals[0].r).Floor as real))
    else lib.other(fn, vals)
  }

  /** Arithmetic on real numbers, as the evaluator uses it. */
  function RealArithmetic(lib: Library): Arithmetic<Number> {
    Arithmetic(
      Real(0.0), Real(1.0), Real(lib.pi), Real(lib.e), PosInf,
      (x: Number) => x.Real?,
      (x: Number) => x == Real(0.0),
      (x: Number) => Opposite(x),
      (op: BinOp, a: Number, b: Number) => Arith(lib, op, a, b),
      (op: BinOp, a: Number, b: Number) => Compare(lib, op, a, b),
      (fn: string, vals: seq<Number>) => Applied(lib, fn, vals),
      lib.parse)
  }

  // ------------------------------------------------------------------ the meaning of a tree

  /** `v` is the least of the values that are numbers; positive infinity when there is none. */
  ghost predicate IsLeast(v: Number, vals: seq<Number>) {
    && !v.NaN?
    && (v in vals || (v == PosInf && forall x :: x in vals ==> x.NaN?))
    && forall x :: x in vals && !x.NaN? ==> AtMost(v, x)
  }

  ghost predicate IsGreatest(v: Number, vals: seq<Number>) {
    && !v.NaN?
    && (v in vals || (v == NegInf && forall x :: x in vals ==> x.NaN?))
    && forall x :: x in vals && !x.NaN? ==> AtMost(x, v)
  }

  function OneOrZero(b: bool): Number {
    Real(if b then 1.0 else 0.0)
  }

  /** The meaning of an operator between two real numbers. */
  function OfReals(lib: Library, op: BinOp, l: real, r: real): Number {
    match op
    case Add => Real(l + r)
    case Sub => Real(l - r)
    case Mul => Real(l * r)
    case Div => if r == 0.0 then NaN else Real(l / r)
    case Rem => if r == 0.0 then NaN else Real(l - Truncated(l / r) as real * r)
    case Pow => lib.power(l, r)
    case EqCmp => OneOrZero(l == r)
    case NeCmp => OneOrZero(l != r)
    case LtCmp => OneOrZero(l < r)
    case LeCmp => OneOrZero(l <= r)
    case GtCmp => OneOrZero(l > r)
    case GeCmp => OneOrZero(l >= r)
    case And => OneOrZero(l != 0.0 && r != 0.0)
    case Or => OneOrZero(l != 0.0 || r != 0.0)
  }

  /** The same where one side is infinite or no number: such a side counts as true. */
  function OfOthers(lib: Library, op: BinOp, l: Number, r: Number): Number {
    match op
    case And => OneOrZero(l != Real(0.0) && r != Real(0.0))
    case Or => OneOrZero(true)
    case Add | Sub | Mul | Div | Rem | Pow => lib.special(op, l, r)
    case _ => OneOrZero(lib.specialCompare(op, l, r))
  }

  /** The meaning of a tree: variables are looked up, operators mean what they mean for real numbers, a call gets the
      meanings of its arguments in the order they are written. */
  ghost function Meaning(lib: Library, e: Expr<Number>, env: map<string, Number>): Number {
    match e
    case Num(v) => v
    case Var(x) => if x in env then env[x] else NaN
    case Neg(a) => Opposite(Meaning(lib, a, env))
    case Ternary(c, a, b) => if Meaning(lib, c, env) != Real(0.0) then Meaning(lib, a, env) else Meaning(lib, b, env)
    case Binary(op, a, b) =>
      var l, r := Meaning(lib, a, env), Meaning(lib, b, env);
      if l.Real? && r.Real? then OfReals(lib, op, l.r, r.r) else OfOthers(lib, op, l, r)
    case Call(fn, args) =>
      CallMeaning(lib, fn, seq(|args|, i requires 0 <= i < |args| => Meaning(lib, args[i], env)))
  }

  ghost function CallMeaning(lib: Library, fn: string, vals: seq<Number>): Number {
    if fn == "min" then (if exists v :: IsLeast(v, vals) then var v :| IsLeast(v, vals); v else NaN)
    else if fn == "max" then (if exists v :: IsGreatest(v, vals) then var v :| IsGreatest(v, vals); v else NaN)
    else Applied(lib, fn, vals)
  }

  /** The calls there are, by name and number of arguments. */
  predicate Known(fn: string, count: nat) {
    match fn
    case "min" | "max" => true
    case "round" => count == 1 || count == 2
    case "pow" | "atan2" => count == 2
    case "abs" | "floor" | "ceil" | "sqrt" | "exp" | "log" | "log2" | "log10" | "sin" | "cos" | "tan" | "asin" | "acos"
       | "atan" => count == 1
    case _ => false
  }

  /** Every part that is evaluated has a value: the variables are known, the calls exist, no divisor is zero, and what
      an operator or a call gives is a real number. */
  ghost predicate Defined(lib: Library, e: Expr<Number>, env: map<string, Number>) {
    match e
    case Num(_) => true
    case Var(x) => x in env
    case Neg(a) => Defined(lib, a, env)
    case Ternary(c, a, b) =>
      Defined(lib, c, env) && if Meaning(lib, c, env) != Real(0.0) then Defined(lib, a, env) else Defined(lib, b, env)
    case Binary(op, a, b) =>
      && Defined(lib, a, env) && Defined(lib, b, env)
      && (op == Div || op == Rem ==> Meaning(lib, b, env) != Real(0.0))
      && Meaning(lib, e, env).Real?
    case Call(fn, args) =>
      && Known(fn, |args|) && (forall i :: 0 <= i < |args| ==> Defined(lib, args[i], env))
      && Meaning(lib, e, env).Real?
  }

  // ------------------------------------------------------------------ evaluation gives the meaning

  lemma RealsMean(lib: Library, op: BinOp, l: real, r: real)
    ensures var v, o := OfReals(lib, op, l, r), Operate(RealArithmetic(lib), op, Real(l), Real(r));
            && (o.Ok? <==> v.Real? && ((op == Div || op == Rem) ==> r != 0.0))
            && (o.Ok? ==> o.value == v)
  {
  }

  lemma OthersMean(lib: Library, op: BinOp, l: Number, r: Number)
    requires !l.Real? || !r.Real?
    ensures var v, o := OfOthers(lib, op, l, r), Operate(RealArithmetic(lib), op, l, r);
            && (o.Ok? <==> v.Real? && ((op == Div || op == Rem) ==> r != Real(0.0)))
            && (o.Ok? ==> o.value == v)
  {
  }

  lemma OperatorMeans(lib: Library, op: BinOp, l: Number, r: Number)
    ensures var v := if l.Real? && r.Real? then OfReals(lib, op, l.r, r.r) else OfOthers(lib, op, l, r);
            var o := Operate(RealArithmetic(lib), op, l, r);
            && (o.Ok? <==> v.Real? && ((op == Div || op == Rem) ==> r != Real(0.0)))
            && (o.Ok? ==> o.value == v)
  {
    if l.Real? && r.Real? { RealsMean(lib, op, l.r, r.r); } else { OthersMean(lib, op, l, r); }
  }

  /** `v` is the least of `acc` and those of the values that are numbers. */
  lemma {:induction false} FoldIsLeast(lib: Library, acc: Number, vals: seq<Number>)
    requires !acc.NaN?
    ensures var v := Fold(RealArithmetic(lib), "min", acc, vals);
            && !v.NaN? && (v == acc || v in vals) && AtMost(v, acc)
            && forall x :: x in vals && !x.NaN? ==> AtMost(v, x)
    decreases vals
  {
    if vals != [] {
      var next := Smaller(acc, vals[0]);
      FoldIsLeast(lib, next, vals[1..]);
      assert [acc, vals[0]][0] == acc && [acc, vals[0]][1] == vals[0];
      assert Fold(RealArithmetic(lib), "min", acc, vals) == Fold(RealArithmetic(lib), "min", next, vals[1..]);
      assert vals == [vals[0]] + vals[1..];
    }
  }

  lemma {:induction false} FoldIsGreatest(lib: Library, acc: Number, vals: seq<Number>)
    requires !acc.NaN?
    ensures var v := Fold(RealArithmetic(lib), "max", acc, vals);
            && !v.NaN? && (v == acc || v in vals) && AtMost(acc, v)
            && forall x :: x in vals && !x.NaN? ==> AtMost(x, v)
    decreases vals
  {
    if vals != [] {
      var next := Larger(acc, vals[0]);
      FoldIsGreatest(lib, next, vals[1..]);
      assert [acc, vals[0]][0] == acc && [acc, vals[0]][1] == vals[0];
      assert Fold(RealArithmetic(lib), "max", acc, vals) == Fold(RealArithmetic(lib), "max", next, vals[1..]);
      assert vals == [vals[0]] + vals[1..];
    }
  }

  /** A call gives its meaning: `min` the least argument and `max` the greatest one. */
  lemma CallMeans(lib: Library, fn: string, vals: seq<Number>)
    ensures var v, o := CallMeaning(lib, fn, vals), Apply(RealArithmetic(lib), fn, vals);
            && (o.Ok? <==> Known(fn, |vals|) && v.Real?)
            && (o.Ok? ==> o.value == v)
  {
    if fn == "min" {
      var v := Fold(RealArithmetic(lib), fn, PosInf, vals);
      FoldIsLeast(lib, PosInf, vals);
      assert IsLeast(v, vals);
      forall w | IsLeast(w, vals) ensures w == v {}
    } else if fn == "max" {
      var v := Fold(RealArithmetic(lib), fn, NegInf, vals);
      FoldIsGreatest(lib, NegInf, vals);
      assert IsGreatest(v, vals);
      forall w | IsGreatest(w, vals) ensures w == v {}
    } else {
      KnownIs(fn, |vals|);
    }
  }

  lemma KnownIs(fn: string, count: nat)
    ensures Known(fn, count) <==> Callable(fn, count)
  {
  }

  /** For every tree and every environment: evaluation gives a value exactly when every part that is evaluated has one,
      and then it is the meaning of the tree. */
  lemma {:induction false} EvalGivesMeaning(lib: Library, e: Expr<Number>, env: map<string, Number>)
    ensures Eval(RealArithmetic(lib), e, env).Ok? <==> Defined(lib, e, env)
    ensures Defined(lib, e, env) ==> Eval(RealArithmetic(lib), e, env).value == Meaning(lib, e, env)
    decreases e
  {
    match e {
      case Num(_) =>
      case Var(_) =>
      case Neg(a) => EvalGivesMeaning(lib, a, env);
      case Ternary(c, a, b) =>
        EvalGivesMeaning(lib, c, env);
        EvalGivesMeaning(lib, a, env);
        EvalGivesMeaning(lib, b, env);
      case Binary(op, a, b) =>
        EvalGivesMeaning(lib, a, env);
        EvalGivesMeaning(lib, b, env);
        OperatorMeans(lib, op, Meaning(lib, a, env), Meaning(lib, b, env));
      case Call(fn, args) =>
        var vals := seq(|args|, i requires 0 <= i < |args| => Meaning(lib, args[i], env));
        EvalAllGivesMeanings(lib, args, env);
        CallMeans(lib, fn, vals);
    }
  }

  lemma {:induction false} EvalAllGivesMeanings(lib: Library, es: seq<Expr<Number>>, env: map<string, Number>)
    ensures EvalAll(RealArithmetic(lib), es, env).Ok? <==> forall i :: 0 <= i < |es| ==> Defined(lib, es[i], env)
    ensures EvalAll(RealArithmetic(lib), es, env).Ok? ==>
              EvalAll(RealArithmetic(lib), es, env).value == seq(|es|, i requires 0 <= i < |es| => Meaning(lib, es[i], env))
    decreases es
  {
    if es != [] {
      EvalGivesMeaning(lib, es[0], env);
      EvalAllGivesMeanings(lib, es[1..], env);
      assert (forall i :: 0 <= i < |es| ==> Defined(lib, es[i], env)) <==>
             Defined(lib, es[0], env) && forall i :: 0 <= i < |es[1..]| ==> Defined(lib, es[1..][i], env);
    }
  }

  /** The same for a source text. */
  lemma TextGivesMeaning(lib: Library, src: string, env: map<string, Number>)
    ensures EvalSource(RealArithmetic(lib), src, env).Ok? <==>
            TreeOf(RealArithmetic(lib), src).Ok? && Defined(lib, TreeOf(RealArithmetic(lib), src).value, env)
    ensures EvalSource(RealArithmetic(lib), src, env).Ok? ==>
              EvalSource(RealArithmetic(lib), src, env).value == Meaning(lib, TreeOf(RealArithmetic(lib), src).value, env)
  {
    if TreeOf(RealArithmetic(lib), src).Ok? { EvalGivesMeaning(lib, TreeOf(RealArithmetic(lib), src).value, env); }
  }
}
