/** Tokens, trees and errors of the `calc` expression language. `N` stands for the number type. */
module CalcSyntax {
  datatype Tok<+N> =
    | NumTok(v: N) | IdentTok(name: string)
    | Plus | Minus | Star | Slash | Percent | Caret
    | LParen | RParen | Comma | Question | Colon
    | Eq | Ne | Lt | Le | Gt | Ge | AndAnd | OrOr

  datatype BinOp =
    | Add | Sub | Mul | Div | Rem | Pow
    | EqCmp | NeCmp | LtCmp | LeCmp | GtCmp | GeCmp
    | And | Or

  datatype Expr<+N> =
    | Num(value: N)
    | Var(name: string)
    | Neg(inner: Expr<N>)
    | Binary(op: BinOp, left: Expr<N>, right: Expr<N>)
    | Call(fn: string, args: seq<Expr<N>>)
    | Ternary(cond: Expr<N>, yes: Expr<N>, no: Expr<N>)

  /** One constructor per machine code, with the arguments the message is built from. */
  datatype CalcError<+N> =
    | OutOfRange
    | InvalidNumber(text: string)
    | UnexpectedChar(c: char)
    | ExpectedToken(expected: Tok<N>, got: Tok<N>)
    | MissingToken(expected: Tok<N>)
    | MissingOperand
    | UnexpectedOperand(got: Tok<N>)
    | UnknownFunction(fn: string)
    | ArityExact(fn: string, min: nat, count: nat)
    | ArityRange(fn: string, min: nat, max: nat, count: nat)
    | ArityMin(fn: string, min: nat, count: nat)
    | UnknownVariable(name: string)
    | DivisionByZero
    | ModuloByZero
    | Empty
    | TrailingSymbol(got: Tok<N>)
  {
    /** The errors that depend on the values met at run time. */
    predicate Runtime() {
      UnknownVariable? || DivisionByZero? || ModuloByZero? || OutOfRange?
    }
  }

  /** Everything the language asks of its numbers. */
  datatype Arithmetic<!N> = Arithmetic(
    zero: N,
    one: N,
    pi: N,
    e: N,
    infinity: N,
    isFinite: N -> bool,
    isZero: N -> bool,
    neg: N -> N,
    arith: (BinOp, N, N) -> N,
    compare: (BinOp, N, N) -> bool,
    apply: (string, seq<N>) -> N,
    parse: string -> N)

  const MAX_LEVEL := 5

  /** Precedence and operator of a binary token; 0 for any other token. */
  function Prec<N>(t: Tok<N>): (p: nat)
    ensures p <= MAX_LEVEL
  {
    match t
    case OrOr => 1
    case AndAnd => 2
    case Eq | Ne | Lt | Le | Gt | Ge => 3
    case Plus | Minus => 4
    case Star | Slash | Percent => 5
    case _ => 0
  }

  function OpOf<N>(t: Tok<N>): BinOp
    requires Prec(t) > 0
  {
    match t
    case OrOr => Or
    case AndAnd => And
    case Eq => EqCmp
    case Ne => NeCmp
    case Lt => LtCmp
    case Le => LeCmp
    case Gt => GtCmp
    case Ge => GeCmp
    case Plus => Add
    case Minus => Sub
    case Star => Mul
    case Slash => Div
    case Percent => Rem
  }

  /** Variables of a tree. */
  function Vars<N>(e: Expr<N>): set<string> {
    match e
    case Num(_) => {}
    case Var(x) => {x}
    case Neg(a) => Vars(a)
    case Binary(_, a, b) => Vars(a) + Vars(b)
    case Call(_, args) => VarsOfAll(args)
    case Ternary(c, a, b) => Vars(c) + Vars(a) + Vars(b)
  }

  function VarsOfAll<N>(es: seq<Expr<N>>): set<string> {
    if es == [] then {} else Vars(es[0]) + VarsOfAll(es[1..])
  }
}

/** The expression grammar, one function per nonterminal: a ternary over five left-associative
    levels of binary operators, over unary signs, over right-associative powers, over operands. */
module CalcGrammar {
  import opened Basics
  import opened CalcSyntax

  datatype Step<+N> = Parsed(tree: Expr<N>, rest: seq<Tok<N>>) | Failed(error: CalcError<N>)
  datatype ArgsStep<+N> = ParsedArgs(trees: seq<Expr<N>>, rest: seq<Tok<N>>) | FailedArgs(error: CalcError<N>)

  predicate Starts<N(==)>(ts: seq<Tok<N>>, t: Tok<N>) {
    ts != [] && ts[0] == t
  }

  function Missing<N>(ts: seq<Tok<N>>, t: Tok<N>): CalcError<N> {
    if ts == [] then MissingToken(t) else ExpectedToken(t, ts[0])
  }

  function GExpr<N(==)>(ar: Arithmetic<N>, ts: seq<Tok<N>>): (r: Step<N>)
    ensures r.Parsed? ==> |r.rest| < |ts|
    decreases |ts|, 9
  {
    match GLevel(ar, 1, ts)
    case Failed(err) => Failed(err)
    case Parsed(cond, r0) =>
      if !Starts(r0, Question) then Parsed(cond, r0) else
      match GExpr(ar, r0[1..])
      case Failed(err) => Failed(err)
      case Parsed(yes, r1) =>
        if !Starts(r1, Colon) then Failed(Missing(r1, Colon)) else
        match GExpr(ar, r1[1..])
        case Failed(err) => Failed(err)
        case Parsed(no, r2) => Parsed(Ternary(cond, yes, no), r2)
  }

  /** Level `k` is a left-associative chain of level `k + 1` operands; level 6 is the unary level. */
  function GLevel<N(==)>(ar: Arithmetic<N>, k: nat, ts: seq<Tok<N>>): (r: Step<N>)
    requires 1 <= k <= 6
    ensures r.Parsed? ==> |r.rest| < |ts|
    decreases |ts|, 9 - k
  {
    if k == 6 then GUnary(ar, ts) else
    match GLevel(ar, k + 1, ts)
    case Failed(err) => Failed(err)
    case Parsed(left, rest) => GTail(ar, k, left, rest)
  }

  function GTail<N(==)>(ar: Arithmetic<N>, k: nat, left: Expr<N>, ts: seq<Tok<N>>): (r: Step<N>)
    requires 1 <= k <= 5
    ensures r.Parsed? ==> |r.rest| <= |ts|
    decreases |ts|, 0
  {
    if ts == [] || Prec(ts[0]) != k then Parsed(left, ts) else
    match GLevel(ar, k + 1, ts[1..])
    case Failed(err) => Failed(err)
    case Parsed(right, rest) => GTail(ar, k, Binary(OpOf(ts[0]), left, right), rest)
  }

  function GUnary<N(==)>(ar: Arithmetic<N>, ts: seq<Tok<N>>): (r: Step<N>)
    ensures r.Parsed? ==> |r.rest| < |ts|
    decreases |ts|, 2
  {
    if Starts(ts, Minus) then
      match GUnary(ar, ts[1..])
      case Failed(err) => Failed(err)
      case Parsed(inner, rest) => Parsed(Neg(inner), rest)
    else if Starts(ts, Plus) then GUnary(ar, ts[1..])
    else GPow(ar, ts)
  }

  function GPow<N(==)>(ar: Arithmetic<N>, ts: seq<Tok<N>>): (r: Step<N>)
    ensures r.Parsed? ==> |r.rest| < |ts|
    decreases |ts|, 1
  {
    match GPrimary(ar, ts)
    case Failed(err) => Failed(err)
    case Parsed(base, r0) =>
      if !Starts(r0, Caret) then Parsed(base, r0) else
      match GUnary(ar, r0[1..])
      case Failed(err) => Failed(err)
      case Parsed(exponent, rest) => Parsed(Binary(Pow, base, exponent), rest)
  }

  /** A name that is not called: one of the two constants, or a variable. */
  function Named<N>(ar: Arithmetic<N>, x: string): Expr<N> {
    if x == "pi" then Num(ar.pi) else if x == "e" then Num(ar.e) else Var(x)
  }

  function GPrimary<N(==)>(ar: Arithmetic<N>, ts: seq<Tok<N>>): (r: Step<N>)
    ensures r.Parsed? ==> |r.rest| < |ts|
    decreases |ts|, 0
  {
    if ts == [] then Failed(MissingOperand) else
    match ts[0]
    case NumTok(v) => Parsed(Num(v), ts[1..])
    case IdentTok(x) =>
      if !Starts(ts[1..], LParen) then Parsed(Named(ar, x), ts[1..])
      else if Starts(ts[2..], RParen) then Parsed(Call(x, []), ts[3..])
      else (
        match GArgs(ar, ts[2..])
        case FailedArgs(err) => Failed(err)
        case ParsedArgs(args, rest) =>
          if Starts(rest, RParen) then Parsed(Call(x, args), rest[1..]) else Failed(Missing(rest, RParen)))
    case LParen => (
      match GExpr(ar, ts[1..])
      case Failed(err) => Failed(err)
      case Parsed(inner, rest) =>
        if Starts(rest, RParen) then Parsed(inner, rest[1..]) else Failed(Missing(rest, RParen)))
    case other => Failed(UnexpectedOperand(other))
  }

  /** One or more expressions separated by commas. */
  function GArgs<N(==)>(ar: Arithmetic<N>, ts: seq<Tok<N>>): (r: ArgsStep<N>)
    ensures r.ParsedArgs? ==> |r.rest| < |ts| && r.trees != []
    decreases |ts|, 10
  {
    match GExpr(ar, ts)
    case Failed(err) => FailedArgs(err)
    case Parsed(a, r0) =>
      if !Starts(r0, Comma) then ParsedArgs([a], r0) else
      Prefixed([a], GArgs(ar, r0[1..]))
  }

  /** Arguments read after others. */
  function Prefixed<N>(args: seq<Expr<N>>, more: ArgsStep<N>): ArgsStep<N> {
    match more
    case FailedArgs(err) => more
    case ParsedArgs(trees, rest) => ParsedArgs(args + trees, rest)
  }

  lemma PrefixedNext<N>(args: seq<Expr<N>>, a: Expr<N>, more: ArgsStep<N>)
    ensures Prefixed(args, Prefixed([a], more)) == Prefixed(args + [a], more)
  {
    if more.ParsedArgs? { assert args + ([a] + more.trees) == args + [a] + more.trees; }
  }

  /** A whole expression: nothing may be left over. */
  function Parse<N(==)>(ar: Arithmetic<N>, ts: seq<Tok<N>>): Result<Expr<N>, CalcError<N>> {
    if ts == [] then Err(Empty) else
    match GExpr(ar, ts)
    case Failed(err) => Err(err)
    case Parsed(tree, rest) => if rest == [] then Ok(tree) else Err(TrailingSymbol(rest[0]))
  }

  // ------------------------------------------------------------------ chains of levels

  /** Levels 5 down to `k` continued from an operand already read. */
  function Climb<N(==)>(ar: Arithmetic<N>, k: nat, left: Expr<N>, ts: seq<Tok<N>>): (r: Step<N>)
    requires 1 <= k <= 6
    ensures r.Parsed? ==> |r.rest| <= |ts|
    decreases 6 - k
  {
    if k == 6 then Parsed(left, ts) else
    match Climb(ar, k + 1, left, ts)
    case Failed(err) => Failed(err)
    case Parsed(l, rest) => GTail(ar, k, l, rest)
  }

  function ClimbFrom<N(==)>(ar: Arithmetic<N>, k: nat, g: Step<N>): Step<N>
    requires 1 <= k <= 6
  {
    match g
    case Failed(_) => g
    case Parsed(left, rest) => Climb(ar, k, left, rest)
  }

  /** The tree of an operator whose right operand has been read. */
  function Combined<N>(op: BinOp, left: Expr<N>, right: Step<N>): Step<N> {
    match right
    case Failed(_) => right
    case Parsed(tree, rest) => Parsed(Binary(op, left, tree), rest)
  }

  predicate NoOperatorFrom<N>(k: nat, ts: seq<Tok<N>>) {
    ts != [] ==> Prec(ts[0]) < k
  }

  lemma {:induction false} LevelIsClimb<N>(ar: Arithmetic<N>, k: nat, ts: seq<Tok<N>>)
    requires 1 <= k <= 6
    ensures GLevel(ar, k, ts) == ClimbFrom(ar, k, GUnary(ar, ts))
    decreases 6 - k
  {
    if k < 6 { LevelIsClimb(ar, k + 1, ts); }
  }

  /** A level stops only before a token that no operator of that level or a tighter one starts. */
  lemma {:induction false} LevelStops<N>(ar: Arithmetic<N>, k: nat, ts: seq<Tok<N>>)
    requires 1 <= k <= 6
    requires GLevel(ar, k, ts).Parsed?
    ensures NoOperatorFrom(k, GLevel(ar, k, ts).rest)
    decreases |ts|, 9 - k
  {
    if k < 6 {
      LevelStops(ar, k + 1, ts);
      var Parsed(left, rest) := GLevel(ar, k + 1, ts);
      TailStops(ar, k, left, rest);
    }
  }

  lemma {:induction false} TailStops<N>(ar: Arithmetic<N>, k: nat, left: Expr<N>, ts: seq<Tok<N>>)
    requires 1 <= k <= 5
    requires GTail(ar, k, left, ts).Parsed? && NoOperatorFrom(k + 1, ts)
    ensures NoOperatorFrom(k, GTail(ar, k, left, ts).rest)
    decreases |ts|, 0
  {
    if ts != [] && Prec(ts[0]) == k {
      LevelStops(ar, k + 1, ts[1..]);
      var Parsed(right, rest) := GLevel(ar, k + 1, ts[1..]);
      TailStops(ar, k, Binary(OpOf(ts[0]), left, right), rest);
    }
  }

  lemma {:induction false} ClimbIdle<N>(ar: Arithmetic<N>, k: nat, left: Expr<N>, ts: seq<Tok<N>>)
    requires 1 <= k <= 6 && NoOperatorFrom(k, ts)
    ensures Climb(ar, k, left, ts) == Parsed(left, ts)
    decreases 6 - k
  {
    if k < 6 { ClimbIdle(ar, k + 1, left, ts); }
  }

  /** The step of precedence climbing: an operator of precedence `p >= k` takes as its right operand
      everything of level `p + 1`, and the climb goes on from the combined tree. */
  lemma {:induction false} ClimbStep<N>(ar: Arithmetic<N>, k: nat, left: Expr<N>, ts: seq<Tok<N>>)
    requires 1 <= k <= 5 && ts != [] && k <= Prec(ts[0])
    ensures Climb(ar, k, left, ts) ==
            ClimbFrom(ar, k, Combined(OpOf(ts[0]), left, GLevel(ar, Prec(ts[0]) + 1, ts[1..])))
    decreases 6 - k
  {
    var p := Prec(ts[0]);
    if k < p {
      ClimbStep(ar, k + 1, left, ts);
      ClimbLower(ar, k, left, ts, Combined(OpOf(ts[0]), left, GLevel(ar, p + 1, ts[1..])));
    } else {
      ClimbHere(ar, p, left, ts);
    }
  }

  lemma {:induction false} ClimbLower<N>(ar: Arithmetic<N>, k: nat, left: Expr<N>, ts: seq<Tok<N>>, g: Step<N>)
    requires 1 <= k <= 5 && Climb(ar, k + 1, left, ts) == ClimbFrom(ar, k + 1, g)
    ensures Climb(ar, k, left, ts) == ClimbFrom(ar, k, g)
  {
  }

  lemma {:induction false} ClimbHere<N>(ar: Arithmetic<N>, p: nat, left: Expr<N>, ts: seq<Tok<N>>)
    requires 1 <= p <= 5 && ts != [] && p == Prec(ts[0])
    ensures Climb(ar, p, left, ts) ==
            ClimbFrom(ar, p, Combined(OpOf(ts[0]), left, GLevel(ar, p + 1, ts[1..])))
  {
    ClimbIdle(ar, p + 1, left, ts);
    var g := GLevel(ar, p + 1, ts[1..]);
    if g.Parsed? {
      LevelStops(ar, p + 1, ts[1..]);
      ClimbIdle(ar, p + 1, Binary(OpOf(ts[0]), left, g.tree), g.rest);
    }
  }
}
