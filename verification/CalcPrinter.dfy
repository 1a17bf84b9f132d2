/** Writing a tree back with the fewest parentheses, and the proof that parsing undoes it. */
module CalcPrinter {
  import opened Basics
  import opened CalcSyntax
  import opened CalcGrammar

  function PrecOf(op: BinOp): (p: nat)
    ensures 1 <= p <= 7 && p != 6 && (p == 7 <==> op == Pow)
  {
    match op
    case Or => 1
    case And => 2
    case EqCmp | NeCmp | LtCmp | LeCmp | GtCmp | GeCmp => 3
    case Add | Sub => 4
    case Mul | Div | Rem => 5
    case Pow => 7
  }

  function OpTok<N>(op: BinOp): (t: Tok<N>)
    ensures op != Pow ==> Prec(t) == PrecOf(op) && OpOf(t) == op
  {
    match op
    case Add => Plus
    case Sub => Minus
    case Mul => Star
    case Div => Slash
    case Rem => Percent
    case Pow => Caret
    case EqCmp => Eq
    case NeCmp => Ne
    case LtCmp => Lt
    case LeCmp => Le
    case GtCmp => Gt
    case GeCmp => Ge
    case And => AndAnd
    case Or => OrOr
  }

  /** How tightly the outermost construct of a tree binds: 0 for the ternary, 8 for an operand. */
  function Level<N>(e: Expr<N>): (k: nat)
    ensures k <= 8
  {
    match e
    case Ternary(_, _, _) => 0
    case Binary(op, _, _) => PrecOf(op)
    case Neg(_) => 6
    case _ => 8
  }

  /** The tokens of a tree where the context asks for level `k`: parenthesised only when looser. */
  function Print<N>(e: Expr<N>, k: nat): seq<Tok<N>>
    decreases e, 1
  {
    if Level(e) >= k then Body(e) else [LParen] + Body(e) + [RParen]
  }

  function Body<N>(e: Expr<N>): seq<Tok<N>>
    decreases e, 0
  {
    match e
    case Num(v) => [NumTok(v)]
    case Var(x) => [IdentTok(x)]
    case Neg(a) => [Minus] + Print(a, 6)
    case Binary(op, a, b) =>
      var p := PrecOf(op);
      if op == Pow then Print(a, 8) + ([Caret] + Print(b, 6))
      else Print(a, p) + ([OpTok(op)] + Print(b, p + 1))
    case Call(x, args) => [IdentTok(x), LParen] + PrintArgs(args) + [RParen]
    case Ternary(c, a, b) => Print(c, 1) + ([Question] + (Print(a, 0) + ([Colon] + Print(b, 0))))
  }

  function PrintArgs<N>(es: seq<Expr<N>>): seq<Tok<N>>
    decreases es
  {
    if es == [] then []
    else if |es| == 1 then Print(es[0], 0)
    else Print(es[0], 0) + ([Comma] + PrintArgs(es[1..]))
  }

  /** No variable carries the name of a constant. */
  predicate Printable<N>(e: Expr<N>) {
    "pi" !in Vars(e) && "e" !in Vars(e)
  }

  // ------------------------------------------------------------------ what the parser may read next

  /** The nonterminal of level `k`. */
  function GAt<N(==)>(ar: Arithmetic<N>, k: nat, ts: seq<Tok<N>>): Step<N>
    requires k <= 8
  {
    if k == 0 then GExpr(ar, ts)
    else if k <= 6 then GLevel(ar, k, ts)
    else if k == 7 then GPow(ar, ts)
    else GPrimary(ar, ts)
  }

  /** Nothing at the start of `rest` can extend a phrase of level `k`. */
  predicate Stops<N>(k: nat, rest: seq<Tok<N>>) {
    rest != [] ==>
      && !rest[0].LParen?
      && (k <= 7 ==> !rest[0].Caret?)
      && (k <= 5 ==> Prec(rest[0]) < Max(1, k))
      && (k == 0 ==> !rest[0].Question?)
  }

  predicate IsSign<N>(t: Tok<N>) {
    t.Plus? || t.Minus?
  }

  lemma {:induction false} PrintHead<N>(e: Expr<N>, k: nat)
    ensures Body(e) != [] && Print(e, k) != [] && !Body(e)[0].RParen? && !Print(e, k)[0].RParen?
    ensures Level(e) >= 7 ==> !IsSign(Body(e)[0])
    ensures k >= 7 ==> !IsSign(Print(e, k)[0])
  {
    match e {
      case Binary(op, a, _) => PrintHead(a, if op == Pow then 8 else PrecOf(op));
      case Ternary(c, _, _) => PrintHead(c, 1);
      case _ =>
    }
  }

  /** A phrase of a tight level is a phrase of every looser level that `rest` cannot extend. */
  lemma {:induction false} Lift<N>(ar: Arithmetic<N>, k: nat, from: nat, ts: seq<Tok<N>>, e: Expr<N>, rest: seq<Tok<N>>)
    requires k <= from <= 8 && Stops(k, rest)
    requires GAt(ar, from, ts) == Parsed(e, rest)
    requires from >= 7 ==> ts != [] && !IsSign(ts[0])
    ensures GAt(ar, k, ts) == Parsed(e, rest)
    decreases from - k
  {
    if k < from {
      Lift(ar, k + 1, from, ts, e, rest);
      if k == 0 {
        assert GLevel(ar, 1, ts) == Parsed(e, rest);
      } else if k <= 5 {
        assert GLevel(ar, k + 1, ts) == Parsed(e, rest) && GTail(ar, k, e, rest) == Parsed(e, rest);
      } else if k == 6 {
        assert GUnary(ar, ts) == GPow(ar, ts);
      }
    }
  }

  lemma ParenthesesRead<N>(ar: Arithmetic<N>, e: Expr<N>, inner: seq<Tok<N>>, rest: seq<Tok<N>>)
    requires GExpr(ar, inner + ([RParen] + rest)) == Parsed(e, [RParen] + rest)
    ensures GPrimary(ar, [LParen] + (inner + ([RParen] + rest))) == Parsed(e, rest)
  {
    var ts := [LParen] + (inner + ([RParen] + rest));
    assert ts[1..] == inner + ([RParen] + rest) && ([RParen] + rest)[1..] == rest;
  }

  lemma NegRead<N>(ar: Arithmetic<N>, a: Expr<N>, ts: seq<Tok<N>>, rest: seq<Tok<N>>)
    requires GLevel(ar, 6, ts) == Parsed(a, rest)
    ensures GLevel(ar, 6, [Minus] + ts) == Parsed(Neg(a), rest)
  {
    assert ([Minus] + ts)[1..] == ts;
    assert GUnary(ar, ts) == Parsed(a, rest);
  }

  lemma CallRead<N>(ar: Arithmetic<N>, x: string, args: seq<Expr<N>>, ts: seq<Tok<N>>, rest: seq<Tok<N>>)
    requires ts != [] && if args == [] then ts == [RParen] + rest
                         else !ts[0].RParen? && GArgs(ar, ts) == ParsedArgs(args, [RParen] + rest)
    ensures GPrimary(ar, [IdentTok(x), LParen] + ts) == Parsed(Call(x, args), rest)
  {
    var all := [IdentTok(x), LParen] + ts;
    assert all[1..] == [LParen] + ts && all[2..] == ts && ([RParen] + rest)[1..] == rest;
    assert all[3..] == ts[1..];
  }

  // ------------------------------------------------------------------ parsing undoes printing

  lemma {:induction false} PrintReads<N>(ar: Arithmetic<N>, e: Expr<N>, k: nat, rest: seq<Tok<N>>)
    requires Printable(e) && k <= 8 && Stops(k, rest)
    ensures GAt(ar, k, Print(e, k) + rest) == Parsed(e, rest)
    decreases e, 3
  {
    PrintHead(e, k);
    if Level(e) >= k {
      BodyReads(ar, e, rest);
      Lift(ar, k, Level(e), Body(e) + rest, e, rest);
    } else {
      InParenthesesReads(ar, e, rest);
      assert Print(e, k) + rest == [LParen] + (Body(e) + ([RParen] + rest));
      Lift(ar, k, 8, Print(e, k) + rest, e, rest);
    }
  }

  lemma {:induction false} InParenthesesReads<N>(ar: Arithmetic<N>, e: Expr<N>, rest: seq<Tok<N>>)
    requires Printable(e)
    ensures GAt(ar, 8, [LParen] + (Body(e) + ([RParen] + rest))) == Parsed(e, rest)
    decreases e, 2
  {
    var closed := [RParen] + rest;
    BodyReads(ar, e, closed);
    Lift(ar, 0, Level(e), Body(e) + closed, e, closed);
    ParenthesesRead(ar, e, Body(e), rest);
  }

  /** At a binary level the printed operand is read, and the chain goes on with what follows. */
  lemma {:induction false} PrintChains<N>(ar: Arithmetic<N>, e: Expr<N>, k: nat, rest: seq<Tok<N>>)
    requires Printable(e) && 1 <= k <= 5 && Stops(k + 1, rest)
    ensures GLevel(ar, k, Print(e, k) + rest) == GTail(ar, k, e, rest)
    decreases e, 4
  {
    if Level(e) == k {
      BodyChains(ar, e, rest);
    } else {
      assert Print(e, k) == Print(e, k + 1);
      PrintReads(ar, e, k + 1, rest);
    }
  }

  lemma {:induction false} BodyChains<N>(ar: Arithmetic<N>, e: Expr<N>, rest: seq<Tok<N>>)
    requires Printable(e) && 1 <= Level(e) <= 5 && Stops(Level(e) + 1, rest)
    ensures GLevel(ar, Level(e), Body(e) + rest) == GTail(ar, Level(e), e, rest)
    decreases e, 0
  {
    var Binary(op, a, b) := e;
    var p := PrecOf(op);
    var right := Print(b, p + 1) + rest;
    var tail := [OpTok(op)] + right;
    assert Body(e) + rest == Print(a, p) + tail;
    PrintChains(ar, a, p, tail);
    PrintReads(ar, b, p + 1, rest);
    assert tail[1..] == right;
  }

  lemma BodyTokens<N>(e: Expr<N>, rest: seq<Tok<N>>)
    ensures Body(e) + rest ==
            match e
            case Num(v) => [NumTok(v)] + rest
            case Var(x) => [IdentTok(x)] + rest
            case Neg(a) => [Minus] + (Print(a, 6) + rest)
            case Binary(op, a, b) =>
              if op == Pow then Print(a, 8) + ([Caret] + (Print(b, 6) + rest))
              else Print(a, PrecOf(op)) + ([OpTok(op)] + (Print(b, PrecOf(op) + 1) + rest))
            case Call(x, args) => [IdentTok(x), LParen] + (PrintArgs(args) + ([RParen] + rest))
            case Ternary(c, a, b) => Print(c, 1) + ([Question] + (Print(a, 0) + ([Colon] + (Print(b, 0) + rest))))
  {
  }

  lemma {:induction false} BodyReads<N>(ar: Arithmetic<N>, e: Expr<N>, rest: seq<Tok<N>>)
    requires Printable(e) && Stops(Level(e), rest)
    ensures GAt(ar, Level(e), Body(e) + rest) == Parsed(e, rest)
    decreases e, 1
  {
    var ts := Body(e) + rest;
    match e {
      case Num(v) => assert ts[1..] == rest;
      case Var(x) => assert ts[1..] == rest && x != "pi" && x != "e";
      case Neg(a) =>
        PrintReads(ar, a, 6, rest);
        NegRead(ar, a, Print(a, 6) + rest, rest);
        BodyTokens(e, rest);
      case Binary(op, a, b) =>
        if op == Pow {
          BodyTokens(e, rest);
          PowReads(ar, a, b, rest);
        } else {
          BodyChains(ar, e, rest);
          assert GTail(ar, Level(e), e, rest) == Parsed(e, rest);
        }
      case Call(x, args) =>
        BodyTokens(e, rest);
        CallReads(ar, x, args, rest);
      case Ternary(c, a, b) =>
        BodyTokens(e, rest);
        TernaryReads(ar, c, a, b, rest);
    }
  }

  lemma {:induction false} PowReads<N>(ar: Arithmetic<N>, a: Expr<N>, b: Expr<N>, rest: seq<Tok<N>>)
    requires Printable(Binary(Pow, a, b)) && Stops(7, rest)
    ensures GPow(ar, Print(a, 8) + ([Caret] + (Print(b, 6) + rest))) == Parsed(Binary(Pow, a, b), rest)
    decreases Binary(Pow, a, b), 0
  {
    var right := Print(b, 6) + rest;
    PrintReads(ar, a, 8, [Caret] + right);
    PrintReads(ar, b, 6, rest);
  }

  lemma {:induction false} CallReads<N>(ar: Arithmetic<N>, x: string, args: seq<Expr<N>>, rest: seq<Tok<N>>)
    requires Printable(Call(x, args))
    ensures GPrimary(ar, [IdentTok(x), LParen] + (PrintArgs(args) + ([RParen] + rest))) == Parsed(Call(x, args), rest)
    decreases Call(x, args), 0
  {
    var inside := PrintArgs(args) + ([RParen] + rest);
    if args != [] {
      ArgsRead(ar, args, [RParen] + rest);
      PrintHead(args[0], 0);
    } else {
      assert inside == [RParen] + rest;
    }
    CallRead(ar, x, args, inside, rest);
  }

  lemma {:induction false} TernaryReads<N>(ar: Arithmetic<N>, c: Expr<N>, a: Expr<N>, b: Expr<N>, rest: seq<Tok<N>>)
    requires Printable(Ternary(c, a, b)) && Stops(0, rest)
    ensures GExpr(ar, Print(c, 1) + ([Question] + (Print(a, 0) + ([Colon] + (Print(b, 0) + rest)))))
            == Parsed(Ternary(c, a, b), rest)
    decreases Ternary(c, a, b), 0
  {
    var r2 := Print(b, 0) + rest;
    var r1 := Print(a, 0) + ([Colon] + r2);
    assert GLevel(ar, 1, Print(c, 1) + ([Question] + r1)) == Parsed(c, [Question] + r1) by {
      PrintReads(ar, c, 1, [Question] + r1);
    }
    ExprReads(ar, a, [Colon] + r2);
    ExprReads(ar, b, rest);
  }

  lemma {:induction false} ExprReads<N>(ar: Arithmetic<N>, e: Expr<N>, rest: seq<Tok<N>>)
    requires Printable(e) && Stops(0, rest)
    ensures GExpr(ar, Print(e, 0) + rest) == Parsed(e, rest)
    decreases e, 4
  {
    PrintReads(ar, e, 0, rest);
  }

  lemma {:induction false} ArgsRead<N>(ar: Arithmetic<N>, es: seq<Expr<N>>, rest: seq<Tok<N>>)
    requires es != [] && "pi" !in VarsOfAll(es) && "e" !in VarsOfAll(es)
    requires Starts(rest, RParen)
    ensures GArgs(ar, PrintArgs(es) + rest) == ParsedArgs(es, rest)
    decreases es
  {
    if |es| == 1 {
      PrintReads(ar, es[0], 0, rest);
      assert es == [es[0]];
    } else {
      var more := PrintArgs(es[1..]) + rest;
      assert PrintArgs(es) + rest == Print(es[0], 0) + ([Comma] + more);
      PrintReads(ar, es[0], 0, [Comma] + more);
      ArgsRead(ar, es[1..], rest);
      assert ([Comma] + more)[1..] == more && [es[0]] + es[1..] == es;
    }
  }

  /** Parsing the printed form of a tree consumes every token and gives the tree back. */
  lemma ParseUndoesPrint<N>(ar: Arithmetic<N>, e: Expr<N>)
    requires Printable(e)
    ensures Parse(ar, Print(e, 0)) == Ok(e)
  {
    PrintReads(ar, e, 0, []);
    PrintHead(e, 0);
    assert Print(e, 0) + [] == Print(e, 0);
  }
}
