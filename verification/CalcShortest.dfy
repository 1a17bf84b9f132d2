/** The printed form of a tree is a shortest one that is read as it, so not one of its parentheses can go. */
module CalcShortest {
  import opened CalcSyntax
  import opened CalcGrammar
  import opened CalcPrinter

  /** The number of tokens of a tree where the context asks for level `k`. */
  function Width<N>(e: Expr<N>, k: nat): nat
    decreases e, 1
  {
    if Level(e) >= k then Inner(e) else Inner(e) + 2
  }

  function Inner<N>(e: Expr<N>): nat
    decreases e, 0
  {
    match e
    case Num(_) | Var(_) => 1
    case Neg(a) => 1 + Width(a, 6)
    case Binary(op, a, b) =>
      if op == Pow then Width(a, 8) + 1 + Width(b, 6) else Width(a, PrecOf(op)) + 1 + Width(b, PrecOf(op) + 1)
    case Call(_, args) => 3 + ArgsWidth(args)
    case Ternary(c, a, b) => Width(c, 1) + 1 + Width(a, 0) + 1 + Width(b, 0)
  }

  function ArgsWidth<N>(es: seq<Expr<N>>): nat
    decreases es
  {
    if es == [] then 0
    else if |es| == 1 then Width(es[0], 0)
    else Width(es[0], 0) + 1 + ArgsWidth(es[1..])
  }

  lemma {:induction false} WidthIsLength<N>(e: Expr<N>, k: nat)
    ensures |Print(e, k)| == Width(e, k) && |Body(e)| == Inner(e)
    decreases e, 1
  {
    match e {
      case Num(_) =>
      case Var(_) =>
      case Neg(a) => WidthIsLength(a, 6);
      case Binary(op, a, b) =>
        WidthIsLength(a, if op == Pow then 8 else PrecOf(op));
        WidthIsLength(b, if op == Pow then 6 else PrecOf(op) + 1);
      case Call(_, args) => ArgsWidthIsLength(args);
      case Ternary(c, a, b) =>
        WidthIsLength(c, 1);
        WidthIsLength(a, 0);
        WidthIsLength(b, 0);
    }
  }

  lemma {:induction false} ArgsWidthIsLength<N>(es: seq<Expr<N>>)
    ensures |PrintArgs(es)| == ArgsWidth(es)
    decreases es
  {
    if es != [] {
      WidthIsLength(es[0], 0);
      ArgsWidthIsLength(es[1..]);
    }
  }

  lemma {:induction false} ExprIsLong<N>(ar: Arithmetic<N>, ts: seq<Tok<N>>)
    requires GExpr(ar, ts).Parsed?
    ensures Width(GExpr(ar, ts).tree, 0) + |GExpr(ar, ts).rest| <= |ts|
    decreases |ts|, 9
  {
    LevelIsLong(ar, 1, ts);
    var r0 := GLevel(ar, 1, ts).rest;
    if Starts(r0, Question) {
      ExprIsLong(ar, r0[1..]);
      var r1 := GExpr(ar, r0[1..]).rest;
      ExprIsLong(ar, r1[1..]);
    }
  }

  lemma {:induction false} LevelIsLong<N>(ar: Arithmetic<N>, k: nat, ts: seq<Tok<N>>)
    requires 1 <= k <= 6 && GLevel(ar, k, ts).Parsed?
    ensures Width(GLevel(ar, k, ts).tree, k) + |GLevel(ar, k, ts).rest| <= |ts|
    decreases |ts|, 9 - k
  {
    if k == 6 {
      UnaryIsLong(ar, ts);
    } else {
      LevelIsLong(ar, k + 1, ts);
      var Parsed(left, rest) := GLevel(ar, k + 1, ts);
      TailIsLong(ar, k, left, rest);
    }
  }

  lemma {:induction false} TailIsLong<N>(ar: Arithmetic<N>, k: nat, left: Expr<N>, ts: seq<Tok<N>>)
    requires 1 <= k <= 5 && GTail(ar, k, left, ts).Parsed?
    ensures var r := GTail(ar, k, left, ts); Width(r.tree, k) + |r.rest| <= Width(left, k) + |ts|
    decreases |ts|, 0
  {
    if ts != [] && Prec(ts[0]) == k {
      LevelIsLong(ar, k + 1, ts[1..]);
      var Parsed(right, rest) := GLevel(ar, k + 1, ts[1..]);
      OperatorWidth(ts[0], left, right);
      TailIsLong(ar, k, Binary(OpOf(ts[0]), left, right), rest);
    }
  }

  lemma OperatorWidth<N>(t: Tok<N>, left: Expr<N>, right: Expr<N>)
    requires Prec(t) > 0
    ensures var p := Prec(t); Width(Binary(OpOf(t), left, right), p) == Width(left, p) + 1 + Width(right, p + 1)
  {
  }

  lemma {:induction false} UnaryIsLong<N>(ar: Arithmetic<N>, ts: seq<Tok<N>>)
    requires GUnary(ar, ts).Parsed?
    ensures Width(GUnary(ar, ts).tree, 6) + |GUnary(ar, ts).rest| <= |ts|
    decreases |ts|, 2
  {
    if Starts(ts, Minus) || Starts(ts, Plus) {
      UnaryIsLong(ar, ts[1..]);
    } else {
      PowIsLong(ar, ts);
    }
  }

  lemma {:induction false} PowIsLong<N>(ar: Arithmetic<N>, ts: seq<Tok<N>>)
    requires GPow(ar, ts).Parsed?
    ensures Width(GPow(ar, ts).tree, 7) + |GPow(ar, ts).rest| <= |ts|
    decreases |ts|, 1
  {
    PrimaryIsLong(ar, ts);
    var r0 := GPrimary(ar, ts).rest;
    if Starts(r0, Caret) {
      UnaryIsLong(ar, r0[1..]);
    }
  }

  lemma {:induction false} PrimaryIsLong<N>(ar: Arithmetic<N>, ts: seq<Tok<N>>)
    requires GPrimary(ar, ts).Parsed?
    ensures Width(GPrimary(ar, ts).tree, 8) + |GPrimary(ar, ts).rest| <= |ts|
    decreases |ts|, 0
  {
    if ts[0].LParen? {
      ExprIsLong(ar, ts[1..]);
    } else if ts[0].IdentTok? && Starts(ts[1..], LParen) {
      if Starts(ts[2..], RParen) {
        assert ArgsWidth<N>([]) == 0 && |ts[3..]| == |ts| - 3;
      } else {
        ArgsAreLong(ar, ts[2..]);
      }
    }
  }

  lemma {:induction false} ArgsAreLong<N>(ar: Arithmetic<N>, ts: seq<Tok<N>>)
    requires GArgs(ar, ts).ParsedArgs?
    ensures ArgsWidth(GArgs(ar, ts).trees) + |GArgs(ar, ts).rest| <= |ts|
    decreases |ts|, 10
  {
    ExprIsLong(ar, ts);
    var Parsed(a, r0) := GExpr(ar, ts);
    if Starts(r0, Comma) {
      ArgsAreLong(ar, r0[1..]);
      var more := GArgs(ar, r0[1..]).trees;
      assert ([a] + more)[1..] == more;
    }
  }

  /** At every level: whatever tokens are read as a tree there are at least as many as its printed ones. */
  lemma PhraseIsLong<N>(ar: Arithmetic<N>, k: nat, ts: seq<Tok<N>>)
    requires k <= 8 && GAt(ar, k, ts).Parsed?
    ensures |Print(GAt(ar, k, ts).tree, k)| + |GAt(ar, k, ts).rest| <= |ts|
  {
    WidthIsLength(GAt(ar, k, ts).tree, k);
    if k == 0 {
      ExprIsLong(ar, ts);
    } else if k <= 6 {
      LevelIsLong(ar, k, ts);
    } else if k == 7 {
      PowIsLong(ar, ts);
    } else {
      PrimaryIsLong(ar, ts);
    }
  }

  /** No token list that parses to a tree is shorter than the printed one. */
  lemma PrintIsShortest<N>(ar: Arithmetic<N>, ts: seq<Tok<N>>)
    requires Parse(ar, ts).Ok?
    ensures |Print(Parse(ar, ts).value, 0)| <= |ts|
  {
    PhraseIsLong(ar, 0, ts);
  }

  /** Wherever the printer writes parentheses, the tree is not read back without them. */
  lemma ParenthesesAreNeeded<N>(ar: Arithmetic<N>, e: Expr<N>, k: nat, rest: seq<Tok<N>>)
    requires k <= 8 && Print(e, k) != Body(e)
    ensures GAt(ar, k, Body(e) + rest) != Parsed(e, rest)
  {
    if GAt(ar, k, Body(e) + rest) == Parsed(e, rest) {
      PhraseIsLong(ar, k, Body(e) + rest);
    }
  }
}
