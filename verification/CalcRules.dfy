/** The rules of the language as a reader knows them: constants, signs, and which operator binds tighter. */
module CalcRules {
  import opened Basics
  import opened CalcSyntax
  import opened CalcGrammar
  import opened CalcPrinter
  import opened CalcLexer

  /** `pi` and `e`, not called, are the two constants, at every level of the grammar. */
  lemma ConstantsAreRead<N>(ar: Arithmetic<N>, k: nat, rest: seq<Tok<N>>)
    requires k <= 8 && Stops(k, rest)
    ensures GAt(ar, k, [IdentTok("pi")] + rest) == Parsed(Num(ar.pi), rest)
    ensures GAt(ar, k, [IdentTok("e")] + rest) == Parsed(Num(ar.e), rest)
  {
    ConstantIsRead(ar, k, "pi", ar.pi, rest);
    ConstantIsRead(ar, k, "e", ar.e, rest);
  }

  lemma ConstantIsRead<N>(ar: Arithmetic<N>, k: nat, x: string, v: N, rest: seq<Tok<N>>)
    requires k <= 8 && Stops(k, rest) && Named(ar, x) == Num(v)
    ensures GAt(ar, k, [IdentTok(x)] + rest) == Parsed(Num(v), rest)
  {
    var ts := [IdentTok(x)] + rest;
    assert ts[1..] == rest;
    Lift(ar, k, 8, ts, Num(v), rest);
  }

  /** A plus sign before an operand changes nothing; a minus sign negates it. */
  lemma SignsAreRead<N>(ar: Arithmetic<N>, ts: seq<Tok<N>>, e: Expr<N>, rest: seq<Tok<N>>)
    ensures GUnary(ar, [Plus] + ts) == GUnary(ar, ts)
    ensures GUnary(ar, ts) == Parsed(e, rest) ==> GUnary(ar, [Minus] + ts) == Parsed(Neg(e), rest)
  {
    assert ([Plus] + ts)[1..] == ts && ([Minus] + ts)[1..] == ts;
  }

  /** Plus signs before a whole expression change nothing: it is read as the same tree, or fails with the same error. */
  lemma PlusIsIgnored<N>(ar: Arithmetic<N>, ts: seq<Tok<N>>)
    ensures ts != [] ==> Parse(ar, [Plus] + ts) == Parse(ar, ts)
  {
    LevelIgnoresPlus(ar, 1, ts);
    assert GExpr(ar, [Plus] + ts) == GExpr(ar, ts);
  }

  lemma LevelIgnoresPlus<N>(ar: Arithmetic<N>, k: nat, ts: seq<Tok<N>>)
    requires 1 <= k <= 6
    ensures GLevel(ar, k, [Plus] + ts) == GLevel(ar, k, ts)
  {
    SignsAreRead(ar, ts, Var(""), []);
    LevelIsClimb(ar, k, [Plus] + ts);
    LevelIsClimb(ar, k, ts);
  }

  // ------------------------------------------------------------------ operators

  /** How an operator is written. */
  function Sign<N>(op: BinOp): Tok<N> {
    match op
    case Or => OrOr
    case And => AndAnd
    case EqCmp => Eq
    case NeCmp => Ne
    case LtCmp => Lt
    case LeCmp => Le
    case GtCmp => Gt
    case GeCmp => Ge
    case Add => Plus
    case Sub => Minus
    case Mul => Star
    case Div => Slash
    case Rem => Percent
    case Pow => Caret
  }

  /** From the loosest operator to the tightest one. */
  function Tightness(op: BinOp): nat {
    match op
    case Or => 1
    case And => 2
    case EqCmp | NeCmp | LtCmp | LeCmp | GtCmp | GeCmp => 3
    case Add | Sub => 4
    case Mul | Div | Rem => 5
    case Pow => 6
  }

  lemma SameTables<N>(op: BinOp)
    ensures OpTok<N>(op) == Sign<N>(op)
    ensures PrecOf(op) == if op == Pow then 7 else Tightness(op)
  {
  }

  lemma OneOperator<N>(ar: Arithmetic<N>, op: BinOp, x: N, y: N)
    ensures Parse(ar, [NumTok(x), Sign(op), NumTok(y)]) == Ok(Binary(op, Num(x), Num(y)))
  {
    PairPrints(op, x, y);
    ParseUndoesPrint(ar, Binary(op, Num(x), Num(y)));
  }

  /** Of two operators the tighter one takes the middle operand; of equally tight ones the first, except for powers. */
  lemma TwoOperators<N>(ar: Arithmetic<N>, p: BinOp, q: BinOp, x: N, y: N, z: N)
    ensures Parse(ar, [NumTok(x), Sign(p), NumTok(y), Sign(q), NumTok(z)]) ==
            Ok(if Tightness(p) > Tightness(q) || (Tightness(p) == Tightness(q) && p != Pow)
               then Binary(q, Binary(p, Num(x), Num(y)), Num(z))
               else Binary(p, Num(x), Binary(q, Num(y), Num(z))))
  {
    if Tightness(p) > Tightness(q) || (Tightness(p) == Tightness(q) && p != Pow) {
      LeftFirst(ar, p, q, x, y, z);
    } else {
      RightFirst(ar, p, q, x, y, z);
    }
  }

  lemma NumberPrints<N>(x: N, k: nat)
    requires k <= 8
    ensures Print(Num(x), k) == [NumTok(x)]
  {
  }

  lemma PairPrints<N>(p: BinOp, x: N, y: N)
    ensures Body(Binary(p, Num(x), Num(y))) == [NumTok(x), Sign(p), NumTok(y)]
  {
    SameTables<N>(p);
    NumberPrints(x, if p == Pow then 8 else PrecOf(p));
    NumberPrints(y, if p == Pow then 6 else PrecOf(p) + 1);
  }

  lemma LeftFirst<N>(ar: Arithmetic<N>, p: BinOp, q: BinOp, x: N, y: N, z: N)
    requires Tightness(p) > Tightness(q) || (Tightness(p) == Tightness(q) && p != Pow)
    ensures Parse(ar, [NumTok(x), Sign(p), NumTok(y), Sign(q), NumTok(z)]) == Ok(Binary(q, Binary(p, Num(x), Num(y)), Num(z)))
  {
    var left := Binary(p, Num(x), Num(y));
    assert Vars(left) == {};
    var e := Binary(q, left, Num(z));
    SameTables<N>(p);
    SameTables<N>(q);
    PairPrints(p, x, y);
    NumberPrints(z, PrecOf(q) + 1);
    assert Print(left, PrecOf(q)) == Body(left);
    assert Print(e, 0) == [NumTok(x), Sign(p), NumTok(y)] + ([Sign(q)] + [NumTok(z)]);
    assert Print(e, 0) == [NumTok(x), Sign(p), NumTok(y), Sign(q), NumTok(z)];
    ParseUndoesPrint(ar, e);
  }

  lemma RightFirst<N>(ar: Arithmetic<N>, p: BinOp, q: BinOp, x: N, y: N, z: N)
    requires Tightness(p) < Tightness(q) || (p == Pow && q == Pow)
    ensures Parse(ar, [NumTok(x), Sign(p), NumTok(y), Sign(q), NumTok(z)]) == Ok(Binary(p, Num(x), Binary(q, Num(y), Num(z))))
  {
    var right := Binary(q, Num(y), Num(z));
    assert Vars(right) == {};
    var e := Binary(p, Num(x), right);
    SameTables<N>(p);
    SameTables<N>(q);
    PairPrints(q, y, z);
    NumberPrints(x, if p == Pow then 8 else PrecOf(p));
    var k := if p == Pow then 6 else PrecOf(p) + 1;
    assert Print(right, k) == Body(right);
    assert Print(e, 0) == [NumTok(x)] + ([Sign(p)] + [NumTok(y), Sign(q), NumTok(z)]);
    assert Print(e, 0) == [NumTok(x), Sign(p), NumTok(y), Sign(q), NumTok(z)];
    ParseUndoesPrint(ar, e);
  }

  /** A sign before a power negates the power; a sign in the exponent belongs to the exponent. */
  lemma SignAndPower<N>(ar: Arithmetic<N>, x: N, y: N)
    ensures Parse(ar, [Minus, NumTok(x), Caret, NumTok(y)]) == Ok(Neg(Binary(Pow, Num(x), Num(y))))
    ensures Parse(ar, [NumTok(x), Caret, Minus, NumTok(y)]) == Ok(Binary(Pow, Num(x), Neg(Num(y))))
  {
    var a, b := Neg(Binary(Pow, Num(x), Num(y))), Binary(Pow, Num(x), Neg(Num(y)));
    assert Vars(Binary(Pow, Num(x), Num(y))) == Vars(Neg(Num(y))) == {};
    PairPrints(Pow, x, y);
    NumberPrints(x, 8);
    NumberPrints(y, 6);
    assert Print(Binary(Pow, Num(x), Num(y)), 6) == [NumTok(x), Caret, NumTok(y)];
    assert Print(a, 0) == [Minus] + [NumTok(x), Caret, NumTok(y)];
    assert Print(Neg(Num(y)), 6) == [Minus] + [NumTok(y)];
    assert Print(b, 0) == [NumTok(x)] + ([Caret] + [Minus, NumTok(y)]);
    assert Print(a, 0) == [Minus, NumTok(x), Caret, NumTok(y)] && Print(b, 0) == [NumTok(x), Caret, Minus, NumTok(y)];
    ParseUndoesPrint(ar, a);
    ParseUndoesPrint(ar, b);
  }

  lemma ChoicePrints<N>(c: Expr<N>, a: Expr<N>, b: Expr<N>, x: N, y: N)
    requires c == Num(x) && a == Num(y)
    ensures Print(Ternary(c, a, b), 0) == [NumTok(x), Question, NumTok(y), Colon] + Print(b, 0)
  {
    NumberPrints(x, 1);
    NumberPrints(y, 0);
    assert Body(Ternary(c, a, b)) == [NumTok(x)] + ([Question] + ([NumTok(y)] + ([Colon] + Print(b, 0))));
  }

  /** A condition takes everything up to the question mark, and a choice in the last branch belongs to that branch. */
  lemma ChoicesNestRight<N>(ar: Arithmetic<N>, c: N, a: N, d: N, b: N, z: N)
    ensures Parse(ar, [NumTok(c), Question, NumTok(a), Colon, NumTok(d), Question, NumTok(b), Colon, NumTok(z)]) ==
            Ok(Ternary(Num(c), Num(a), Ternary(Num(d), Num(b), Num(z))))
  {
    var last := Ternary(Num(d), Num(b), Num(z));
    var e := Ternary(Num(c), Num(a), last);
    assert Vars(last) == {};
    ChoicePrints(Num(d), Num(b), Num(z), d, b);
    NumberPrints(z, 0);
    ChoicePrints(Num(c), Num(a), last, c, a);
    assert Print(e, 0) == [NumTok(c), Question, NumTok(a), Colon, NumTok(d), Question, NumTok(b), Colon, NumTok(z)];
    ParseUndoesPrint(ar, e);
  }

  // ------------------------------------------------------------------ characters

  /** How an operator is typed. */
  function Typed(op: BinOp): string {
    match op
    case Or => "||"
    case And => "&&"
    case EqCmp => "=="
    case NeCmp => "!="
    case LtCmp => "<"
    case LeCmp => "<="
    case GtCmp => ">"
    case GeCmp => ">="
    case Add => "+"
    case Sub => "-"
    case Mul => "*"
    case Div => "/"
    case Rem => "%"
    case Pow => "^"
  }

  /** Two numbers with an operator between them, with any blanks around it or none, are read as these three tokens. */
  lemma OperatorsAreTyped<N(!new)>(ar: Arithmetic<N>, op: BinOp, a: string, b: string, left: string, right: string)
    requires IsNumberText(a) && IsNumberText(b) && Blank(left) && Blank(right)
    ensures LexSpec(ar, a + left + Typed(op) + right + b) == Ok([NumTok(ar.parse(a)), Sign(op), NumTok(ar.parse(b))])
  {
    var toks := [NumTok(ar.parse(a)), Sign<N>(op), NumTok(ar.parse(b))];
    var texts, gaps := [a, Typed(op), b], [left, right, ""];
    SignIsTyped<N>(op);
    NumberLengthIs(b, false);
    assert !IsDigit(Typed(op)[0]) && Typed(op)[0] != '.' && b[0] != '=';
    assert WellSpaced(ar, toks, texts, gaps) by {
      forall k | 0 <= k < 3 ensures Spells(ar, texts[k], toks[k]) && Blank(gaps[k]) && Bounded(toks[k], texts[k], Follow(texts, gaps, k)) {
        if k == 0 { FollowBlank(left, Typed(op)); } else if k == 1 { FollowBlank(right, b); }
      }
    }
    LexUndoesSpelling(ar, toks, texts, gaps);
    ThreeTexts(a, left, Typed(op), right, b, texts, gaps);
  }

  lemma SignIsTyped<N>(op: BinOp)
    ensures OperatorText(Sign<N>(op)) == Typed(op) && !Sign<N>(op).NumTok? && !Sign<N>(op).IdentTok?
  {
  }

  lemma FollowBlank(gap: string, next: string)
    requires Blank(gap) && next != ""
    ensures gap + next != "" && ((gap + next)[0] == next[0] || IsSpace((gap + next)[0]))
  {
    if gap == "" { assert (gap + next)[0] == next[0]; } else { assert (gap + next)[0] == gap[0]; }
  }

  lemma ThreeTexts(a: string, left: string, sign: string, right: string, b: string, texts: seq<string>, gaps: seq<string>)
    requires texts == [a, sign, b] && gaps == [left, right, ""]
    ensures Source(texts, gaps) == a + left + sign + right + b
  {
    assert texts[1..] == [sign, b] && gaps[1..] == [right, ""] && [sign, b][1..] == [b] && [right, ""][1..] == [""];
    assert [b][1..] == [] && Source([b], [""]) == b;
    assert Source([sign, b], [right, ""]) == sign + right + b;
    Regroup(a + left, sign, right, b);
  }
}
