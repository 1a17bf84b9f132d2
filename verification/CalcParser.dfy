/** The parser as it runs: a cursor over the tokens, with precedence climbing for the binary operators. */
module CalcParser {
  import opened Basics
  import opened CalcSyntax
  import opened CalcGrammar

  class Parser<N(==)> {
    const toks: seq<Tok<N>>
    var i: nat

    ghost predicate Valid()
      reads this
    {
      i <= |toks|
    }

    /** The tokens not consumed yet. */
    ghost function Rest(): seq<Tok<N>>
      requires Valid()
      reads this
    {
      toks[i..]
    }

    constructor (toks: seq<Tok<N>>)
      ensures Valid() && this.toks == toks && Rest() == toks
    {
      this.toks := toks;
      i := 0;
    }

    /** What the grammar says of the tokens there were, and what happened: same tree and same tokens
        left over, or the same error. */
    ghost predicate Agrees(r: Result<Expr<N>, CalcError<N>>, g: Step<N>)
      reads this
    {
      && Valid()
      && match g
         case Parsed(tree, rest) => r == Ok(tree) && Rest() == rest
         case Failed(err) => r == Err(err)
    }

    predicate Peeks(t: Tok<N>)
      requires Valid()
      reads this
      ensures Peeks(t) == Starts(Rest(), t)
    {
      i < |toks| && toks[i] == t
    }

    method Bump() returns (t: Option<Tok<N>>)
      requires Valid()
      modifies this`i
      ensures Valid()
      ensures if old(Rest()) == [] then t == None && Rest() == []
              else t == Some(old(Rest())[0]) && Rest() == old(Rest())[1..]
    {
      if i < |toks| {
        t := Some(toks[i]);
        i := i + 1;
      } else {
        t := None;
      }
    }

    method Expect(t: Tok<N>) returns (r: Result<(), CalcError<N>>)
      requires Valid()
      modifies this`i
      ensures Valid()
      ensures if Starts(old(Rest()), t) then r == Ok(()) && Rest() == old(Rest())[1..]
              else r == Err(Missing(old(Rest()), t))
    {
      var b := Bump();
      match b
      case Some(got) => r := if got == t then Ok(()) else Err(ExpectedToken(t, got));
      case None => r := Err(MissingToken(t));
    }

    method ParseExpr(ar: Arithmetic<N>) returns (r: Result<Expr<N>, CalcError<N>>)
      requires Valid()
      modifies this`i
      ensures Agrees(r, GExpr(ar, old(Rest())))
      decreases |Rest()|, 9
    {
      var cond := ParseBinary(ar, 0);
      if cond.Err? || !Peeks(Question) { return cond; }
      var _ := Bump();
      var yes := ParseExpr(ar);
      if yes.Err? { return yes; }
      var colon := Expect(Colon);
      if colon.Err? { return Err(colon.error); }
      var no := ParseExpr(ar);
      if no.Err? { return no; }
      r := Ok(Ternary(cond.value, yes.value, no.value));
    }

    /** `parse_binary(min)` reads exactly what level `min` of the grammar reads, 0 standing for level 1. */
    method ParseBinary(ar: Arithmetic<N>, minPrec: nat) returns (r: Result<Expr<N>, CalcError<N>>)
      requires Valid() && minPrec <= MAX_LEVEL + 1
      modifies this`i
      ensures Agrees(r, GLevel(ar, Max(1, minPrec), old(Rest())))
      decreases |Rest()|, 9 - Max(1, minPrec)
    {
      ghost var ts, k := Rest(), Max(1, minPrec);
      ghost var goal := GLevel(ar, k, ts);
      LevelIsClimb(ar, k, ts);
      r := ParseUnary(ar);
      if r.Err? { return; }
      var left := r.value;
      while i < |toks| && Prec(toks[i]) > 0
        invariant Valid() && |Rest()| < |ts| && r == Ok(left)
        invariant goal == Climb(ar, k, left, Rest())
        decreases |toks| - i
      {
        var prec, op := Prec(toks[i]), OpOf(toks[i]);
        if prec < minPrec { break; }
        ghost var here := Rest();
        ClimbStep(ar, k, left, here);
        var _ := Bump();
        assert Rest() == here[1..] && prec == Prec(here[0]) && op == OpOf(here[0]);
        var right := ParseBinary(ar, prec + 1);
        if right.Err? { return right; }
        left := Binary(op, left, right.value);
        r := Ok(left);
      }
      ClimbIdle(ar, k, left, Rest());
    }

    method ParseUnary(ar: Arithmetic<N>) returns (r: Result<Expr<N>, CalcError<N>>)
      requires Valid()
      modifies this`i
      ensures Agrees(r, GUnary(ar, old(Rest())))
      decreases |Rest()|, 2
    {
      if Peeks(Minus) {
        var _ := Bump();
        r := ParseUnary(ar);
        if r.Ok? { r := Ok(Neg(r.value)); }
      } else if Peeks(Plus) {
        var _ := Bump();
        r := ParseUnary(ar);
      } else {
        r := ParsePow(ar);
      }
    }

    method ParsePow(ar: Arithmetic<N>) returns (r: Result<Expr<N>, CalcError<N>>)
      requires Valid()
      modifies this`i
      ensures Agrees(r, GPow(ar, old(Rest())))
      decreases |Rest()|, 1
    {
      var base := ParsePrimary(ar);
      if base.Err? || !Peeks(Caret) { return base; }
      var _ := Bump();
      var exponent := ParseUnary(ar);
      if exponent.Err? { return exponent; }
      r := Ok(Binary(Pow, base.value, exponent.value));
    }

    /** The arguments of a call, up to the closing parenthesis. */
    method ParseArgs(ar: Arithmetic<N>) returns (r: Result<seq<Expr<N>>, CalcError<N>>)
      requires Valid()
      modifies this`i
      ensures Valid() && (r.Ok? ==> |Rest()| <= old(|Rest()|))
      ensures match GArgs(ar, old(Rest()))
              case FailedArgs(err) => r == Err(err)
              case ParsedArgs(args, rest) => r == Ok(args) && Rest() == rest
      decreases |Rest()|, 11
    {
      var args := [];
      ghost var inside := Rest();
      while true
        invariant Valid() && |Rest()| <= |inside|
        invariant GArgs(ar, inside) == Prefixed(args, GArgs(ar, Rest()))
        decreases |toks| - i
      {
        var a := ParseExpr(ar);
        if a.Err? { return Err(a.error); }
        if !Peeks(Comma) { return Ok(args + [a.value]); }
        var _ := Bump();
        PrefixedNext(args, a.value, GArgs(ar, Rest()));
        args := args + [a.value];
      }
    }

    method ParsePrimary(ar: Arithmetic<N>) returns (r: Result<Expr<N>, CalcError<N>>)
      requires Valid()
      modifies this`i
      ensures Agrees(r, GPrimary(ar, old(Rest())))
      decreases |Rest()|, 0
    {
      ghost var ts := Rest();
      var t := Bump();
      if t == None { return Err(MissingOperand); }
      match t.value
      case NumTok(v) => r := Ok(Num(v));
      case IdentTok(x) =>
        if !Peeks(LParen) { return Ok(Named(ar, x)); }
        var _ := Bump();
        assert Rest() == ts[2..];
        var args := [];
        if !Peeks(RParen) {
          var inside := ParseArgs(ar);
          if inside.Err? { return Err(inside.error); }
          args := inside.value;
        }
        var close := Expect(RParen);
        if close.Err? { return Err(close.error); }
        r := Ok(Call(x, args));
      case LParen =>
        var inner := ParseExpr(ar);
        if inner.Err? { return inner; }
        var close := Expect(RParen);
        if close.Err? { return Err(close.error); }
        r := inner;
      case other => r := Err(UnexpectedOperand(other));
    }
  }
}
