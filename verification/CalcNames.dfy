/** The variables seen in the tokens are the variables of the parsed tree. */
module CalcNames {
  import opened CalcSyntax
  import opened CalcGrammar
  import opened CalcPrinter

  /** The token at the start is a name, not a constant, and not called. */
  predicate IsVariable<N(==)>(ts: seq<Tok<N>>) {
    ts != [] && ts[0].IdentTok? && ts[0].name != "pi" && ts[0].name != "e" && !Starts(ts[1..], LParen)
  }

  function TokVars<N(==)>(ts: seq<Tok<N>>): set<string> {
    if ts == [] then {} else (if IsVariable(ts) then {ts[0].name} else {}) + TokVars(ts[1..])
  }

  /** As to the name `x`: reading a phrase with variables `vs` took exactly those from the tokens. */
  ghost predicate Accounts<N>(x: string, ts: seq<Tok<N>>, vs: set<string>, rest: seq<Tok<N>>) {
    (x in TokVars(ts) <==> x in vs || x in TokVars(rest)) && (x in {"pi", "e"} ==> x !in vs)
  }

  lemma {:induction false} ExprAccounts<N>(ar: Arithmetic<N>, x: string, ts: seq<Tok<N>>)
    requires GExpr(ar, ts).Parsed?
    ensures Accounts(x, ts, Vars(GExpr(ar, ts).tree), GExpr(ar, ts).rest)
    decreases |ts|, 9
  {
    LevelAccounts(ar, x, 1, ts);
    var r0 := GLevel(ar, 1, ts).rest;
    if Starts(r0, Question) {
      ExprAccounts(ar, x, r0[1..]);
      var r1 := GExpr(ar, r0[1..]).rest;
      ExprAccounts(ar, x, r1[1..]);
    }
  }

  lemma {:induction false} LevelAccounts<N>(ar: Arithmetic<N>, x: string, k: nat, ts: seq<Tok<N>>)
    requires 1 <= k <= 6 && GLevel(ar, k, ts).Parsed?
    ensures Accounts(x, ts, Vars(GLevel(ar, k, ts).tree), GLevel(ar, k, ts).rest)
    decreases |ts|, 9 - k
  {
    if k == 6 {
      UnaryAccounts(ar, x, ts);
    } else {
      LevelAccounts(ar, x, k + 1, ts);
      var Parsed(left, rest) := GLevel(ar, k + 1, ts);
      TailAccounts(ar, x, k, left, rest);
    }
  }

  lemma {:induction false} TailAccounts<N>(ar: Arithmetic<N>, x: string, k: nat, left: Expr<N>, ts: seq<Tok<N>>)
    requires 1 <= k <= 5 && GTail(ar, k, left, ts).Parsed?
    ensures var r := GTail(ar, k, left, ts);
            && (x in Vars(left) || x in TokVars(ts) <==> x in Vars(r.tree) || x in TokVars(r.rest))
            && (x in {"pi", "e"} && x !in Vars(left) ==> x !in Vars(r.tree))
    decreases |ts|, 0
  {
    if ts != [] && Prec(ts[0]) == k {
      LevelAccounts(ar, x, k + 1, ts[1..]);
      var Parsed(right, rest) := GLevel(ar, k + 1, ts[1..]);
      TailAccounts(ar, x, k, Binary(OpOf(ts[0]), left, right), rest);
    }
  }

  lemma {:induction false} UnaryAccounts<N>(ar: Arithmetic<N>, x: string, ts: seq<Tok<N>>)
    requires GUnary(ar, ts).Parsed?
    ensures Accounts(x, ts, Vars(GUnary(ar, ts).tree), GUnary(ar, ts).rest)
    decreases |ts|, 2
  {
    if Starts(ts, Minus) || Starts(ts, Plus) {
      UnaryAccounts(ar, x, ts[1..]);
    } else {
      PowAccounts(ar, x, ts);
    }
  }

  lemma {:induction false} PowAccounts<N>(ar: Arithmetic<N>, x: string, ts: seq<Tok<N>>)
    requires GPow(ar, ts).Parsed?
    ensures Accounts(x, ts, Vars(GPow(ar, ts).tree), GPow(ar, ts).rest)
    decreases |ts|, 1
  {
    PrimaryAccounts(ar, x, ts);
    var r0 := GPrimary(ar, ts).rest;
    if Starts(r0, Caret) {
      UnaryAccounts(ar, x, r0[1..]);
    }
  }

  lemma NotVariable<N>(ts: seq<Tok<N>>)
    requires ts != [] && !IsVariable(ts)
    ensures TokVars(ts) == TokVars(ts[1..])
  {
  }

  lemma {:induction false} PrimaryAccounts<N>(ar: Arithmetic<N>, x: string, ts: seq<Tok<N>>)
    requires GPrimary(ar, ts).Parsed?
    ensures Accounts(x, ts, Vars(GPrimary(ar, ts).tree), GPrimary(ar, ts).rest)
    decreases |ts|, 0
  {
    if ts[0].LParen? {
      ExprAccounts(ar, x, ts[1..]);
    } else if ts[0].IdentTok? && Starts(ts[1..], LParen) {
      NotVariable(ts);
      NotVariable(ts[1..]);
      assert ts[1..][1..] == ts[2..];
      if Starts(ts[2..], RParen) {
        NotVariable(ts[2..]);
        assert ts[2..][1..] == ts[3..];
      } else {
        ArgsAccounts(ar, x, ts[2..]);
      }
    }
  }

  lemma {:induction false} ArgsAccounts<N>(ar: Arithmetic<N>, x: string, ts: seq<Tok<N>>)
    requires GArgs(ar, ts).ParsedArgs?
    ensures Accounts(x, ts, VarsOfAll(GArgs(ar, ts).trees), GArgs(ar, ts).rest)
    decreases |ts|, 10
  {
    ExprAccounts(ar, x, ts);
    var Parsed(a, r0) := GExpr(ar, ts);
    if Starts(r0, Comma) {
      ArgsAccounts(ar, x, r0[1..]);
      var more := GArgs(ar, r0[1..]).trees;
      assert ([a] + more)[1..] == more;
    } else {
      assert [a][1..] == [];
    }
  }

  /** Reading names off the tokens finds exactly the variables of the tree, and a parsed tree never has
      a variable named like a constant. */
  lemma TokVarsAreVars<N>(ar: Arithmetic<N>, ts: seq<Tok<N>>)
    requires Parse(ar, ts).Ok?
    ensures TokVars(ts) == Vars(Parse(ar, ts).value)
    ensures Printable(Parse(ar, ts).value)
  {
    ExprAccounts(ar, "pi", ts);
    ExprAccounts(ar, "e", ts);
    forall x: string ensures x in TokVars(ts) <==> x in Vars(Parse(ar, ts).value) {
      ExprAccounts(ar, x, ts);
    }
  }

  /** Printing a parsed tree and parsing it again changes nothing, whatever the original parentheses. */
  lemma ReprintIsStable<N>(ar: Arithmetic<N>, ts: seq<Tok<N>>)
    requires Parse(ar, ts).Ok?
    ensures Parse(ar, Print(Parse(ar, ts).value, 0)) == Parse(ar, ts)
  {
    TokVarsAreVars(ar, ts);
    ParseUndoesPrint(ar, Parse(ar, ts).value);
  }
}
