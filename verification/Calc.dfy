/** The three entry points, from source text: evaluate, validate, list the variables. */
module Calc {
  import opened Basics
  import opened Order
  import opened CalcSyntax
  import opened CalcLexer
  import opened CalcGrammar
  import opened CalcParser
  import opened CalcPrinter
  import opened CalcNames
  import opened CalcEval

  /** The tree of a source text. */
  function TreeOf<N(==)>(ar: Arithmetic<N>, src: string): Result<Expr<N>, CalcError<N>> {
    match LexSpec(ar, src)
    case Err(err) => Err(err)
    case Ok(toks) => Parse(ar, toks)
  }

  function EvalSource<N(==)>(ar: Arithmetic<N>, src: string, env: map<string, N>): Result<N, CalcError<N>> {
    match TreeOf(ar, src)
    case Err(err) => Err(err)
    case Ok(tree) => Eval(ar, tree, env)
  }

  /** Static errors: the first lexical or syntax error, or the faults of the tree; a tree followed by
      leftover tokens gets both the leftover error and the faults. */
  function Violations<N(==)>(ar: Arithmetic<N>, src: string): seq<CalcError<N>> {
    match LexSpec(ar, src)
    case Err(err) => [err]
    case Ok(toks) =>
      if toks == [] then [Empty] else
      match GExpr(ar, toks)
      case Failed(err) => [err]
      case Parsed(tree, rest) => (if rest == [] then [] else [TrailingSymbol(rest[0])]) + Faults(tree)
  }

  method EvalCalc<N(==)>(ar: Arithmetic<N>, src: string, env: map<string, N>) returns (r: Result<N, CalcError<N>>)
    ensures r == EvalSource(ar, src, env)
  {
    var toks := Lex(ar, src);
    if toks.Err? { return Err(toks.error); }
    if toks.value == [] { return Err(Empty); }
    var p := new Parser(toks.value);
    var ast := p.ParseExpr(ar);
    if ast.Err? { return Err(ast.error); }
    var t := p.Bump();
    if t.Some? { return Err(TrailingSymbol(t.value)); }
    r := Eval(ar, ast.value, env);
  }

  method ValidateCalc<N(==)>(ar: Arithmetic<N>, src: string) returns (errors: seq<CalcError<N>>)
    ensures errors == Violations(ar, src)
  {
    var toks := Lex(ar, src);
    if toks.Err? { return [toks.error]; }
    if toks.value == [] { return [Empty]; }
    errors := [];
    var p := new Parser(toks.value);
    var ast := p.ParseExpr(ar);
    if ast.Err? { return [ast.error]; }
    var t := p.Bump();
    if t.Some? { errors := errors + [TrailingSymbol(t.value)]; }
    errors := Analyze(ast.value, errors);
  }

  method CalcVariables<N(==)>(ar: Arithmetic<N>, src: string) returns (vars: seq<string>)
    ensures Ascending(StringLess, vars)
    ensures LexSpec(ar, src).Err? ==> vars == []
    ensures LexSpec(ar, src).Ok? ==> forall x :: x in vars <==> x in TokVars(LexSpec(ar, src).value)
    ensures TreeOf(ar, src).Ok? ==> forall x :: x in vars <==> x in Vars(TreeOf(ar, src).value)
  {
    vars := [];
    var lexed := Lex(ar, src);
    if lexed.Err? { return; }
    var toks, found, i := lexed.value, [], 0;
    while i < |toks|
      invariant 0 <= i <= |toks|
      invariant forall x :: x in TokVars(toks) <==> x in found || x in TokVars(toks[i..])
    {
      ghost var here := toks[i..];
      assert here[1..] == toks[i + 1..];
      if toks[i].IdentTok? {
        var name := toks[i].name;
        var isConstant := name == "pi" || name == "e";
        var isCall := i + 1 < |toks| && toks[i + 1] == LParen;
        assert isCall == Starts(here[1..], LParen);
        if !isConstant && !isCall && name !in found { found := found + [name]; }
      }
      i := i + 1;
    }
    SortedNamesFacts(found);
    vars := SortedNames(found);
    if TreeOf(ar, src).Ok? { TokVarsAreVars(ar, toks); }
  }

  // ------------------------------------------------------------------ the validator speaks for the evaluator

  /** An expression with no violation can only fail on the values it meets. */
  lemma ValidFailsOnlyAtRunTime<N(!new)>(ar: Arithmetic<N>, src: string, env: map<string, N>)
    requires Violations(ar, src) == []
    ensures EvalSource(ar, src, env).Ok? || EvalSource(ar, src, env).error.Runtime()
  {
    var tree := TreeOf(ar, src).value;
    if Eval(ar, tree, env).Err? { EvalErrorsExplained(ar, tree, env); }
  }

  /** A source without a tree is rejected by both with the same first error, whatever the environment. */
  lemma RejectedAlike<N>(ar: Arithmetic<N>, src: string, env: map<string, N>)
    requires TreeOf(ar, src).Err?
    ensures Violations(ar, src) != [] && EvalSource(ar, src, env) == Err(Violations(ar, src)[0])
  {
  }

  /** An evaluation that succeeds parsed, and went through no violation. */
  lemma SuccessIsValidWhereTaken<N(!new)>(ar: Arithmetic<N>, src: string, env: map<string, N>)
    requires Lawful(ar) && EvalSource(ar, src, env).Ok?
    ensures TreeOf(ar, src).Ok? && Violations(ar, src) == Faults(TreeOf(ar, src).value)
    ensures FaultsMet(ar, TreeOf(ar, src).value, env) == []
  {
    SuccessMeetsNoFault(ar, TreeOf(ar, src).value, env);
  }

  // ------------------------------------------------------------------ the variable list

  /** For a source that parses, the list is the one ascending sequence of the variables of its tree. */
  lemma ListIsVars<N>(ar: Arithmetic<N>, src: string, vars: seq<string>)
    requires TreeOf(ar, src).Ok? && Ascending(StringLess, vars)
    requires forall x :: x in vars <==> x in TokVars(LexSpec(ar, src).value)
    ensures forall x :: x in vars <==> x in Vars(TreeOf(ar, src).value)
    ensures forall other: seq<string> ::
              Ascending(StringLess, other) && (forall x :: x in other <==> x in Vars(TreeOf(ar, src).value))
              ==> other == vars
  {
    TokVarsAreVars(ar, LexSpec(ar, src).value);
    StringLessTotal();
    forall other: seq<string> |
      Ascending(StringLess, other) && (forall x :: x in other <==> x in Vars(TreeOf(ar, src).value))
      ensures other == vars
    {
      AscendingUnique(StringLess, other, vars);
    }
  }

  /** Two environments that agree on the listed variables give the same result, and one that defines them
      all never gives an unknown variable. */
  lemma ListIsEnough<N>(ar: Arithmetic<N>, src: string, env: map<string, N>, env': map<string, N>)
    requires TreeOf(ar, src).Ok? && SameOn(TokVars(LexSpec(ar, src).value), env, env')
    ensures EvalSource(ar, src, env) == EvalSource(ar, src, env')
    ensures TokVars(LexSpec(ar, src).value) <= env.Keys ==>
              forall x :: EvalSource(ar, src, env) != Err(UnknownVariable(x))
  {
    var tree := TreeOf(ar, src).value;
    TokVarsAreVars(ar, LexSpec(ar, src).value);
    EvalDependsOnVars(ar, tree, env, env');
    if EvalSource(ar, src, env).Err? && EvalSource(ar, src, env).error.UnknownVariable? {
      UnknownIsMissing(ar, tree, env, EvalSource(ar, src, env).error.name);
    }
  }

  /** From tree to text and back: however a tree is written out, its text is valid exactly as the tree is,
      evaluates to the value of the tree in every environment, and lists its variables. */
  lemma WrittenTreeMeansTheTree<N(!new)>(ar: Arithmetic<N>, tree: Expr<N>, lead: string,
                                         texts: seq<string>, gaps: seq<string>, env: map<string, N>)
    requires Printable(tree) && Blank(lead)
    requires WellSpaced(ar, Print(tree, 0), texts, gaps)
    ensures var src := lead + Source(texts, gaps);
            && TreeOf(ar, src) == Ok(tree)
            && EvalSource(ar, src, env) == Eval(ar, tree, env)
            && Violations(ar, src) == Faults(tree)
            && LexSpec(ar, src).Ok? && TokVars(LexSpec(ar, src).value) == Vars(tree)
  {
    LexUndoesSpelling(ar, Print(tree, 0), texts, gaps);
    LexSkipsBlank(ar, lead, Source(texts, gaps));
    ParseUndoesPrint(ar, tree);
    TokVarsAreVars(ar, Print(tree, 0));
  }
}
