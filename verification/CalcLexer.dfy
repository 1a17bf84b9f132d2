/** From characters to tokens. */
module CalcLexer {
  import opened Basics
  import opened CalcSyntax

  predicate IsDigit(c: char) { '0' <= c <= '9' }

  predicate IsLetter(c: char) { 'a' <= c <= 'z' || 'A' <= c <= 'Z' || c == '_' }

  predicate IsNumberChar(c: char) { IsDigit(c) || c == '.' }

  predicate IsNameChar(c: char) { IsLetter(c) || IsDigit(c) }

  /** The characters with the Unicode property White_Space. */
  predicate IsSpace(c: char) {
    || '\U{0009}' <= c <= '\U{000D}' || c == ' ' || c == '\U{0085}' || c == '\U{00A0}' || c == '\U{1680}'
    || '\U{2000}' <= c <= '\U{200A}' || c == '\U{2028}' || c == '\U{2029}' || c == '\U{202F}' || c == '\U{205F}'
    || c == '\U{3000}'
  }

  /** Length of the number at the start: digits with at most one dot. */
  function NumberLength(cs: string, seenDot: bool): (n: nat)
    ensures n <= |cs|
  {
    if cs == [] then 0
    else if IsDigit(cs[0]) then 1 + NumberLength(cs[1..], seenDot)
    else if cs[0] == '.' && !seenDot then 1 + NumberLength(cs[1..], true)
    else 0
  }

  function NameLength(cs: string): (n: nat)
    ensures n <= |cs|
  {
    if cs != [] && IsNameChar(cs[0]) then 1 + NameLength(cs[1..]) else 0
  }

  /** The operator that starts with `c` when `next` follows, and its length. */
  function Operator<N>(c: char, next: Option<char>): Option<(Tok<N>, nat)> {
    match (c, next)
    case ('&', Some('&')) => Some((AndAnd, 2))
    case ('|', Some('|')) => Some((OrOr, 2))
    case ('=', Some('=')) => Some((Eq, 2))
    case ('!', Some('=')) => Some((Ne, 2))
    case ('<', Some('=')) => Some((Le, 2))
    case ('>', Some('=')) => Some((Ge, 2))
    case ('+', _) => Some((Plus, 1))
    case ('-', _) => Some((Minus, 1))
    case ('*', _) => Some((Star, 1))
    case ('/', _) => Some((Slash, 1))
    case ('%', _) => Some((Percent, 1))
    case ('^', _) => Some((Caret, 1))
    case ('(', _) => Some((LParen, 1))
    case (')', _) => Some((RParen, 1))
    case (',', _) => Some((Comma, 1))
    case ('?', _) => Some((Question, 1))
    case (':', _) => Some((Colon, 1))
    case ('<', _) => Some((Lt, 1))
    case ('>', _) => Some((Gt, 1))
    case _ => None
  }

  function Next(cs: string): Option<char> {
    if |cs| > 1 then Some(cs[1]) else None
  }

  function Prepend<N>(t: Tok<N>, r: Result<seq<Tok<N>>, CalcError<N>>): Result<seq<Tok<N>>, CalcError<N>> {
    match r case Ok(ts) => Ok([t] + ts) case Err(e) => Err(e)
  }

  /** The token at the start of `cs`, and its length. */
  function TokenAt<N>(ar: Arithmetic<N>, cs: string): (r: Result<(Tok<N>, nat), CalcError<N>>)
    requires cs != []
    ensures r.Ok? ==> 1 <= r.value.1 <= |cs|
  {
    if IsNumberChar(cs[0]) then
      var n := NumberLength(cs, false);
      if cs[..n] == "." then Err(InvalidNumber(cs[..n])) else Ok((NumTok(ar.parse(cs[..n])), n))
    else if IsLetter(cs[0]) then
      var n := NameLength(cs);
      Ok((IdentTok(cs[..n]), n))
    else
      match Operator<N>(cs[0], Next(cs))
      case None => Err(UnexpectedChar(cs[0]))
      case Some(op) => Ok(op)
  }

  function LexSpec<N>(ar: Arithmetic<N>, cs: string): Result<seq<Tok<N>>, CalcError<N>>
    decreases |cs|
  {
    if cs == [] then Ok([])
    else if IsSpace(cs[0]) then LexSpec(ar, cs[1..])
    else
      match TokenAt(ar, cs)
      case Err(e) => Err(e)
      case Ok((t, n)) => Prepend(t, LexSpec(ar, cs[n..]))
  }

  /** The tokens read so far, followed by what the rest gives. */
  function After<N>(out: seq<Tok<N>>, r: Result<seq<Tok<N>>, CalcError<N>>): Result<seq<Tok<N>>, CalcError<N>> {
    match r case Ok(ts) => Ok(out + ts) case Err(e) => Err(e)
  }

  lemma AfterPrepend<N>(out: seq<Tok<N>>, t: Tok<N>, r: Result<seq<Tok<N>>, CalcError<N>>)
    ensures After(out, Prepend(t, r)) == After(out + [t], r)
  {
    if r.Ok? { assert out + ([t] + r.value) == out + [t] + r.value; }
  }

  lemma AfterNothing<N>(r: Result<seq<Tok<N>>, CalcError<N>>)
    ensures After([], r) == r
  {
    if r.Ok? { assert [] + r.value == r.value; }
  }

  method NumberEnd(src: string, start: nat) returns (i: nat)
    requires start <= |src|
    ensures i == start + NumberLength(src[start..], false)
  {
    var seenDot := false;
    i := start;
    while i < |src|
      invariant start <= i <= |src|
      invariant NumberLength(src[start..], false) == i - start + NumberLength(src[i..], seenDot)
    {
      if IsDigit(src[i]) {
        i := i + 1;
      } else if src[i] == '.' && !seenDot {
        seenDot := true;
        i := i + 1;
      } else {
        break;
      }
    }
  }

  method NameEnd(src: string, start: nat) returns (i: nat)
    requires start <= |src|
    ensures i == start + NameLength(src[start..])
  {
    i := start;
    while i < |src| && IsNameChar(src[i])
      invariant start <= i <= |src|
      invariant NameLength(src[start..]) == i - start + NameLength(src[i..])
    {
      i := i + 1;
    }
  }

  method ReadToken<N>(ar: Arithmetic<N>, src: string, start: nat) returns (r: Result<Tok<N>, CalcError<N>>, i: nat)
    requires start < |src|
    ensures match TokenAt(ar, src[start..])
            case Err(e) => r == Err(e)
            case Ok((t, n)) => r == Ok(t) && i == start + n
  {
    var c := src[start];
    if IsNumberChar(c) {
      i := NumberEnd(src, start);
      var text := src[start..i];
      assert text == src[start..][..i - start];
      r := if text == "." then Err(InvalidNumber(text)) else Ok(NumTok(ar.parse(text)));
    } else if IsLetter(c) {
      i := NameEnd(src, start);
      assert src[start..i] == src[start..][..i - start];
      r := Ok(IdentTok(src[start..i]));
    } else {
      var op := Operator<N>(c, if start + 1 < |src| then Some(src[start + 1]) else None);
      match op
      case None => r, i := Err(UnexpectedChar(c)), start;
      case Some((t, n)) => r, i := Ok(t), start + n;
    }
  }

  method Lex<N>(ar: Arithmetic<N>, src: string) returns (r: Result<seq<Tok<N>>, CalcError<N>>)
    ensures r == LexSpec(ar, src)
  {
    var i, out := 0, [];
    AfterNothing(LexSpec(ar, src));
    assert src[0..] == src;
    while i < |src|
      invariant 0 <= i <= |src|
      invariant LexSpec(ar, src) == After(out, LexSpec(ar, src[i..]))
    {
      ghost var here := src[i..];
      if IsSpace(src[i]) {
        assert here[1..] == src[i + 1..];
        i := i + 1;
        continue;
      }
      var t, end := ReadToken(ar, src, i);
      if t.Err? { return Err(t.error); }
      assert src[end..] == here[end - i..];
      AfterPrepend(out, t.value, LexSpec(ar, src[end..]));
      out := out + [t.value];
      i := end;
    }
    r := Ok(out);
    assert out + [] == out;
  }

  // ------------------------------------------------------------------ lexing undoes spelling

  /** How an operator token is written. */
  function OperatorText<N>(t: Tok<N>): string {
    match t
    case Plus => "+" case Minus => "-" case Star => "*" case Slash => "/" case Percent => "%"
    case Caret => "^" case LParen => "(" case RParen => ")" case Comma => "," case Question => "?"
    case Colon => ":" case Eq => "==" case Ne => "!=" case Lt => "<" case Le => "<=" case Gt => ">"
    case Ge => ">=" case AndAnd => "&&" case OrOr => "||"
    case _ => ""
  }

  predicate IsNumberText(text: string) {
    text != [] && text != "." && NumberLength(text, false) == |text|
  }

  predicate IsName(text: string) {
    text != [] && IsLetter(text[0]) && NameLength(text) == |text|
  }

  /** `text` is a spelling of `t`. */
  ghost predicate Spells<N(!new)>(ar: Arithmetic<N>, text: string, t: Tok<N>) {
    match t
    case NumTok(v) => IsNumberText(text) && v == ar.parse(text)
    case IdentTok(x) => text == x && IsName(text)
    case _ => text == OperatorText(t)
  }

  /** Digits and dots, with at most one dot, and none after one that was seen. */
  ghost predicate DigitsAndDot(text: string, seenDot: bool) {
    && (forall i :: 0 <= i < |text| ==> '0' <= text[i] <= '9' || text[i] == '.')
    && (forall i, j :: 0 <= i < j < |text| ==> text[i] != '.' || text[j] != '.')
    && (seenDot ==> '.' !in text)
  }

  lemma {:induction false} NumberLengthIs(text: string, seenDot: bool)
    ensures NumberLength(text, seenDot) == |text| <==> DigitsAndDot(text, seenDot)
  {
    if text != "" {
      var rest, dot := text[1..], text[0] == '.';
      NumberLengthIs(rest, seenDot || dot);
      assert text == [text[0]] + rest;
      if DigitsAndDot(text, seenDot) {
        if dot { assert forall j :: 0 <= j < |rest| ==> rest[j] == text[j + 1] != '.'; }
        assert DigitsAndDot(rest, seenDot || dot);
      }
      if DigitsAndDot(rest, seenDot || dot) && NumberLength(text, seenDot) == |text| {
        MoreDigits(text, rest, seenDot);
      }
    }
  }

  lemma MoreDigits(text: string, rest: string, seenDot: bool)
    requires text != "" && rest == text[1..] && DigitsAndDot(rest, seenDot || text[0] == '.')
    requires '0' <= text[0] <= '9' || (text[0] == '.' && !seenDot)
    ensures DigitsAndDot(text, seenDot)
  {
    forall i | 0 < i < |text| ensures text[i] == rest[i - 1] && rest[i - 1] in rest {}
  }

  /** The spellings of numbers: digits with at most one dot, and at least one digit. */
  lemma NumberTextIs(text: string)
    ensures IsNumberText(text) <==>
              && (forall i :: 0 <= i < |text| ==> '0' <= text[i] <= '9' || text[i] == '.')
              && (forall i, j :: 0 <= i < j < |text| ==> text[i] != '.' || text[j] != '.')
              && exists i :: 0 <= i < |text| && text[i] != '.'
  {
    NumberLengthIs(text, false);
    if DigitsAndDot(text, false) && text != "" && text != "." {
      if |text| > 1 { assert text[0] != '.' || text[1] != '.'; } else { assert text == [text[0]]; }
    }
  }

  lemma {:induction false} NameLengthIs(text: string)
    ensures NameLength(text) == |text| <==>
              forall i :: 0 <= i < |text| ==>
                'a' <= text[i] <= 'z' || 'A' <= text[i] <= 'Z' || text[i] == '_' || '0' <= text[i] <= '9'
  {
    if text != "" {
      NameLengthIs(text[1..]);
      assert forall i :: 0 < i < |text| ==> text[i] == text[1..][i - 1];
    }
  }

  /** The spellings of names: letters, digits and underscores, the first not a digit. */
  lemma NameIs(text: string)
    ensures IsName(text) <==>
              && text != "" && !('0' <= text[0] <= '9')
              && forall i :: 0 <= i < |text| ==>
                   'a' <= text[i] <= 'z' || 'A' <= text[i] <= 'Z' || text[i] == '_' || '0' <= text[i] <= '9'
  {
    NameLengthIs(text);
  }

  predicate Blank(gap: string) {
    forall k :: 0 <= k < |gap| ==> IsSpace(gap[k])
  }

  /** Texts one after another, each followed by its gap. */
  function Source(texts: seq<string>, gaps: seq<string>): string
    requires |texts| == |gaps|
  {
    if texts == [] then "" else texts[0] + gaps[0] + Source(texts[1..], gaps[1..])
  }

  /** `text`, a spelling of `t`, cannot run on into `tail`. */
  predicate Bounded<N>(t: Tok<N>, text: string, tail: string) {
    tail != [] ==>
      && (t.NumTok? ==> !IsDigit(tail[0]) && (tail[0] == '.' ==> '.' in text))
      && (t.IdentTok? ==> !IsNameChar(tail[0]))
      && (t.Lt? || t.Gt? ==> tail[0] != '=')
  }

  /** What stands right after text `k`: its gap, and the next text. */
  function Follow(texts: seq<string>, gaps: seq<string>, k: nat): string
    requires k < |texts| == |gaps|
  {
    gaps[k] + if k + 1 < |texts| then texts[k + 1] else ""
  }

  /** A spelling of every token, blank gaps, and no text that runs on into what follows it. */
  ghost predicate WellSpaced<N(!new)>(ar: Arithmetic<N>, toks: seq<Tok<N>>, texts: seq<string>, gaps: seq<string>) {
    && |toks| == |texts| == |gaps|
    && forall k :: 0 <= k < |toks| ==>
         Spells(ar, texts[k], toks[k]) && Blank(gaps[k]) && Bounded(toks[k], texts[k], Follow(texts, gaps, k))
  }

  lemma {:induction false} NumberLengthStops(text: string, tail: string, seenDot: bool)
    requires NumberLength(text, seenDot) == |text|
    requires tail != [] ==> !IsDigit(tail[0]) && (tail[0] == '.' ==> seenDot || '.' in text)
    ensures NumberLength(text + tail, seenDot) == |text|
  {
    if text == [] {
      assert text + tail == tail;
    } else {
      assert (text + tail)[1..] == text[1..] + tail;
      NumberLengthStops(text[1..], tail, seenDot || text[0] == '.');
    }
  }

  lemma {:induction false} NameLengthStops(text: string, tail: string)
    requires NameLength(text) == |text|
    requires tail == [] || !IsNameChar(tail[0])
    ensures NameLength(text + tail) == |text|
  {
    if text == [] {
      assert text + tail == tail;
    } else {
      assert (text + tail)[1..] == text[1..] + tail;
      NameLengthStops(text[1..], tail);
    }
  }

  lemma {:induction false} LexSkipsBlank<N>(ar: Arithmetic<N>, gap: string, tail: string)
    requires Blank(gap)
    ensures LexSpec(ar, gap + tail) == LexSpec(ar, tail)
  {
    if gap == [] {
      assert gap + tail == tail;
    } else {
      assert (gap + tail)[1..] == gap[1..] + tail;
      LexSkipsBlank(ar, gap[1..], tail);
    }
  }

  /** A spelling followed by something it cannot run into is read as its token. */
  lemma LexOne<N(!new)>(ar: Arithmetic<N>, t: Tok<N>, text: string, tail: string)
    requires Spells(ar, text, t) && Bounded(t, text, tail)
    ensures LexSpec(ar, text + tail) == Prepend(t, LexSpec(ar, tail))
  {
    var cs := text + tail;
    assert cs[..|text|] == text && cs[|text|..] == tail;
    match t
    case NumTok(_) => NumberLengthStops(text, tail, false);
    case IdentTok(_) => NameLengthStops(text, tail);
    case _ => assert Operator<N>(cs[0], Next(cs)) == Some((t, |text|));
    assert TokenAt(ar, cs) == Ok((t, |text|));
  }

  lemma LexNext<N(!new)>(ar: Arithmetic<N>, t: Tok<N>, text: string, gap: string, rest: string, ts: seq<Tok<N>>)
    requires Spells(ar, text, t) && Blank(gap) && Bounded(t, text, gap + rest)
    requires LexSpec(ar, rest) == Ok(ts)
    ensures LexSpec(ar, text + (gap + rest)) == Ok([t] + ts)
  {
    LexSkipsBlank(ar, gap, rest);
    LexOne(ar, t, text, gap + rest);
  }

  lemma FirstIsBounded<N(!new)>(ar: Arithmetic<N>, toks: seq<Tok<N>>, texts: seq<string>, gaps: seq<string>)
    requires WellSpaced(ar, toks, texts, gaps) && toks != []
    ensures Bounded(toks[0], texts[0], gaps[0] + Source(texts[1..], gaps[1..]))
  {
    var gap, rest := gaps[0], Source(texts[1..], gaps[1..]);
    if gap == "" && |toks| > 1 {
      assert Spells(ar, texts[1], toks[1]);
      assert (gap + rest)[0] == texts[1][0] == Follow(texts, gaps, 0)[0];
    }
  }

  /** However the tokens are spelled and spaced, as long as no two run together, lexing gives them back. */
  lemma {:induction false} LexUndoesSpelling<N(!new)>(
      ar: Arithmetic<N>, toks: seq<Tok<N>>, texts: seq<string>, gaps: seq<string>)
    requires WellSpaced(ar, toks, texts, gaps)
    ensures LexSpec(ar, Source(texts, gaps)) == Ok(toks)
  {
    if toks != [] {
      var t, text, gap, rest := toks[0], texts[0], gaps[0], Source(texts[1..], gaps[1..]);
      FirstIsBounded(ar, toks, texts, gaps);
      assert Source(texts, gaps) == text + (gap + rest);
      WellSpacedTail(ar, toks, texts, gaps);
      LexUndoesSpelling(ar, toks[1..], texts[1..], gaps[1..]);
      LexNext(ar, t, text, gap, rest, toks[1..]);
      assert [t] + toks[1..] == toks;
    }
  }

  lemma WellSpacedTail<N(!new)>(ar: Arithmetic<N>, toks: seq<Tok<N>>, texts: seq<string>, gaps: seq<string>)
    requires WellSpaced(ar, toks, texts, gaps) && toks != []
    ensures WellSpaced(ar, toks[1..], texts[1..], gaps[1..])
  {
    forall k | 0 <= k < |toks| - 1 ensures Bounded(toks[1..][k], texts[1..][k], Follow(texts[1..], gaps[1..], k)) {
      assert Bounded(toks[k + 1], texts[k + 1], Follow(texts, gaps, k + 1));
      assert Follow(texts[1..], gaps[1..], k) == Follow(texts, gaps, k + 1);
    }
  }

  // ------------------------------------------------------------------ every text that lexes is such a spelling

  lemma {:induction false} NumberIsLongest(cs: string, seenDot: bool)
    ensures var n := NumberLength(cs, seenDot);
            && NumberLength(cs[..n], seenDot) == n
            && (n < |cs| ==> !IsDigit(cs[n]) && (cs[n] == '.' ==> seenDot || '.' in cs[..n]))
  {
    var n := NumberLength(cs, seenDot);
    if n > 0 {
      NumberIsLongest(cs[1..], seenDot || cs[0] == '.');
      assert cs[..n][1..] == cs[1..][..n - 1];
    }
  }

  lemma {:induction false} NameIsLongest(cs: string)
    ensures var n := NameLength(cs);
            NameLength(cs[..n]) == n && (n < |cs| ==> !IsNameChar(cs[n]))
  {
    var n := NameLength(cs);
    if n > 0 {
      NameIsLongest(cs[1..]);
      assert cs[..n][1..] == cs[1..][..n - 1];
    }
  }

  lemma TokenIsSpelled<N(!new)>(ar: Arithmetic<N>, cs: string)
    requires cs != [] && TokenAt(ar, cs).Ok?
    ensures var (t, n) := TokenAt(ar, cs).value; Spells(ar, cs[..n], t) && Bounded(t, cs[..n], cs[n..])
  {
    if IsNumberChar(cs[0]) {
      NumberIsLongest(cs, false);
    } else if IsLetter(cs[0]) {
      NameIsLongest(cs);
    } else {
      OperatorIsSpelled<N>(cs);
    }
  }

  lemma OperatorIsSpelled<N>(cs: string)
    requires cs != [] && Operator<N>(cs[0], Next(cs)).Some?
    ensures var (t, n) := Operator<N>(cs[0], Next(cs)).value;
            && n <= |cs| && !t.NumTok? && !t.IdentTok? && cs[..n] == OperatorText(t)
            && (t.Lt? || t.Gt? ==> n == 1 && (1 < |cs| ==> cs[1] != '='))
  {
  }

  lemma WellSpacedMore<N(!new)>(ar: Arithmetic<N>, toks: seq<Tok<N>>, texts: seq<string>, gaps: seq<string>,
                                t: Tok<N>, text: string, gap: string)
    requires WellSpaced(ar, toks, texts, gaps) && Spells(ar, text, t) && Blank(gap)
    requires Bounded(t, text, gap + Source(texts, gaps))
    ensures WellSpaced(ar, [t] + toks, [text] + texts, [gap] + gaps)
    ensures Source([text] + texts, [gap] + gaps) == text + gap + Source(texts, gaps)
  {
    var ts, xs, gs := [t] + toks, [text] + texts, [gap] + gaps;
    assert xs[1..] == texts && gs[1..] == gaps;
    forall k | 0 <= k < |ts| ensures Spells(ar, xs[k], ts[k]) && Blank(gs[k]) && Bounded(ts[k], xs[k], Follow(xs, gs, k)) {
      if k > 0 {
        assert Follow(xs, gs, k) == Follow(texts, gaps, k - 1);
        assert Bounded(toks[k - 1], texts[k - 1], Follow(texts, gaps, k - 1));
      } else if gap == "" && texts != [] {
        assert Spells(ar, texts[0], toks[0]);
        assert (gap + Source(texts, gaps))[0] == texts[0][0] == Follow(xs, gs, 0)[0];
      }
    }
  }

  lemma LexStep<N>(ar: Arithmetic<N>, src: string, rest: string)
    requires src != [] && !IsSpace(src[0]) && TokenAt(ar, src).Ok? && rest == src[TokenAt(ar, src).value.1..]
    requires LexSpec(ar, src).Ok?
    ensures LexSpec(ar, rest).Ok? && LexSpec(ar, src).value == [TokenAt(ar, src).value.0] + LexSpec(ar, rest).value
  {
  }

  /** `toks`, spelled as `lead` and then these texts and gaps, are what `src` is read as. */
  ghost predicate Written<N(!new)>(ar: Arithmetic<N>, src: string, toks: seq<Tok<N>>, lead: string,
                                   texts: seq<string>, gaps: seq<string>) {
    Blank(lead) && WellSpaced(ar, toks, texts, gaps) && src == lead + Source(texts, gaps)
  }

  lemma WrittenMore<N(!new)>(ar: Arithmetic<N>, src: string, text: string, rest: string, t: Tok<N>, toks: seq<Tok<N>>,
                             gap: string, texts: seq<string>, gaps: seq<string>)
    requires Written(ar, rest, toks, gap, texts, gaps) && src == text + rest
    requires Spells(ar, text, t) && Bounded(t, text, rest)
    ensures Written(ar, src, [t] + toks, "", [text] + texts, [gap] + gaps)
  {
    WellSpacedMore(ar, toks, texts, gaps, t, text, gap);
    Assoc(text, gap, Source(texts, gaps));
    Assoc("", src, "");
  }

  /** A text is read as these tokens only when it is blanks and then such a spelling of them. */
  lemma {:induction false} LexedTextIsSpelling<N(!new)>(ar: Arithmetic<N>, src: string)
    returns (lead: string, texts: seq<string>, gaps: seq<string>)
    requires LexSpec(ar, src).Ok?
    ensures Written(ar, src, LexSpec(ar, src).value, lead, texts, gaps)
    decreases |src|
  {
    if src == [] {
      lead, texts, gaps := "", [], [];
    } else if IsSpace(src[0]) {
      var first, rest := src[..1], src[1..];
      lead, texts, gaps := LexedTextIsSpelling(ar, rest);
      assert src == first + rest;
      assert first + (lead + Source(texts, gaps)) == first + lead + Source(texts, gaps);
      lead := first + lead;
    } else {
      var (t, n) := TokenAt(ar, src).value;
      var text, rest := src[..n], src[n..];
      TokenIsSpelled(ar, src);
      LexStep(ar, src, rest);
      var gap, more, gs := LexedTextIsSpelling(ar, rest);
      assert src == text + rest;
      WrittenMore(ar, src, text, rest, t, LexSpec(ar, rest).value, gap, more, gs);
      lead, texts, gaps := "", [text] + more, [gap] + gs;
    }
  }

  /** What the lexer accepts: a text is read as these tokens exactly when it is a spelling of them. */
  lemma LexesExactlySpellings<N(!new)>(ar: Arithmetic<N>, src: string, toks: seq<Tok<N>>)
    ensures LexSpec(ar, src) == Ok(toks) <==> exists lead, texts, gaps :: Written(ar, src, toks, lead, texts, gaps)
  {
    if LexSpec(ar, src) == Ok(toks) {
      var lead, texts, gaps := LexedTextIsSpelling(ar, src);
    }
    if lead, texts, gaps :| Written(ar, src, toks, lead, texts, gaps) {
      LexUndoesSpelling(ar, toks, texts, gaps);
      LexSkipsBlank(ar, lead, Source(texts, gaps));
    }
  }
}
