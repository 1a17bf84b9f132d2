/** What the transcript of a segment says, in terms of the answers of the transcriber. */
module SegmentText {
  import opened Basics
  import opened SegmentCutting

  /** The answer to the call for part `k`. */
  function Heard<S, E>(hear: (nat, seq<S>) -> Result<Transcript, E>, samples: seq<S>, parts: seq<Span>, k: nat)
    : Result<Transcript, E>
    requires k < |parts| && parts[k].s < parts[k].e <= |samples|
  {
    hear(k, samples[parts[k].s..parts[k].e])
  }

  ghost predicate Fit(parts: seq<Span>, n: nat) {
    forall p :: p in parts ==> p.s < p.e <= n
  }

  /** The texts with one space between neighbours. */
  function Spaced(texts: seq<string>): string {
    if |texts| == 0 then "" else if |texts| == 1 then texts[0] else texts[0] + " " + Spaced(texts[1..])
  }

  function NonEmpty(texts: seq<string>): seq<string> {
    if texts == [] then [] else (if texts[0] == "" then [] else [texts[0]]) + NonEmpty(texts[1..])
  }

  /** How many words the first `k` answers hold. */
  function WordsBefore(answers: seq<Transcript>, k: nat): nat
    requires k <= |answers|
  {
    if k == 0 then 0 else WordsBefore(answers, k - 1) + |answers[k - 1].words|
  }

  /** Word `w` of the part that starts at sample `s`, on the clock of the segment. */
  predicate OnSegmentClock(late: Word, w: Word, s: nat) {
    && late.text == w.text
    && late.startMs == (w.startMs + s * 1000 / 16000) % 0x1_0000_0000
    && late.endMs == (w.endMs + s * 1000 / 16000) % 0x1_0000_0000
  }

  function Trimmed(answers: seq<Transcript>, trim: string -> string): seq<string> {
    seq(|answers|, k requires 0 <= k < |answers| => trim(answers[k].text))
  }

  /** The words are those of each answer in turn, on the clock of the segment. */
  ghost predicate Strung(words: seq<Word>, answers: seq<Transcript>, parts: seq<Span>)
    requires |answers| == |parts|
  {
    && |words| == WordsBefore(answers, |answers|)
    && forall k: nat, i: nat :: k < |answers| && i < |answers[k].words| ==> WordStands(words, answers, parts, k, i)
  }

  /** Word `i` of answer `k` stands after all those of the earlier answers and the earlier ones of its own. */
  ghost predicate WordStands(words: seq<Word>, answers: seq<Transcript>, parts: seq<Span>, k: nat, i: nat)
    requires k < |answers| == |parts| && i < |answers[k].words|
  {
    var at := WordsBefore(answers, k) + i;
    at < |words| && OnSegmentClock(words[at], answers[k].words[i], parts[k].s)
  }

  /** The text is the trimmed answers that are not empty, one space between neighbours. */
  ghost predicate Recounts(t: Transcript, answers: seq<Transcript>, parts: seq<Span>, trim: string -> string)
    requires |answers| == |parts|
  {
    t.text == Spaced(NonEmpty(Trimmed(answers, trim))) && Strung(t.words, answers, parts)
  }

  lemma {:induction false} NonEmptyMore(texts: seq<string>, x: string)
    ensures NonEmpty(texts + [x]) == NonEmpty(texts) + if x == "" then [] else [x]
    ensures forall y :: y in NonEmpty(texts) ==> y != ""
  {
    if texts == [] {
      assert [] + [x] == [x];
      assert [x][1..] == [];
    } else {
      assert (texts + [x])[1..] == texts[1..] + [x];
      NonEmptyMore(texts[1..], x);
    }
  }

  lemma {:induction false} SpacedMore(texts: seq<string>, x: string)
    requires forall y :: y in texts ==> y != ""
    ensures Spaced(texts) == "" <==> texts == []
    ensures Spaced(texts + [x]) == if texts == [] then x else Spaced(texts) + " " + x
  {
    if |texts| == 0 {
      assert [] + [x] == [x];
    } else {
      assert texts[0] in texts;
      assert (texts + [x])[1..] == texts[1..] + [x];
      forall y | y in texts[1..] ensures y != "" { assert y in texts; }
      SpacedMore(texts[1..], x);
    }
  }

  /** One more answer. */
  lemma JoinedIsSpaced(texts: seq<string>, x: string)
    ensures Joined(Spaced(NonEmpty(texts)), x) == Spaced(NonEmpty(texts + [x]))
  {
    NonEmptyMore(texts, x);
    SpacedMore(NonEmpty(texts), x);
    if x == "" { assert NonEmpty(texts) + [] == NonEmpty(texts); }
  }

  lemma LateIsOnClock(w: Word, s: nat)
    ensures OnSegmentClock(Late(w, Ms(s) % U32), w, s)
  {
  }

  lemma {:induction false} ShiftAt(words: seq<Word>, offset: nat, i: nat)
    requires i < |words|
    ensures Shift(words, offset)[i] == Late(words[i], offset)
  {
    if i < |words| - 1 { ShiftAt(words[..|words| - 1], offset, i); }
  }

  lemma ShiftedOnClock(words: seq<Word>, s: nat, i: nat)
    requires i < |words|
    ensures OnSegmentClock(Shift(words, Ms(s) % U32)[i], words[i], s)
  {
    ShiftAt(words, Ms(s) % U32, i);
    LateIsOnClock(words[i], s);
  }

  lemma {:induction false} Earlier(answers: seq<Transcript>, more: Transcript, k: nat)
    requires k <= |answers|
    ensures WordsBefore(answers + [more], k) == WordsBefore(answers, k)
  {
    if k > 0 { Earlier(answers, more, k - 1); }
  }

  lemma {:induction false} LaterWords(answers: seq<Transcript>, k: nat)
    requires k <= |answers|
    ensures WordsBefore(answers, k) <= WordsBefore(answers, |answers|)
    decreases |answers| - k
  {
    if k < |answers| { LaterWords(answers, k + 1); }
  }

  lemma TextMore(answers: seq<Transcript>, trim: string -> string, u: Transcript)
    ensures Joined(Spaced(NonEmpty(Trimmed(answers, trim))), trim(u.text)) == Spaced(NonEmpty(Trimmed(answers + [u], trim)))
  {
    JoinedIsSpaced(Trimmed(answers, trim), trim(u.text));
    assert Trimmed(answers, trim) + [trim(u.text)] == Trimmed(answers + [u], trim);
  }

  lemma StrungMore(words: seq<Word>, answers: seq<Transcript>, parts: seq<Span>, u: Transcript, p: Span)
    requires |answers| == |parts| && Strung(words, answers, parts)
    ensures Strung(words + Shift(u.words, Ms(p.s) % U32), answers + [u], parts + [p])
  {
    var now, all := words + Shift(u.words, Ms(p.s) % U32), answers + [u];
    Earlier(answers, u, |answers|);
    assert WordsBefore(all, |all|) == WordsBefore(all, |answers|) + |u.words|;
    forall k: nat, i: nat | k < |all| && i < |all[k].words| ensures WordStands(now, all, parts + [p], k, i) {
      Earlier(answers, u, k);
      if k < |answers| {
        assert WordStands(words, answers, parts, k, i);
        LaterWords(answers, k + 1);
      } else {
        ShiftedOnClock(u.words, p.s, i);
      }
    }
  }

  // ------------------------------------------------------------------ the result

  function Answers<S, E>(hear: (nat, seq<S>) -> Result<Transcript, E>, samples: seq<S>, parts: seq<Span>): seq<Transcript>
    requires Fit(parts, |samples|)
    requires forall k: nat :: k < |parts| ==> Heard(hear, samples, parts, k).Ok?
  {
    seq(|parts|, k requires 0 <= k < |parts| => Heard(hear, samples, parts, k).value)
  }

  /** `r` is what the calls, one for each part in turn, amount to. */
  ghost predicate AmountsTo<S, E>(hear: (nat, seq<S>) -> Result<Transcript, E>, trim: string -> string, samples: seq<S>,
                                parts: seq<Span>, r: Result<Transcript, E>)
    requires Fit(parts, |samples|)
  {
    match r
    case Ok(t) =>
      && (forall k: nat :: k < |parts| ==> Heard(hear, samples, parts, k).Ok?)
      && Recounts(t, Answers(hear, samples, parts), parts, trim)
    case Err(e) =>
      exists k: nat :: k < |parts| && FirstError(hear, samples, parts, k, e)
  }

  /** The call for part `k` is the first that fails. */
  ghost predicate FirstError<S, E>(hear: (nat, seq<S>) -> Result<Transcript, E>, samples: seq<S>, parts: seq<Span>, k: nat, e: E)
    requires Fit(parts, |samples|) && k < |parts|
  {
    Heard(hear, samples, parts, k) == Err(e) && forall j: nat :: j < k ==> Heard(hear, samples, parts, j).Ok?
  }

  lemma AnswersBefore<S, E>(hear: (nat, seq<S>) -> Result<Transcript, E>, samples: seq<S>, parts: seq<Span>, k: nat)
    requires Fit(parts, |samples|) && k < |parts| - 1
    ensures Fit(parts[..|parts| - 1], |samples|)
    ensures Heard(hear, samples, parts[..|parts| - 1], k) == Heard(hear, samples, parts, k)
  {
  }

  lemma OneMoreAnswer<S, E>(hear: (nat, seq<S>) -> Result<Transcript, E>, trim: string -> string, samples: seq<S>,
                            parts: seq<Span>, t: Transcript, u: Transcript)
    requires parts != [] && Fit(parts, |samples|) && Fit(parts[..|parts| - 1], |samples|)
    requires AmountsTo(hear, trim, samples, parts[..|parts| - 1], Ok(t)) && Heard(hear, samples, parts, |parts| - 1) == Ok(u)
    ensures AmountsTo(hear, trim, samples, parts, Ok(Append(t, u, trim, parts[|parts| - 1].s)))
  {
    var n := |parts| - 1;
    forall k: nat | k < |parts| ensures Heard(hear, samples, parts, k).Ok? {
      if k < n { AnswersBefore(hear, samples, parts, k); }
    }
    var answers := Answers(hear, samples, parts[..n]);
    forall k: nat | k < n ensures answers[k] == Answers(hear, samples, parts)[k] { AnswersBefore(hear, samples, parts, k); }
    assert Answers(hear, samples, parts) == answers + [u];
    TextMore(answers, trim, u);
    StrungMore(t.words, answers, parts[..n], u, parts[n]);
    assert parts[..n] + [parts[n]] == parts;
  }

  /** One call for each part, in turn, until one fails. */
  lemma {:induction false} CallsAmountTo<S, E>(hear: (nat, seq<S>) -> Result<Transcript, E>, trim: string -> string,
                                               samples: seq<S>, parts: seq<Span>)
    requires Fit(parts, |samples|)
    ensures AmountsTo(hear, trim, samples, parts, Collect(hear, trim, samples, parts))
    decreases parts
  {
    var n := |parts| - 1;
    if n >= 0 {
      var before := parts[..n];
      CallsAmountTo(hear, trim, samples, before);
      var t, u := Collect(hear, trim, samples, before), Heard(hear, samples, parts, n);
      if t.Err? {
        var k: nat :| k < n && FirstError(hear, samples, before, k, t.error);
        SameFirstError(hear, samples, parts, k, t.error);
      } else if u.Err? {
        forall j: nat | j < n ensures Heard(hear, samples, parts, j).Ok? { AnswersBefore(hear, samples, parts, j); }
        assert FirstError(hear, samples, parts, n, u.error);
      } else {
        OneMoreAnswer(hear, trim, samples, parts, t.value, u.value);
      }
    }
  }

  lemma SameFirstError<S, E>(hear: (nat, seq<S>) -> Result<Transcript, E>, samples: seq<S>, parts: seq<Span>, k: nat, e: E)
    requires Fit(parts, |samples|) && k < |parts| - 1 && Fit(parts[..|parts| - 1], |samples|)
    requires FirstError(hear, samples, parts[..|parts| - 1], k, e)
    ensures FirstError(hear, samples, parts, k, e)
  {
    forall j: nat | j <= k ensures Heard(hear, samples, parts[..|parts| - 1], j) == Heard(hear, samples, parts, j) {
      AnswersBefore(hear, samples, parts, j);
    }
  }

  // ------------------------------------------------------------------ the cuts

  /** A cut is made before span `i`. */
  ghost predicate LongSilenceBefore(spans: seq<Span>, i: nat) {
    0 < i < |spans| && spans[i].s >= spans[i - 1].e + 32000
  }

  ghost predicate LongSilences(spans: seq<Span>) {
    exists i: nat :: LongSilenceBefore(spans, i)
  }

  lemma {:induction false} CutsAre(spans: seq<Span>, c: nat)
    ensures c in Middles(spans) <==> exists i: nat :: LongSilenceBefore(spans, i) && c == (spans[i - 1].e + spans[i].s) / 2
  {
    var n := |spans| - 1;
    if n >= 1 {
      CutsAre(spans[..n], c);
      if i: nat :| LongSilenceBefore(spans[..n], i) && c == (spans[..n][i - 1].e + spans[..n][i].s) / 2 {
        assert LongSilenceBefore(spans, i);
      }
      if i: nat :| LongSilenceBefore(spans, i) && c == (spans[i - 1].e + spans[i].s) / 2 {
        if i < n { assert LongSilenceBefore(spans[..n], i); }
      }
      if Far(spans[n - 1], spans[n]) && c == Middle(spans[n - 1], spans[n]) { assert LongSilenceBefore(spans, n); }
    }
  }

  lemma CutsAtAll(spans: seq<Span>)
    ensures Middles(spans) != [] <==> LongSilences(spans)
  {
    if Middles(spans) != [] {
      CutsAre(spans, Middles(spans)[0]);
    }
    if i: nat :| LongSilenceBefore(spans, i) {
      CutsAre(spans, (spans[i - 1].e + spans[i].s) / 2);
    }
  }

  lemma TranscriptAmountsTo<S, E>(hear: (nat, seq<S>) -> Result<Transcript, E>, trim: string -> string, samples: seq<S>,
                                  spans: seq<Span>)
    ensures var r := Transcription(hear, trim, samples, spans);
            if LongSilences(spans) then AmountsTo(hear, trim, samples, PartsOf(spans, |samples|), r)
            else r == hear(0, samples)
  {
    CutsAtAll(spans);
    CallsAmountTo(hear, trim, samples, PartsOf(spans, |samples|));
  }

  /** The ends of the parts, for spans in order: the cuts, each later than the one before. */
  lemma {:induction false} CutsAscend(spans: seq<Span>, n: nat)
    requires Ordered(spans, n)
    ensures forall i, j :: 0 <= i < j < |Middles(spans)| ==> Middles(spans)[i] < Middles(spans)[j]
    ensures forall i :: 0 <= i < |Middles(spans)| ==> 0 < Middles(spans)[i] < n
    ensures spans != [] ==> forall i :: 0 <= i < |Middles(spans)| ==> Middles(spans)[i] < spans[|spans| - 1].s
  {
    var k := |spans| - 1;
    if k >= 1 { CutsAscend(spans[..k], n); }
  }

  lemma {:induction false} PartsBetween(cuts: seq<nat>, n: nat)
    requires cuts != [] && (forall i, j :: 0 <= i < j < |cuts| ==> cuts[i] < cuts[j]) && forall c :: c in cuts ==> c <= n
    ensures Parts(cuts, n) == seq(|cuts| - 1, k requires 0 <= k < |cuts| - 1 => Span(cuts[k], cuts[k + 1]))
  {
    var k := |cuts| - 1;
    if k >= 1 {
      forall c | c in cuts[..k] ensures c <= n { assert c in cuts; }
      PartsBetween(cuts[..k], n);
      assert cuts[k] in cuts;
    }
  }

  /** For spans in order, the parts run from the start to the first cut, from each cut to the next one, and from the
      last cut to the end. */
  lemma PartsAre(spans: seq<Span>, n: nat)
    requires Ordered(spans, n) && Middles(spans) != []
    ensures var cuts := [0] + Middles(spans) + [n];
            && (forall i, j :: 0 <= i < j < |cuts| ==> cuts[i] < cuts[j])
            && PartsOf(spans, n) == seq(|cuts| - 1, k requires 0 <= k < |cuts| - 1 => Span(cuts[k], cuts[k + 1]))
  {
    CutsAscend(spans, n);
    PartsBetween([0] + Middles(spans) + [n], n);
  }
}
