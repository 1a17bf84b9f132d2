/** Transcribing a segment in parts, cut in the middle of every long silence between two spans of speech. */
module SegmentCutting {
  import opened Basics

  const SAMPLE_RATE := 16000
  const UTTERANCE_GAP := 32000

  /** A span of speech, or a part of the segment, in samples. */
  datatype Span = Span(s: nat, e: nat)

  datatype Word = Word(text: string, startMs: u32, endMs: u32)

  datatype Transcript = Transcript(text: string, words: seq<Word>)

  /** Two spans with a long silence between them. */
  predicate Far(a: Span, b: Span) {
    b.s >= a.e + UTTERANCE_GAP
  }

  function Middle(a: Span, b: Span): nat {
    (a.e + b.s) / 2
  }

  function Middles(spans: seq<Span>): seq<nat> {
    var n := |spans| - 1;
    if n < 1 then []
    else Middles(spans[..n]) + if Far(spans[n - 1], spans[n]) then [Middle(spans[n - 1], spans[n])] else []
  }

  /** The stretches between neighbouring cuts that hold any of the `n` samples. */
  function Parts(cuts: seq<nat>, n: nat): (r: seq<Span>)
    ensures forall p :: p in r ==> p.s < p.e <= n
  {
    var k := |cuts| - 1;
    if k < 1 then []
    else Parts(cuts[..k], n) +
         if cuts[k - 1] < Min(cuts[k], n) then [Span(cuts[k - 1], Min(cuts[k], n))] else []
  }

  /** A number of samples as milliseconds, rounded down. */
  function Ms(samples: nat): nat {
    samples * 1000 / SAMPLE_RATE
  }

  function Late(w: Word, offset: nat): Word {
    Word(w.text, (w.startMs + offset) % U32, (w.endMs + offset) % U32)
  }

  function Shift(words: seq<Word>, offset: nat): (r: seq<Word>)
    ensures |r| == |words|
  {
    if words == [] then []
    else Shift(words[..|words| - 1], offset) + [Late(words[|words| - 1], offset)]
  }

  function Joined(a: string, b: string): string {
    if b == "" then a else if a == "" then b else a + " " + b
  }

  /** A transcript with the answer for the part that starts at sample `s`: texts trimmed and joined by a space, words
      put on the clock of the segment. */
  function Append(t: Transcript, u: Transcript, trim: string -> string, s: nat): Transcript {
    Transcript(Joined(t.text, trim(u.text)), t.words + Shift(u.words, Ms(s) % U32))
  }

  /** `hear(k, part)` is what the transcriber, whatever its state, answers to call number `k`; an error ends it. */
  function Collect<S, E>(hear: (nat, seq<S>) -> Result<Transcript, E>, trim: string -> string, samples: seq<S>,
                         parts: seq<Span>): Result<Transcript, E>
    requires forall p :: p in parts ==> p.s < p.e <= |samples|
  {
    var k := |parts| - 1;
    if k < 0 then Ok(Transcript("", []))
    else
      var t, u := Collect(hear, trim, samples, parts[..k]), hear(k, samples[parts[k].s..parts[k].e]);
      if t.Err? || u.Err? then (if t.Err? then t else u) else Ok(Append(t.value, u.value, trim, parts[k].s))
  }

  /** The parts of a segment of `n` samples: between its start, its cuts and its end. */
  function PartsOf(spans: seq<Span>, n: nat): (r: seq<Span>)
    ensures forall p :: p in r ==> p.s < p.e <= n
  {
    Parts([0] + Middles(spans) + [n], n)
  }

  function Transcription<S, E>(hear: (nat, seq<S>) -> Result<Transcript, E>, trim: string -> string,
                               samples: seq<S>, spans: seq<Span>): Result<Transcript, E>
  {
    if Middles(spans) == [] then hear(0, samples) else Collect(hear, trim, samples, PartsOf(spans, |samples|))
  }

  // ------------------------------------------------------------------ the parts

  /** Spans as the voice detector gives them: in order, disjoint, within the `n` samples. */
  ghost predicate Ordered(spans: seq<Span>, n: nat) {
    && (forall i :: 0 <= i < |spans| ==> spans[i].s <= spans[i].e <= n)
    && (forall i, j :: 0 <= i < j < |spans| ==> spans[i].e <= spans[j].s)
  }

  /** Non-empty parts that follow one another without a hole. */
  ghost predicate Chain(parts: seq<Span>, from: nat, to: nat) {
    var k := |parts| - 1;
    if k < 0 then from == to
    else parts[k].s < parts[k].e == to && Chain(parts[..k], from, parts[k].s)
  }

  ghost predicate Within(parts: seq<Span>, x: Span) {
    exists p :: p in parts && p.s <= x.s && x.e <= p.e
  }

  function Last(cuts: seq<nat>): nat
    requires cuts != []
  {
    cuts[|cuts| - 1]
  }

  lemma {:induction false} ChainStep(parts: seq<Span>, from: nat, p: Span)
    requires Chain(parts, from, p.s) && p.s < p.e
    ensures Chain(parts + [p], from, p.e)
  {
    assert (parts + [p])[..|parts|] == parts;
  }

  lemma WithinStep(parts: seq<Span>, p: Span, x: Span)
    requires Within(parts, x) || (p.s <= x.s && x.e <= p.e)
    ensures Within(parts + [p], x)
  {
    if p.s <= x.s && x.e <= p.e {
      assert p in parts + [p];
    } else {
      var q :| q in parts && q.s <= x.s && x.e <= q.e;
      assert q in parts + [p];
    }
  }

  /** The cuts before the last span chain up. */
  lemma {:induction false} CutsChain(spans: seq<Span>, n: nat)
    requires spans != [] && Ordered(spans, n)
    ensures var cuts := [0] + Middles(spans);
            && Chain(Parts(cuts, n), 0, Last(cuts))
            && Last(cuts) <= spans[|spans| - 1].s && (|cuts| > 1 ==> Last(cuts) < n)
  {
    var k := |spans| - 1;
    if k > 0 {
      CutsChain(spans[..k], n);
      MiddlesStep(spans);
      if Far(spans[k - 1], spans[k]) {
        ChainNext([0] + Middles(spans[..k]), Middle(spans[k - 1], spans[k]), n);
      }
    }
  }

  lemma ChainNext(cuts: seq<nat>, c: nat, n: nat)
    requires cuts != [] && Last(cuts) < c <= n && Chain(Parts(cuts, n), 0, Last(cuts))
    ensures Chain(Parts(cuts + [c], n), 0, c)
  {
    ChainStep(Parts(cuts, n), 0, Span(Last(cuts), c));
  }

  /** Each span lies in one part or after the last cut. */
  lemma {:induction false} SpanLiesWithin(spans: seq<Span>, n: nat, i: nat)
    requires i < |spans| && Ordered(spans, n)
    ensures var cuts := [0] + Middles(spans); Within(Parts(cuts, n), spans[i]) || Last(cuts) <= spans[i].s
    decreases |spans|
  {
    var k := |spans| - 1;
    if i < k {
      var before := spans[..k];
      CutsChain(before, n);
      SpanLiesWithin(before, n, i);
      assert before[i] == spans[i];
      MiddlesStep(spans);
      if Far(spans[k - 1], spans[k]) {
        NextCut([0] + Middles(before), Middle(spans[k - 1], spans[k]), n, spans[i]);
      }
    } else {
      CutsChain(spans, n);
    }
  }

  lemma MiddlesStep(spans: seq<Span>)
    requires |spans| > 1
    ensures var k := |spans| - 1;
            && (Far(spans[k - 1], spans[k]) ==>
                  [0] + Middles(spans) == [0] + Middles(spans[..k]) + [Middle(spans[k - 1], spans[k])])
            && (!Far(spans[k - 1], spans[k]) ==> Middles(spans) == Middles(spans[..k]))
  {
  }

  lemma NextCut(cuts: seq<nat>, c: nat, n: nat, x: Span)
    requires cuts != [] && Last(cuts) < c <= n && x.e <= c
    requires Within(Parts(cuts, n), x) || Last(cuts) <= x.s
    ensures Within(Parts(cuts + [c], n), x)
  {
    WithinStep(Parts(cuts, n), Span(Last(cuts), c), x);
  }

  /** The parts of a segment that is cut at all: not one is empty, they join without a hole from the first sample to
      the last, and every span of speech lies in a single one of them. */
  lemma PartsCoverSegment(spans: seq<Span>, n: nat)
    requires Ordered(spans, n) && Middles(spans) != []
    ensures Chain(PartsOf(spans, n), 0, n)
    ensures forall x :: x in spans ==> Within(PartsOf(spans, n), x)
  {
    var cuts := [0] + Middles(spans);
    CutsChain(spans, n);
    var p := Span(Last(cuts), n);
    ChainStep(Parts(cuts, n), 0, p);
    forall x | x in spans ensures Within(Parts(cuts, n) + [p], x) {
      var i :| 0 <= i < |spans| && spans[i] == x;
      SpanLiesWithin(spans, n, i);
      WithinStep(Parts(cuts, n), p, x);
    }
  }

  function Spliced<S>(samples: seq<S>, parts: seq<Span>): seq<S>
    requires forall p :: p in parts ==> p.s < p.e <= |samples|
  {
    var k := |parts| - 1;
    if k < 0 then [] else Spliced(samples, parts[..k]) + samples[parts[k].s..parts[k].e]
  }

  lemma {:induction false} ChainSplices<S>(samples: seq<S>, parts: seq<Span>, to: nat)
    requires forall p :: p in parts ==> p.s < p.e <= |samples|
    requires Chain(parts, 0, to) && to <= |samples|
    ensures Spliced(samples, parts) == samples[..to]
    decreases parts
  {
    var k := |parts| - 1;
    if k >= 0 {
      ChainSplices(samples, parts[..k], parts[k].s);
      assert samples[..to] == samples[..parts[k].s] + samples[parts[k].s..to];
    }
  }

  /** The transcriber is given every sample once, in order. */
  lemma NothingIsLost<S>(samples: seq<S>, spans: seq<Span>)
    requires Ordered(spans, |samples|) && Middles(spans) != []
    ensures Spliced(samples, PartsOf(spans, |samples|)) == samples
  {
    PartsCoverSegment(spans, |samples|);
    ChainSplices(samples, PartsOf(spans, |samples|), |samples|);
    assert samples[..|samples|] == samples;
  }

  /** No cut comes nearer to speech than half the long silence. */
  lemma {:induction false} CutsKeepClear(spans: seq<Span>, n: nat, c: nat, i: nat)
    requires Ordered(spans, n) && c in Middles(spans) && i < |spans|
    ensures spans[i].e + UTTERANCE_GAP / 2 <= c || c + UTTERANCE_GAP / 2 <= spans[i].s
    decreases |spans|
  {
    var k := |spans| - 1;
    if c in Middles(spans[..k]) {
      CutsKeepClear(spans[..k], n, c, if i < k then i else k - 1);
      if i == k {
        CutsBeforeLast(spans[..k], n, c);
      }
    }
  }

  lemma {:induction false} CutsBeforeLast(spans: seq<Span>, n: nat, c: nat)
    requires Ordered(spans, n) && c in Middles(spans)
    ensures c + UTTERANCE_GAP / 2 <= spans[|spans| - 1].s
    decreases |spans|
  {
    var k := |spans| - 1;
    if c in Middles(spans[..k]) {
      CutsBeforeLast(spans[..k], n, c);
    }
  }

  ghost predicate CutBetween(spans: seq<Span>, i: nat)
    requires i + 1 < |spans|
  {
    exists c :: c in Middles(spans) && spans[i].e <= c <= spans[i + 1].s
  }

  /** Two neighbouring spans are cut apart exactly when the silence between them is long. */
  lemma {:induction false} CutExactlyInLongSilence(spans: seq<Span>, n: nat, i: nat)
    requires Ordered(spans, n) && i + 1 < |spans|
    ensures CutBetween(spans, i) <==> Far(spans[i], spans[i + 1])
  {
    if CutBetween(spans, i) {
      var c :| c in Middles(spans) && spans[i].e <= c <= spans[i + 1].s;
      CutsKeepClear(spans, n, c, i);
      CutsKeepClear(spans, n, c, i + 1);
    }
    if Far(spans[i], spans[i + 1]) {
      LongSilenceIsCut(spans, i);
    }
  }

  lemma {:induction false} LongSilenceIsCut(spans: seq<Span>, i: nat)
    requires i + 1 < |spans| && Far(spans[i], spans[i + 1])
    ensures Middle(spans[i], spans[i + 1]) in Middles(spans)
    decreases |spans|
  {
    if i + 2 < |spans| {
      LongSilenceIsCut(spans[..|spans| - 1], i);
    }
  }

  // ------------------------------------------------------------------ the clock

  /** Words in order, within the milliseconds `lo..hi`. */
  ghost predicate OnClock(words: seq<Word>, lo: nat, hi: nat) {
    var k := |words| - 1;
    if k < 0 then lo <= hi
    else words[k].startMs <= words[k].endMs <= hi && OnClock(words[..k], lo, words[k].startMs)
  }

  /** What the transcriber owes: the words of a part lie in order within its length. */
  ghost predicate Punctual<S(!new), E>(hear: (nat, seq<S>) -> Result<Transcript, E>) {
    forall k: nat, part: seq<S> ::
      hear(k, part).Ok? ==> OnClock(hear(k, part).value.words, 0, Ms(|part|))
  }

  lemma {:induction false} OnClockLater(words: seq<Word>, lo: nat, hi: nat, more: nat)
    requires OnClock(words, lo, hi) && hi <= more
    ensures OnClock(words, lo, more)
  {
  }

  lemma {:induction false} OnClockAppend(a: seq<Word>, b: seq<Word>, lo: nat, mid: nat, hi: nat)
    requires OnClock(a, lo, mid) && OnClock(b, mid, hi)
    ensures OnClock(a + b, lo, hi)
    decreases b
  {
    var k := |b| - 1;
    if k < 0 {
      assert a + b == a;
      OnClockLater(a, lo, mid, hi);
    } else {
      OnClockAppend(a, b[..k], lo, mid, b[k].startMs);
      assert (a + b)[..|a| + k] == a + b[..k];
    }
  }

  lemma LateIs(w: Word, offset: nat)
    requires w.startMs + offset < U32 && w.endMs + offset < U32
    ensures Late(w, offset) == Word(w.text, w.startMs + offset, w.endMs + offset)
  {
  }

  lemma {:induction false} ShiftOnClock(words: seq<Word>, hi: nat, offset: nat)
    requires OnClock(words, 0, hi) && hi + offset < U32
    ensures OnClock(Shift(words, offset), offset, hi + offset)
    decreases words
  {
    var k := |words| - 1;
    if k >= 0 {
      ShiftOnClock(words[..k], words[k].startMs, offset);
      LateIs(words[k], offset);
    }
  }

  /** Rounding each offset down never pushes a part past its end. */
  lemma MsAdds(a: nat, b: nat)
    ensures Ms(a) + Ms(b) <= Ms(a + b)
  {
  }

  lemma AppendOnClock(t: seq<Word>, u: seq<Word>, from: nat, length: nat, to: nat)
    requires from + length <= to < U32 && OnClock(t, 0, from) && OnClock(u, 0, length)
    ensures OnClock(t + Shift(u, from), 0, to)
  {
    ShiftOnClock(u, length, from);
    OnClockLater(Shift(u, from), from, length + from, to);
    OnClockAppend(t, Shift(u, from), 0, from, to);
  }

  lemma SameOffset(ms: nat)
    ensures ms < U32 ==> ms % U32 == ms
  {
  }

  lemma PartOnClock(t: seq<Word>, u: seq<Word>, s: nat, length: nat, e: nat)
    requires s + length == e && Ms(e) < U32 && OnClock(t, 0, Ms(s)) && OnClock(u, 0, Ms(length))
    ensures OnClock(t + Shift(u, Ms(s) % U32), 0, Ms(e))
  {
    MsAdds(s, length);
    SameOffset(Ms(s));
    AppendOnClock(t, u, Ms(s), Ms(length), Ms(e));
  }

  lemma {:induction false} PartsOnClock<S(!new), E>(hear: (nat, seq<S>) -> Result<Transcript, E>, trim: string -> string,
                                                    samples: seq<S>, parts: seq<Span>, to: nat)
    requires Punctual(hear) && Chain(parts, 0, to) && to <= |samples| && Ms(to) < U32
    requires forall p :: p in parts ==> p.s < p.e <= |samples|
    ensures var r := Collect(hear, trim, samples, parts);
            r.Ok? ==> OnClock(r.value.words, 0, Ms(to))
    decreases parts
  {
    var k := |parts| - 1;
    if k >= 0 && Collect(hear, trim, samples, parts).Ok? {
      var s, e := parts[k].s, parts[k].e;
      var part := samples[s..e];
      var u := hear(k, part);
      MsAdds(s, |part|);
      PartsOnClock(hear, trim, samples, parts[..k], s);
      assert OnClock(u.value.words, 0, Ms(|part|));
      PartOnClock(Collect(hear, trim, samples, parts[..k]).value.words, u.value.words, s, |part|, e);
    }
  }

  /** The words of the whole transcript are in order, within the segment: for every segment whose length in
      milliseconds is a 32-bit number, as word times are. */
  lemma TranscriptOnClock<S(!new), E>(hear: (nat, seq<S>) -> Result<Transcript, E>, trim: string -> string,
                                      samples: seq<S>, spans: seq<Span>)
    requires Punctual(hear) && Ordered(spans, |samples|) && Ms(|samples|) < U32
    ensures var r := Transcription(hear, trim, samples, spans);
            r.Ok? ==> OnClock(r.value.words, 0, Ms(|samples|))
  {
    if Middles(spans) != [] {
      PartsCoverSegment(spans, |samples|);
      PartsOnClock(hear, trim, samples, PartsOf(spans, |samples|), |samples|);
    }
  }
}
