/** Transcribing a segment as it runs. */
module SegmentRun {
  import opened Basics
  import opened SegmentCutting
  import opened SegmentText

  method FindCuts(spans: seq<Span>) returns (cuts: seq<nat>)
    ensures cuts == [0] + Middles(spans)
  {
    cuts := [0];
    var i := 1;
    while i < |spans|
      invariant 1 <= i
      invariant cuts == [0] + Middles(spans[..Min(i, |spans|)])
    {
      assert spans[..i + 1][..i] == spans[..i];
      if Far(spans[i - 1], spans[i]) {
        cuts := cuts + [Middle(spans[i - 1], spans[i])];
      }
      i := i + 1;
    }
    assert spans[..Min(i, |spans|)] == spans || |spans| < 1;
  }

  lemma CollectNext<S, E>(hear: (nat, seq<S>) -> Result<Transcript, E>, trim: string -> string, samples: seq<S>,
                          parts: seq<Span>, p: Span)
    requires (forall q :: q in parts ==> q.s < q.e <= |samples|) && p.s < p.e <= |samples|
    ensures var t, u := Collect(hear, trim, samples, parts), hear(|parts|, samples[p.s..p.e]);
            && (t.Ok? && u.Ok? ==>
                  Collect(hear, trim, samples, parts + [p]) == Ok(Append(t.value, u.value, trim, p.s)))
            && (t.Ok? && u.Err? ==> Collect(hear, trim, samples, parts + [p]) == u)
  {
    assert (parts + [p])[..|parts|] == parts;
  }

  method TranscribeParts<S, E>(hear: (nat, seq<S>) -> Result<Transcript, E>, trim: string -> string,
                               samples: seq<S>, cuts: seq<nat>) returns (r: Result<Transcript, E>)
    requires cuts != []
    ensures r == Collect(hear, trim, samples, Parts(cuts, |samples|))
  {
    var out, calls := Transcript("", []), 0;
    ghost var parts: seq<Span> := [];
    var i := 1;
    while i < |cuts|
      invariant 1 <= i <= |cuts|
      invariant parts == Parts(cuts[..i], |samples|) && calls == |parts|
      invariant Collect(hear, trim, samples, parts) == Ok(out)
    {
      assert cuts[..i + 1][..i] == cuts[..i];
      var s, e := cuts[i - 1], Min(cuts[i], |samples|);
      if s < e {
        ghost var before := parts;
        parts := parts + [Span(s, e)];
        CollectNext(hear, trim, samples, before, Span(s, e));
        var answer := hear(calls, samples[s..e]);
        if answer.Err? {
          FirstErrorStays(hear, trim, samples, cuts, i + 1);
          return Err(answer.error);
        }
        out := Append(out, answer.value, trim, s);
        calls := calls + 1;
      }
      i := i + 1;
    }
    assert cuts[..i] == cuts;
    return Ok(out);
  }

  lemma {:induction false} FirstErrorStays<S, E>(hear: (nat, seq<S>) -> Result<Transcript, E>, trim: string -> string,
                                                 samples: seq<S>, cuts: seq<nat>, i: nat)
    requires i <= |cuts| && Collect(hear, trim, samples, Parts(cuts[..i], |samples|)).Err?
    ensures Collect(hear, trim, samples, Parts(cuts, |samples|)) ==
            Collect(hear, trim, samples, Parts(cuts[..i], |samples|))
    decreases |cuts| - i
  {
    if i < |cuts| {
      PartsGrow(cuts, i, |samples|);
      FirstErrorStays(hear, trim, samples, cuts, i + 1);
    } else {
      assert cuts[..i] == cuts;
    }
  }

  lemma PartsGrow(cuts: seq<nat>, i: nat, n: nat)
    requires i < |cuts|
    ensures var parts, more := Parts(cuts[..i], n), Parts(cuts[..i + 1], n);
            more == parts || (|more| == |parts| + 1 && more[..|parts|] == parts)
  {
    assert cuts[..i + 1][..i] == cuts[..i];
  }

  /** The whole transcript: that of a plain call without a long silence, else what the calls for the parts amount to. */
  method TranscribeSpans<S, E>(hear: (nat, seq<S>) -> Result<Transcript, E>, trim: string -> string,
                               samples: seq<S>, spans: seq<Span>) returns (r: Result<Transcript, E>)
    ensures r == Transcription(hear, trim, samples, spans)
    ensures if LongSilences(spans) then AmountsTo(hear, trim, samples, PartsOf(spans, |samples|), r)
            else r == hear(0, samples)
  {
    TranscriptAmountsTo(hear, trim, samples, spans);
    var cuts := FindCuts(spans);
    if |cuts| == 1 {
      return hear(0, samples);
    }
    r := TranscribeParts(hear, trim, samples, cuts + [|samples|]);
  }
}
