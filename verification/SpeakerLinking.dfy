/** Linking the voices of successive segments to a bounded set of stream labels. */
module SpeakerLinking {
  import opened Basics
  import opened Matching
  import opened Sorting

  /** What the linker asks of embeddings: `normalized` gives a unit vector unless the norm is zero or not finite,
      `blend(a, w, b)` is the unnormalised mean `a * w + b`. */
  datatype Space<!V> = Space(normalized: V -> Option<V>, dim: V -> nat, dot: (V, V) -> real, blend: (V, nat, V) -> V)

  datatype Config = Config(cap: nat, ttl: nat, threshold: real)

  datatype Centroid<+V> = Centroid(tag: nat, v: V, n: nat, seen: int)

  datatype Pair = Pair(sim: real, vi: nat, ci: nat)

  const CENTROID_MAX_WEIGHT := 20

  // ------------------------------------------------------------------ expiry

  /** Heard within `ttl`, a clock that went backwards counting as no time at all. */
  predicate Fresh<V>(c: Centroid<V>, ttl: nat, now: int) {
    Max(0, now - c.seen) <= ttl
  }

  function Alive<V>(cs: seq<Centroid<V>>, ttl: nat, now: int): seq<Centroid<V>> {
    if cs == [] then [] else
    var n := |cs| - 1;
    Alive(cs[..n], ttl, now) + if Fresh(cs[n], ttl, now) then [cs[n]] else []
  }

  // ------------------------------------------------------------------ candidates, best first

  function Usable<V>(sp: Space<V>, voices: seq<(nat, V)>): seq<(nat, V)> {
    if voices == [] then [] else
    var n := |voices| - 1;
    Usable(sp, voices[..n]) +
    match sp.normalized(voices[n].1) case Some(v) => [(voices[n].0, v)] case None => []
  }

  predicate Eligible<V>(sp: Space<V>, th: real, voices: seq<(nat, V)>, cs: seq<Centroid<V>>, vi: nat, ci: nat) {
    && vi < |voices| && ci < |cs|
    && sp.dim(cs[ci].v) == sp.dim(voices[vi].1)
    && sp.dot(voices[vi].1, cs[ci].v) >= th
  }

  function PairAt<V>(sp: Space<V>, voices: seq<(nat, V)>, cs: seq<Centroid<V>>, vi: nat, ci: nat): Pair
    requires vi < |voices| && ci < |cs|
  {
    Pair(sp.dot(voices[vi].1, cs[ci].v), vi, ci)
  }

  function RowPairs<V>(sp: Space<V>, th: real, voices: seq<(nat, V)>, cs: seq<Centroid<V>>, vi: nat, upTo: nat): seq<Pair>
    requires vi < |voices| && upTo <= |cs|
  {
    if upTo == 0 then [] else
    RowPairs(sp, th, voices, cs, vi, upTo - 1) +
    if Eligible(sp, th, voices, cs, vi, upTo - 1) then [PairAt(sp, voices, cs, vi, upTo - 1)] else []
  }

  function AllPairs<V>(sp: Space<V>, th: real, voices: seq<(nat, V)>, cs: seq<Centroid<V>>, upTo: nat): seq<Pair>
    requires upTo <= |voices|
  {
    if upTo == 0 then [] else
    AllPairs(sp, th, voices, cs, upTo - 1) + RowPairs(sp, th, voices, cs, upTo - 1, |cs|)
  }

  predicate AsSimilar(a: Pair, b: Pair) {
    a.sim >= b.sim
  }

  /** `sort_by` on decreasing similarity. */
  function BestFirst(ps: seq<Pair>): seq<Pair> {
    Sort(AsSimilar, ps)
  }

  lemma BestFirstHas(ps: seq<Pair>, p: Pair)
    ensures p in BestFirst(ps) <==> p in ps
  {
    SortHas(AsSimilar, ps, p);
  }

  /** A pair as an edge from a voice to a centroid. */
  function EdgeOf(p: Pair): Edge<nat, nat> {
    Edge(p.vi, p.ci)
  }

  function Edges(ps: seq<Pair>): seq<Edge<nat, nat>> {
    seq(|ps|, i requires 0 <= i < |ps| => EdgeOf(ps[i]))
  }

  ghost function Similarity<V>(sp: Space<V>, voices: seq<(nat, V)>, cs: seq<Centroid<V>>): Edge<nat, nat> -> real {
    (e: Edge<nat, nat>) => if e.left < |voices| && e.right < |cs| then sp.dot(voices[e.left].1, cs[e.right].v) else 0.0
  }

  /** The edges chosen between the usable voices and the centroids still alive. */
  ghost function Chosen<V>(sp: Space<V>, th: real, voices: seq<(nat, V)>, cs: seq<Centroid<V>>): seq<Edge<nat, nat>> {
    Greedy(Edges(BestFirst(AllPairs(sp, th, voices, cs, |voices|))))
  }

  ghost predicate IsCandidate<V>(sp: Space<V>, th: real, voices: seq<(nat, V)>, cs: seq<Centroid<V>>, p: Pair) {
    Eligible(sp, th, voices, cs, p.vi, p.ci) && p == PairAt(sp, voices, cs, p.vi, p.ci)
  }

  lemma {:induction false} RowPairsHas<V>(sp: Space<V>, th: real, voices: seq<(nat, V)>, cs: seq<Centroid<V>>, vi: nat, upTo: nat, p: Pair)
    requires vi < |voices| && upTo <= |cs|
    ensures p in RowPairs(sp, th, voices, cs, vi, upTo) <==>
              p.vi == vi && p.ci < upTo && IsCandidate(sp, th, voices, cs, p)
  {
    if upTo > 0 { RowPairsHas(sp, th, voices, cs, vi, upTo - 1, p); }
  }

  lemma {:induction false} AllPairsHas<V>(sp: Space<V>, th: real, voices: seq<(nat, V)>, cs: seq<Centroid<V>>, upTo: nat, p: Pair)
    requires upTo <= |voices|
    ensures p in AllPairs(sp, th, voices, cs, upTo) <==>
              p.vi < upTo && IsCandidate(sp, th, voices, cs, p)
  {
    if upTo > 0 {
      var n := upTo - 1;
      AllPairsHas(sp, th, voices, cs, n, p);
      RowHas(sp, th, voices, cs, n, p);
      InEither(AllPairs(sp, th, voices, cs, n), RowPairs(sp, th, voices, cs, n, |cs|), p);
    }
  }

  lemma RowHas<V>(sp: Space<V>, th: real, voices: seq<(nat, V)>, cs: seq<Centroid<V>>, vi: nat, p: Pair)
    requires vi < |voices|
    ensures p in RowPairs(sp, th, voices, cs, vi, |cs|) <==> p.vi == vi && IsCandidate(sp, th, voices, cs, p)
  {
    RowPairsHas(sp, th, voices, cs, vi, |cs|, p);
  }

  lemma InEither<T>(a: seq<T>, b: seq<T>, x: T)
    ensures x in a + b <==> x in a || x in b
  {
  }

  lemma EdgesHas(ps: seq<Pair>, e: Edge<nat, nat>) returns (i: nat)
    ensures e in Edges(ps) ==> i < |ps| && EdgeOf(ps[i]) == e && ps[i] in ps
  {
    i := 0;
    if e in Edges(ps) {
      i :| 0 <= i < |Edges(ps)| && Edges(ps)[i] == e;
    }
  }

  lemma CandidateIff<V>(sp: Space<V>, th: real, voices: seq<(nat, V)>, cs: seq<Centroid<V>>, ps: seq<Pair>, e: Edge<nat, nat>)
    requires ps == AllPairs(sp, th, voices, cs, |voices|)
    ensures e in Edges(BestFirst(ps)) <==> Eligible(sp, th, voices, cs, e.left, e.right)
  {
    var sorted := BestFirst(ps);
    if e in Edges(sorted) {
      var i := EdgesHas(sorted, e);
      BestFirstHas(ps, sorted[i]);
      AllPairsHas(sp, th, voices, cs, |voices|, sorted[i]);
    }
    if Eligible(sp, th, voices, cs, e.left, e.right) {
      var p := PairAt(sp, voices, cs, e.left, e.right);
      BestFirstHas(ps, p);
      AllPairsHas(sp, th, voices, cs, |voices|, p);
      var i :| 0 <= i < |sorted| && sorted[i] == p;
      assert Edges(sorted)[i] == e;
    }
  }

  lemma CandidatesDescend<V>(sp: Space<V>, th: real, voices: seq<(nat, V)>, cs: seq<Centroid<V>>, ps: seq<Pair>)
    requires ps == AllPairs(sp, th, voices, cs, |voices|)
    ensures Descending(Similarity(sp, voices, cs), Edges(BestFirst(ps)))
  {
    var sorted := BestFirst(ps);
    SortSorts(AsSimilar, ps);
    forall i | 0 <= i < |sorted| ensures Similarity(sp, voices, cs)(EdgeOf(sorted[i])) == sorted[i].sim {
      BestFirstHas(ps, sorted[i]);
      AllPairsHas(sp, th, voices, cs, |voices|, sorted[i]);
    }
  }

  /** The candidate edges are the eligible ones, best first. */
  lemma CandidatesAre<V>(sp: Space<V>, th: real, voices: seq<(nat, V)>, cs: seq<Centroid<V>>)
    ensures var es := Edges(BestFirst(AllPairs(sp, th, voices, cs, |voices|)));
            && Descending(Similarity(sp, voices, cs), es)
            && forall e :: e in es <==> Eligible(sp, th, voices, cs, e.left, e.right)
  {
    var ps := AllPairs(sp, th, voices, cs, |voices|);
    CandidatesDescend(sp, th, voices, cs, ps);
    forall e ensures e in Edges(BestFirst(ps)) <==> Eligible(sp, th, voices, cs, e.left, e.right) {
      CandidateIff(sp, th, voices, cs, ps, e);
    }
  }

  /** Every eligible pair is chosen, or its voice or its centroid was taken by a chosen pair at least as similar. */
  lemma MatchingHasNoBlockingPair<V>(sp: Space<V>, th: real, voices: seq<(nat, V)>, cs: seq<Centroid<V>>, vi: nat, ci: nat)
    requires Eligible(sp, th, voices, cs, vi, ci)
    ensures exists c :: c in Chosen(sp, th, voices, cs) && (c.left == vi || c.right == ci)
                     && Similarity(sp, voices, cs)(c) >= sp.dot(voices[vi].1, cs[ci].v)
  {
    CandidatesAre(sp, th, voices, cs);
    var es := Edges(BestFirst(AllPairs(sp, th, voices, cs, |voices|)));
    assert Edge(vi, ci) in es;
    var c := NoBlockingPair(Similarity(sp, voices, cs), es, Edge(vi, ci));
  }

  /** With a threshold that is not negative, no one-to-one choice of eligible pairs is more than twice as similar. */
  lemma MatchingIsHalfOptimal<V>(sp: Space<V>, th: real, voices: seq<(nat, V)>, cs: seq<Centroid<V>>,
                                 other: seq<Edge<nat, nat>>)
    requires th >= 0.0 && OneToOne(other)
    requires forall e :: e in other ==> Eligible(sp, th, voices, cs, e.left, e.right)
    ensures Total(Similarity(sp, voices, cs), other)
            <= 2.0 * Total(Similarity(sp, voices, cs), Chosen(sp, th, voices, cs))
  {
    CandidatesAre(sp, th, voices, cs);
    GreedyIsHalfOptimal(Similarity(sp, voices, cs), Edges(BestFirst(AllPairs(sp, th, voices, cs, |voices|))), other);
  }

  // ------------------------------------------------------------------ giving labels

  predicate Unused<V>(cs: seq<Centroid<V>>, tag: nat) {
    forall i :: 0 <= i < |cs| ==> cs[i].tag != tag
  }

  /** The first label of `from..=limit` that no centroid has, else 1. */
  function FirstUnused<V>(cs: seq<Centroid<V>>, from: nat, limit: nat): nat
    decreases limit + 1 - from
  {
    if from > limit then 1 else if Unused(cs, from) then from else FirstUnused(cs, from + 1, limit)
  }

  /** `cap as u32`. */
  function LabelLimit(cap: nat): nat {
    cap % U32
  }

  function FreshLabel<V>(cs: seq<Centroid<V>>, cap: nat): nat {
    FirstUnused(cs, 1, LabelLimit(cap))
  }

  /** Centroid `c` was heard longer ago than `d`, or as long ago and is older. */
  predicate Staler<V>(cs: seq<Centroid<V>>, c: nat, d: nat)
    requires c < |cs| && d < |cs|
  {
    cs[c].seen < cs[d].seen || (cs[c].seen == cs[d].seen && c < d)
  }

  /** The first of the untaken centroids heard longest ago, among the first `upTo`. */
  function Stalest<V>(cs: seq<Centroid<V>>, taken: seq<bool>, upTo: nat): (r: Option<nat>)
    requires upTo <= |cs| == |taken|
    ensures r == None <==> forall i :: 0 <= i < upTo ==> taken[i]
    ensures r.Some? ==> r.value < upTo && !taken[r.value]
    ensures r.Some? ==> forall i :: 0 <= i < upTo && !taken[i] && i != r.value ==> Staler(cs, r.value, i)
  {
    if upTo == 0 then None else
    var r := Stalest(cs, taken, upTo - 1);
    if taken[upTo - 1] || (r.Some? && cs[r.value].seen <= cs[upTo - 1].seen) then r else Some(upTo - 1)
  }

  /** State of a link: `own` holds, for every voice, the centroid it was matched with or was given. */
  datatype Linking<+V> = Linking(cs: seq<Centroid<V>>, taken: seq<bool>, own: seq<Option<nat>>, out: map<nat, nat>)

  predicate InRange<V>(st: Linking<V>) {
    |st.taken| == |st.cs| && forall i :: 0 <= i < |st.own| && st.own[i].Some? ==> st.own[i].value < |st.cs|
  }

  /** A voice heard again: its centroid follows it. */
  function Followed<V>(sp: Space<V>, c: Centroid<V>, v: V, now: int): Centroid<V> {
    Centroid(c.tag, sp.normalized(sp.blend(c.v, c.n, v)).GetOr(c.v), Min(c.n + 1, CENTROID_MAX_WEIGHT), now)
  }

  function LinkOne<V>(cap: nat, sp: Space<V>, st: Linking<V>, vi: nat, voice: (nat, V), now: int): (r: Linking<V>)
    requires vi < |st.own| && InRange(st)
    ensures |r.own| == |st.own| && InRange(r)
  {
    var (spk, v) := voice;
    match st.own[vi]
    case Some(ci) =>
      var c := Followed(sp, st.cs[ci], v, now);
      st.(cs := st.cs[ci := c], out := st.out[spk := c.tag])
    case None =>
      if |st.cs| < cap then
        var c := Centroid(FreshLabel(st.cs, cap), v, 1, now);
        Linking(st.cs + [c], st.taken + [true], st.own[vi := Some(|st.cs|)], st.out[spk := c.tag])
      else
        match Stalest(st.cs, st.taken, |st.cs|)
        case None => st
        case Some(ci) =>
          var c := Centroid(st.cs[ci].tag, v, 1, now);
          Linking(st.cs[ci := c], st.taken[ci := true], st.own[vi := Some(ci)], st.out[spk := c.tag])
  }

  function LinkAll<V>(cap: nat, sp: Space<V>, st: Linking<V>, voices: seq<(nat, V)>, upTo: nat, now: int): (r: Linking<V>)
    requires upTo <= |voices| == |st.own| && InRange(st)
    ensures |r.own| == |st.own| && InRange(r)
  {
    if upTo == 0 then st
    else LinkOne(cap, sp, LinkAll(cap, sp, st, voices, upTo - 1, now), upTo - 1, voices[upTo - 1], now)
  }

  /** The greedy walk over the candidate edges, as it is run. */
  function Assign(es: seq<Edge<nat, nat>>, nv: nat, nc: nat): (r: (seq<Option<nat>>, seq<bool>))
    requires forall e :: e in es ==> e.left < nv && e.right < nc
    ensures |r.0| == nv && |r.1| == nc
    ensures forall i :: 0 <= i < nv && r.0[i].Some? ==> r.0[i].value < nc
  {
    if es == [] then (seq(nv, _ => None), seq(nc, _ => false)) else
    var (own, taken) := Assign(es[..|es| - 1], nv, nc);
    var e := es[|es| - 1];
    if own[e.left] == None && !taken[e.right] then (own[e.left := Some(e.right)], taken[e.right := true])
    else (own, taken)
  }

  lemma EdgesInRange<V>(sp: Space<V>, th: real, voices: seq<(nat, V)>, cs: seq<Centroid<V>>)
    ensures forall e :: e in Edges(BestFirst(AllPairs(sp, th, voices, cs, |voices|))) ==>
                          e.left < |voices| && e.right < |cs|
  {
    CandidatesAre(sp, th, voices, cs);
  }

  function Matched<V>(sp: Space<V>, th: real, voices: seq<(nat, V)>, cs: seq<Centroid<V>>): (st: Linking<V>)
    ensures |st.own| == |voices| && InRange(st) && st.cs == cs
  {
    EdgesInRange(sp, th, voices, cs);
    var (own, taken) := Assign(Edges(BestFirst(AllPairs(sp, th, voices, cs, |voices|))), |voices|, |cs|);
    Linking(cs, taken, own, map[])
  }

  /** One call of `link`: expiry, matching, then every usable voice in turn. */
  function LinkSpec<V>(cfg: Config, sp: Space<V>, cs: seq<Centroid<V>>, voices: seq<(nat, V)>, now: int): Linking<V> {
    var alive, usable := Alive(cs, cfg.ttl, now), Usable(sp, voices);
    LinkAll(cfg.cap, sp, Matched(sp, cfg.threshold, usable, alive), usable, |usable|, now)
  }
}
