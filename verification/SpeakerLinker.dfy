/** The linker as it runs, and where the width of a label matters. */
module SpeakerLinkers {
  import opened Basics
  import opened Matching
  import opened SpeakerLinking
  import opened SpeakerLinkingFacts

  class SpeakerLinker<V> {
    const space: Space<V>
    const cap: nat
    const ttl: nat
    const threshold: real
    var centroids: seq<Centroid<V>>

    ghost function Cfg(): Config {
      Config(cap, ttl, threshold)
    }

    constructor (space: Space<V>, cap: nat, ttl: nat, threshold: real)
      ensures this.space == space && Cfg() == Config(Max(cap, 1), ttl, threshold) && centroids == []
    {
      this.space := space;
      this.cap := Max(cap, 1);
      this.ttl := ttl;
      this.threshold := threshold;
      centroids := [];
    }

    method Expire(now: int)
      modifies this`centroids
      ensures centroids == Alive(old(centroids), ttl, now)
    {
      var all, kept, i := centroids, [], 0;
      while i < |all|
        invariant 0 <= i <= |all|
        invariant kept == Alive(all[..i], ttl, now)
      {
        assert all[..i + 1][..i] == all[..i];
        if Fresh(all[i], ttl, now) { kept := kept + [all[i]]; }
        i := i + 1;
      }
      assert all[..|all|] == all;
      centroids := kept;
    }

    method Normalize(voices: seq<(nat, V)>) returns (usable: seq<(nat, V)>)
      ensures usable == Usable(space, voices)
    {
      usable := [];
      var i := 0;
      while i < |voices|
        invariant 0 <= i <= |voices|
        invariant usable == Usable(space, voices[..i])
      {
        assert voices[..i + 1][..i] == voices[..i];
        var v := space.normalized(voices[i].1);
        if v.Some? { usable := usable + [(voices[i].0, v.value)]; }
        i := i + 1;
      }
      assert voices[..|voices|] == voices;
    }

    method Candidates(voices: seq<(nat, V)>) returns (pairs: seq<Pair>)
      ensures pairs == AllPairs(space, threshold, voices, centroids, |voices|)
    {
      pairs := [];
      var vi := 0;
      while vi < |voices|
        invariant 0 <= vi <= |voices|
        invariant pairs == AllPairs(space, threshold, voices, centroids, vi)
      {
        ghost var before := pairs;
        var ci := 0;
        while ci < |centroids|
          invariant 0 <= ci <= |centroids|
          invariant pairs == before + RowPairs(space, threshold, voices, centroids, vi, ci)
        {
          var v, c := voices[vi].1, centroids[ci];
          if space.dim(c.v) == space.dim(v) {
            var sim := space.dot(v, c.v);
            if sim >= threshold { pairs := pairs + [Pair(sim, vi, ci)]; }
          }
          ci := ci + 1;
        }
        vi := vi + 1;
      }
    }

    /** The greedy best-first walk over the sorted pairs. */
    method Match(voices: seq<(nat, V)>) returns (voiceTo: seq<Option<nat>>, taken: seq<bool>)
      ensures var st := Matched(space, threshold, voices, centroids); voiceTo == st.own && taken == st.taken
    {
      var pairs := Candidates(voices);
      pairs := BestFirst(pairs);
      ghost var es := Edges(pairs);
      EdgesInRange(space, threshold, voices, centroids);
      voiceTo := seq(|voices|, _ => None);
      taken := seq(|centroids|, _ => false);
      var i := 0;
      while i < |pairs|
        invariant 0 <= i <= |pairs|
        invariant |voiceTo| == |voices| && |taken| == |centroids|
        invariant forall e :: e in es[..i] ==> e in es
        invariant (voiceTo, taken) == Assign(es[..i], |voices|, |centroids|)
      {
        assert es[..i + 1][..i] == es[..i] && es[i] in es;
        var p := pairs[i];
        assert es[i] == Edge(p.vi, p.ci);
        if voiceTo[p.vi] == None && !taken[p.ci] {
          voiceTo := voiceTo[p.vi := Some(p.ci)];
          taken := taken[p.ci := true];
        }
        i := i + 1;
      }
      assert es[..|pairs|] == es;
    }

    method FindLabel() returns (found: nat)
      ensures found == FreshLabel(centroids, cap)
    {
      var l := 1;
      while l <= LabelLimit(cap)
        invariant 1 <= l
        invariant FreshLabel(centroids, cap) == FirstUnused(centroids, l, LabelLimit(cap))
        decreases LabelLimit(cap) + 1 - l
      {
        if Unused(centroids, l) { return l; }
        l := l + 1;
      }
      found := 1;
    }

    /** One usable voice: it follows the centroid it is matched with, opens a new one, or evicts. */
    method LinkVoice(ghost st: Linking<V>, vi: nat, voice: (nat, V), to: Option<nat>, now: int,
                     taken: seq<bool>, out: map<nat, nat>)
      returns (taken': seq<bool>, out': map<nat, nat>)
      requires vi < |st.own| && st.own[vi] == to && InRange(st)
      requires centroids == st.cs && taken == st.taken && out == st.out
      modifies this`centroids
      ensures var r := LinkOne(cap, space, st, vi, voice, now);
              centroids == r.cs && taken' == r.taken && out' == r.out
    {
      var (spk, v) := voice;
      taken', out' := taken, out;
      if to.Some? {
        var ci := to.value;
        var c := centroids[ci];
        var mean := space.normalized(space.blend(c.v, c.n, v));
        centroids := centroids[ci := Centroid(c.tag, mean.GetOr(c.v), Min(c.n + 1, CENTROID_MAX_WEIGHT), now)];
        out' := out[spk := c.tag];
      } else if |centroids| < cap {
        var found := FindLabel();
        centroids := centroids + [Centroid(found, v, 1, now)];
        taken' := taken + [true];
        out' := out[spk := found];
      } else {
        var stalest := Stalest(centroids, taken, |centroids|);
        if stalest.Some? {
          var ci := stalest.value;
          centroids := centroids[ci := Centroid(centroids[ci].tag, v, 1, now)];
          taken' := taken[ci := true];
          out' := out[spk := centroids[ci].tag];
        }
      }
    }

    /** Every usable voice in turn. */
    method LinkVoices(ghost st0: Linking<V>, usable: seq<(nat, V)>, voiceTo: seq<Option<nat>>, untaken: seq<bool>, now: int)
      returns (out: map<nat, nat>)
      requires |usable| == |voiceTo| && InRange(st0) && st0 == Linking(centroids, untaken, voiceTo, map[])
      modifies this`centroids
      ensures var st := LinkAll(cap, space, st0, usable, |usable|, now); centroids == st.cs && out == st.out
    {
      var taken := untaken;
      out := map[];
      ghost var st := st0;
      var vi := 0;
      while vi < |usable|
        invariant 0 <= vi <= |usable|
        invariant st == LinkAll(cap, space, st0, usable, vi, now)
        invariant forall i :: vi <= i < |usable| ==> st.own[i] == voiceTo[i]
        invariant centroids == st.cs && taken == st.taken && out == st.out
      {
        taken, out := LinkVoice(st, vi, usable[vi], voiceTo[vi], now, taken, out);
        st := LinkOne(cap, space, st, vi, usable[vi], now);
        vi := vi + 1;
      }
    }

    method Link(voices: seq<(nat, V)>, now: int) returns (out: map<nat, nat>)
      modifies this`centroids
      ensures var st := LinkSpec(Cfg(), space, old(centroids), voices, now); centroids == st.cs && out == st.out
    {
      Expire(now);
      var usable := Normalize(voices);
      var voiceTo, taken := Match(usable);
      ghost var st0 := Matched(space, threshold, usable, centroids);
      out := LinkVoices(st0, usable, voiceTo, taken, now);
    }
  }

  // ------------------------------------------------------------------ labels are 32 bits wide

  lemma {:induction false} FirstUnusedAtMost<V>(cs: seq<Centroid<V>>, from: nat, limit: nat)
    requires 1 <= from
    ensures 1 <= FirstUnused(cs, from, limit) <= Max(limit, 1)
    decreases limit + 1 - from
  {
    if from <= limit && !Unused(cs, from) { FirstUnusedAtMost(cs, from + 1, limit); }
  }

  /** From no centroid, `n` voices below the cap open `n` centroids, whose labels stay below the 32-bit limit. */
  lemma {:induction false} NewVoicesOpenCentroids<V>(
      cap: nat, sp: Space<V>, st0: Linking<V>, voices: seq<(nat, V)>, n: nat, now: int)
    requires n <= |voices| == |st0.own| && n <= cap && InRange(st0) && st0.cs == []
    requires forall i :: 0 <= i < |st0.own| ==> st0.own[i] == None
    ensures var st := LinkAll(cap, sp, st0, voices, n, now);
            && |st.cs| == n
            && (forall i :: n <= i < |st.own| ==> st.own[i] == None)
            && (forall i :: 0 <= i < n ==> 1 <= st.cs[i].tag <= Max(LabelLimit(cap), 1))
  {
    if n > 0 {
      NewVoicesOpenCentroids(cap, sp, st0, voices, n - 1, now);
      FirstUnusedAtMost(LinkAll(cap, sp, st0, voices, n - 1, now).cs, 1, LabelLimit(cap));
    }
  }

  lemma {:induction false} TagsMembers<V>(cs: seq<Centroid<V>>)
    ensures forall t :: t in Tags(cs) ==> exists i :: 0 <= i < |cs| && cs[i].tag == t
  {
    if cs != [] {
      var n := |cs| - 1;
      TagsMembers(cs[..n]);
      forall t | t in Tags(cs) ensures exists i :: 0 <= i < |cs| && cs[i].tag == t {
        if t in Tags(cs[..n]) {
          var i :| 0 <= i < n && cs[..n][i].tag == t;
          assert cs[i].tag == t;
        } else {
          assert cs[n].tag == t;
        }
      }
    }
  }

  lemma {:induction false} DistinctTagsCount<V>(cs: seq<Centroid<V>>)
    requires forall i, j :: 0 <= i < j < |cs| ==> cs[i].tag != cs[j].tag
    ensures |Tags(cs)| == |cs|
  {
    if cs != [] {
      TagsMembers(cs[..|cs| - 1]);
      DistinctTagsCount(cs[..|cs| - 1]);
    }
  }

  lemma TooManyForTheirLabels<V>(cs: seq<Centroid<V>>, limit: nat, cap: nat)
    requires forall i :: 0 <= i < |cs| ==> 1 <= cs[i].tag <= limit
    requires |cs| > limit
    ensures !Labelled(cs, cap)
  {
    if Labelled(cs, cap) {
      TagsMembers(cs);
      DistinctTagsCount(cs);
      SubsetSize(Tags(cs), Below(limit + 1) - {0});
    }
  }

  lemma {:induction false} UsableOf<V>(sp: Space<V>, v: V, n: nat)
    requires sp.normalized(v).Some?
    ensures |Usable(sp, seq(n, i => (i, v)))| == n
  {
    if n > 0 {
      UsableOf(sp, v, n - 1);
      assert seq(n, i => (i, v))[..n - 1] == seq(n - 1, i => (i, v));
    }
  }

  /** A cap of 2^32 or more: the label search wraps around, and enough new voices share a label. */
  lemma LabelsCollide<V>(cfg: Config, sp: Space<V>, v: V)
    requires cfg.cap >= U32 && sp.normalized(v).Some?
    ensures exists events: seq<Event<V>> :: !Labelled(Run(cfg, sp, events), cfg.cap)
  {
    var limit := Max(LabelLimit(cfg.cap), 1);
    var n := limit + 1;
    var voices := seq(n, i => (i, v));
    var usable := Usable(sp, voices);
    UsableOf(sp, v, n);
    var st0 := Matched(sp, cfg.threshold, usable, []);
    NewVoicesOpenCentroids(cfg.cap, sp, st0, usable, n, 0);
    var events := [Link(voices, 0)];
    assert Run(cfg, sp, events[..0]) == [];
    var cs := Run(cfg, sp, events);
    assert cs == LinkAll(cfg.cap, sp, st0, usable, n, 0).cs;
    TooManyForTheirLabels(cs, limit, cfg.cap);
  }

  /** Labels are distinct in every reachable state exactly when the cap fits in 32 bits. */
  lemma LabelsDistinctIffCapFits<V>(cfg: Config, sp: Space<V>, v: V)
    requires sp.normalized(v).Some?
    ensures (forall events: seq<Event<V>> :: Labelled(Run(cfg, sp, events), cfg.cap)) <==> cfg.cap < U32
  {
    if cfg.cap < U32 {
      forall events: seq<Event<V>> ensures Labelled(Run(cfg, sp, events), cfg.cap) {
        ReachableIsBounded(cfg, sp, events);
      }
    } else {
      LabelsCollide(cfg, sp, v);
    }
  }
}
