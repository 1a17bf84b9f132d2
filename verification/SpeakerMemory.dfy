/** What the linker remembers of a voice, and that a voice heard again answers with the same label. */
module SpeakerMemory {
  import opened Basics
  import opened Matching
  import opened Sorting
  import opened SpeakerLinking
  import opened SpeakerLinkingFacts

  // ------------------------------------------------------------------ who is forgotten, who is matched

  /** Exactly the centroids heard at most `ttl` ago are kept, in their order: centroid `c`, kept, stands after those
      kept before it. */
  lemma {:induction false} ExpiredAreForgotten<V>(cs: seq<Centroid<V>>, ttl: nat, now: int, c: nat)
    requires c < |cs|
    ensures |Alive(cs[..c + 1], ttl, now)| == |Alive(cs[..c], ttl, now)| + if now - cs[c].seen <= ttl then 1 else 0
    ensures now - cs[c].seen <= ttl ==>
              |Alive(cs[..c], ttl, now)| < |Alive(cs, ttl, now)| && Alive(cs, ttl, now)[|Alive(cs[..c], ttl, now)|] == cs[c]
    decreases |cs|
  {
    var n := |cs| - 1;
    assert cs[..c + 1][..c] == cs[..c];
    if c < n {
      ExpiredAreForgotten(cs[..n], ttl, now, c);
      assert cs[..n][..c] == cs[..c];
    } else {
      assert cs[..c + 1] == cs;
    }
  }

  /** The voices that have a norm, normalised, in their order. */
  lemma {:induction false} UsableAreNormalized<V>(sp: Space<V>, voices: seq<(nat, V)>, k: nat)
    requires k < |voices|
    ensures |Usable(sp, voices[..k + 1])| == |Usable(sp, voices[..k])| + if sp.normalized(voices[k].1).Some? then 1 else 0
    ensures sp.normalized(voices[k].1).Some? ==>
              && |Usable(sp, voices[..k])| < |Usable(sp, voices)|
              && Usable(sp, voices)[|Usable(sp, voices[..k])|] == (voices[k].0, sp.normalized(voices[k].1).value)
    decreases |voices|
  {
    var n := |voices| - 1;
    assert voices[..k + 1][..k] == voices[..k];
    if k < n {
      UsableAreNormalized(sp, voices[..n], k);
      assert voices[..n][..k] == voices[..k];
    } else {
      assert voices[..k + 1] == voices;
    }
  }

  /** The order of the candidates: most similar first, of equals the earlier voice first, then the earlier centroid. */
  ghost predicate Ahead(p: Pair, q: Pair) {
    p.sim > q.sim || (p.sim == q.sim && (p.vi < q.vi || (p.vi == q.vi && p.ci < q.ci)))
  }

  ghost predicate FoundEarlier(p: Pair, q: Pair) {
    p.vi < q.vi || (p.vi == q.vi && p.ci < q.ci)
  }

  ghost predicate FoundInOrder(ps: seq<Pair>) {
    forall i, j :: 0 <= i < j < |ps| ==> FoundEarlier(ps[i], ps[j])
  }

  lemma {:induction false} RowInOrder<V>(sp: Space<V>, th: real, voices: seq<(nat, V)>, cs: seq<Centroid<V>>, vi: nat, upTo: nat)
    requires vi < |voices| && upTo <= |cs|
    ensures FoundInOrder(RowPairs(sp, th, voices, cs, vi, upTo))
    ensures forall p :: p in RowPairs(sp, th, voices, cs, vi, upTo) ==> p.vi == vi && p.ci < upTo
  {
    if upTo > 0 { RowInOrder(sp, th, voices, cs, vi, upTo - 1); }
  }

  lemma {:induction false} AllInOrder<V>(sp: Space<V>, th: real, voices: seq<(nat, V)>, cs: seq<Centroid<V>>, upTo: nat)
    requires upTo <= |voices|
    ensures FoundInOrder(AllPairs(sp, th, voices, cs, upTo))
    ensures forall p :: p in AllPairs(sp, th, voices, cs, upTo) ==> p.vi < upTo
  {
    if upTo > 0 {
      AllInOrder(sp, th, voices, cs, upTo - 1);
      RowInOrder(sp, th, voices, cs, upTo - 1, |cs|);
    }
  }

  /** The candidates of a call: every pair of a voice and a centroid of the same dimension whose similarity reaches the
      threshold, in that order. */
  lemma CandidatesInOrder<V>(sp: Space<V>, th: real, voices: seq<(nat, V)>, cs: seq<Centroid<V>>)
    ensures var ps := BestFirst(AllPairs(sp, th, voices, cs, |voices|));
            && (forall p :: p in ps <==>
                  && p.vi < |voices| && p.ci < |cs| && sp.dim(cs[p.ci].v) == sp.dim(voices[p.vi].1)
                  && p.sim == sp.dot(voices[p.vi].1, cs[p.ci].v) && p.sim >= th)
            && forall i, j :: 0 <= i < j < |ps| ==> Ahead(ps[i], ps[j])
  {
    var all := AllPairs(sp, th, voices, cs, |voices|);
    var ps := BestFirst(all);
    forall p
      ensures p in ps <==>
                && p.vi < |voices| && p.ci < |cs| && sp.dim(cs[p.ci].v) == sp.dim(voices[p.vi].1)
                && p.sim == sp.dot(voices[p.vi].1, cs[p.ci].v) && p.sim >= th
    {
      BestFirstHas(all, p);
      AllPairsHas(sp, th, voices, cs, |voices|, p);
    }
    AllInOrder(sp, th, voices, cs, |voices|);
    SortIsStable(AsSimilar, FoundEarlier, all);
  }

  // ------------------------------------------------------------------ what a centroid holds after a call

  /** Centroid `c` after it has followed a voice: the normalised mean when it has a norm, one voice more up to 20. */
  ghost predicate Follows<V>(sp: Space<V>, c: Centroid<V>, v: V, now: int, after: Centroid<V>) {
    && after.tag == c.tag && after.seen == now
    && after.n == (if c.n < 20 then c.n + 1 else 20)
    && match sp.normalized(sp.blend(c.v, c.n, v)) case Some(mean) => after.v == mean case None => after.v == c.v
  }

  /** What the first `n` voices left behind: a matched centroid has followed its voice, one opened or evicted holds the
      voice alone; matched centroids of later voices are as they were. */
  ghost predicate Remembers<V>(sp: Space<V>, st0: Linking<V>, st: Linking<V>, voices: seq<(nat, V)>, n: nat, now: int)
    requires |voices| == |st0.own| == |st.own| && InRange(st0) && InRange(st) && |st0.cs| <= |st.cs|
  {
    forall i :: 0 <= i < |voices| && st.own[i].Some? ==> Remembered(sp, st0, st, voices[i].1, i, n, now)
  }

  ghost predicate Remembered<V>(sp: Space<V>, st0: Linking<V>, st: Linking<V>, v: V, i: nat, n: nat, now: int)
    requires i < |st0.own| == |st.own| && InRange(st0) && InRange(st) && |st0.cs| <= |st.cs| && st.own[i].Some?
  {
    var c := st.own[i].value;
    if st0.own[i].Some? then
      && st.own[i] == st0.own[i]
      && if i < n then Follows(sp, st0.cs[c], v, now, st.cs[c]) else st.cs[c] == st0.cs[c]
    else
      i < n && st.cs[c].v == v && st.cs[c].n == 1 && st.cs[c].seen == now
  }

  lemma RememberedStep<V>(cap: nat, sp: Space<V>, st0: Linking<V>, st: Linking<V>, voices: seq<(nat, V)>, vi: nat, now: int, i: nat)
    requires vi < |voices| == |st0.own| && InRange(st0) && Kept(cap, st0, st, vi) && i < |voices|
    requires Remembers(sp, st0, st, voices, vi, now)
    requires LinkOne(cap, sp, st, vi, voices[vi], now).own[i].Some?
    ensures var r := LinkOne(cap, sp, st, vi, voices[vi], now);
            |st0.cs| <= |r.cs| && Remembered(sp, st0, r, voices[i].1, i, vi + 1, now)
  {
    var r := LinkOne(cap, sp, st, vi, voices[vi], now);
    if i != vi {
      assert st.own[i].Some? && r.own[i] == st.own[i];
      assert Remembered(sp, st0, st, voices[i].1, i, vi, now);
      if st.own[vi].Some? {
        assert st.own[i] != st.own[vi];
      } else {
        assert HasOwner(st.own, st.own[i].value);
        assert st.taken[st.own[i].value];
      }
      assert r.cs[r.own[i].value] == st.cs[r.own[i].value];
    } else if st.own[vi].Some? {
      assert Remembered(sp, st0, st, voices[i].1, i, vi, now);
    }
  }

  // ------------------------------------------------------------------ new labels, and who is left out

  ghost predicate TagUsed<V>(cs: seq<Centroid<V>>, n: nat, tag: nat)
    requires n <= |cs|
  {
    exists d :: 0 <= d < n && cs[d].tag == tag
  }

  /** Centroid `c` has the least label of `1..=limit` that none before it has; 1 when they have all of them. */
  ghost predicate LeastFree<V>(cs: seq<Centroid<V>>, c: nat, limit: nat)
    requires c < |cs|
  {
    var tag := cs[c].tag;
    if forall l :: 1 <= l <= limit ==> TagUsed(cs, c, l) then tag == 1
    else 1 <= tag <= limit && !TagUsed(cs, c, tag) && forall l :: 1 <= l < tag ==> TagUsed(cs, c, l)
  }

  lemma UnusedIs<V>(cs: seq<Centroid<V>>, tag: nat)
    ensures Unused(cs, tag) <==> !TagUsed(cs, |cs|, tag)
  {
  }

  lemma {:induction false} FirstUnusedIs<V>(cs: seq<Centroid<V>>, from: nat, limit: nat)
    requires forall l :: 1 <= l < from ==> TagUsed(cs, |cs|, l)
    ensures var tag := FirstUnused(cs, from, limit);
            if forall l :: from <= l <= limit ==> TagUsed(cs, |cs|, l) then tag == 1
            else from <= tag <= limit && !TagUsed(cs, |cs|, tag) && forall l :: 1 <= l < tag ==> TagUsed(cs, |cs|, l)
    decreases limit + 1 - from
  {
    if from <= limit {
      UnusedIs(cs, from);
      if TagUsed(cs, |cs|, from) { FirstUnusedIs(cs, from + 1, limit); }
    }
  }

  lemma LeastFreeStays<V>(cs: seq<Centroid<V>>, cs': seq<Centroid<V>>, c: nat, limit: nat)
    requires c < |cs| <= |cs'| && forall d :: 0 <= d <= c ==> cs'[d].tag == cs[d].tag
    requires LeastFree(cs, c, limit)
    ensures LeastFree(cs', c, limit)
  {
    forall l ensures TagUsed(cs', c, l) <==> TagUsed(cs, c, l) {
      if TagUsed(cs, c, l) {
        var d :| 0 <= d < c && cs[d].tag == l;
        assert cs'[d].tag == l;
      }
    }
  }

  lemma FreshIsLeastFree<V>(cs: seq<Centroid<V>>, c: Centroid<V>, cap: nat)
    requires c.tag == FreshLabel(cs, cap)
    ensures LeastFree(cs + [c], |cs|, cap % 0x1_0000_0000)
  {
    FirstUnusedIs(cs, 1, cap % 0x1_0000_0000);
    forall l ensures TagUsed(cs + [c], |cs|, l) <==> TagUsed(cs, |cs|, l) {
      if TagUsed(cs, |cs|, l) {
        var d :| 0 <= d < |cs| && cs[d].tag == l;
        assert (cs + [c])[d].tag == l;
      }
    }
  }

  /** New centroids take the least free label; a centroid is evicted only when the cap is reached; a voice is left out
      only when all are taken, and then so is every later voice without a match. */
  ghost predicate Allotted<V>(cap: nat, st0: Linking<V>, st: Linking<V>, n: nat)
    requires |st.own| == |st0.own|
  {
    && (forall c: nat :: |st0.cs| <= c < |st.cs| ==> LeastFree(st.cs, c, cap % 0x1_0000_0000))
    && (forall i: nat :: i < n && Evicted(st0, st, i) ==> |st.cs| >= cap)
    && (forall i: nat, j: nat :: i < j < n && j < |st.own| && st.own[i] == None ==> st.own[j] == st0.own[j])
  }

  lemma AllottedStep<V>(cap: nat, sp: Space<V>, st0: Linking<V>, st: Linking<V>, vi: nat, voice: (nat, V), now: int)
    requires vi < |st0.own| && InRange(st0) && Kept(cap, st0, st, vi) && Allotted(cap, st0, st, vi)
    ensures Allotted(cap, st0, LinkOne(cap, sp, st, vi, voice, now), vi + 1)
  {
    var r := LinkOne(cap, sp, st, vi, voice, now);
    forall c: nat | |st0.cs| <= c < |r.cs| ensures LeastFree(r.cs, c, cap % 0x1_0000_0000) {
      if c < |st.cs| {
        LeastFreeStays(st.cs, r.cs, c, cap % 0x1_0000_0000);
      } else {
        FreshIsLeastFree(st.cs, r.cs[c], cap);
      }
    }
    forall i: nat | i < vi + 1 && Evicted(st0, r, i) ensures |r.cs| >= cap {
      if i < vi { assert Evicted(st0, st, i); }
    }
    forall i: nat, j: nat | i < j < vi + 1 && r.own[i] == None ensures r.own[j] == st0.own[j] {
      assert st.own[i] == None && AllTaken(st);
    }
  }

  /** All of it together. */
  ghost predicate Told<V>(cap: nat, sp: Space<V>, st0: Linking<V>, st: Linking<V>, voices: seq<(nat, V)>, n: nat, now: int)
    requires n <= |voices| == |st0.own| && InRange(st0)
  {
    Kept(cap, st0, st, n) && Remembers(sp, st0, st, voices, n, now) && Allotted(cap, st0, st, n)
  }

  lemma ToldStep<V>(cap: nat, sp: Space<V>, st0: Linking<V>, st: Linking<V>, voices: seq<(nat, V)>, vi: nat, now: int)
    requires vi < |voices| == |st0.own| && InRange(st0) && Told(cap, sp, st0, st, voices, vi, now)
    ensures Told(cap, sp, st0, LinkOne(cap, sp, st, vi, voices[vi], now), voices, vi + 1, now)
  {
    KeptStep(cap, sp, st0, st, vi, voices[vi], now);
    AllottedStep(cap, sp, st0, st, vi, voices[vi], now);
    var r := LinkOne(cap, sp, st, vi, voices[vi], now);
    forall i | 0 <= i < |voices| && r.own[i].Some? ensures Remembered(sp, st0, r, voices[i].1, i, vi + 1, now) {
      RememberedStep(cap, sp, st0, st, voices, vi, now, i);
    }
  }

  lemma ToldFirst<V>(cap: nat, sp: Space<V>, st0: Linking<V>, voices: seq<(nat, V)>, now: int)
    requires |voices| == |st0.own| && Paired(st0)
    ensures Told(cap, sp, st0, st0, voices, 0, now)
  {
  }

  lemma LinkAllTold<V>(cap: nat, sp: Space<V>, st0: Linking<V>, voices: seq<(nat, V)>, n: nat, now: int)
    requires n <= |voices| == |st0.own| && Paired(st0)
    ensures var st := LinkAll(cap, sp, st0, voices, n, now);
            |st0.cs| <= |st.cs| && Remembers(sp, st0, st, voices, n, now) && Allotted(cap, st0, st, n)
  {
    var p := (st: Linking<V>, vi: nat) => vi <= |st0.own| && Told(cap, sp, st0, st, voices, vi, now);
    forall st: Linking<V>, vi: nat | vi < n && |st.own| == |voices| && InRange(st) && p(st, vi)
      ensures p(LinkOne(cap, sp, st, vi, voices[vi], now), vi + 1)
    {
      ToldStep(cap, sp, st0, st, voices, vi, now);
    }
    ToldFirst(cap, sp, st0, voices, now);
    LinkAllKeeps(p, cap, sp, st0, voices, n, now);
  }

  // ------------------------------------------------------------------ one call

  /** What a call leaves in the centroid of voice `i`. A voice matched with a centroid moves it towards itself; a voice
      that opens or evicts one is remembered alone. */
  ghost predicate HoldsVoice<V>(sp: Space<V>, alive: seq<Centroid<V>>, chosen: seq<Edge<nat, nat>>, st: Linking<V>,
                                usable: seq<(nat, V)>, now: int, i: nat)
    requires i < |usable| && i < |st.own| && st.own[i].Some? && st.own[i].value < |st.cs|
  {
    var c := st.own[i].value;
    if Edge(i, c) in chosen then c < |alive| && Follows(sp, alive[c], usable[i].1, now, st.cs[c])
    else st.cs[c].v == usable[i].1 && st.cs[c].n == 1 && st.cs[c].seen == now && (c < |alive| ==> st.cs[c].tag == alive[c].tag)
  }

  lemma VoicesAreRemembered<V>(cfg: Config, sp: Space<V>, cs: seq<Centroid<V>>, voices: seq<(nat, V)>, now: int)
    ensures var alive, usable := Alive(cs, cfg.ttl, now), Usable(sp, voices);
            var st, chosen := LinkSpec(cfg, sp, cs, voices, now), Chosen(sp, cfg.threshold, usable, alive);
            && |st.own| == |usable| && InRange(st)
            && (forall i :: 0 <= i < |usable| && st.own[i].Some? ==> HoldsVoice(sp, alive, chosen, st, usable, now, i))
            && (forall e :: e in chosen ==> e.left < |usable| && st.own[e.left] == Some(e.right))
            && (forall i, j :: 0 <= i < j < |usable| && st.own[i].Some? ==> st.own[i] != st.own[j])
  {
    var alive, usable := Alive(cs, cfg.ttl, now), Usable(sp, voices);
    var st0 := Matched(sp, cfg.threshold, usable, alive);
    var st := LinkSpec(cfg, sp, cs, voices, now);
    MatchedIsPaired(sp, cfg.threshold, usable, alive);
    CandidatesAre(sp, cfg.threshold, usable, alive);
    LinkAllKept(cfg.cap, sp, st0, usable, |usable|, now);
    LinkAllTold(cfg.cap, sp, st0, usable, |usable|, now);
    forall i | 0 <= i < |usable| && st.own[i].Some?
      ensures HoldsVoice(sp, alive, Chosen(sp, cfg.threshold, usable, alive), st, usable, now, i)
    {
      assert Remembered(sp, st0, st, usable[i].1, i, |usable|, now);
    }
    forall e | e in Chosen(sp, cfg.threshold, usable, alive) ensures e.left < |usable| && st.own[e.left] == Some(e.right) {
      assert e == Edge(e.left, e.right);
      assert st0.own[e.left] == Some(e.right);
    }
  }

  /** Who gets a centroid at all, and with which label. */
  lemma CentroidsAreAllotted<V>(cfg: Config, sp: Space<V>, cs: seq<Centroid<V>>, voices: seq<(nat, V)>, now: int)
    ensures var alive, usable := Alive(cs, cfg.ttl, now), Usable(sp, voices);
            var st, chosen := LinkSpec(cfg, sp, cs, voices, now), Chosen(sp, cfg.threshold, usable, alive);
            && |st.own| == |usable| && |alive| <= |st.cs|
            && (forall c: nat :: c < |alive| ==> st.cs[c].tag == alive[c].tag)
            && (forall c: nat :: |alive| <= c < |st.cs| ==> LeastFree(st.cs, c, cfg.cap % 0x1_0000_0000))
            && (forall i: nat :: Evicts(chosen, st.own, i, |alive|) ==> |st.cs| >= cfg.cap)
            && (forall i: nat, j: nat :: i < j < |usable| && st.own[i] == None && st.own[j].Some? ==>
                  Edge(j, st.own[j].value) in chosen)
  {
    var alive, usable := Alive(cs, cfg.ttl, now), Usable(sp, voices);
    var st0 := Matched(sp, cfg.threshold, usable, alive);
    var st, chosen := LinkSpec(cfg, sp, cs, voices, now), Chosen(sp, cfg.threshold, usable, alive);
    MatchedIsPaired(sp, cfg.threshold, usable, alive);
    LinkAllKept(cfg.cap, sp, st0, usable, |usable|, now);
    LinkAllTold(cfg.cap, sp, st0, usable, |usable|, now);
    forall i: nat | Evicts(chosen, st.own, i, |alive|) ensures |st.cs| >= cfg.cap {
      EvictsIsEvicted(sp, cfg.threshold, usable, alive, st, i);
    }
  }

  // ------------------------------------------------------------------ heard again

  /** The answer of a call names, for every usable voice given a centroid, the label of that centroid. */
  lemma AnswerNamesCentroid<V>(cfg: Config, sp: Space<V>, cs: seq<Centroid<V>>, voices: seq<(nat, V)>, now: int, i: nat)
    requires var st := LinkSpec(cfg, sp, cs, voices, now); i < |Usable(sp, voices)| && i < |st.own| && st.own[i].Some?
    requires DistinctIndexes(Usable(sp, voices))
    ensures var st, spk := LinkSpec(cfg, sp, cs, voices, now), Usable(sp, voices)[i].0;
            st.own[i].value < |st.cs| && spk in st.out && st.out[spk] == st.cs[st.own[i].value].tag
  {
    var alive, usable := Alive(cs, cfg.ttl, now), Usable(sp, voices);
    var st0 := Matched(sp, cfg.threshold, usable, alive);
    LinkAllAnswered(cfg.cap, sp, st0, usable, |usable|, now);
  }

  /** Voice `j` and centroid `c` are more similar than either is to any other with which it could be matched. */
  ghost predicate Closest<V>(sp: Space<V>, th: real, voices: seq<(nat, V)>, cs: seq<Centroid<V>>, j: nat, c: nat)
    requires j < |voices| && c < |cs|
  {
    forall vi, ci :: 0 <= vi < |voices| && 0 <= ci < |cs| && (vi == j) != (ci == c)
                     && sp.dim(cs[ci].v) == sp.dim(voices[vi].1) && sp.dot(voices[vi].1, cs[ci].v) >= th ==>
                       sp.dot(voices[vi].1, cs[ci].v) < sp.dot(voices[j].1, cs[c].v)
  }

  /** The closest pair of a voice and a centroid is matched, when it reaches the threshold. */
  lemma ClosestAreMatched<V>(sp: Space<V>, th: real, voices: seq<(nat, V)>, cs: seq<Centroid<V>>, j: nat, c: nat)
    requires j < |voices| && c < |cs| && Closest(sp, th, voices, cs, j, c)
    requires sp.dim(cs[c].v) == sp.dim(voices[j].1) && sp.dot(voices[j].1, cs[c].v) >= th
    ensures Edge(j, c) in Chosen(sp, th, voices, cs)
  {
    MatchingHasNoBlockingPair(sp, th, voices, cs, j, c);
    var e :| e in Chosen(sp, th, voices, cs) && (e.left == j || e.right == c)
             && Similarity(sp, voices, cs)(e) >= sp.dot(voices[j].1, cs[c].v);
    CandidatesAre(sp, th, voices, cs);
    assert Eligible(sp, th, voices, cs, e.left, e.right);
    assert e == Edge(j, c);
  }

  /** Where the centroid of voice `i` stands at the next call. */
  ghost function NextPlace<V>(st: Linking<V>, ttl: nat, now: int, i: nat): nat
    requires InRange(st) && i < |st.own| && st.own[i].Some?
  {
    |Alive(st.cs[..st.own[i].value], ttl, now)|
  }

  /** A voice that opened or evicted a centroid and is heard again within `ttl` answers with the same label, when it is
      similar enough to itself, and more than it and its centroid are to any other. */
  lemma HeardAgain<V>(cfg: Config, sp: Space<V>, cs: seq<Centroid<V>>, voices: seq<(nat, V)>, now: int, i: nat,
                      voices': seq<(nat, V)>, now': int, j: nat)
    requires var usable, st := Usable(sp, voices), LinkSpec(cfg, sp, cs, voices, now);
             && DistinctIndexes(usable) && i < |usable| && |st.own| == |usable| && st.own[i].Some?
             && Edge(i, st.own[i].value) !in Chosen(sp, cfg.threshold, usable, Alive(cs, cfg.ttl, now))
    requires var usable' := Usable(sp, voices');
             && DistinctIndexes(usable') && j < |usable'| && usable'[j].1 == Usable(sp, voices)[i].1
    requires now' - now <= cfg.ttl
    requires var v := Usable(sp, voices)[i].1; sp.dot(v, v) >= cfg.threshold
    requires var st := LinkSpec(cfg, sp, cs, voices, now);
             var alive', c := Alive(st.cs, cfg.ttl, now'), NextPlace(st, cfg.ttl, now', i);
             c < |alive'| ==> Closest(sp, cfg.threshold, Usable(sp, voices'), alive', j, c)
    ensures var st := LinkSpec(cfg, sp, cs, voices, now);
            var spk, spk' := Usable(sp, voices)[i].0, Usable(sp, voices')[j].0;
            var out' := LinkSpec(cfg, sp, st.cs, voices', now').out;
            spk in st.out && spk' in out' && out'[spk'] == st.out[spk]
  {
    var usable, st, usable' := Usable(sp, voices), LinkSpec(cfg, sp, cs, voices, now), Usable(sp, voices');
    var c, alive' := st.own[i].value, Alive(st.cs, cfg.ttl, now');
    VoicesAreRemembered(cfg, sp, cs, voices, now);
    assert HoldsVoice(sp, Alive(cs, cfg.ttl, now), Chosen(sp, cfg.threshold, usable, Alive(cs, cfg.ttl, now)), st, usable, now, i);
    AnswerNamesCentroid(cfg, sp, cs, voices, now, i);
    ExpiredAreForgotten(st.cs, cfg.ttl, now', c);
    var c' := NextPlace(st, cfg.ttl, now', i);
    ClosestAreMatched(sp, cfg.threshold, usable', alive', j, c');
    MatchedKeepsLabel(cfg, sp, st.cs, voices', now', Edge(j, c'));
  }
}
