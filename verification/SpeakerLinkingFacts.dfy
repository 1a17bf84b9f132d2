/** What one call of `link`, and any run of calls, keeps. */
module SpeakerLinkingFacts {
  import opened Basics
  import opened Matching
  import opened SpeakerLinking

  // ------------------------------------------------------------------ the walk computes the matching

  ghost predicate HasOwner(own: seq<Option<nat>>, c: nat) {
    exists i :: 0 <= i < |own| && own[i] == Some(c)
  }

  ghost predicate Records(es: seq<Edge<nat, nat>>, own: seq<Option<nat>>, taken: seq<bool>) {
    && (forall l, r :: 0 <= l < |own| ==> (own[l] == Some(r) <==> Edge(l, r) in Greedy(es)))
    && (forall r :: 0 <= r < |taken| ==> (taken[r] <==> HasOwner(own, r)))
  }

  lemma {:induction false} AssignIsGreedy(es: seq<Edge<nat, nat>>, nv: nat, nc: nat)
    requires forall e :: e in es ==> e.left < nv && e.right < nc
    ensures Records(es, Assign(es, nv, nc).0, Assign(es, nv, nc).1)
  {
    if es != [] {
      var n := |es| - 1;
      var shorter, e := es[..n], es[n];
      AssignIsGreedy(shorter, nv, nc);
      var (own, taken) := Assign(shorter, nv, nc);
      var before := Greedy(shorter);
      assert e in es && forall c :: c in before ==> c in es;
      assert Free(before, e) <==> own[e.left] == None && !taken[e.right] by {
        FreeIsUnrecorded(shorter, own, taken, e);
      }
      var (own', taken') := Assign(es, nv, nc);
      if Free(before, e) {
        forall r | 0 <= r < nc ensures taken'[r] <==> HasOwner(own', r) {
          if r == e.right {
            assert own'[e.left] == Some(r);
          } else if taken[r] {
            var l :| 0 <= l < nv && own[l] == Some(r);
            assert own'[l] == Some(r);
          }
        }
      }
    }
  }

  lemma FreeIsUnrecorded(es: seq<Edge<nat, nat>>, own: seq<Option<nat>>, taken: seq<bool>, e: Edge<nat, nat>)
    requires Records(es, own, taken)
    requires forall c :: c in es ==> c.left < |own| && c.right < |taken|
    requires e.left < |own| && e.right < |taken|
    ensures Free(Greedy(es), e) <==> own[e.left] == None && !taken[e.right]
  {
    var chosen := Greedy(es);
    if own[e.left].Some? { assert Edge(e.left, own[e.left].value) in chosen; }
    if taken[e.right] {
      var l :| 0 <= l < |own| && own[l] == Some(e.right);
      assert Edge(l, e.right) in chosen;
    }
    if own[e.left] == None && !taken[e.right] {
      forall c | c in chosen ensures !Touches(c, e) {
        assert c in es && own[c.left] == Some(c.right);
        assert c == Edge(c.left, c.right);
      }
    }
  }

  // ------------------------------------------------------------------ what every voice keeps

  /** Owners are distinct, and the taken centroids are the owned ones. */
  ghost predicate Paired<V>(st: Linking<V>) {
    && InRange(st)
    && (forall i, j :: 0 <= i < j < |st.own| && st.own[i].Some? ==> st.own[i] != st.own[j])
    && (forall c :: 0 <= c < |st.cs| ==> (st.taken[c] <==> HasOwner(st.own, c)))
  }

  ghost predicate DistinctIndexes<V>(voices: seq<(nat, V)>) {
    forall i, j :: 0 <= i < j < |voices| ==> voices[i].0 != voices[j].0
  }

  /** The answer so far: each of the first `n` voices has the label of its centroid, and no later one has any. */
  ghost predicate Answered<V>(st: Linking<V>, voices: seq<(nat, V)>, n: nat)
    requires n <= |voices| == |st.own| && InRange(st)
  {
    && (forall i :: 0 <= i < n && st.own[i].Some? ==>
          voices[i].0 in st.out && st.out[voices[i].0] == st.cs[st.own[i].value].tag)
    && (forall i :: n <= i < |voices| ==> voices[i].0 !in st.out)
    && |st.out| == Owned(st.own[..n])
  }

  /** Every label given belongs to a voice that owns a centroid. */
  ghost predicate Accounted<V>(out: map<nat, nat>, own: seq<Option<nat>>, voices: seq<(nat, V)>)
    requires |voices| == |own|
  {
    forall k :: k in out ==> OwnsFor(own, voices, k)
  }

  /** A voice of local index `k` owns a centroid. */
  ghost predicate OwnsFor<V>(own: seq<Option<nat>>, voices: seq<(nat, V)>, k: nat)
    requires |voices| == |own|
  {
    exists i :: 0 <= i < |own| && voices[i].0 == k && own[i].Some?
  }

  ghost function Owned(own: seq<Option<nat>>): nat {
    if own == [] then 0 else Owned(own[..|own| - 1]) + if own[|own| - 1].Some? then 1 else 0
  }

  /** How the state `st`, reached after `n` voices, relates to the state `st0` before the first. */
  ghost predicate Progress<V>(cap: nat, st0: Linking<V>, st: Linking<V>, n: nat)
    requires n <= |st0.own| && InRange(st0)
  {
    && |st.own| == |st0.own| && InRange(st)
    && Grows(cap, st0, st)
    && Waits(cap, st0, st, n)
    && Spares(cap, st0, st, n)
  }

  /** Labels stay where they are and the cap is kept. */
  ghost predicate Grows<V>(cap: nat, st0: Linking<V>, st: Linking<V>) {
    && |st0.cs| <= |st.cs| <= Max(cap, |st0.cs|)
    && (forall c :: 0 <= c < |st0.cs| ==> st.cs[c].tag == st0.cs[c].tag)
  }

  /** A voice matched or still waiting keeps its owner; one left out means that everything is taken. */
  ghost predicate Waits<V>(cap: nat, st0: Linking<V>, st: Linking<V>, n: nat)
    requires |st.own| == |st0.own| && |st.taken| == |st.cs|
  {
    && (forall i :: 0 <= i < |st.own| && (i >= n || st0.own[i].Some?) ==> st.own[i] == st0.own[i])
    && (forall i :: 0 <= i < |st.own| && i < n && st.own[i] == None ==> |st.cs| >= cap && AllTaken(st))
  }

  ghost predicate AllTaken<V>(st: Linking<V>) {
    forall c :: 0 <= c < |st.taken| ==> st.taken[c]
  }

  /** An untaken centroid is an old one, untouched, and heard no earlier than any evicted one. */
  ghost predicate Spares<V>(cap: nat, st0: Linking<V>, st: Linking<V>, n: nat)
    requires |st.own| == |st0.own| && |st.taken| == |st.cs| && |st0.taken| == |st0.cs|
  {
    && (forall c :: 0 <= c < |st.cs| && !st.taken[c] ==> c < |st0.cs| && !st0.taken[c] && st.cs[c] == st0.cs[c])
    && (forall i: nat, c: nat :: c < |st.cs| && Evicted(st0, st, i) && i < n && !st.taken[c] ==>
          |st.cs| >= cap && Staler(st0.cs, st.own[i].value, c))
  }

  /** Voice `i`, matched with nothing, was given a centroid that was already there. */
  ghost predicate Evicted<V>(st0: Linking<V>, st: Linking<V>, i: nat)
    requires |st.own| == |st0.own|
  {
    i < |st0.own| && st0.own[i] == None && st.own[i].Some? && st.own[i].value < |st0.cs|
  }

  lemma OwnerStays(own: seq<Option<nat>>, vi: nat, given: nat, c: nat)
    requires vi < |own| && own[vi] == None && c != given
    ensures HasOwner(own[vi := Some(given)], c) <==> HasOwner(own, c)
  {
    var more := own[vi := Some(given)];
    if HasOwner(own, c) {
      var i :| 0 <= i < |own| && own[i] == Some(c);
      assert more[i] == Some(c);
    }
  }

  lemma PairedStep<V>(cap: nat, sp: Space<V>, st: Linking<V>, vi: nat, voice: (nat, V), now: int)
    requires vi < |st.own| && Paired(st)
    ensures Paired(LinkOne(cap, sp, st, vi, voice, now))
  {
    var r := LinkOne(cap, sp, st, vi, voice, now);
    if r.own != st.own {
      var given := r.own[vi].value;
      assert forall i :: 0 <= i < |st.own| ==> st.own[i] != Some(given);
      forall c | 0 <= c < |r.cs| ensures r.taken[c] <==> HasOwner(r.own, c) {
        if c == given {
          assert r.own[vi] == Some(c);
        } else {
          OwnerStays(st.own, vi, given, c);
        }
      }
    }
  }

  lemma SparesStep<V>(cap: nat, sp: Space<V>, st0: Linking<V>, st: Linking<V>, vi: nat, voice: (nat, V), now: int)
    requires vi < |st0.own| && InRange(st0) && Progress(cap, st0, st, vi) && Paired(st)
    ensures Spares(cap, st0, LinkOne(cap, sp, st, vi, voice, now), vi + 1)
  {
    var r := LinkOne(cap, sp, st, vi, voice, now);
    if st.own[vi].Some? { assert st.taken[st.own[vi].value]; }
    forall i: nat, c: nat | c < |r.cs| && Evicted(st0, r, i) && i < vi + 1 && !r.taken[c]
      ensures |r.cs| >= cap && Staler(st0.cs, r.own[i].value, c)
    {
      assert c < |st.cs| && !st.taken[c];
      if i < vi {
        assert r.own[i] == st.own[i];
        assert Evicted(st0, st, i);
      }
    }
  }

  lemma ProgressStep<V>(cap: nat, sp: Space<V>, st0: Linking<V>, st: Linking<V>, vi: nat, voice: (nat, V), now: int)
    requires vi < |st0.own| && InRange(st0) && Progress(cap, st0, st, vi) && Paired(st)
    ensures Progress(cap, st0, LinkOne(cap, sp, st, vi, voice, now), vi + 1)
  {
    SparesStep(cap, sp, st0, st, vi, voice, now);
  }

  lemma AnsweredStep<V>(cap: nat, sp: Space<V>, st: Linking<V>, voices: seq<(nat, V)>, vi: nat, now: int)
    requires vi < |voices| == |st.own| && InRange(st) && Answered(st, voices, vi) && DistinctIndexes(voices)
    ensures Answered(LinkOne(cap, sp, st, vi, voices[vi], now), voices, vi + 1)
  {
    var r := LinkOne(cap, sp, st, vi, voices[vi], now);
    assert voices[vi].0 !in st.out;
    assert r.own[..vi + 1][..vi] == st.own[..vi];
  }

  lemma AccountedStep<V>(cap: nat, sp: Space<V>, st: Linking<V>, voices: seq<(nat, V)>, vi: nat, now: int, r: Linking<V>)
    requires vi < |voices| == |st.own| && InRange(st) && Accounted(st.out, st.own, voices)
    requires r == LinkOne(cap, sp, st, vi, voices[vi], now)
    ensures Accounted(r.out, r.own, voices)
  {
    forall k | k in r.out ensures OwnsFor(r.own, voices, k) {
      if k in st.out {
        var i :| 0 <= i < |st.own| && voices[i].0 == k && st.own[i].Some?;
        assert r.own[i].Some?;
      } else {
        assert voices[vi].0 == k && r.own[vi].Some?;
      }
    }
  }

  /** Of two voices that evict, the earlier one takes the centroid heard longer ago. */
  ghost predicate InOrder<V>(st0: Linking<V>, st: Linking<V>, n: nat)
    requires |st.own| == |st0.own|
  {
    forall i: nat, j: nat :: i < j < n && Evicted(st0, st, i) && Evicted(st0, st, j) ==>
      Staler(st0.cs, st.own[i].value, st.own[j].value)
  }

  lemma InOrderStep<V>(cap: nat, sp: Space<V>, st0: Linking<V>, st: Linking<V>, vi: nat, voice: (nat, V), now: int)
    requires vi < |st0.own| && InRange(st0) && Progress(cap, st0, st, vi) && Paired(st) && InOrder(st0, st, vi)
    ensures InOrder(st0, LinkOne(cap, sp, st, vi, voice, now), vi + 1)
  {
    var r := LinkOne(cap, sp, st, vi, voice, now);
    forall i: nat, j: nat | i < j < vi + 1 && Evicted(st0, r, i) && Evicted(st0, r, j)
      ensures Staler(st0.cs, r.own[i].value, r.own[j].value)
    {
      assert r.own[i] == st.own[i] && Evicted(st0, st, i);
      if j < vi {
        assert r.own[j] == st.own[j] && Evicted(st0, st, j);
      } else {
        assert st.own[j] == None;
        assert !st.taken[r.own[j].value];
      }
    }
  }

  /** What holds before the first voice, and is kept by every one, holds after `n` voices. */
  lemma {:induction false} LinkAllKeeps<V>(p: (Linking<V>, nat) -> bool, cap: nat, sp: Space<V>, st0: Linking<V>,
                                           voices: seq<(nat, V)>, n: nat, now: int)
    requires n <= |voices| == |st0.own| && InRange(st0) && p(st0, 0)
    requires forall st: Linking<V>, vi: nat {:trigger LinkOne(cap, sp, st, vi, voices[vi], now)} ::
               vi < n && |st.own| == |voices| && InRange(st) && p(st, vi) ==>
                 p(LinkOne(cap, sp, st, vi, voices[vi], now), vi + 1)
    ensures p(LinkAll(cap, sp, st0, voices, n, now), n)
  {
    if n > 0 { LinkAllKeeps(p, cap, sp, st0, voices, n - 1, now); }
  }

  /** All that every voice keeps. */
  ghost predicate Kept<V>(cap: nat, st0: Linking<V>, st: Linking<V>, n: nat)
    requires n <= |st0.own| && InRange(st0)
  {
    Paired(st) && Progress(cap, st0, st, n) && InOrder(st0, st, n)
  }

  lemma KeptStep<V>(cap: nat, sp: Space<V>, st0: Linking<V>, st: Linking<V>, vi: nat, voice: (nat, V), now: int)
    requires vi < |st0.own| && InRange(st0) && Kept(cap, st0, st, vi)
    ensures Kept(cap, st0, LinkOne(cap, sp, st, vi, voice, now), vi + 1)
  {
    PairedStep(cap, sp, st, vi, voice, now);
    ProgressStep(cap, sp, st0, st, vi, voice, now);
    InOrderStep(cap, sp, st0, st, vi, voice, now);
  }

  lemma LinkAllKept<V>(cap: nat, sp: Space<V>, st0: Linking<V>, voices: seq<(nat, V)>, n: nat, now: int)
    requires n <= |voices| == |st0.own| && Paired(st0)
    ensures Kept(cap, st0, LinkAll(cap, sp, st0, voices, n, now), n)
  {
    var p := (st: Linking<V>, vi: nat) => vi <= |st0.own| && Kept(cap, st0, st, vi);
    forall st: Linking<V>, vi: nat | vi < n && |st.own| == |voices| && InRange(st) && p(st, vi)
      ensures p(LinkOne(cap, sp, st, vi, voices[vi], now), vi + 1)
    {
      KeptStep(cap, sp, st0, st, vi, voices[vi], now);
    }
    LinkAllKeeps(p, cap, sp, st0, voices, n, now);
  }

  lemma {:induction false} LinkAllAnswered<V>(cap: nat, sp: Space<V>, st0: Linking<V>, voices: seq<(nat, V)>, n: nat, now: int)
    requires n <= |voices| == |st0.own| && InRange(st0) && st0.out == map[] && DistinctIndexes(voices)
    ensures Answered(LinkAll(cap, sp, st0, voices, n, now), voices, n)
  {
    if n > 0 {
      var st := LinkAll(cap, sp, st0, voices, n - 1, now);
      LinkAllAnswered(cap, sp, st0, voices, n - 1, now);
      AnsweredStep(cap, sp, st, voices, n - 1, now);
    }
  }

  lemma {:induction false} LinkAllAccounted<V>(cap: nat, sp: Space<V>, st0: Linking<V>, voices: seq<(nat, V)>, n: nat, now: int)
    requires n <= |voices| == |st0.own| && InRange(st0) && st0.out == map[]
    ensures var st := LinkAll(cap, sp, st0, voices, n, now); Accounted(st.out, st.own, voices)
  {
    if n > 0 {
      LinkAllAccounted(cap, sp, st0, voices, n - 1, now);
      var st, r := LinkAll(cap, sp, st0, voices, n - 1, now), LinkAll(cap, sp, st0, voices, n, now);
      AccountedStep(cap, sp, st, voices, n - 1, now, r);
    }
  }

  // ------------------------------------------------------------------ labels

  ghost predicate Labelled<V>(cs: seq<Centroid<V>>, limit: nat) {
    && (forall i :: 0 <= i < |cs| ==> 1 <= cs[i].tag <= limit)
    && (forall i, j :: 0 <= i < j < |cs| ==> cs[i].tag != cs[j].tag)
  }

  ghost function Tags<V>(cs: seq<Centroid<V>>): (s: set<nat>)
    ensures |s| <= |cs|
    ensures forall i :: 0 <= i < |cs| ==> cs[i].tag in s
  {
    if cs == [] then {} else Tags(cs[..|cs| - 1]) + {cs[|cs| - 1].tag}
  }

  lemma {:induction false} FirstUnusedFinds<V>(cs: seq<Centroid<V>>, from: nat, limit: nat)
    requires exists l :: from <= l <= limit && Unused(cs, l)
    ensures from <= FirstUnused(cs, from, limit) <= limit && Unused(cs, FirstUnused(cs, from, limit))
    decreases limit + 1 - from
  {
    if !Unused(cs, from) { FirstUnusedFinds(cs, from + 1, limit); }
  }

  /** Fewer centroids than labels: the search for a free label succeeds, so its fallback is never used. */
  lemma FreshLabelIsFree<V>(cs: seq<Centroid<V>>, cap: nat)
    requires |cs| < LabelLimit(cap)
    ensures 1 <= FreshLabel(cs, cap) <= LabelLimit(cap) && Unused(cs, FreshLabel(cs, cap))
  {
    var labels := Below(LabelLimit(cap) + 1) - {0};
    if labels <= Tags(cs) { SubsetSize(labels, Tags(cs)); }
    var l :| l in labels && l !in Tags(cs);
    assert Unused(cs, l);
    FirstUnusedFinds(cs, 1, LabelLimit(cap));
  }

  lemma LabelledStep<V>(cap: nat, sp: Space<V>, st: Linking<V>, vi: nat, voice: (nat, V), now: int, r: Linking<V>)
    requires vi < |st.own| && InRange(st) && cap < U32 && Labelled(st.cs, cap)
    requires r == LinkOne(cap, sp, st, vi, voice, now)
    ensures Labelled(r.cs, cap)
  {
    if st.own[vi] == None && |st.cs| < cap { FreshLabelIsFree(st.cs, cap); }
  }

  lemma {:induction false} LinkAllLabelled<V>(cap: nat, sp: Space<V>, st0: Linking<V>, voices: seq<(nat, V)>, n: nat, now: int)
    requires n <= |voices| == |st0.own| && InRange(st0)
    requires cap < U32 && Labelled(st0.cs, cap)
    ensures Labelled(LinkAll(cap, sp, st0, voices, n, now).cs, cap)
  {
    if n > 0 {
      LinkAllLabelled(cap, sp, st0, voices, n - 1, now);
      var st, r := LinkAll(cap, sp, st0, voices, n - 1, now), LinkAll(cap, sp, st0, voices, n, now);
      LabelledStep(cap, sp, st, n - 1, voices[n - 1], now, r);
    }
  }

  // ------------------------------------------------------------------ one call

  lemma MatchedIsPaired<V>(sp: Space<V>, th: real, voices: seq<(nat, V)>, cs: seq<Centroid<V>>)
    ensures Paired(Matched(sp, th, voices, cs))
    ensures forall i, c :: 0 <= i < |voices| ==>
              (Matched(sp, th, voices, cs).own[i] == Some(c) <==> Edge(i, c) in Chosen(sp, th, voices, cs))
  {
    var es := Edges(BestFirst(AllPairs(sp, th, voices, cs, |voices|)));
    EdgesInRange(sp, th, voices, cs);
    AssignIsGreedy(es, |voices|, |cs|);
    GreedyFacts(es);
    var own, chosen := Matched(sp, th, voices, cs).own, Greedy(es);
    forall i: nat, j: nat | i < j < |own| && own[i].Some? ensures own[i] != own[j] {
      if own[i] == own[j] { TouchingEdgesEqual(chosen, Edge(i, own[i].value), Edge(j, own[i].value)); }
    }
  }

  ghost function OwnedSet(own: seq<Option<nat>>): set<nat> {
    if own == [] then {} else OwnedSet(own[..|own| - 1]) + match own[|own| - 1] case Some(c) => {c} case None => {}
  }

  lemma {:induction false} OwnedSetMembers(own: seq<Option<nat>>)
    ensures forall i :: 0 <= i < |own| && own[i].Some? ==> own[i].value in OwnedSet(own)
    ensures forall c :: c in OwnedSet(own) ==> HasOwner(own, c)
  {
    if own != [] {
      var n := |own| - 1;
      OwnedSetMembers(own[..n]);
      forall c | c in OwnedSet(own) ensures HasOwner(own, c) {
        if c in OwnedSet(own[..n]) {
          var i :| 0 <= i < n && own[..n][i] == Some(c);
          assert own[i] == Some(c);
        } else {
          assert own[n] == Some(c);
        }
      }
    }
  }

  lemma {:induction false} OwnedSetSize(own: seq<Option<nat>>)
    requires forall i, j :: 0 <= i < j < |own| && own[i].Some? ==> own[i] != own[j]
    ensures |OwnedSet(own)| == Owned(own) <= |own|
    ensures (forall i :: 0 <= i < |own| ==> own[i].Some?) ==> Owned(own) == |own|
  {
    if own != [] {
      OwnedSetMembers(own[..|own| - 1]);
      OwnedSetSize(own[..|own| - 1]);
    }
  }

  /** Owners are as many as the smaller of voices and cap. */
  lemma OwnersFillTheCap<V>(cap: nat, st0: Linking<V>, st: Linking<V>)
    requires |st.own| == |st0.own| && Paired(st) && Waits(cap, st0, st, |st0.own|) && |st.cs| <= cap
    ensures Owned(st.own) == Min(|st.own|, cap)
  {
    OwnedSetMembers(st.own);
    OwnedSetSize(st.own);
    var all := Below(|st.cs|);
    SubsetSize(OwnedSet(st.own), all);
    if i :| 0 <= i < |st.own| && st.own[i] == None {
      assert AllTaken(st) && |st.cs| == cap;
      forall c: nat | c in all ensures c in OwnedSet(st.own) {
        assert st.taken[c];
      }
      assert OwnedSet(st.own) == all;
    }
  }

  lemma AnswersDiffer<V>(st: Linking<V>, voices: seq<(nat, V)>, limit: nat, k: nat, l: nat)
    requires |voices| == |st.own| && Paired(st) && Answered(st, voices, |voices|) && Accounted(st.out, st.own, voices)
    requires Labelled(st.cs, limit) && k in st.out && l in st.out
    ensures 1 <= st.out[k] <= limit
    ensures k != l ==> st.out[k] != st.out[l]
  {
    var i :| 0 <= i < |st.own| && voices[i].0 == k && st.own[i].Some?;
    var j :| 0 <= j < |st.own| && voices[j].0 == l && st.own[j].Some?;
    var a, b := st.own[i].value, st.own[j].value;
    assert st.out[k] == st.cs[a].tag && st.out[l] == st.cs[b].tag;
    if k != l { assert a != b; }
  }

  /** The answer of one call, when no local index is given twice: it labels exactly `min(usable voices, cap)` of
      them, no two alike. */
  lemma AnswerIsOneToOneAndFull<V>(cfg: Config, sp: Space<V>, cs: seq<Centroid<V>>, voices: seq<(nat, V)>, now: int)
    requires DistinctIndexes(Usable(sp, voices))
    requires cfg.cap < U32 && |cs| <= cfg.cap && Labelled(cs, cfg.cap)
    ensures var out := LinkSpec(cfg, sp, cs, voices, now).out;
            && |out| == Min(|Usable(sp, voices)|, cfg.cap)
            && (forall k :: k in out ==> 1 <= out[k] <= cfg.cap)
            && (forall k, l :: k in out && l in out && k != l ==> out[k] != out[l])
  {
    var alive, usable := Alive(cs, cfg.ttl, now), Usable(sp, voices);
    AliveMembers(cs, cfg.ttl, now);
    AliveLabelled(cs, cfg.ttl, now, cfg.cap);
    MatchedIsPaired(sp, cfg.threshold, usable, alive);
    var st0 := Matched(sp, cfg.threshold, usable, alive);
    var st := LinkSpec(cfg, sp, cs, voices, now);
    LinkAllKept(cfg.cap, sp, st0, usable, |usable|, now);
    LinkAllAnswered(cfg.cap, sp, st0, usable, |usable|, now);
    LinkAllAccounted(cfg.cap, sp, st0, usable, |usable|, now);
    LinkAllLabelled(cfg.cap, sp, st0, usable, |usable|, now);
    assert st.own[..|usable|] == st.own;
    OwnersFillTheCap(cfg.cap, st0, st);
    forall k, l | k in st.out && l in st.out
      ensures 1 <= st.out[k] <= cfg.cap && (k != l ==> st.out[k] != st.out[l])
    {
      AnswersDiffer(st, usable, cfg.cap, k, l);
    }
  }

  lemma {:induction false} AliveMembers<V>(cs: seq<Centroid<V>>, ttl: nat, now: int)
    ensures |Alive(cs, ttl, now)| <= |cs|
    ensures forall c :: c in Alive(cs, ttl, now) ==> c in cs && Fresh(c, ttl, now)
    ensures forall c :: c in cs && Fresh(c, ttl, now) ==> c in Alive(cs, ttl, now)
  {
    if cs != [] {
      var n := |cs| - 1;
      AliveMembers(cs[..n], ttl, now);
      assert cs == cs[..n] + [cs[n]];
    }
  }

  lemma LabelledMore<V>(cs: seq<Centroid<V>>, rest: seq<Centroid<V>>, limit: nat)
    requires Labelled(cs, limit) && cs != [] && Labelled(rest, limit)
    requires forall c :: c in rest ==> c in cs[..|cs| - 1]
    ensures Labelled(rest + [cs[|cs| - 1]], limit)
  {
    forall i | 0 <= i < |rest| ensures rest[i].tag != cs[|cs| - 1].tag {
      assert rest[i] in rest;
    }
  }

  lemma {:induction false} AliveLabelled<V>(cs: seq<Centroid<V>>, ttl: nat, now: int, limit: nat)
    requires Labelled(cs, limit)
    ensures Labelled(Alive(cs, ttl, now), limit)
  {
    if cs != [] {
      var n := |cs| - 1;
      AliveMembers(cs[..n], ttl, now);
      AliveLabelled(cs[..n], ttl, now, limit);
      LabelledMore(cs, Alive(cs[..n], ttl, now), limit);
    }
  }

  /** Voice `i`, matched with nothing, was given one of the `n` centroids that were alive. */
  ghost predicate Evicts(chosen: seq<Edge<nat, nat>>, own: seq<Option<nat>>, i: nat, n: nat) {
    i < |own| && own[i].Some? && own[i].value < n && Edge(i, own[i].value) !in chosen
  }

  lemma EvictsIsEvicted<V>(sp: Space<V>, th: real, voices: seq<(nat, V)>, cs: seq<Centroid<V>>, st: Linking<V>, i: nat)
    requires var st0 := Matched(sp, th, voices, cs);
             |st.own| == |st0.own| && (i < |st0.own| && st0.own[i].Some? ==> st.own[i] == st0.own[i])
    requires Evicts(Chosen(sp, th, voices, cs), st.own, i, |cs|)
    ensures Evicted(Matched(sp, th, voices, cs), st, i)
  {
    MatchedIsPaired(sp, th, voices, cs);
  }

  /** A matched voice answers with the label its centroid had. */
  lemma MatchedKeepsLabel<V>(cfg: Config, sp: Space<V>, cs: seq<Centroid<V>>, voices: seq<(nat, V)>, now: int, e: Edge<nat, nat>)
    requires DistinctIndexes(Usable(sp, voices))
    requires e in Chosen(sp, cfg.threshold, Usable(sp, voices), Alive(cs, cfg.ttl, now))
    ensures var alive, usable := Alive(cs, cfg.ttl, now), Usable(sp, voices);
            var out := LinkSpec(cfg, sp, cs, voices, now).out;
            && e.left < |usable| && e.right < |alive|
            && usable[e.left].0 in out && out[usable[e.left].0] == alive[e.right].tag
  {
    var alive, usable := Alive(cs, cfg.ttl, now), Usable(sp, voices);
    var st0 := Matched(sp, cfg.threshold, usable, alive);
    MatchedIsPaired(sp, cfg.threshold, usable, alive);
    CandidatesAre(sp, cfg.threshold, usable, alive);
    LinkAllKept(cfg.cap, sp, st0, usable, |usable|, now);
    LinkAllAnswered(cfg.cap, sp, st0, usable, |usable|, now);
    assert Edge(e.left, e.right) == e;
    assert st0.own[e.left] == Some(e.right);
  }

  /** A voice that evicts takes the centroid heard longest ago of those untaken then: no later than any that stays
      untaken, nor than any taken by an eviction after it. It answers with the label of that centroid. */
  lemma EvictionsTakeStalest<V>(cfg: Config, sp: Space<V>, cs: seq<Centroid<V>>, voices: seq<(nat, V)>, now: int, i: nat)
    requires Evicts(Chosen(sp, cfg.threshold, Usable(sp, voices), Alive(cs, cfg.ttl, now)),
                    LinkSpec(cfg, sp, cs, voices, now).own, i, |Alive(cs, cfg.ttl, now)|)
    ensures var alive, usable := Alive(cs, cfg.ttl, now), Usable(sp, voices);
            var st := LinkSpec(cfg, sp, cs, voices, now);
            var chosen := Chosen(sp, cfg.threshold, usable, alive);
            var mine := st.own[i].value;
            && |st.taken| == |st.cs| >= |alive| && i < |usable|
            && (forall c :: 0 <= c < |alive| && !st.taken[c] ==> Staler(alive, mine, c))
            && (forall j :: i < j && Evicts(chosen, st.own, j, |alive|) ==> Staler(alive, mine, st.own[j].value))
            && (DistinctIndexes(usable) ==> usable[i].0 in st.out && st.out[usable[i].0] == alive[mine].tag)
  {
    var alive, usable := Alive(cs, cfg.ttl, now), Usable(sp, voices);
    var st0 := Matched(sp, cfg.threshold, usable, alive);
    var st := LinkSpec(cfg, sp, cs, voices, now);
    var chosen := Chosen(sp, cfg.threshold, usable, alive);
    MatchedIsPaired(sp, cfg.threshold, usable, alive);
    LinkAllKept(cfg.cap, sp, st0, usable, |usable|, now);
    EvictsIsEvicted(sp, cfg.threshold, usable, alive, st, i);
    forall j: nat | i < j && Evicts(chosen, st.own, j, |alive|)
      ensures Staler(alive, st.own[i].value, st.own[j].value)
    {
      EvictsIsEvicted(sp, cfg.threshold, usable, alive, st, j);
    }
    if DistinctIndexes(usable) { LinkAllAnswered(cfg.cap, sp, st0, usable, |usable|, now); }
  }

  /** A centroid the call leaves untaken stays as it was. */
  lemma UntakenStays<V>(cfg: Config, sp: Space<V>, cs: seq<Centroid<V>>, voices: seq<(nat, V)>, now: int)
    ensures var alive := Alive(cs, cfg.ttl, now);
            var st := LinkSpec(cfg, sp, cs, voices, now);
            && |st.taken| == |st.cs| >= |alive|
            && forall c :: 0 <= c < |st.cs| && !st.taken[c] ==> c < |alive| && st.cs[c] == alive[c]
  {
    var alive, usable := Alive(cs, cfg.ttl, now), Usable(sp, voices);
    var st0 := Matched(sp, cfg.threshold, usable, alive);
    MatchedIsPaired(sp, cfg.threshold, usable, alive);
    LinkAllKept(cfg.cap, sp, st0, usable, |usable|, now);
  }

  /** Voice `i` is answered, with the label that centroid `c` had. */
  ghost predicate AnswersAs<V>(out: map<nat, nat>, alive: seq<Centroid<V>>, usable: seq<(nat, V)>, i: nat, c: nat) {
    i < |usable| && c < |alive| && usable[i].0 in out && out[usable[i].0] == alive[c].tag
  }

  /** Evictions take the least recently heard untaken centroid: one heard no later than any that stays untaken, nor than
      any that a later eviction takes. */
  ghost predicate StalestFirst<V>(alive: seq<Centroid<V>>, chosen: seq<Edge<nat, nat>>, own: seq<Option<nat>>, taken: seq<bool>) {
    forall i: nat :: Evicts(chosen, own, i, |alive|) ==> HeardLongestAgo(alive, chosen, own, taken, i)
  }

  ghost predicate HeardLongestAgo<V>(alive: seq<Centroid<V>>, chosen: seq<Edge<nat, nat>>, own: seq<Option<nat>>,
                                     taken: seq<bool>, i: nat)
    requires Evicts(chosen, own, i, |alive|)
  {
    && (forall c :: 0 <= c < |alive| && c < |taken| && !taken[c] ==> Staler(alive, own[i].value, c))
    && (forall j: nat :: i < j && Evicts(chosen, own, j, |alive|) ==> Staler(alive, own[i].value, own[j].value))
  }

  lemma EvictionsAreStalestFirst<V>(cfg: Config, sp: Space<V>, cs: seq<Centroid<V>>, voices: seq<(nat, V)>, now: int)
    ensures var alive, usable := Alive(cs, cfg.ttl, now), Usable(sp, voices);
            var st := LinkSpec(cfg, sp, cs, voices, now);
            StalestFirst(alive, Chosen(sp, cfg.threshold, usable, alive), st.own, st.taken)
  {
    var alive, usable := Alive(cs, cfg.ttl, now), Usable(sp, voices);
    var st, chosen := LinkSpec(cfg, sp, cs, voices, now), Chosen(sp, cfg.threshold, usable, alive);
    forall i: nat | Evicts(chosen, st.own, i, |alive|) ensures HeardLongestAgo(alive, chosen, st.own, st.taken, i) {
      EvictionsTakeStalest(cfg, sp, cs, voices, now, i);
    }
  }

  /** The labels of a call: a matched voice answers with the one its centroid had, and so does a voice that evicts, which
      takes the least recently heard of the centroids untaken then; a centroid left untaken stays as it was. */
  lemma LabelsFollowVoices<V>(cfg: Config, sp: Space<V>, cs: seq<Centroid<V>>, voices: seq<(nat, V)>, now: int)
    ensures var alive, usable := Alive(cs, cfg.ttl, now), Usable(sp, voices);
            var st := LinkSpec(cfg, sp, cs, voices, now);
            var chosen := Chosen(sp, cfg.threshold, usable, alive);
            && |st.taken| == |st.cs| >= |alive|
            && (DistinctIndexes(usable) ==> forall e :: e in chosen ==> AnswersAs(st.out, alive, usable, e.left, e.right))
            && (DistinctIndexes(usable) ==> forall i: nat :: Evicts(chosen, st.own, i, |alive|) ==>
                  AnswersAs(st.out, alive, usable, i, st.own[i].value))
            && (forall c :: 0 <= c < |st.cs| && !st.taken[c] ==> c < |alive| && st.cs[c] == alive[c])
            && StalestFirst(alive, chosen, st.own, st.taken)
  {
    var alive, usable := Alive(cs, cfg.ttl, now), Usable(sp, voices);
    var st, chosen := LinkSpec(cfg, sp, cs, voices, now), Chosen(sp, cfg.threshold, usable, alive);
    UntakenStays(cfg, sp, cs, voices, now);
    EvictionsAreStalestFirst(cfg, sp, cs, voices, now);
    if DistinctIndexes(usable) {
      forall e | e in chosen ensures AnswersAs(st.out, alive, usable, e.left, e.right) {
        MatchedKeepsLabel(cfg, sp, cs, voices, now, e);
      }
      forall i: nat | Evicts(chosen, st.own, i, |alive|) ensures AnswersAs(st.out, alive, usable, i, st.own[i].value) {
        EvictionsTakeStalest(cfg, sp, cs, voices, now, i);
      }
    }
  }

  // ------------------------------------------------------------------ what is remembered of a voice

  /** The centroids of the first `n` voices were heard now. */
  ghost predicate HeardNow<V>(st: Linking<V>, n: nat, now: int)
    requires InRange(st) && n <= |st.own|
  {
    forall i :: 0 <= i < n && st.own[i].Some? ==> st.cs[st.own[i].value].seen == now
  }

  lemma HeardStep<V>(cap: nat, sp: Space<V>, st: Linking<V>, vi: nat, voice: (nat, V), now: int)
    requires vi < |st.own| && InRange(st) && HeardNow(st, vi, now)
    ensures HeardNow(LinkOne(cap, sp, st, vi, voice, now), vi + 1, now)
  {
  }

  lemma LinkAllHeard<V>(cap: nat, sp: Space<V>, st0: Linking<V>, voices: seq<(nat, V)>, n: nat, now: int)
    requires n <= |voices| == |st0.own| && InRange(st0)
    ensures HeardNow(LinkAll(cap, sp, st0, voices, n, now), n, now)
  {
    var p := (st: Linking<V>, vi: nat) => vi <= |st.own| && InRange(st) && HeardNow(st, vi, now);
    forall st: Linking<V>, vi: nat | vi < n && |st.own| == |voices| && InRange(st) && p(st, vi)
      ensures p(LinkOne(cap, sp, st, vi, voices[vi], now), vi + 1)
    {
      HeardStep(cap, sp, st, vi, voices[vi], now);
    }
    LinkAllKeeps(p, cap, sp, st0, voices, n, now);
  }

  ghost predicate AllFresh<V>(cs: seq<Centroid<V>>, ttl: nat, now: int) {
    forall i :: 0 <= i < |cs| ==> Fresh(cs[i], ttl, now)
  }

  lemma AliveIsFresh<V>(cs: seq<Centroid<V>>, ttl: nat, now: int)
    ensures AllFresh(Alive(cs, ttl, now), ttl, now)
  {
    var alive := Alive(cs, ttl, now);
    AliveMembers(cs, ttl, now);
    forall i | 0 <= i < |alive| ensures Fresh(alive[i], ttl, now) {
      assert alive[i] in alive;
    }
  }

  /** After a call every centroid was heard within `ttl`: each is one of this call, heard now, or one that was not yet
      stale and is as it was. */
  lemma LinkLeavesFresh<V>(cfg: Config, sp: Space<V>, cs: seq<Centroid<V>>, voices: seq<(nat, V)>, now: int)
    ensures var st := LinkSpec(cfg, sp, cs, voices, now);
            && AllFresh(st.cs, cfg.ttl, now)
            && |st.taken| == |st.cs|
            && forall c :: 0 <= c < |st.cs| ==>
                 if st.taken[c] then st.cs[c].seen == now else st.cs[c] in Alive(cs, cfg.ttl, now)
  {
    var alive, usable := Alive(cs, cfg.ttl, now), Usable(sp, voices);
    var st0 := Matched(sp, cfg.threshold, usable, alive);
    var st := LinkSpec(cfg, sp, cs, voices, now);
    AliveIsFresh(cs, cfg.ttl, now);
    MatchedIsPaired(sp, cfg.threshold, usable, alive);
    LinkAllKept(cfg.cap, sp, st0, usable, |usable|, now);
    LinkAllHeard(cfg.cap, sp, st0, usable, |usable|, now);
    forall c | 0 <= c < |st.cs|
      ensures Fresh(st.cs[c], cfg.ttl, now)
      ensures if st.taken[c] then st.cs[c].seen == now else st.cs[c] in alive
    {
      if st.taken[c] {
        var i :| 0 <= i < |st.own| && st.own[i] == Some(c);
      } else {
        assert st.cs[c] == alive[c];
      }
    }
  }

  ghost predicate Weighted<V>(cs: seq<Centroid<V>>) {
    forall i :: 0 <= i < |cs| ==> 1 <= cs[i].n <= CENTROID_MAX_WEIGHT
  }

  lemma {:induction false} LinkAllWeighted<V>(cap: nat, sp: Space<V>, st0: Linking<V>, voices: seq<(nat, V)>, n: nat, now: int)
    requires n <= |voices| == |st0.own| && InRange(st0) && Weighted(st0.cs)
    ensures Weighted(LinkAll(cap, sp, st0, voices, n, now).cs)
  {
    if n > 0 { LinkAllWeighted(cap, sp, st0, voices, n - 1, now); }
  }

  // ------------------------------------------------------------------ any run

  datatype Event<V> = Expire(now: int) | Link(voices: seq<(nat, V)>, now: int)

  function Run<V>(cfg: Config, sp: Space<V>, events: seq<Event<V>>): seq<Centroid<V>> {
    if events == [] then [] else
    var cs := Run(cfg, sp, events[..|events| - 1]);
    match events[|events| - 1]
    case Expire(now) => Alive(cs, cfg.ttl, now)
    case Link(voices, now) => LinkSpec(cfg, sp, cs, voices, now).cs
  }

  /** In every reachable state there are at most `cap` centroids, with distinct labels among `1..=cap`. */
  lemma {:induction false} ReachableIsBounded<V>(cfg: Config, sp: Space<V>, events: seq<Event<V>>)
    ensures |Run(cfg, sp, events)| <= cfg.cap
    ensures cfg.cap < U32 ==> Labelled(Run(cfg, sp, events), cfg.cap)
  {
    if events != [] {
      ReachableIsBounded(cfg, sp, events[..|events| - 1]);
      var cs := Run(cfg, sp, events[..|events| - 1]);
      var last := events[|events| - 1];
      AliveMembers(cs, cfg.ttl, last.now);
      if cfg.cap < U32 { AliveLabelled(cs, cfg.ttl, last.now, cfg.cap); }
      if last.Link? {
        var alive, usable := Alive(cs, cfg.ttl, last.now), Usable(sp, last.voices);
        MatchedIsPaired(sp, cfg.threshold, usable, alive);
        var st0 := Matched(sp, cfg.threshold, usable, alive);
        LinkAllKept(cfg.cap, sp, st0, usable, |usable|, last.now);
        if cfg.cap < U32 { LinkAllLabelled(cfg.cap, sp, st0, usable, |usable|, last.now); }
      }
    }
  }

  /** In every reachable state each centroid was heard within `ttl` of the last call, and weighs 1 to 20 voices. */
  lemma {:induction false} ReachableIsFresh<V>(cfg: Config, sp: Space<V>, events: seq<Event<V>>)
    ensures events != [] ==> AllFresh(Run(cfg, sp, events), cfg.ttl, events[|events| - 1].now)
    ensures Weighted(Run(cfg, sp, events))
  {
    if events != [] {
      var n := |events| - 1;
      var cs, now := Run(cfg, sp, events[..n]), events[n].now;
      ReachableIsFresh(cfg, sp, events[..n]);
      AliveMembers(cs, cfg.ttl, now);
      AliveIsFresh(cs, cfg.ttl, now);
      if events[n].Link? {
        var usable := Usable(sp, events[n].voices);
        var st0 := Matched(sp, cfg.threshold, usable, Alive(cs, cfg.ttl, now));
        LinkLeavesFresh(cfg, sp, cs, events[n].voices, now);
        LinkAllWeighted(cfg.cap, sp, st0, usable, |usable|, now);
      }
    }
  }

}
