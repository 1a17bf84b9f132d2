/** Greedy one-to-one matching: candidates are taken in order, each when both its sides are still free. */
module Matching {

  datatype Edge<A, B> = Edge(left: A, right: B)

  ghost predicate Touches<A, B>(e: Edge<A, B>, f: Edge<A, B>) {
    e.left == f.left || e.right == f.right
  }

  ghost predicate Free<A(!new), B(!new)>(chosen: seq<Edge<A, B>>, e: Edge<A, B>) {
    forall c :: c in chosen ==> !Touches(c, e)
  }

  ghost function Greedy<A(!new), B(!new)>(cands: seq<Edge<A, B>>): (chosen: seq<Edge<A, B>>)
    ensures forall c :: c in chosen ==> c in cands
  {
    if cands == [] then [] else
    var before, e := Greedy(cands[..|cands| - 1]), cands[|cands| - 1];
    if Free(before, e) then before + [e] else before
  }

  ghost predicate OneToOne<A, B>(es: seq<Edge<A, B>>) {
    forall i, j :: 0 <= i < j < |es| ==> !Touches(es[i], es[j])
  }

  lemma TouchingEdgesEqual<A, B>(es: seq<Edge<A, B>>, e: Edge<A, B>, f: Edge<A, B>)
    requires OneToOne(es) && e in es && f in es && Touches(e, f)
    ensures e == f
  {
    var i :| 0 <= i < |es| && es[i] == e;
    var j :| 0 <= j < |es| && es[j] == f;
  }

  /** Some candidate up to position `i` is chosen and shares a side with candidate `i`. */
  ghost predicate Settled<A, B>(cands: seq<Edge<A, B>>, chosen: seq<Edge<A, B>>, i: nat)
    requires i < |cands|
  {
    exists j :: 0 <= j <= i && cands[j] in chosen && Touches(cands[j], cands[i])
  }

  lemma {:induction false} GreedyFacts<A(!new), B(!new)>(cands: seq<Edge<A, B>>)
    ensures OneToOne(Greedy(cands))
    ensures forall i :: 0 <= i < |cands| ==> Settled(cands, Greedy(cands), i)
  {
    if cands != [] {
      var n := |cands| - 1;
      var shorter, e := cands[..n], cands[n];
      GreedyFacts(shorter);
      var before, chosen := Greedy(shorter), Greedy(cands);
      forall i | 0 <= i < |cands| ensures Settled(cands, chosen, i) {
        if i < n {
          assert Settled(shorter, before, i);
          var j :| 0 <= j <= i && shorter[j] in before && Touches(shorter[j], shorter[i]);
          assert cands[j] in chosen;
        } else if Free(before, e) {
          assert e in chosen;
        } else {
          var c :| c in before && Touches(c, e);
          assert c in shorter;
          var j :| 0 <= j < n && shorter[j] == c;
          assert cands[j] == c && c in chosen;
        }
      }
    }
  }

  /** Some earlier candidate is chosen and shares a side with candidate `k`. */
  ghost predicate Taken<A, B>(cands: seq<Edge<A, B>>, chosen: seq<Edge<A, B>>, k: nat)
    requires k < |cands|
  {
    exists j :: 0 <= j < k && cands[j] in chosen && Touches(cands[j], cands[k])
  }

  /** A candidate is chosen exactly when no earlier one that is chosen shares a side with it. */
  lemma GreedyTakesTheFree<A(!new), B(!new)>(cands: seq<Edge<A, B>>, k: nat)
    requires k < |cands| && forall i, j :: 0 <= i < j < |cands| ==> cands[i] != cands[j]
    ensures cands[k] in Greedy(cands) <==> !Taken(cands, Greedy(cands), k)
  {
    GreedyFacts(cands);
    assert Settled(cands, Greedy(cands), k);
    if cands[k] in Greedy(cands) && Taken(cands, Greedy(cands), k) {
      var j :| 0 <= j < k && cands[j] in Greedy(cands) && Touches(cands[j], cands[k]);
      TouchingEdgesEqual(Greedy(cands), cands[j], cands[k]);
    }
  }

  // ------------------------------------------------------------------ greedy is at least half as good

  ghost function Total<A, B>(w: Edge<A, B> -> real, es: seq<Edge<A, B>>): real {
    if es == [] then 0.0 else Total(w, es[..|es| - 1]) + w(es[|es| - 1])
  }

  /** Weight of the edges of `es` whose key is `k`. */
  ghost function WeightAt<A, B, K>(w: Edge<A, B> -> real, key: Edge<A, B> -> K, es: seq<Edge<A, B>>, k: K): (r: real)
    requires forall e :: e in es ==> w(e) >= 0.0
    ensures r >= 0.0
  {
    if es == [] then 0.0 else
    var n := |es| - 1;
    WeightAt(w, key, es[..n], k) + if key(es[n]) == k then w(es[n]) else 0.0
  }

  /** The weights found at the keys of `m`. */
  ghost function Charge<A, B, K>(w: Edge<A, B> -> real, key: Edge<A, B> -> K,
                                 es: seq<Edge<A, B>>, m: seq<Edge<A, B>>): real
    requires forall e :: e in es ==> w(e) >= 0.0
  {
    if m == [] then 0.0 else Charge(w, key, es, m[..|m| - 1]) + WeightAt(w, key, es, key(m[|m| - 1]))
  }

  ghost predicate DistinctBy<A, B, K>(key: Edge<A, B> -> K, m: seq<Edge<A, B>>) {
    forall i, j :: 0 <= i < j < |m| ==> key(m[i]) != key(m[j])
  }

  lemma {:induction false} WeightAtLeast<A, B, K>(w: Edge<A, B> -> real, key: Edge<A, B> -> K,
                                                 es: seq<Edge<A, B>>, e: Edge<A, B>)
    requires forall x :: x in es ==> w(x) >= 0.0
    requires e in es
    ensures WeightAt(w, key, es, key(e)) >= w(e)
  {
    var n := |es| - 1;
    if e != es[n] { WeightAtLeast(w, key, es[..n], e); }
  }

  /** Charging one more edge adds its weight at most once, because the keys of `m` are distinct. */
  lemma {:induction false} ChargeOne<A, B, K>(w: Edge<A, B> -> real, key: Edge<A, B> -> K,
                                             es: seq<Edge<A, B>>, m: seq<Edge<A, B>>)
    requires forall e :: e in es ==> w(e) >= 0.0
    requires es != [] && DistinctBy(key, m)
    ensures Charge(w, key, es, m) <= Charge(w, key, es[..|es| - 1], m) + w(es[|es| - 1])
    ensures (forall e :: e in m ==> key(e) != key(es[|es| - 1]))
            ==> Charge(w, key, es, m) == Charge(w, key, es[..|es| - 1], m)
  {
    if m != [] {
      var l := m[..|m| - 1];
      ChargeOne(w, key, es, l);
      if key(m[|m| - 1]) == key(es[|es| - 1]) {
        forall e | e in l ensures key(e) != key(es[|es| - 1]) {
          var i :| 0 <= i < |l| && l[i] == e;
          assert m[i] == e;
        }
      }
      assert m[|m| - 1] in m;
    }
  }

  lemma {:induction false} ChargeBounded<A, B, K>(w: Edge<A, B> -> real, key: Edge<A, B> -> K,
                                                 es: seq<Edge<A, B>>, m: seq<Edge<A, B>>)
    requires forall e :: e in es ==> w(e) >= 0.0
    requires DistinctBy(key, m)
    ensures Charge(w, key, es, m) <= Total(w, es)
  {
    if es == [] {
      ChargeNothing(w, key, m);
    } else {
      ChargeOne(w, key, es, m);
      ChargeBounded(w, key, es[..|es| - 1], m);
    }
  }

  lemma {:induction false} ChargeNothing<A, B, K>(w: Edge<A, B> -> real, key: Edge<A, B> -> K, m: seq<Edge<A, B>>)
    ensures Charge(w, key, [], m) == 0.0
  {
    if m != [] { ChargeNothing(w, key, m[..|m| - 1]); }
  }

  ghost predicate Descending<A, B>(w: Edge<A, B> -> real, cands: seq<Edge<A, B>>) {
    forall i, j :: 0 <= i < j < |cands| ==> w(cands[i]) >= w(cands[j])
  }

  /** No blocking pair: in descending order, every candidate meets a chosen one at least as good. */
  lemma NoBlockingPair<A(!new), B(!new)>(w: Edge<A, B> -> real, cands: seq<Edge<A, B>>, e: Edge<A, B>)
    returns (c: Edge<A, B>)
    requires Descending(w, cands) && e in cands
    ensures c in Greedy(cands) && Touches(c, e) && w(c) >= w(e)
  {
    GreedyFacts(cands);
    var i :| 0 <= i < |cands| && cands[i] == e;
    assert Settled(cands, Greedy(cands), i);
    var j :| 0 <= j <= i && cands[j] in Greedy(cands) && Touches(cands[j], cands[i]);
    c := cands[j];
  }

  lemma {:induction false} TotalBelowCharges<A(!new), B(!new)>(
      w: Edge<A, B> -> real, cands: seq<Edge<A, B>>, m: seq<Edge<A, B>>)
    requires Descending(w, cands) && (forall e :: e in cands ==> w(e) >= 0.0)
    requires forall e :: e in m ==> e in cands
    ensures var g := Greedy(cands);
            Total(w, m) <= Charge(w, (e: Edge<A, B>) => e.left, g, m) + Charge(w, (e: Edge<A, B>) => e.right, g, m)
  {
    if m != [] {
      var g, e := Greedy(cands), m[|m| - 1];
      TotalBelowCharges(w, cands, m[..|m| - 1]);
      var c := NoBlockingPair(w, cands, e);
      WeightAtLeast(w, (x: Edge<A, B>) => x.left, g, c);
      WeightAtLeast(w, (x: Edge<A, B>) => x.right, g, c);
    }
  }

  /** The greedy total is at least half the total of any one-to-one choice among the candidates. */
  lemma GreedyIsHalfOptimal<A(!new), B(!new)>(w: Edge<A, B> -> real, cands: seq<Edge<A, B>>, m: seq<Edge<A, B>>)
    requires Descending(w, cands) && (forall e :: e in cands ==> w(e) >= 0.0)
    requires OneToOne(m) && forall e :: e in m ==> e in cands
    ensures Total(w, m) <= 2.0 * Total(w, Greedy(cands))
  {
    var g := Greedy(cands);
    TotalBelowCharges(w, cands, m);
    ChargeBounded(w, (e: Edge<A, B>) => e.left, g, m);
    ChargeBounded(w, (e: Edge<A, B>) => e.right, g, m);
  }
}
