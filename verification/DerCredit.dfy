/** How good the greedy label map is: no one-to-one map credits more than twice the frames it does. */
module DiarizationCredit {
  import opened Matching
  import opened DiarizationError

  /** Frames that the pairs of `es`, each a hypothesis label and a reference label, share. */
  ghost function Shared(fs: seq<Frame>, es: seq<Edge<string, string>>): nat {
    if es == [] then 0 else
    var n := |es| - 1;
    Shared(fs, es[..n]) + Together(fs, es[n].right, es[n].left)
  }

  predicate IsHit(e: Edge<string, string>, f: Frame) {
    e.right in f.0 && e.left in f.1
  }

  ghost function Hits(es: seq<Edge<string, string>>, f: Frame): nat {
    if es == [] then 0 else
    var n := |es| - 1;
    Hits(es[..n], f) + if IsHit(es[n], f) then 1 else 0
  }

  lemma {:induction false} SharedByFrame(fs: seq<Frame>, es: seq<Edge<string, string>>)
    requires fs != []
    ensures Shared(fs, es) == Shared(fs[..|fs| - 1], es) + Hits(es, fs[|fs| - 1])
    decreases es
  {
    if es != [] { SharedByFrame(fs, es[..|es| - 1]); }
  }

  /** The edges are the pairs of the map, each once. */
  ghost predicate Lists(m: map<string, string>, es: seq<Edge<string, string>>) {
    OneToOne(es) && forall h, r :: h in m && m[h] == r <==> Edge(h, r) in es
  }

  ghost function HitLabels(es: seq<Edge<string, string>>, f: Frame): (s: set<string>)
    ensures forall x :: x in s ==> exists e :: e in es && e.left == x && IsHit(e, f)
  {
    if es == [] then {} else
    var n := |es| - 1;
    assert forall e :: e in es[..n] ==> e in es;
    assert es[n] in es;
    HitLabels(es[..n], f) + if IsHit(es[n], f) then {es[n].left} else {}
  }

  lemma {:induction false} HitLabelsHas(es: seq<Edge<string, string>>, f: Frame, e: Edge<string, string>)
    requires e in es && IsHit(e, f)
    ensures e.left in HitLabels(es, f)
  {
    var n := |es| - 1;
    if e in es[..n] {
      HitLabelsHas(es[..n], f, e);
    } else {
      assert e == es[n];
    }
  }

  lemma {:induction false} HitsCount(es: seq<Edge<string, string>>, f: Frame)
    requires OneToOne(es)
    ensures |HitLabels(es, f)| == Hits(es, f)
  {
    if es != [] {
      var n := |es| - 1;
      HitsCount(es[..n], f);
      forall e | e in es[..n] ensures e.left != es[n].left {
        var i :| 0 <= i < n && es[i] == e;
        assert !Touches(es[i], es[n]);
      }
    }
  }

  ghost function CorrectLabels(m: map<string, string>, r: seq<string>, h: seq<string>): (s: set<string>)
    ensures forall x :: x in s <==> x in h && x in m && m[x] in r
  {
    if h == [] then {} else
    var n := |h| - 1;
    assert h == h[..n] + [h[n]];
    CorrectLabels(m, r, h[..n]) + if h[n] in m && m[h[n]] in r then {h[n]} else {}
  }

  lemma {:induction false} CorrectCount(m: map<string, string>, r: seq<string>, h: seq<string>)
    requires NoDuplicates(h)
    ensures |CorrectLabels(m, r, h)| == Correct(m, r, h)
  {
    if h != [] { CorrectCount(m, r, h[..|h| - 1]); }
  }

  lemma HitsAreCorrect(m: map<string, string>, es: seq<Edge<string, string>>, f: Frame)
    requires Lists(m, es) && NoDuplicates(f.1)
    ensures Hits(es, f) == Correct(m, f.0, f.1)
  {
    HitsCount(es, f);
    CorrectCount(m, f.0, f.1);
    forall x ensures x in HitLabels(es, f) <==> x in CorrectLabels(m, f.0, f.1) {
      if x in HitLabels(es, f) {
        var e :| e in es && e.left == x && IsHit(e, f);
        assert e == Edge(x, e.right);
      }
      if x in CorrectLabels(m, f.0, f.1) {
        assert Edge(x, m[x]) in es;
        HitLabelsHas(es, f, Edge(x, m[x]));
      }
    }
    assert HitLabels(es, f) == CorrectLabels(m, f.0, f.1);
  }

  /** What a map credits over all frames is what its pairs share, 10 ms each. */
  lemma {:induction false} CreditIsShared(m: map<string, string>, es: seq<Edge<string, string>>, fs: seq<Frame>)
    requires Lists(m, es) && Proper(fs)
    ensures CorrectMs(m, fs) == Shared(fs, es) * DER_FRAME_MS
    decreases fs
  {
    if fs == [] {
      NoFrames(es);
    } else {
      var n := |fs| - 1;
      CreditIsShared(m, es, fs[..n]);
      SharedByFrame(fs, es);
      HitsAreCorrect(m, es, fs[n]);
    }
  }

  lemma {:induction false} NoFrames(es: seq<Edge<string, string>>)
    ensures Shared([], es) == 0
  {
    if es != [] { NoFrames(es[..|es| - 1]); }
  }

  // ------------------------------------------------------------------ the pairs of a map

  ghost function PairsOf(m: map<string, string>): (es: seq<Edge<string, string>>)
    ensures forall e :: e in es <==> e.left in m && m[e.left] == e.right
    decreases |m|
  {
    if m == map[] then [] else
    var k :| k in m;
    [Edge(k, m[k])] + PairsOf(m - {k})
  }

  lemma {:induction false} PairsAreListed(m: map<string, string>)
    requires Injective(m)
    ensures Lists(m, PairsOf(m))
    decreases |m|
  {
    if m != map[] {
      var es := PairsOf(m);
      var rest := m - {es[0].left};
      PairsAreListed(rest);
      assert es[1..] == PairsOf(rest);
      forall i, j | 0 <= i < j < |es| ensures !Touches(es[i], es[j]) {
        if i == 0 {
          assert es[j] == es[1..][j - 1] && es[j] in PairsOf(rest);
        } else {
          assert es[i] == es[1..][i - 1] && es[j] == es[1..][j - 1];
        }
      }
    }
  }

  /** The pairs that share any frame at all. */
  ghost function Meeting(fs: seq<Frame>, es: seq<Edge<string, string>>): (r: seq<Edge<string, string>>)
    ensures forall e :: e in r ==> e in es && Together(fs, e.right, e.left) > 0
  {
    if es == [] then [] else
    var n := |es| - 1;
    Meeting(fs, es[..n]) + if Together(fs, es[n].right, es[n].left) > 0 then [es[n]] else []
  }

  lemma {:induction false} MeetingShares(fs: seq<Frame>, es: seq<Edge<string, string>>)
    requires OneToOne(es)
    ensures Shared(fs, Meeting(fs, es)) == Shared(fs, es) && OneToOne(Meeting(fs, es))
    decreases es
  {
    if es != [] {
      var n := |es| - 1;
      var before, r := Meeting(fs, es[..n]), Meeting(fs, es);
      MeetingShares(fs, es[..n]);
      forall e | e in before ensures !Touches(e, es[n]) {
        var i :| 0 <= i < n && es[..n][i] == e;
        assert !Touches(es[i], es[n]);
      }
      if r != before { assert r[..|r| - 1] == before; }
    }
  }

  // ------------------------------------------------------------------ the greedy map is half as good as any

  ghost function Overlap(fs: seq<Frame>): Edge<string, string> -> real {
    (e: Edge<string, string>) => Together(fs, e.right, e.left) as real
  }

  lemma {:induction false} TotalIsShared(fs: seq<Frame>, es: seq<Edge<string, string>>)
    ensures Total(Overlap(fs), es) == Shared(fs, es) as real
    decreases es
  {
    if es != [] { TotalIsShared(fs, es[..|es| - 1]); }
  }

  lemma RankingDescends(fs: seq<Frame>, s: seq<Rank>)
    requires IsRanking(fs, s)
    ensures Descending(Overlap(fs), EdgesOf(s))
  {
    forall i | 0 <= i < |s| ensures Overlap(fs)(EdgesOf(s)[i]) == s[i].n as real {
      assert s[i] in s;
    }
    forall i, j | 0 <= i < j < |s| ensures s[i].n >= s[j].n {
      assert Before(s[i], s[j]);
    }
  }

  /** No one-to-one map of the labels credits more than twice what the greedy one does. */
  lemma GreedyMapIsHalfOptimal(fs: seq<Frame>, s: seq<Rank>, m: map<string, string>)
    requires IsRanking(fs, s) && Proper(fs) && Injective(m)
    ensures CorrectMs(m, fs) <= 2 * CorrectMs(Mapping(s), fs)
  {
    var w, cands, es := Overlap(fs), EdgesOf(s), PairsOf(m);
    PairsAreListed(m);
    MeetingShares(fs, es);
    var other := Meeting(fs, es);
    forall e | e in other ensures e in cands {
      var x := Rank(e.right, e.left, Together(fs, e.right, e.left));
      assert x in s;
      var i :| 0 <= i < |s| && s[i] == x;
      assert cands[i] == e;
    }
    RankingDescends(fs, s);
    GreedyIsHalfOptimal(w, cands, other);
    TotalIsShared(fs, other);
    TotalIsShared(fs, Greedy(cands));
    MappingIsGreedy(s);
    GreedyFacts(cands);
    CreditIsShared(m, es, fs);
    CreditIsShared(Mapping(s), Greedy(cands), fs);
  }
}
