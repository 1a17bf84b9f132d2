/** Labels are arbitrary: a hypothesis that only renames the reference has no error. */
module DiarizationRenaming {
  import opened Basics
  import opened Order
  import opened Matching
  import opened DiarizationError

  /** Frames where a reference label speaks, and where a hypothesis label does. */
  ghost function RefTimes(fs: seq<Frame>, r: string): set<nat> {
    set i: nat | i < |fs| && r in fs[i].0
  }

  ghost function HypTimes(fs: seq<Frame>, h: string): set<nat> {
    set i: nat | i < |fs| && h in fs[i].1
  }

  lemma {:induction false} TogetherCounts(fs: seq<Frame>, r: string, h: string)
    ensures Together(fs, r, h) == |RefTimes(fs, r) * HypTimes(fs, h)|
  {
    if fs != [] {
      var n := |fs| - 1;
      TogetherCounts(fs[..n], r, h);
      BothTimesNext(fs, r, h);
    }
  }

  lemma BothTimesNext(fs: seq<Frame>, r: string, h: string)
    requires fs != []
    ensures var n := |fs| - 1;
            var before := RefTimes(fs[..n], r) * HypTimes(fs[..n], h);
            && n !in before
            && RefTimes(fs, r) * HypTimes(fs, h) == before + if r in fs[n].0 && h in fs[n].1 then {n} else {}
  {
  }

  ghost predicate OneToOneOn(rho: string -> string, names: set<string>) {
    forall a, b :: a in names && b in names && a != b ==> rho(a) != rho(b)
  }

  /** On every frame the hypothesis has exactly the new names of the reference labels. */
  ghost predicate Twins(fs: seq<Frame>, names: set<string>, rho: string -> string) {
    && OneToOneOn(rho, names)
    && (forall a :: a in names ==> RefTimes(fs, a) == HypTimes(fs, rho(a)))
    && (forall i, a :: 0 <= i < |fs| && a in fs[i].0 ==> a in names)
    && (forall i, h :: 0 <= i < |fs| && h in fs[i].1 ==> exists a :: a in names && rho(a) == h)
  }

  /** The labels active on exactly the frames `t`. */
  ghost function Class(fs: seq<Frame>, names: set<string>, t: set<nat>): set<string> {
    set a | a in names && RefTimes(fs, a) == t
  }

  /** A one-to-one map cannot send a set into itself and miss one of its elements. */
  lemma {:induction false} Pigeonhole(m: map<string, string>, x: string)
    requires Injective(m) && m.Values <= m.Keys && x in m.Keys
    ensures x in m.Values
  {
    InjectiveSize(m);
    if x !in m.Values { SubsetSize(m.Values, m.Keys - {x}); }
  }

  lemma {:induction false} InjectiveSize(m: map<string, string>)
    requires Injective(m)
    ensures |m.Values| == |m.Keys|
    decreases |m|
  {
    if m.Keys != {} {
      var k :| k in m.Keys;
      var rest := m - {k};
      assert rest.Keys == m.Keys - {k};
      forall v | v in m.Values ensures v in rest.Values + {m[k]} {
        var j :| j in m && m[j] == v;
        assert j != k ==> j in rest && rest[j] == v;
      }
      assert m.Values == rest.Values + {m[k]};
      InjectiveSize(rest);
    }
  }

  lemma SmallerOverlap(a: set<nat>, b: set<nat>)
    requires a != b
    ensures |a * b| < |a| || |a * b| < |b|
  {
    SubsetSize(a * b, a);
    SubsetSize(a * b, b);
    if |a * b| == |a| && |a * b| == |b| {
      SameSize(a * b, a);
      SameSize(a * b, b);
    }
  }

  lemma SameSize(a: set<nat>, b: set<nat>)
    requires a <= b && |a| == |b|
    ensures a == b
  {
    assert |b - a| == |b| - |a|;
  }

  /** A candidate of the ranking, and where it stands. */
  lemma RankedAt(fs: seq<Frame>, s: seq<Rank>, r: string, h: string) returns (j: nat)
    requires IsRanking(fs, s) && RefTimes(fs, r) == HypTimes(fs, h) != {}
    ensures j < |s| && s[j] == Rank(r, h, |RefTimes(fs, r)|)
  {
    TogetherCounts(fs, r, h);
    assert RefTimes(fs, r) * HypTimes(fs, h) == RefTimes(fs, r);
    assert |RefTimes(fs, r)| > 0;
    j :| 0 <= j < |s| && s[j] == Rank(r, h, Together(fs, r, h));
  }

  /** The chosen edge that settles candidate `j`, and where it stands. */
  lemma SettledAt(s: seq<Rank>, j: nat) returns (i: nat)
    requires j < |s|
    ensures i <= j && EdgesOf(s)[i] in Greedy(EdgesOf(s)) && Touches(EdgesOf(s)[i], EdgesOf(s)[j])
  {
    var es := EdgesOf(s);
    GreedyFacts(es);
    assert Settled(es, Greedy(es), j);
    i :| 0 <= i <= j && es[i] in Greedy(es) && Touches(es[i], es[j]);
  }

  /** Two positions of a ranking hold different edges. */
  lemma EdgesDistinct(fs: seq<Frame>, s: seq<Rank>, i: nat, j: nat)
    requires IsRanking(fs, s) && i < |s| && j < |s| && EdgesOf(s)[i] == EdgesOf(s)[j]
    ensures i == j
  {
    BeforeTotal();
    assert s[i] in s && s[j] in s;
    assert s[i] == s[j] && !Before(s[i], s[j]);
  }

  /** The first `k` candidates, when chosen, pair labels active on exactly the same frames. */
  ghost predicate PairsTwins(fs: seq<Frame>, s: seq<Rank>, k: nat)
    requires k <= |s|
  {
    forall i :: 0 <= i < k && EdgesOf(s)[i] in Greedy(EdgesOf(s)) ==> RefTimes(fs, s[i].r) == HypTimes(fs, s[i].h)
  }

  /** Every element `c` of the set has a partner in the set, none of them `a`. */
  ghost predicate PairedWithout(cl: set<string>, pair: (string, string) -> bool, a: string) {
    forall c {:trigger HasPartner(cl, pair, a, c)} :: c in cl ==> HasPartner(cl, pair, a, c)
  }

  ghost predicate HasPartner(cl: set<string>, pair: (string, string) -> bool, a: string, c: string) {
    exists d :: d in cl && d != a && pair(c, d)
  }

  ghost function Partners(cl: set<string>, pair: (string, string) -> bool, a: string): (m: map<string, string>)
    requires PairedWithout(cl, pair, a)
    ensures m.Keys == cl && forall c :: c in cl ==> m[c] in cl && m[c] != a && pair(c, m[c])
  {
    map c | c in cl :: assert HasPartner(cl, pair, a, c); var d :| d in cl && d != a && pair(c, d); d
  }

  lemma PartnersDiffer(cl: set<string>, pair: (string, string) -> bool, m: map<string, string>)
    requires m.Keys == cl && forall c :: c in cl ==> pair(c, m[c])
    requires forall c, c', d :: pair(c, d) && pair(c', d) && c in cl && c' in cl ==> c == c'
    ensures Injective(m)
  {
  }

  /** Impossible when no two elements share a partner and `a` is in the set. */
  lemma PartnersExhausted(cl: set<string>, pair: (string, string) -> bool, a: string)
    requires a in cl
    requires forall c, c', d :: pair(c, d) && pair(c', d) && c in cl && c' in cl ==> c == c'
    ensures !PairedWithout(cl, pair, a)
  {
    if PairedWithout(cl, pair, a) {
      var m := Partners(cl, pair, a);
      PartnersDiffer(cl, pair, m);
      Pigeonhole(m, a);
    }
  }

  ghost predicate IsChosen(s: seq<Rank>, i: nat) {
    i < |s| && EdgesOf(s)[i] in Greedy(EdgesOf(s))
  }

  /** Every candidate that overlaps on `n` frames or more stands before position `k`. */
  ghost predicate AllBefore(s: seq<Rank>, n: nat, k: nat) {
    forall j :: 0 <= j < |s| && s[j].n >= n ==> j < k
  }

  ghost predicate RefPaired(s: seq<Rank>, k: nat, a: string) {
    exists i: nat :: i < k && IsChosen(s, i) && s[i].r == a
  }

  ghost predicate HypPaired(s: seq<Rank>, k: nat, h: string) {
    exists i: nat :: i < k && IsChosen(s, i) && s[i].h == h
  }

  /** The chosen edge that settles the candidate of two labels active on the same frames. */
  lemma SettledCandidate(fs: seq<Frame>, s: seq<Rank>, k: nat, r: string, h: string) returns (i: nat)
    requires IsRanking(fs, s) && k <= |s| && PairsTwins(fs, s, k)
    requires RefTimes(fs, r) == HypTimes(fs, h) != {} && AllBefore(s, |RefTimes(fs, r)|, k)
    ensures i < k && IsChosen(s, i) && (s[i].r == r || s[i].h == h)
    ensures RefTimes(fs, s[i].r) == HypTimes(fs, s[i].h)
    ensures Edge(s[i].h, s[i].r) in Greedy(EdgesOf(s))
  {
    var j := RankedAt(fs, s, r, h);
    i := SettledAt(s, j);
    assert IsChosen(s, i);
  }

  lemma RefPartner(fs: seq<Frame>, names: set<string>, rho: string -> string, s: seq<Rank>, k: nat, a: string, c: string)
    returns (d: string)
    requires Twins(fs, names, rho) && IsRanking(fs, s) && k <= |s| && PairsTwins(fs, s, k)
    requires a in names && c in Class(fs, names, RefTimes(fs, a)) && RefTimes(fs, a) != {}
    requires AllBefore(s, |RefTimes(fs, a)|, k) && !RefPaired(s, k, a)
    ensures d in Class(fs, names, RefTimes(fs, a)) && d != a && Edge(rho(c), d) in Greedy(EdgesOf(s))
  {
    var i := SettledCandidate(fs, s, k, a, rho(c));
    d := s[i].r;
    var f :| f in RefTimes(fs, d);
  }

  lemma HypPartner(fs: seq<Frame>, names: set<string>, rho: string -> string, s: seq<Rank>, k: nat, b: string, d: string)
    returns (c: string)
    requires Twins(fs, names, rho) && IsRanking(fs, s) && k <= |s| && PairsTwins(fs, s, k)
    requires b in names && d in Class(fs, names, RefTimes(fs, b)) && RefTimes(fs, b) != {}
    requires AllBefore(s, |RefTimes(fs, b)|, k) && !HypPaired(s, k, rho(b))
    ensures c in Class(fs, names, RefTimes(fs, b)) && c != b && Edge(rho(c), d) in Greedy(EdgesOf(s))
  {
    var i := SettledCandidate(fs, s, k, d, rho(b));
    var f :| f in HypTimes(fs, s[i].h);
    c :| c in names && rho(c) == s[i].h;
  }

  /** A reference label whose full overlap stands before `k` is paired before `k`. */
  lemma RefIsPaired(fs: seq<Frame>, names: set<string>, rho: string -> string, s: seq<Rank>, k: nat, a: string)
    requires Twins(fs, names, rho) && IsRanking(fs, s) && k <= |s| && PairsTwins(fs, s, k)
    requires a in names && RefTimes(fs, a) != {} && AllBefore(s, |RefTimes(fs, a)|, k)
    ensures RefPaired(s, k, a)
  {
    if !RefPaired(s, k, a) {
      var cl := Class(fs, names, RefTimes(fs, a));
      var pair := (x: string, y: string) => Edge(rho(x), y) in Greedy(EdgesOf(s));
      forall c | c in cl ensures HasPartner(cl, pair, a, c) {
        var d := RefPartner(fs, names, rho, s, k, a, c);
        assert pair(c, d);
      }
      GreedyFacts(EdgesOf(s));
      forall c, c', d | pair(c, d) && pair(c', d) && c in cl && c' in cl ensures c == c' {
        TouchingEdgesEqual(Greedy(EdgesOf(s)), Edge(rho(c), d), Edge(rho(c'), d));
      }
      PartnersExhausted(cl, pair, a);
    }
  }

  lemma HypIsPaired(fs: seq<Frame>, names: set<string>, rho: string -> string, s: seq<Rank>, k: nat, b: string)
    requires Twins(fs, names, rho) && IsRanking(fs, s) && k <= |s| && PairsTwins(fs, s, k)
    requires b in names && RefTimes(fs, b) != {} && AllBefore(s, |RefTimes(fs, b)|, k)
    ensures HypPaired(s, k, rho(b))
  {
    if !HypPaired(s, k, rho(b)) {
      var cl := Class(fs, names, RefTimes(fs, b));
      var pair := (x: string, y: string) => Edge(rho(y), x) in Greedy(EdgesOf(s));
      forall d | d in cl ensures HasPartner(cl, pair, b, d) {
        var c := HypPartner(fs, names, rho, s, k, b, d);
        assert pair(d, c);
      }
      GreedyFacts(EdgesOf(s));
      forall d, d', c | pair(d, c) && pair(d', c) && d in cl && d' in cl ensures d == d' {
        TouchingEdgesEqual(Greedy(EdgesOf(s)), Edge(rho(c), d), Edge(rho(c), d'));
      }
      PartnersExhausted(cl, pair, b);
    }
  }

  /** A chosen edge is the only chosen one on its side. */
  lemma ChosenOnce(fs: seq<Frame>, s: seq<Rank>, i: nat, j: nat)
    requires IsRanking(fs, s) && IsChosen(s, i) && IsChosen(s, j) && (s[i].r == s[j].r || s[i].h == s[j].h)
    ensures i == j
  {
    GreedyFacts(EdgesOf(s));
    TouchingEdgesEqual(Greedy(EdgesOf(s)), EdgesOf(s)[i], EdgesOf(s)[j]);
    EdgesDistinct(fs, s, i, j);
  }

  lemma RankedFacts(fs: seq<Frame>, names: set<string>, rho: string -> string, s: seq<Rank>, i: nat) returns (b: string)
    requires Twins(fs, names, rho) && IsRanking(fs, s) && i < |s|
    ensures s[i].r in names && b in names && rho(b) == s[i].h
    ensures s[i].n == |RefTimes(fs, s[i].r) * HypTimes(fs, s[i].h)| > 0
  {
    var x := s[i];
    assert x in s;
    TogetherCounts(fs, x.r, x.h);
    var f :| f in RefTimes(fs, x.r) * HypTimes(fs, x.h);
    b :| b in names && rho(b) == x.h;
  }

  /** Longer overlaps stand before shorter ones. */
  lemma LongerBefore(fs: seq<Frame>, s: seq<Rank>, i: nat, n: nat)
    requires IsRanking(fs, s) && i < |s| && n > s[i].n
    ensures AllBefore(s, n, i)
  {
    forall j | 0 <= j < |s| && s[j].n >= n ensures j < i {
      assert i < j ==> Before(s[i], s[j]);
    }
  }

  /** The greedy mapping of a renamed hypothesis pairs only labels active on exactly the same frames. */
  lemma {:induction false} GreedyPairsTwins(fs: seq<Frame>, names: set<string>, rho: string -> string, s: seq<Rank>, k: nat)
    requires Twins(fs, names, rho) && IsRanking(fs, s) && k <= |s|
    ensures PairsTwins(fs, s, k)
  {
    if k > 0 {
      var i := k - 1;
      GreedyPairsTwins(fs, names, rho, s, i);
      var b := RankedFacts(fs, names, rho, s, i);
      var a := s[i].r;
      if IsChosen(s, i) && RefTimes(fs, a) != RefTimes(fs, b) {
        SmallerOverlap(RefTimes(fs, a), RefTimes(fs, b));
        if |RefTimes(fs, a)| > s[i].n {
          LongerBefore(fs, s, i, |RefTimes(fs, a)|);
          RefIsPaired(fs, names, rho, s, i, a);
          var j: nat :| j < i && IsChosen(s, j) && s[j].r == a;
          ChosenOnce(fs, s, i, j);
        } else {
          LongerBefore(fs, s, i, |RefTimes(fs, b)|);
          HypIsPaired(fs, names, rho, s, i, b);
          var j: nat :| j < i && IsChosen(s, j) && s[j].h == rho(b);
          ChosenOnce(fs, s, i, j);
        }
      }
    }
  }

  /** Every new name that speaks at all is mapped, to a label active on exactly the same frames. */
  lemma EveryNameMapped(fs: seq<Frame>, names: set<string>, rho: string -> string, s: seq<Rank>, b: string)
    requires Twins(fs, names, rho) && IsRanking(fs, s) && b in names && RefTimes(fs, b) != {}
    ensures rho(b) in Mapping(s) && RefTimes(fs, Mapping(s)[rho(b)]) == HypTimes(fs, rho(b))
  {
    GreedyPairsTwins(fs, names, rho, s, |s|);
    HypIsPaired(fs, names, rho, s, |s|, b);
    var i: nat :| i < |s| && IsChosen(s, i) && s[i].h == rho(b);
    MappingIsGreedy(s);
    assert Edge(rho(b), s[i].r) in Greedy(EdgesOf(s));
  }

  // ------------------------------------------------------------------ no error

  lemma {:induction false} AllCorrect(m: map<string, string>, r: seq<string>, h: seq<string>)
    requires forall x :: x in h ==> x in m && m[x] in r
    ensures Correct(m, r, h) == |h|
  {
    if h != [] {
      assert forall x :: x in h[..|h| - 1] ==> x in h;
      AllCorrect(m, r, h[..|h| - 1]);
    }
  }

  lemma FrameAllCorrect(fs: seq<Frame>, names: set<string>, rho: string -> string, s: seq<Rank>, i: nat)
    requires Twins(fs, names, rho) && IsRanking(fs, s) && Proper(fs) && i < |fs|
    ensures |fs[i].0| == |fs[i].1| == Correct(Mapping(s), fs[i].0, fs[i].1)
  {
    var (r, h) := fs[i];
    var m := Mapping(s);
    forall x | x in h ensures x in m && m[x] in r {
      var b :| b in names && rho(b) == x;
      assert i in HypTimes(fs, x);
      EveryNameMapped(fs, names, rho, s, b);
      assert i in RefTimes(fs, m[x]);
    }
    AllCorrect(m, r, h);
    MappingIsGreedy(s);
    CorrectIsBounded(m, r, h);
    NoMoreInReference(fs, names, rho, i);
  }

  /** A renaming carries the labels of a frame of the reference to as many of the hypothesis. */
  lemma NoMoreInReference(fs: seq<Frame>, names: set<string>, rho: string -> string, i: nat)
    requires Twins(fs, names, rho) && Proper(fs) && i < |fs|
    ensures |fs[i].0| <= |fs[i].1|
  {
    var (r, h) := fs[i];
    var back := map a | a in Elements(r) :: rho(a);
    assert back.Values <= Elements(h) by {
      forall a | a in Elements(r) ensures rho(a) in h {
        assert i in RefTimes(fs, a);
        assert i in HypTimes(fs, rho(a));
      }
    }
    assert back.Keys == Elements(r);
    InjectiveSize(back);
    SubsetSize(back.Values, Elements(h));
    ElementsCount(r);
    ElementsCount(h);
  }

  lemma {:induction false} NoErrorUpTo(fs: seq<Frame>, names: set<string>, rho: string -> string, s: seq<Rank>, k: nat)
    requires Twins(fs, names, rho) && IsRanking(fs, s) && Proper(fs) && k <= |fs|
    ensures var d := Account(Mapping(s), fs[..k]); d.miss == d.falseAlarm == d.confusion == 0
  {
    if k > 0 {
      NoErrorUpTo(fs, names, rho, s, k - 1);
      FrameAllCorrect(fs, names, rho, s, k - 1);
      assert fs[..k][..k - 1] == fs[..k - 1];
    }
  }

  // ------------------------------------------------------------------ from turns

  function Renamed(turns: seq<Turn>, rho: string -> string): seq<Turn> {
    seq(|turns|, i requires 0 <= i < |turns| => turns[i].(who := rho(turns[i].who)))
  }

  ghost function Names(turns: seq<Turn>): set<string> {
    set i | 0 <= i < |turns| :: turns[i].who
  }

  lemma {:induction false} LabelsAtRenamed(turns: seq<Turn>, rho: string -> string, t: nat)
    ensures |LabelsAt(Renamed(turns, rho), t)| == |LabelsAt(turns, t)|
    ensures forall i :: 0 <= i < |LabelsAt(turns, t)| ==>
              && LabelsAt(Renamed(turns, rho), t)[i] == rho(LabelsAt(turns, t)[i])
              && LabelsAt(turns, t)[i] in Names(turns)
  {
    if turns != [] {
      var n := |turns| - 1;
      LabelsAtRenamed(turns[..n], rho, t);
      assert Renamed(turns, rho)[..n] == Renamed(turns[..n], rho);
      assert Names(turns[..n]) <= Names(turns) by {
        forall x | x in Names(turns[..n]) ensures x in Names(turns) {
          var i :| 0 <= i < n && turns[..n][i].who == x;
          assert turns[i].who == x;
        }
      }
    }
  }

  lemma ActiveRenamed(turns: seq<Turn>, rho: string -> string, t: nat)
    requires OneToOneOn(rho, Names(turns))
    ensures forall a :: a in Active(turns, t) ==> a in Names(turns)
    ensures forall a :: a in Names(turns) ==> (a in Active(turns, t) <==> rho(a) in Active(Renamed(turns, rho), t))
    ensures forall h :: h in Active(Renamed(turns, rho), t) ==> exists a :: a in Names(turns) && rho(a) == h
    ensures NoDuplicates(Active(turns, t)) && NoDuplicates(Active(Renamed(turns, rho), t))
  {
    LabelsAtRenamed(turns, rho, t);
    ActiveProper(turns, t);
    ActiveProper(Renamed(turns, rho), t);
  }

  lemma ActiveProper(turns: seq<Turn>, t: nat)
    ensures forall x :: x in Active(turns, t) <==> x in LabelsAt(turns, t)
    ensures NoDuplicates(Active(turns, t))
  {
    SortedNamesFacts(LabelsAt(turns, t));
    StringLessTotal();
  }

  lemma FramesProper(reference: seq<Turn>, hypothesis: seq<Turn>)
    ensures Proper(Frames(reference, hypothesis))
  {
    forall t: nat ensures NoDuplicates(Active(reference, t)) && NoDuplicates(Active(hypothesis, t)) {
      ActiveProper(reference, t);
      ActiveProper(hypothesis, t);
    }
  }

  lemma FramesAreTwins(turns: seq<Turn>, rho: string -> string)
    requires OneToOneOn(rho, Names(turns))
    ensures Twins(Frames(turns, Renamed(turns, rho)), Names(turns), rho)
  {
    var fs := Frames(turns, Renamed(turns, rho));
    forall i | 0 <= i < |fs|
      ensures forall a :: a in fs[i].0 ==> a in Names(turns)
      ensures forall a :: a in Names(turns) ==> (a in fs[i].0 <==> rho(a) in fs[i].1)
      ensures forall h :: h in fs[i].1 ==> exists a :: a in Names(turns) && rho(a) == h
    {
      ActiveRenamed(turns, rho, DER_FRAME_MS * i);
    }
    assert forall a :: a in Names(turns) ==> RefTimes(fs, a) == HypTimes(fs, rho(a));
  }

  /** Labels are arbitrary: for every list of turns, renaming its labels one-to-one gives no miss, no false alarm
      and no confusion. */
  lemma RenamingHasNoError(turns: seq<Turn>, rho: string -> string, s: seq<Rank>)
    requires OneToOneOn(rho, Names(turns))
    requires IsRanking(Frames(turns, Renamed(turns, rho)), s)
    ensures var d := Account(Mapping(s), Frames(turns, Renamed(turns, rho)));
            d.miss == d.falseAlarm == d.confusion == 0
  {
    var fs := Frames(turns, Renamed(turns, rho));
    FramesAreTwins(turns, rho);
    FramesProper(turns, Renamed(turns, rho));
    NoErrorUpTo(fs, Names(turns), rho, s, |fs|);
    assert fs[..|fs|] == fs;
  }
}
