/** The frames, the ranking and the accounts of the error rate, in terms of the turns alone. */
module DiarizationTurns {
  import opened Basics
  import opened Order
  import opened DiarizationError
  import opened DiarizationRenaming
  import SpeakingTime

  /** The labels that have a turn around the moment `t`. */
  ghost function SpeakersAt(turns: seq<Turn>, t: nat): set<string> {
    set k | 0 <= k < |turns| && turns[k].start <= t < turns[k].end :: turns[k].who
  }

  /** `s` holds each element of the set once. */
  ghost predicate Lists(s: seq<string>, e: set<string>) {
    NoDuplicates(s) && |s| == |e| && forall x :: x in s <==> x in e
  }

  lemma {:induction false} LabelsAtHas(turns: seq<Turn>, t: nat, x: string)
    ensures x in LabelsAt(turns, t) <==> x in SpeakersAt(turns, t)
  {
    if turns != [] {
      var n := |turns| - 1;
      LabelsAtHas(turns[..n], t, x);
      if x in SpeakersAt(turns[..n], t) {
        var k :| 0 <= k < n && turns[..n][k].start <= t < turns[..n][k].end && turns[..n][k].who == x;
        assert turns[k].who == x;
      }
      if x in SpeakersAt(turns, t) {
        var k :| 0 <= k < |turns| && turns[k].start <= t < turns[k].end && turns[k].who == x;
        if k < n { assert turns[..n][k].who == x; }
      }
    }
  }

  lemma ActiveIs(turns: seq<Turn>, t: nat)
    ensures Lists(Active(turns, t), SpeakersAt(turns, t))
  {
    var s := Active(turns, t);
    SortedNamesFacts(LabelsAt(turns, t));
    StringLessTotal();
    forall x ensures x in s <==> x in SpeakersAt(turns, t) { LabelsAtHas(turns, t, x); }
    ElementsCount(s);
    assert Elements(s) == SpeakersAt(turns, t);
  }

  /** Some turn ends after `t`. */
  ghost predicate GoesOn(turns: seq<Turn>, t: nat) {
    exists x :: x in turns && t < x.end
  }

  lemma {:induction false} LastEndIs(turns: seq<Turn>, t: nat)
    ensures t < LastEnd(turns) <==> GoesOn(turns, t)
  {
    if turns != [] {
      var n := |turns| - 1;
      LastEndIs(turns[..n], t);
      assert turns == turns[..n] + [turns[n]];
      assert turns[n] in turns;
    }
  }

  /** There are `n` moments on the 10 ms grid before the last end of all the turns. */
  ghost predicate GridSize(turns: seq<Turn>, n: nat) {
    forall i: nat :: i < n <==> GoesOn(turns, 10 * i)
  }

  /** The frames are those moments, each with the labels that have a turn around it. */
  lemma FramesAreTurns(reference: seq<Turn>, hypothesis: seq<Turn>)
    ensures var fs := Frames(reference, hypothesis);
            && GridSize(reference + hypothesis, |fs|)
            && forall i: nat :: i < |fs| ==>
                 Lists(fs[i].0, SpeakersAt(reference, 10 * i)) && Lists(fs[i].1, SpeakersAt(hypothesis, 10 * i))
  {
    var fs, all := Frames(reference, hypothesis), reference + hypothesis;
    forall i: nat ensures i < |fs| <==> GoesOn(all, 10 * i) {
      LastEndIs(all, 10 * i);
    }
    forall i: nat | i < |fs|
      ensures Lists(fs[i].0, SpeakersAt(reference, 10 * i)) && Lists(fs[i].1, SpeakersAt(hypothesis, 10 * i))
    {
      ActiveIs(reference, 10 * i);
      ActiveIs(hypothesis, 10 * i);
    }
  }

  // ------------------------------------------------------------------ the accounts

  /** The hypothesis labels `h` that the map takes to one of the labels `r`. */
  ghost function RightOnes(m: map<string, string>, r: set<string>, h: set<string>): set<string> {
    set x | x in h && x in m && m[x] in r
  }

  /** The figures over the first `n` moments of the 10 ms grid, each counted for 10 ms. */
  ghost function DerOn(reference: seq<Turn>, hypothesis: seq<Turn>, n: nat, m: map<string, string>): Der {
    if n == 0 then Der(0, 0, 0, 0) else
    var d := DerOn(reference, hypothesis, n - 1, m);
    var r, h := SpeakersAt(reference, 10 * (n - 1)), SpeakersAt(hypothesis, 10 * (n - 1));
    Der(d.total + 10 * |r|,
        d.miss + 10 * Max(0, |r| - |h|),
        d.falseAlarm + 10 * Max(0, |h| - |r|),
        d.confusion + 10 * (Min(|r|, |h|) - |RightOnes(m, r, h)|))
  }

  lemma {:induction false} CorrectCounts(m: map<string, string>, r: seq<string>, h: seq<string>)
    requires NoDuplicates(h)
    ensures Correct(m, r, h) == |RightOnes(m, Elements(r), Elements(h))|
  {
    if h != [] {
      var n := |h| - 1;
      CorrectCounts(m, r, h[..n]);
      RightOnesNext(m, Elements(r), Elements(h[..n]), h[n]);
    }
  }

  lemma RightOnesNext(m: map<string, string>, r: set<string>, h: set<string>, x: string)
    requires x !in h
    ensures |RightOnes(m, r, h + {x})| == |RightOnes(m, r, h)| + if x in m && m[x] in r then 1 else 0
  {
    assert RightOnes(m, r, h + {x}) == RightOnes(m, r, h) + if x in m && m[x] in r then {x} else {};
  }

  lemma FrameFigures(m: map<string, string>, f: Frame, r: set<string>, h: set<string>)
    requires Lists(f.0, r) && Lists(f.1, h)
    ensures |f.0| == |r| && |f.1| == |h| && Correct(m, f.0, f.1) == |RightOnes(m, r, h)|
  {
    CorrectCounts(m, f.0, f.1);
    assert Elements(f.0) == r && Elements(f.1) == h;
  }

  lemma {:induction false} AccountIs(reference: seq<Turn>, hypothesis: seq<Turn>, fs: seq<Frame>, m: map<string, string>)
    requires forall i: nat :: i < |fs| ==>
               Lists(fs[i].0, SpeakersAt(reference, 10 * i)) && Lists(fs[i].1, SpeakersAt(hypothesis, 10 * i))
    ensures Account(m, fs) == DerOn(reference, hypothesis, |fs|, m)
  {
    if fs != [] {
      var n := |fs| - 1;
      AccountIs(reference, hypothesis, fs[..n], m);
      FrameFigures(m, fs[n], SpeakersAt(reference, 10 * n), SpeakersAt(hypothesis, 10 * n));
    }
  }

  /** The figures of `ComputeDer`, on the turns. */
  lemma DerIsOnTurns(reference: seq<Turn>, hypothesis: seq<Turn>, n: nat, m: map<string, string>)
    requires GridSize(reference + hypothesis, n)
    ensures Account(m, Frames(reference, hypothesis)) == DerOn(reference, hypothesis, n, m)
  {
    var fs := Frames(reference, hypothesis);
    FramesAreTurns(reference, hypothesis);
    GridSizeUnique(reference + hypothesis, n, |fs|);
    AccountIs(reference, hypothesis, fs, m);
  }

  lemma GridSizeUnique(turns: seq<Turn>, n: nat, k: nat)
    requires GridSize(turns, n) && GridSize(turns, k)
    ensures n == k
  {
    assert GoesOn(turns, 10 * n) <==> n < k;
    assert GoesOn(turns, 10 * k) <==> k < n;
  }

  // ------------------------------------------------------------------ the total

  /** The labels and moments of the 10 ms grid with a turn of that label around that moment. */
  ghost function Slots(turns: seq<Turn>): set<(string, nat)> {
    SlotsBelow(turns, LastEnd(turns))
  }

  lemma SpeakerGoesOn(turns: seq<Turn>, x: string, t: nat)
    requires x in SpeakersAt(turns, t)
    ensures GoesOn(turns, t)
  {
    var k :| 0 <= k < |turns| && turns[k].start <= t < turns[k].end && turns[k].who == x;
    assert turns[k] in turns;
  }

  lemma MoreGoesOn(turns: seq<Turn>, more: seq<Turn>, t: nat)
    requires GoesOn(turns, t)
    ensures GoesOn(turns + more, t)
  {
    var x :| x in turns && t < x.end;
    assert x in turns + more;
  }

  lemma SlotsHas(turns: seq<Turn>, x: string, i: nat)
    ensures (x, i) in Slots(turns) <==> exists k :: 0 <= k < |turns| && turns[k].who == x && turns[k].start <= 10 * i < turns[k].end
  {
    SlotsBelowHas(turns, LastEnd(turns), x, i);
    if x in SpeakersAt(turns, 10 * i) {
      SpeakerGoesOn(turns, x, 10 * i);
      LastEndIs(turns, 10 * i);
    }
  }

  ghost function SlotsBelow(turns: seq<Turn>, n: nat): set<(string, nat)> {
    if n == 0 then {} else SlotsBelow(turns, n - 1) + SlotsAt(SpeakersAt(turns, 10 * (n - 1)), n - 1)
  }

  lemma {:induction false} SlotsBelowHas(turns: seq<Turn>, n: nat, x: string, i: nat)
    ensures (x, i) in SlotsBelow(turns, n) <==> i < n && x in SpeakersAt(turns, 10 * i)
  {
    if n > 0 { SlotsBelowHas(turns, n - 1, x, i); }
  }

  ghost predicate Earlier(slots: set<(string, nat)>, n: nat) {
    forall p :: p in slots ==> p.1 < n
  }

  lemma {:induction false} SlotsBelowEarlier(turns: seq<Turn>, n: nat)
    ensures Earlier(SlotsBelow(turns, n), n)
  {
    if n > 0 { SlotsBelowEarlier(turns, n - 1); }
  }

  ghost function SlotsAt(names: set<string>, i: nat): set<(string, nat)> {
    set x | x in names :: (x, i)
  }

  lemma {:induction false} SlotsAtCount(names: set<string>, i: nat)
    ensures |SlotsAt(names, i)| == |names|
  {
    if names != {} {
      var x :| x in names;
      SlotsAtCount(names - {x}, i);
      assert SlotsAt(names, i) == SlotsAt(names - {x}, i) + {(x, i)};
    }
  }

  lemma UnionCount<T>(a: set<T>, b: set<T>)
    requires a !! b
    ensures |a + b| == |a| + |b|
  {
  }

  /** How many labels have a turn at the first `n` moments of the grid, moment by moment. */
  ghost function Voices(turns: seq<Turn>, n: nat): nat {
    if n == 0 then 0 else Voices(turns, n - 1) + |SpeakersAt(turns, 10 * (n - 1))|
  }

  lemma {:induction false} TotalIsVoices(reference: seq<Turn>, hypothesis: seq<Turn>, n: nat, m: map<string, string>)
    ensures DerOn(reference, hypothesis, n, m).total == 10 * Voices(reference, n)
  {
    if n > 0 { TotalIsVoices(reference, hypothesis, n - 1, m); }
  }

  lemma {:induction false} SlotsBelowCount(turns: seq<Turn>, n: nat)
    ensures |SlotsBelow(turns, n)| == Voices(turns, n)
  {
    if n > 0 {
      SlotsBelowCount(turns, n - 1);
      SlotsBelowNext(turns, n);
    }
  }

  lemma SlotsBelowNext(turns: seq<Turn>, n: nat)
    requires n > 0
    ensures |SlotsBelow(turns, n)| == |SlotsBelow(turns, n - 1)| + |SpeakersAt(turns, 10 * (n - 1))|
  {
    SlotsBelowEarlier(turns, n - 1);
    SlotsNext(SlotsBelow(turns, n - 1), SpeakersAt(turns, 10 * (n - 1)), n - 1, SlotsBelow(turns, n));
  }

  lemma SlotsNext(before: set<(string, nat)>, now: set<string>, i: nat, all: set<(string, nat)>)
    requires Earlier(before, i) && all == before + SlotsAt(now, i)
    ensures |all| == |before| + |now|
  {
    SlotsAtCount(now, i);
    UnionCount(before, SlotsAt(now, i));
  }

  lemma SlotsEqual(a: set<(string, nat)>, b: set<(string, nat)>)
    requires forall x, i: nat :: (x, i) in a <==> (x, i) in b
    ensures a == b
  {
    forall p: (string, nat) ensures p in a <==> p in b {
      assert p == (p.0, p.1);
    }
  }

  /** The total is 10 ms for every label and moment of the grid with a turn of that label around that moment. */
  lemma TotalIsSlots(reference: seq<Turn>, hypothesis: seq<Turn>, n: nat, m: map<string, string>)
    requires GridSize(reference + hypothesis, n)
    ensures DerOn(reference, hypothesis, n, m).total == 10 * |Slots(reference)|
  {
    TotalIsVoices(reference, hypothesis, n, m);
    SlotsBelowCount(reference, n);
    forall x, i: nat ensures (x, i) in SlotsBelow(reference, n) <==> (x, i) in Slots(reference) {
      SlotsBelowHas(reference, n, x, i);
      SlotsBelowHas(reference, LastEnd(reference), x, i);
      if x in SpeakersAt(reference, 10 * i) { 
        SpeakerGoesOn(reference, x, 10 * i);
        LastEndIs(reference, 10 * i);
        MoreGoesOn(reference, hypothesis, 10 * i);
      }
    }
    SlotsEqual(SlotsBelow(reference, n), Slots(reference));
  }

  // ------------------------------------------------------------------ the total is the speaking time

  ghost predicate OnGrid(turns: seq<Turn>) {
    forall k :: 0 <= k < |turns| ==> turns[k].start % 10 == 0 && turns[k].end % 10 == 0
  }

  /** At how many of the first `n` moments of the grid there is a turn of `x`. */
  ghost function Count(turns: seq<Turn>, x: string, n: nat): nat {
    if n == 0 then 0 else Count(turns, x, n - 1) + if x in SpeakersAt(turns, 10 * (n - 1)) then 1 else 0
  }

  lemma SameSlot(turns: seq<Turn>, x: string, i: nat, d: nat)
    requires OnGrid(turns) && d < 10
    ensures x in SpeakersAt(turns, 10 * i + d) <==> x in SpeakersAt(turns, 10 * i)
  {
    if k :| 0 <= k < |turns| && turns[k].who == x && turns[k].start <= 10 * i + d < turns[k].end {
      assert turns[k].start <= 10 * i < turns[k].end;
    }
    if k :| 0 <= k < |turns| && turns[k].who == x && turns[k].start <= 10 * i < turns[k].end {
      assert turns[k].start <= 10 * i + d < turns[k].end;
    }
  }

  lemma SpeechIs(turns: seq<Turn>, x: string, t: nat)
    ensures t in SpeakingTime.Speech(turns, x) <==> x in SpeakersAt(turns, t)
  {
    SpeakingTime.SpeechMembers(turns, x, t);
    if k :| 0 <= k < |turns| && turns[k].who == x && turns[k].start <= t < turns[k].end {
      assert turns[k] in turns;
    }
  }

  ghost function First(e: set<nat>, n: nat): set<nat> {
    set t | t in e && t < n
  }

  ghost function Ten(i: nat): (r: set<nat>)
    ensures |r| == 10
  {
    {10 * i, 10 * i + 1, 10 * i + 2, 10 * i + 3, 10 * i + 4, 10 * i + 5, 10 * i + 6, 10 * i + 7, 10 * i + 8, 10 * i + 9}
  }

  lemma TenIs(i: nat, t: nat)
    ensures t in Ten(i) <==> 10 * i <= t < 10 * i + 10
  {
  }

  lemma NextTen(e: set<nat>, i: nat, all: bool)
    requires forall t: nat :: 10 * i <= t < 10 * i + 10 ==> (t in e <==> all)
    ensures |First(e, 10 * (i + 1))| == |First(e, 10 * i)| + if all then 10 else 0
  {
    forall t: nat ensures t in Ten(i) <==> 10 * i <= t < 10 * i + 10 { TenIs(i, t); }
    assert First(e, 10 * (i + 1)) == First(e, 10 * i) + if all then Ten(i) else {};
    if all { UnionCount(First(e, 10 * i), Ten(i)); }
  }

  lemma {:induction false} SpeechCounts(turns: seq<Turn>, x: string, n: nat)
    requires OnGrid(turns)
    ensures |First(SpeakingTime.Speech(turns, x), 10 * n)| == 10 * Count(turns, x, n)
  {
    var e := SpeakingTime.Speech(turns, x);
    if n == 0 {
      assert First(e, 0) == {};
    } else {
      SpeechCounts(turns, x, n - 1);
      var all := x in SpeakersAt(turns, 10 * (n - 1));
      forall t: nat | 10 * (n - 1) <= t < 10 * (n - 1) + 10 ensures t in e <==> all {
        SpeechIs(turns, x, t);
        SameSlot(turns, x, n - 1, t - 10 * (n - 1));
      }
      NextTen(e, n - 1, all);
    }
  }

  /** The milliseconds that the labels of the list speak, together. */
  ghost function SpeechOf(turns: seq<Turn>, names: seq<string>): nat {
    if names == [] then 0
    else SpeechOf(turns, names[..|names| - 1]) + |SpeakingTime.Speech(turns, names[|names| - 1])|
  }

  ghost function CountOf(turns: seq<Turn>, names: seq<string>, n: nat): nat {
    if names == [] then 0 else CountOf(turns, names[..|names| - 1], n) + Count(turns, names[|names| - 1], n)
  }

  lemma {:induction false} SpeechOfCounts(turns: seq<Turn>, names: seq<string>)
    requires OnGrid(turns)
    ensures SpeechOf(turns, names) == 10 * CountOf(turns, names, LastEnd(turns))
  {
    if names != [] {
      var x, n := names[|names| - 1], LastEnd(turns);
      SpeechOfCounts(turns, names[..|names| - 1]);
      SpeechCounts(turns, x, n);
      var e := SpeakingTime.Speech(turns, x);
      forall t | t in e ensures t < 10 * n {
        SpeechIs(turns, x, t);
        SpeakerGoesOn(turns, x, t);
        LastEndIs(turns, t);
      }
      assert First(e, 10 * n) == e;
    }
  }

  lemma {:induction false} NobodyYet(turns: seq<Turn>, names: seq<string>)
    ensures CountOf(turns, names, 0) == 0
  {
    if names != [] { NobodyYet(turns, names[..|names| - 1]); }
  }

  lemma {:induction false} CountOfNext(turns: seq<Turn>, names: seq<string>, n: nat)
    requires NoDuplicates(names)
    ensures CountOf(turns, names, n + 1) == CountOf(turns, names, n) + |SpeakersAt(turns, 10 * n) * Elements(names)|
  {
    var e := SpeakersAt(turns, 10 * n);
    if names == [] {
      assert e * Elements(names) == {};
    } else {
      var before, x := names[..|names| - 1], names[|names| - 1];
      CountOfNext(turns, before, n);
      MeetNext(e, Elements(before), x);
    }
  }

  lemma MeetNext(e: set<string>, names: set<string>, x: string)
    requires x !in names
    ensures |e * (names + {x})| == |e * names| + if x in e then 1 else 0
  {
    assert e * (names + {x}) == e * names + if x in e then {x} else {};
  }

  lemma AllAreNamed(turns: seq<Turn>, names: set<string>, t: nat)
    requires Names(turns) <= names
    ensures |SpeakersAt(turns, t) * names| == |SpeakersAt(turns, t)|
  {
    assert SpeakersAt(turns, t) * names == SpeakersAt(turns, t);
  }

  lemma {:induction false} VoicesAreCounts(turns: seq<Turn>, names: seq<string>, n: nat)
    requires NoDuplicates(names) && Names(turns) <= Elements(names)
    ensures Voices(turns, n) == CountOf(turns, names, n)
  {
    if n == 0 {
      NobodyYet(turns, names);
    } else {
      VoicesAreCounts(turns, names, n - 1);
      AllCounted(turns, names, n - 1, n);
    }
  }

  lemma AllCounted(turns: seq<Turn>, names: seq<string>, i: nat, n: nat)
    requires NoDuplicates(names) && Names(turns) <= Elements(names) && n == i + 1
    ensures CountOf(turns, names, n) == CountOf(turns, names, i) + |SpeakersAt(turns, 10 * i)|
  {
    CountOfNext(turns, names, i);
    AllAreNamed(turns, Elements(names), 10 * i);
  }

  /** For turns that start and end on the 10 ms grid, the total is the speaking time of all the labels together. */
  lemma TotalIsSpeech(turns: seq<Turn>, names: seq<string>)
    requires OnGrid(turns) && NoDuplicates(names) && forall x :: x in names <==> x in Names(turns)
    ensures 10 * |Slots(turns)| == SpeechOf(turns, names)
  {
    SlotsBelowCount(turns, LastEnd(turns));
    VoicesAreCounts(turns, names, LastEnd(turns));
    SpeechOfCounts(turns, names);
  }

  // ------------------------------------------------------------------ the ranking and the map

  /** The moments of the grid where `r` has a turn in the reference and `h` one in the hypothesis. */
  ghost function Shared(reference: seq<Turn>, hypothesis: seq<Turn>, r: string, h: string): set<nat> {
    set p | p in Slots(reference) && p.0 == r && (h, p.1) in Slots(hypothesis) :: p.1
  }

  lemma SharedHas(reference: seq<Turn>, hypothesis: seq<Turn>, r: string, h: string, i: nat)
    ensures i in Shared(reference, hypothesis, r, h) <==>
            r in SpeakersAt(reference, 10 * i) && h in SpeakersAt(hypothesis, 10 * i)
  {
    SlotsHas(reference, r, i);
    SlotsHas(hypothesis, h, i);
    if (r, i) in Slots(reference) && (h, i) in Slots(hypothesis) {
      assert (r, i).1 in Shared(reference, hypothesis, r, h);
    }
  }

  lemma TogetherIsShared(reference: seq<Turn>, hypothesis: seq<Turn>, r: string, h: string)
    ensures Together(Frames(reference, hypothesis), r, h) == |Shared(reference, hypothesis, r, h)|
  {
    var fs, shared := Frames(reference, hypothesis), Shared(reference, hypothesis, r, h);
    TogetherCounts(fs, r, h);
    FramesAreTurns(reference, hypothesis);
    forall i: nat ensures i in shared <==> i in RefTimes(fs, r) * HypTimes(fs, h) {
      SharedHas(reference, hypothesis, r, h, i);
      if r in SpeakersAt(reference, 10 * i) {
        SpeakerGoesOn(reference, r, 10 * i);
        MoreGoesOn(reference, hypothesis, 10 * i);
      }
    }
    assert shared == RefTimes(fs, r) * HypTimes(fs, h);
  }

  /** The pairs of labels that share a moment, each with the number of moments shared: most first, then by the label of
      the reference, then by the other one. */
  lemma RankingIsOnTurns(reference: seq<Turn>, hypothesis: seq<Turn>, s: seq<Rank>)
    requires IsRanking(Frames(reference, hypothesis), s)
    ensures forall x :: x in s <==> x.n > 0 && x.n == |Shared(reference, hypothesis, x.r, x.h)|
    ensures forall i, j :: 0 <= i < j < |s| ==>
              s[i].n > s[j].n || (s[i].n == s[j].n && (StringLess(s[i].r, s[j].r) || (s[i].r == s[j].r && StringLess(s[i].h, s[j].h))))
  {
    var fs := Frames(reference, hypothesis);
    forall x ensures x in s <==> x.n > 0 && x.n == |Shared(reference, hypothesis, x.r, x.h)| {
      TogetherIsShared(reference, hypothesis, x.r, x.h);
      if x.n > 0 && x.n == Together(fs, x.r, x.h) { assert x == Rank(x.r, x.h, Together(fs, x.r, x.h)); }
    }
  }

  ghost predicate Mapped(m: map<string, string>, x: Rank) {
    x.h in m && m[x.h] == x.r
  }

  ghost predicate PairsDiffer(s: seq<Rank>) {
    forall i, j :: 0 <= i < j < |s| ==> s[i].r != s[j].r || s[i].h != s[j].h
  }

  /** An earlier pair of the map has one of the labels of pair `j`. */
  ghost predicate Blocked(m: map<string, string>, s: seq<Rank>, j: nat)
    requires j < |s|
  {
    exists i :: 0 <= i < j && Mapped(m, s[i]) && (s[i].r == s[j].r || s[i].h == s[j].h)
  }

  ghost predicate HasPair(s: seq<Rank>, r: string, h: string) {
    exists j :: 0 <= j < |s| && s[j].r == r && s[j].h == h
  }

  /** Nothing is in the map but pairs of the list. */
  lemma {:induction false} MapHoldsPairs(s: seq<Rank>)
    ensures forall h :: h in Mapping(s) ==> HasPair(s, Mapping(s)[h], h)
  {
    if s != [] {
      var n := |s| - 1;
      MapHoldsPairs(s[..n]);
      forall h | h in Mapping(s) ensures HasPair(s, Mapping(s)[h], h) {
        if h in Mapping(s[..n]) {
          var j :| 0 <= j < n && s[..n][j].r == Mapping(s)[h] && s[..n][j].h == h;
          assert s[j].h == h;
        }
      }
    }
  }

  /** A pair is in the map exactly when no earlier pair in the map has one of its labels. */
  lemma {:induction false} MapTakesFreePairs(s: seq<Rank>)
    requires PairsDiffer(s)
    ensures forall j: nat :: j < |s| ==> (Mapped(Mapping(s), s[j]) <==> !Blocked(Mapping(s), s, j))
  {
    if s != [] {
      var n := |s| - 1;
      MapTakesFreePairs(s[..n]);
      MapHoldsPairs(s[..n]);
      forall j: nat | j < |s| ensures Mapped(Mapping(s), s[j]) <==> !Blocked(Mapping(s), s, j) {
        if j < n { EarlierPair(s, j); } else { LastPair(s); }
      }
    }
  }

  lemma MapGrows(s: seq<Rank>, j: nat)
    requires PairsDiffer(s) && j < |s| - 1
    ensures Mapped(Mapping(s), s[j]) <==> Mapped(Mapping(s[..|s| - 1]), s[j])
  {
  }

  lemma EarlierPair(s: seq<Rank>, j: nat)
    requires PairsDiffer(s) && j < |s| - 1
    requires var t := s[..|s| - 1]; Mapped(Mapping(t), t[j]) <==> !Blocked(Mapping(t), t, j)
    ensures Mapped(Mapping(s), s[j]) <==> !Blocked(Mapping(s), s, j)
  {
    var t := s[..|s| - 1];
    forall i: nat | i <= j ensures Mapped(Mapping(s), s[i]) <==> Mapped(Mapping(t), t[i]) { MapGrows(s, i); }
  }

  lemma LastPair(s: seq<Rank>)
    requires s != [] && PairsDiffer(s)
    requires var m := Mapping(s[..|s| - 1]); forall h :: h in m ==> HasPair(s[..|s| - 1], m[h], h)
    ensures Mapped(Mapping(s), s[|s| - 1]) <==> !Blocked(Mapping(s), s, |s| - 1)
  {
    LastIsBlocked(s, s[..|s| - 1], Mapping(s[..|s| - 1]), Mapping(s));
    LastIsMapped(s, s[..|s| - 1], Mapping(s[..|s| - 1]));
  }

  /** The list `s` with `t` before its last pair, and the two maps. */
  lemma LastIsBlocked(s: seq<Rank>, t: seq<Rank>, before: map<string, string>, m: map<string, string>)
    requires s != [] && PairsDiffer(s) && t == s[..|s| - 1] && before == Mapping(t) && m == Mapping(s)
    requires forall h :: h in before ==> HasPair(t, before[h], h)
    ensures Blocked(m, s, |s| - 1) <==> s[|s| - 1].h in before || s[|s| - 1].r in before.Values
  {
    var n := |s| - 1;
    var x := s[n];
    forall i: nat | i < n ensures Mapped(m, s[i]) <==> Mapped(before, s[i]) { MapGrows(s, i); }
    if x.h in before {
      var j := PairOf(t, before, x.h);
      assert Mapped(m, s[j]) && s[j].h == x.h;
    } else if x.r in before.Values {
      var h :| h in before && before[h] == x.r;
      var j := PairOf(t, before, h);
      assert Mapped(m, s[j]) && s[j].r == x.r;
    }
  }

  lemma LastIsMapped(s: seq<Rank>, t: seq<Rank>, before: map<string, string>)
    requires s != [] && PairsDiffer(s) && t == s[..|s| - 1] && before == Mapping(t)
    requires forall h :: h in before ==> HasPair(t, before[h], h)
    ensures Mapped(Mapping(s), s[|s| - 1]) <==> s[|s| - 1].h !in before && s[|s| - 1].r !in before.Values
  {
    var x := s[|s| - 1];
    if x.h in before && before[x.h] == x.r {
      var _ := PairOf(t, before, x.h);
    }
  }

  lemma PairOf(s: seq<Rank>, m: map<string, string>, h: string) returns (j: nat)
    requires h in m && HasPair(s, m[h], h)
    ensures j < |s| && s[j].h == h && s[j].r == m[h]
  {
    j :| 0 <= j < |s| && s[j].r == m[h] && s[j].h == h;
  }

  lemma RankedPairsDiffer(reference: seq<Turn>, hypothesis: seq<Turn>, s: seq<Rank>)
    requires IsRanking(Frames(reference, hypothesis), s)
    ensures PairsDiffer(s)
  {
    BeforeTotal();
    forall i, j | 0 <= i < j < |s| ensures s[i].r != s[j].r || s[i].h != s[j].h {
      assert Before(s[i], s[j]) && s[i] in s && s[j] in s;
      var fs := Frames(reference, hypothesis);
      assert s[i].n == Together(fs, s[i].r, s[i].h) && s[j].n == Together(fs, s[j].r, s[j].h);
    }
  }
}
