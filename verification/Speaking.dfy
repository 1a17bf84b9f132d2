/** Speaking time per label: a sweep over sorted spans, against the set of milliseconds they cover. */
module SpeakingTime {
  import opened Basics
  import opened Order
  import opened Sorting
  import opened DiarizationError

  datatype Span = Span(s: u32, e: u32)

  /** Subtraction of 32-bit numbers, which wraps around below zero. */
  function Minus32(a: u32, b: u32): u32 {
    if b <= a then a - b else a - b + U32
  }

  predicate Leq(a: Span, b: Span) {
    a.s < b.s || (a.s == b.s && a.e <= b.e)
  }

  /** `sort_unstable`: spans that compare equal are equal. */
  function SortSpans(s: seq<Span>): seq<Span> {
    Sort(Leq, s)
  }

  ghost predicate Sorted(s: seq<Span>) {
    InOrder(Leq, s)
  }

  lemma SortSpansFacts(s: seq<Span>)
    ensures Sorted(SortSpans(s)) && forall y :: y in SortSpans(s) <==> y in s
  {
    SortSorts(Leq, s);
    forall y ensures y in SortSpans(s) <==> y in s { SortHas(Leq, s, y); }
  }

  // ------------------------------------------------------------------ the sweep

  /** Length of the clusters closed so far, and the open one. */
  datatype Sweep = Sweep(total: nat, open: Option<Span>)

  predicate Meets(w: Sweep, x: Span) {
    w.open.Some? && x.s <= w.open.value.e
  }

  function Step(w: Sweep, x: Span): Sweep {
    if Meets(w, x) then Sweep(w.total, Some(Span(w.open.value.s, Max(w.open.value.e, x.e))))
    else Sweep(w.total + (if w.open.Some? then Minus32(w.open.value.e, w.open.value.s) else 0), Some(x))
  }

  function Swept(xs: seq<Span>): Sweep {
    if xs == [] then Sweep(0, None) else Step(Swept(xs[..|xs| - 1]), xs[|xs| - 1])
  }

  function Spoken(xs: seq<Span>): nat {
    var w := Swept(xs);
    w.total + if w.open.Some? then Max(0, w.open.value.e - w.open.value.s) else 0
  }

  // ------------------------------------------------------------------ the milliseconds covered

  ghost function Range(x: Span): (r: set<nat>)
    ensures |r| == Max(0, x.e - x.s) && forall t: nat :: t in r <==> x.s <= t < x.e
    decreases x.e
  {
    if x.e <= x.s then {} else Range(Span(x.s, x.e - 1)) + {x.e - 1}
  }

  ghost function Covered(xs: seq<Span>): set<nat> {
    if xs == [] then {} else Covered(xs[..|xs| - 1]) + Range(xs[|xs| - 1])
  }

  /** A millisecond is covered when it lies in one of the spans, whatever their order. */
  lemma {:induction false} CoveredMembers(xs: seq<Span>, t: nat)
    ensures t in Covered(xs) <==> exists x :: x in xs && x.s <= t < x.e
  {
    if xs != [] {
      var n := |xs| - 1;
      CoveredMembers(xs[..n], t);
      assert xs == xs[..n] + [xs[n]];
      assert xs[n] in xs;
    }
  }

  predicate Inverted(x: Span) {
    x.e < x.s
  }

  /** Some span goes on until `t` or later. */
  ghost predicate Reaches(xs: seq<Span>, t: nat) {
    exists x :: x in xs && t <= x.e
  }

  /** Span `i` starts after everything before it has ended. */
  ghost predicate Opens(xs: seq<Span>, i: nat) {
    i < |xs| && !Reaches(xs[..i], xs[i].s)
  }

  /** Span `i` is inverted, stands alone, and another one follows: the sweep closes it with a negative length. */
  ghost predicate BreaksAt(xs: seq<Span>, i: nat) {
    i + 1 < |xs| && Inverted(xs[i]) && Opens(xs, i)
  }

  ghost predicate Broken(xs: seq<Span>) {
    exists i: nat :: BreaksAt(xs, i)
  }

  /** The milliseconds of the closed clusters. */
  ghost function Closed(xs: seq<Span>): set<nat> {
    if xs == [] then {} else
    var w := Swept(xs[..|xs| - 1]);
    if w.open.None? || Meets(w, xs[|xs| - 1]) then Closed(xs[..|xs| - 1])
    else Closed(xs[..|xs| - 1]) + Range(w.open.value)
  }

  /** The open cluster, and what is closed before it. */
  ghost predicate Tracks(xs: seq<Span>) {
    xs != [] ==>
      && Swept(xs).open.Some?
      && var c := Swept(xs).open.value;
         && c.s <= xs[|xs| - 1].s
         && (Inverted(c) <==> Inverted(xs[|xs| - 1]) && Opens(xs, |xs| - 1))
         && (forall t: nat :: t in Closed(xs) ==> t < c.s)
         && Covered(xs) == Closed(xs) + Range(c)
  }

  lemma ReachesNext(xs: seq<Span>, t: nat)
    requires xs != []
    ensures var n := |xs| - 1; Reaches(xs, t) <==> Reaches(xs[..n], t) || t <= xs[n].e
  {
    assert xs == xs[..|xs| - 1] + [xs[|xs| - 1]];
    assert forall y :: y in xs <==> y in xs[..|xs| - 1] || y == xs[|xs| - 1];
  }

  /** The end of the open cluster decides what the next span meets. */
  lemma {:induction false} EndDecides(xs: seq<Span>, t: nat)
    requires xs != [] && Sorted(xs) && t >= xs[|xs| - 1].s
    ensures Swept(xs).open.Some? && (t <= Swept(xs).open.value.e <==> Reaches(xs, t))
  {
    var n := |xs| - 1;
    ReachesNext(xs, t);
    if n > 0 {
      assert Leq(xs[n - 1], xs[n]);
      EndDecides(xs[..n], t);
      EndDecides(xs[..n], xs[n].s);
      assert Reaches(xs[..n], t) ==> Reaches(xs[..n], xs[n].s);
    }
  }

  lemma MeetsUnlessOpens(xs: seq<Span>, n: nat)
    requires n + 1 == |xs| && Sorted(xs)
    ensures Meets(Swept(xs[..n]), xs[n]) <==> !Opens(xs, n)
  {
    if n > 0 {
      assert Leq(xs[n - 1], xs[n]);
      EndDecides(xs[..n], xs[n].s);
    }
  }

  lemma {:induction false} SweepTracks(xs: seq<Span>)
    requires Sorted(xs)
    ensures Tracks(xs)
  {
    if xs != [] {
      var n := |xs| - 1;
      assert xs == xs[..n] + [xs[n]] && xs[n] in xs;
      SweepTracks(xs[..n]);
      MeetsUnlessOpens(xs, n);
      if n > 0 {
        assert Leq(xs[n - 1], xs[n]);
        if Opens(xs, n) { TracksNew(xs, n); } else { TracksSame(xs, n); }
      } else {
        FirstTracks(xs);
      }
    }
  }

  lemma FirstTracks(xs: seq<Span>)
    requires |xs| == 1
    ensures Tracks(xs)
  {
    assert xs[..0] == [];
    assert Covered(xs) == Covered(xs[..0]) + Range(xs[0]);
  }

  lemma RangesJoin(c: Span, x: Span)
    requires c.s <= x.s <= c.e
    ensures Range(Span(c.s, Max(c.e, x.e))) == Range(c) + Range(x)
  {
  }

  lemma TracksSame(xs: seq<Span>, n: nat)
    requires 0 < n && n + 1 == |xs| && Tracks(xs[..n]) && xs[n - 1].s <= xs[n].s
    requires Meets(Swept(xs[..n]), xs[n]) && !Opens(xs, n)
    ensures Tracks(xs)
  {
    var c, x := Swept(xs[..n]).open.value, xs[n];
    assert x in xs;
    assert c.s <= xs[..n][n - 1].s == xs[n - 1].s;
    RangesJoin(c, x);
    assert Closed(xs) == Closed(xs[..n]);
    assert Covered(xs) == Covered(xs[..n]) + Range(x);
  }

  lemma TracksNew(xs: seq<Span>, n: nat)
    requires 0 < n && n + 1 == |xs| && Tracks(xs[..n]) && xs[n - 1].s <= xs[n].s
    requires !Meets(Swept(xs[..n]), xs[n]) && Opens(xs, n)
    ensures Tracks(xs)
  {
    var c, x := Swept(xs[..n]).open.value, xs[n];
    assert x in xs;
    assert c.s <= xs[..n][n - 1].s == xs[n - 1].s;
    assert Closed(xs) == Closed(xs[..n]) + Range(c);
    assert Covered(xs) == Covered(xs[..n]) + Range(x);
  }

  lemma BrokenStep(xs: seq<Span>, n: nat)
    requires n + 1 == |xs|
    ensures Broken(xs) <==> Broken(xs[..n]) || (n > 0 && BreaksAt(xs, n - 1))
  {
    forall i: nat | i + 1 < n ensures BreaksAt(xs, i) <==> BreaksAt(xs[..n], i) {
      assert xs[..i] == xs[..n][..i];
    }
    if i: nat :| BreaksAt(xs[..n], i) { assert BreaksAt(xs, i); }
    if i: nat :| BreaksAt(xs, i) { assert i + 1 < n ==> BreaksAt(xs[..n], i); }
  }

  /** What has been closed is its exact length, or more once a negative length has been closed. */
  lemma {:induction false} ClosedLength(xs: seq<Span>)
    requires Sorted(xs)
    ensures CountsClosed(xs)
  {
    if xs != [] {
      var n := |xs| - 1;
      ClosedLength(xs[..n]);
      if n > 0 { ClosedLengthNext(xs, n); }
    }
  }

  ghost predicate CountsClosed(xs: seq<Span>) {
    if Broken(xs) then Swept(xs).total > |Closed(xs)| else Swept(xs).total == |Closed(xs)|
  }

  lemma ClosedLengthNext(xs: seq<Span>, n: nat)
    requires Sorted(xs) && 0 < n && n + 1 == |xs| && CountsClosed(xs[..n])
    ensures CountsClosed(xs)
  {
    BrokenStep(xs, n);
    ClosedLengthStep(xs, n);
  }

  lemma ClosedLengthStep(xs: seq<Span>, n: nat)
    requires Sorted(xs) && 0 < n && n + 1 == |xs|
    ensures var before := xs[..n];
            var c := Swept(before).open;
            && c.Some? && (BreaksAt(xs, n - 1) <==> Inverted(c.value))
            && (Meets(Swept(before), xs[n]) ==> !Inverted(c.value) && Closed(xs) == Closed(before))
            && (!Meets(Swept(before), xs[n]) ==> |Closed(xs)| == |Closed(before)| + |Range(c.value)|)
  {
    var before := xs[..n];
    SweepTracks(before);
    assert before[n - 1] == xs[n - 1] && before[..n - 1] == xs[..n - 1] && Leq(xs[n - 1], xs[n]);
    var c := Swept(before).open.value;
    if !Meets(Swept(before), xs[n]) {
      assert Closed(before) !! Range(c);
      assert Closed(xs) == Closed(before) + Range(c);
    }
  }

  /** The sweep over the sorted spans gives the number of milliseconds covered by at least one of them, exactly
      when no inverted span stands alone before another one. */
  lemma SpokenIsCovered(xs: seq<Span>)
    requires Sorted(xs)
    ensures Spoken(xs) == |Covered(xs)| <==> !Broken(xs)
    ensures (forall x :: x in xs ==> !Inverted(x)) ==> !Broken(xs)
  {
    ClosedLength(xs);
    SweepTracks(xs);
    if xs != [] {
      var c := Swept(xs).open.value;
      assert Closed(xs) !! Range(c);
      assert |Covered(xs)| == |Closed(xs)| + |Range(c)|;
    }
  }

  // ------------------------------------------------------------------ per label

  function SpansOf(turns: seq<Turn>, who: string): seq<Span> {
    if turns == [] then [] else
    var n := |turns| - 1;
    SpansOf(turns[..n], who) + if turns[n].who == who then [Span(turns[n].start, turns[n].end)] else []
  }

  function SpeakingOf(turns: seq<Turn>, who: string): nat {
    Spoken(SortSpans(SpansOf(turns, who)))
  }

  lemma {:induction false} SpansOfMembers(turns: seq<Turn>, who: string)
    ensures forall x :: x in SpansOf(turns, who) <==> Turn(who, x.s, x.e) in turns
  {
    if turns != [] {
      SpansOfMembers(turns[..|turns| - 1], who);
      assert turns == turns[..|turns| - 1] + [turns[|turns| - 1]];
    }
  }

  /** The milliseconds at which `who` speaks. */
  ghost function Speech(turns: seq<Turn>, who: string): set<nat> {
    Covered(SortSpans(SpansOf(turns, who)))
  }

  lemma SpeechMembers(turns: seq<Turn>, who: string, t: nat)
    ensures t in Speech(turns, who) <==> exists x :: x in turns && x.who == who && x.start <= t < x.end
  {
    var xs := SpansOf(turns, who);
    SpansOfMembers(turns, who);
    SortSpansFacts(xs);
    CoveredMembers(SortSpans(xs), t);
    if x :| x in turns && x.who == who && x.start <= t < x.end {
      assert x == Turn(who, x.start, x.end);
      assert Span(x.start, x.end) in SortSpans(xs);
    }
    if y :| y in SortSpans(xs) && y.s <= t < y.e {
      assert Turn(who, y.s, y.e) in turns;
    }
  }

  /** Overlapping turns of a label are counted once: its time is the number of milliseconds at which it speaks,
      exactly when none of its turns breaks the sweep; turns that end no earlier than they start never do. */
  lemma SpeakingIsSpeech(turns: seq<Turn>, who: string)
    ensures SpeakingOf(turns, who) == |Speech(turns, who)| <==> !Broken(SortSpans(SpansOf(turns, who)))
    ensures (forall t :: t in turns && t.who == who ==> t.start <= t.end) ==> !Broken(SortSpans(SpansOf(turns, who)))
  {
    var xs := SortSpans(SpansOf(turns, who));
    SpansOfMembers(turns, who);
    SortSpansFacts(SpansOf(turns, who));
    forall x | x in xs ensures Turn(who, x.s, x.e) in turns {
      assert x in SpansOf(turns, who);
    }
    SpokenIsCovered(xs);
  }

  /** An inverted turn before another one of the same label: 1 ms is spoken, and the sweep wraps around. */
  lemma InvertedTurnBreaks()
    ensures Spoken([Span(5, 3), Span(6, 7)]) == U32 - 1 && |Covered([Span(5, 3), Span(6, 7)])| == 1
  {
    var xs := [Span(5, 3), Span(6, 7)];
    assert xs[..1] == [Span(5, 3)] && xs[..1][..0] == [];
    assert Swept(xs[..1]) == Sweep(0, Some(Span(5, 3)));
    assert Swept(xs) == Step(Swept(xs[..1]), Span(6, 7));
    assert Range(Span(5, 3)) == {} && Covered(xs[..1]) == {};
    assert Covered(xs) == Range(Span(6, 7));
  }

  ghost predicate Forward(turns: seq<Turn>) {
    forall t :: t in turns ==> t.start <= t.end
  }

  /** The order of the turns, and turns given twice, do not matter. */
  lemma OrderDoesNotMatter(turns: seq<Turn>, turns': seq<Turn>, who: string)
    requires Forward(turns) && forall t :: t in turns <==> t in turns'
    ensures SpeakingOf(turns, who) == SpeakingOf(turns', who)
  {
    SpeakingIsSpeech(turns, who);
    SpeakingIsSpeech(turns', who);
    forall t: nat ensures t in Speech(turns, who) <==> t in Speech(turns', who) {
      SpeechMembers(turns, who, t);
      SpeechMembers(turns', who, t);
    }
    assert Speech(turns, who) == Speech(turns', who);
  }

  lemma {:induction false} SpansOfCount(turns: seq<Turn>, who: string, x: Span)
    ensures multiset(SpansOf(turns, who))[x] == multiset(turns)[Turn(who, x.s, x.e)]
  {
    if turns != [] {
      var n := |turns| - 1;
      SpansOfCount(turns[..n], who, x);
      assert turns == turns[..n] + [turns[n]];
      assert turns[n] == Turn(turns[n].who, turns[n].start, turns[n].end);
    }
  }

  /** Nor does the order of the turns when some of them are inverted: the same turns, each as often, give the same time. */
  lemma OrderNeverMatters(turns: seq<Turn>, turns': seq<Turn>, who: string)
    requires multiset(turns) == multiset(turns')
    ensures SpeakingOf(turns, who) == SpeakingOf(turns', who)
  {
    var a, b := SpansOf(turns, who), SpansOf(turns', who);
    forall x ensures multiset(a)[x] == multiset(b)[x] {
      SpansOfCount(turns, who, x);
      SpansOfCount(turns', who, x);
    }
    assert multiset(a) == multiset(b);
    SortIgnoresOrder(Leq, a, b);
  }

  // ------------------------------------------------------------------ as it is computed

  datatype Time = Time(who: string, ms: nat)

  predicate TimeLess(a: Time, b: Time) {
    StringLess(a.who, b.who) || (a.who == b.who && a.ms < b.ms)
  }

  method Sum(spans: seq<Span>) returns (total: nat)
    ensures total == Spoken(spans)
  {
    var cur: Option<Span> := None;
    total := 0;
    var i := 0;
    while i < |spans|
      invariant 0 <= i <= |spans|
      invariant Swept(spans[..i]) == Sweep(total, cur)
    {
      assert spans[..i + 1][..i] == spans[..i];
      var x := spans[i];
      match cur {
        case Some(c) =>
          if x.s <= c.e {
            cur := Some(Span(c.s, Max(c.e, x.e)));
          } else {
            total := total + Minus32(c.e, c.s);
            cur := Some(x);
          }
        case None => cur := Some(x);
      }
      i := i + 1;
    }
    assert spans[..|spans|] == spans;
    if cur.Some? { total := total + Max(0, cur.value.e - cur.value.s); }
  }

  /** The spans of every label, in the order of the turns. */
  method Group(turns: seq<Turn>) returns (grouped: map<string, seq<Span>>)
    ensures forall who :: who in grouped <==> SpansOf(turns, who) != []
    ensures forall who :: who in grouped ==> grouped[who] == SpansOf(turns, who)
  {
    grouped := map[];
    var i := 0;
    while i < |turns|
      invariant 0 <= i <= |turns|
      invariant forall who :: who in grouped <==> SpansOf(turns[..i], who) != []
      invariant forall who :: who in grouped ==> grouped[who] == SpansOf(turns[..i], who)
    {
      assert turns[..i + 1][..i] == turns[..i];
      var t := turns[i];
      grouped := grouped[t.who := (if t.who in grouped then grouped[t.who] else []) + [Span(t.start, t.end)]];
      i := i + 1;
    }
    assert turns[..|turns|] == turns;
  }

  /** Speaking time per label: the labels of the turns, each once and in order, each with its time. */
  method SpeakingMs(turns: seq<Turn>) returns (out: seq<Time>)
    ensures Answer(turns, out)
    ensures Forward(turns) ==> forall x :: x in out ==> x.ms == |Speech(turns, x.who)|
  {
    var grouped := Group(turns);
    TimeTotal();
    out := [];
    var left := grouped.Keys;
    while left != {}
      invariant left <= grouped.Keys && Ascending(TimeLess, out)
      invariant forall x :: x in out <==> x.who in grouped.Keys - left && x.ms == SpeakingOf(turns, x.who)
      decreases left
    {
      var who :| who in left;
      var total := Sum(SortSpans(grouped[who]));
      InsertAscending(TimeLess, Time(who, total), out);
      out := Insert(TimeLess, Time(who, total), out);
      left := left - {who};
    }
    forall x ensures x in out <==> Speaks(turns, x.who) && x.ms == SpeakingOf(turns, x.who) {
      GroupedAreLabels(turns, x.who);
    }
    forall i, j | 0 <= i < j < |out| ensures StringLess(out[i].who, out[j].who) {
      assert TimeLess(out[i], out[j]) && out[i] in out && out[j] in out;
    }
    forall x | x in out && Forward(turns) ensures x.ms == |Speech(turns, x.who)| {
      SpeakingIsSpeech(turns, x.who);
    }
  }

  lemma TimeTotal()
    ensures StrictTotal(TimeLess)
  {
    StringLessTotal();
  }

  lemma GroupedAreLabels(turns: seq<Turn>, who: string)
    ensures SpansOf(turns, who) != [] <==> Speaks(turns, who)
  {
    SpansOfMembers(turns, who);
    if t :| t in turns && t.who == who {
      assert t == Turn(who, t.start, t.end);
      assert Span(t.start, t.end) in SpansOf(turns, who);
    }
    if SpansOf(turns, who) != [] {
      var x := SpansOf(turns, who)[0];
      assert x in SpansOf(turns, who);
      assert Turn(who, x.s, x.e) in turns;
    }
  }

  /** What `SpeakingMs` answers. */
  ghost predicate Answer(turns: seq<Turn>, out: seq<Time>) {
    && (forall i, j :: 0 <= i < j < |out| ==> StringLess(out[i].who, out[j].who))
    && (forall x :: x in out <==> Speaks(turns, x.who) && x.ms == SpeakingOf(turns, x.who))
  }

  ghost predicate Speaks(turns: seq<Turn>, who: string) {
    exists t :: t in turns && t.who == who
  }

  /** The same turns in any order, inverted ones included, get the same answer. */
  lemma SameTurnsSameAnswer(turns: seq<Turn>, turns': seq<Turn>, out: seq<Time>, out': seq<Time>)
    requires multiset(turns) == multiset(turns') && Answer(turns, out) && Answer(turns', out')
    ensures out == out'
  {
    forall x ensures x in out <==> x in out' {
      OrderNeverMatters(turns, turns', x.who);
      if t :| t in turns && t.who == x.who { assert t in multiset(turns) && t in turns'; }
      if t :| t in turns' && t.who == x.who { assert t in multiset(turns') && t in turns; }
    }
    TimeTotal();
    AscendingUnique(TimeLess, out, out');
  }
}
