/** The recording timeline of a camera: which segments are played back to back, and which annotation is drawn. */
module Playback {
  import opened Basics

  const I64_MIN := -0x8000_0000_0000_0000
  const I64_MAX := 0x7fff_ffff_ffff_ffff
  const CHAIN_TOLERANCE_MS := 1000

  type i64 = x: int | I64_MIN <= x <= I64_MAX

  datatype Segment = Segment(start: i64, stop: i64) {
    function End(): i64 {
      if stop >= start then stop else start
    }
  }

  /** Subtraction of 64-bit numbers, which wraps around below the least one. */
  function Minus64(a: i64, b: nat): i64
    requires b <= I64_MAX
  {
    if a - b >= I64_MIN then a - b else a - b + I64_MAX - I64_MIN + 1
  }

  /** The segments kept, and the end of the last of them; the least number stands for none. */
  datatype Chain = Chain(kept: seq<nat>, end: i64)

  predicate Follows(end: i64, start: i64) {
    end == I64_MIN || start >= Minus64(end, CHAIN_TOLERANCE_MS)
  }

  function ChainOf(spans: seq<Segment>): Chain {
    var n := |spans| - 1;
    if n < 0 then Chain([], I64_MIN)
    else
      var c := ChainOf(spans[..n]);
      if Follows(c.end, spans[n].start) then Chain(c.kept + [n], spans[n].End()) else c
  }

  method PlaybackChain(spans: seq<Segment>) returns (kept: seq<nat>)
    ensures kept == ChainOf(spans).kept
  {
    kept := [];
    var end: i64 := I64_MIN;
    var i := 0;
    while i < |spans|
      invariant 0 <= i <= |spans|
      invariant Chain(kept, end) == ChainOf(spans[..i])
    {
      assert spans[..i + 1][..i] == spans[..i];
      if end == I64_MIN || spans[i].start >= Minus64(end, CHAIN_TOLERANCE_MS) {
        kept := kept + [i];
        end := if spans[i].stop >= spans[i].start then spans[i].stop else spans[i].start;
      }
      i := i + 1;
    }
    assert spans[..i] == spans;
  }

  ghost predicate ByStart(spans: seq<Segment>) {
    forall i, j :: 0 <= i < j < |spans| ==> spans[i].start <= spans[j].start
  }

  ghost predicate Ascending(kept: seq<nat>, n: nat) {
    (forall k :: 0 <= k < |kept| ==> kept[k] < n) && forall k, l :: 0 <= k < l < |kept| ==> kept[k] < kept[l]
  }

  lemma {:induction false} ChainFacts(spans: seq<Segment>)
    ensures var c := ChainOf(spans);
            && Ascending(c.kept, |spans|)
            && (spans != [] ==> c.kept != [] && c.kept[0] == 0)
            && (if c.kept == [] then c.end == I64_MIN else c.end == spans[c.kept[|c.kept| - 1]].End())
  {
    if spans != [] {
      ChainFacts(spans[..|spans| - 1]);
    }
  }

  /** No two kept segments, neighbours or not, show the same moment for longer than the tolerance: also where a
      segment ends before the one kept earlier does, so that the end moves back. */
  lemma {:induction false} KeptNeverOverlap(spans: seq<Segment>, i: nat, j: nat)
    requires ByStart(spans) && i < j
    requires i in ChainOf(spans).kept && j in ChainOf(spans).kept
    ensures j < |spans| && spans[j].start >= Max(spans[i].start, spans[i].stop) - 1000
    decreases |spans|
  {
    ChainFacts(spans);
    var n := |spans| - 1;
    var c := ChainOf(spans[..n]);
    ChainFacts(spans[..n]);
    if j < n {
      KeptNeverOverlap(spans[..n], i, j);
    } else {
      var last := c.kept[|c.kept| - 1];
      assert i in c.kept;
      if i < last {
        KeptNeverOverlap(spans[..n], i, last);
        assert spans[last].start <= spans[j].start;
      }
    }
  }

  /** The last segment kept before `j`. */
  function LastKept(spans: seq<Segment>, j: nat): (r: nat)
    requires 0 < j <= |spans|
    ensures r < j
  {
    ChainFacts(spans[..j]);
    var c := ChainOf(spans[..j]);
    c.kept[|c.kept| - 1]
  }

  lemma {:induction false} KeptWhenMet(spans: seq<Segment>, j: nat)
    requires j < |spans|
    ensures j in ChainOf(spans).kept <==> Follows(ChainOf(spans[..j]).end, spans[j].start)
    decreases |spans|
  {
    var n := |spans| - 1;
    ChainFacts(spans[..n]);
    if j < n {
      KeptWhenMet(spans[..n], j);
      assert spans[..n][..j] == spans[..j];
    }
  }

  lemma {:induction false} KeptBefore(spans: seq<Segment>, j: nat, k: nat)
    requires k < j <= |spans|
    ensures k in ChainOf(spans[..j]).kept <==> k in ChainOf(spans).kept
    decreases |spans|
  {
    var n := |spans| - 1;
    if j <= n {
      KeptBefore(spans[..n], j, k);
      assert spans[..n][..j] == spans[..j];
    } else {
      assert spans[..j] == spans;
    }
  }

  /** The rule of the chain: the first segment is kept; a later one is kept exactly when it starts no earlier than one
      second before the end of the last one kept, computed in 64 bits, or when that end is the least number. */
  lemma NextIsKept(spans: seq<Segment>, i: nat, j: nat)
    requires i < j < |spans| && i in ChainOf(spans).kept && forall k :: i < k < j ==> k !in ChainOf(spans).kept
    ensures 0 in ChainOf(spans).kept
    ensures var end := Max(spans[i].start, spans[i].stop);
            j in ChainOf(spans).kept <==>
              || end == -0x8000_0000_0000_0000
              || spans[j].start >= (if end - 1000 >= -0x8000_0000_0000_0000 then end - 1000 else end - 1000 + 0x1_0000_0000_0000_0000)
  {
    KeptWhenMet(spans, j);
    ChainFacts(spans);
    EndBefore(spans, i, j);
  }

  lemma EndBefore(spans: seq<Segment>, i: nat, j: nat)
    requires i < j < |spans| && i in ChainOf(spans).kept && forall k :: i < k < j ==> k !in ChainOf(spans).kept
    ensures ChainOf(spans[..j]).end == Max(spans[i].start, spans[i].stop)
  {
    var c := ChainOf(spans[..j]);
    ChainFacts(spans[..j]);
    KeptBefore(spans, j, i);
    forall k | k in c.kept && k < j ensures k <= i { KeptBefore(spans, j, k); }
    LastOf(c.kept, j, i);
  }

  lemma LastOf(kept: seq<nat>, n: nat, i: nat)
    requires Ascending(kept, n) && i in kept && forall k :: k in kept && k < n ==> k <= i
    ensures kept[|kept| - 1] == i
  {
    var m :| 0 <= m < |kept| && kept[m] == i;
    assert kept[|kept| - 1] in kept;
  }

  /** A segment that is skipped overlaps the last one kept by more than the tolerance, exactly when the end of that
      one is at least the tolerance above the least number: below that the subtraction wraps around. */
  lemma SkippedOverlapsIff(spans: seq<Segment>, j: nat)
    requires 0 < j < |spans| && j !in ChainOf(spans).kept
    ensures var last := spans[LastKept(spans, j)];
            var end := Max(last.start, last.stop);
            spans[j].start < end - 1000 <==> end >= -0x8000_0000_0000_0000 + 1000
  {
    KeptWhenMet(spans, j);
    ChainFacts(spans[..j]);
  }

  /** Segments that start at least the tolerance above the least number: each is kept, or overlaps the last one kept
      before it by more than the tolerance. */
  lemma KeptOrOverlaps(spans: seq<Segment>, j: nat)
    requires ByStart(spans) && j < |spans| && spans[0].start >= -0x8000_0000_0000_0000 + 1000
    ensures j in ChainOf(spans).kept ||
            (0 < j && var last := spans[LastKept(spans, j)]; spans[j].start < Max(last.start, last.stop) - 1000)
  {
    if j == 0 {
      KeptWhenMet(spans, j);
      assert spans[..0] == [];
    } else if j !in ChainOf(spans).kept {
      SkippedOverlapsIff(spans, j);
      assert spans[0].start <= spans[LastKept(spans, j)].start;
    }
  }

  /** Near the least number a segment is skipped although it starts after the kept one has ended. */
  lemma LowEndSkips()
    ensures exists spans: seq<Segment> ::
              ByStart(spans) && ChainOf(spans).kept == [0] && |spans| == 2 && spans[0].stop < spans[1].start
  {
    var a, b := Segment(I64_MIN + 1, I64_MIN + 1), Segment(I64_MIN + 2, I64_MIN + 2);
    assert [a, b][..1] == [a] && [a][..0] == [];
    assert ChainOf([a]) == Chain([0], I64_MIN + 1);
    assert ByStart([a, b]) && ChainOf([a, b]).kept == [0];
  }

  // ------------------------------------------------------------------ the annotation of a frame

  datatype Annotation<D> = Annotation(ts: i64, boxes: D)

  ghost predicate ByTime<D>(anns: seq<Annotation<D>>) {
    forall i, j :: 0 <= i < j < |anns| ==> anns[i].ts <= anns[j].ts
  }

  function Distance(a: int, b: int): nat {
    if a >= b then a - b else b - a
  }

  /** A number brought into the 64-bit range by one turn. */
  function Wrap64(x: int): i64
    requires 2 * I64_MIN < x <= 2 * I64_MAX + 1
  {
    if x < I64_MIN then x - 2 * I64_MIN else if x > I64_MAX then x + 2 * I64_MIN else x
  }

  /** The distance as it is computed: the difference may wrap around, and so does the opposite of the least number. */
  function Distance64(a: i64, b: i64): i64 {
    var d: int := Wrap64(a - b);
    if d < 0 then Wrap64(-d) else d
  }

  /** The number of annotations before `ts`, found by halving the range it lies in. */
  method PartitionPoint<D>(anns: seq<Annotation<D>>, ts: i64) returns (i: nat)
    requires ByTime(anns)
    ensures Splits(anns, ts, i)
  {
    i := 0;
    var j := |anns|;
    while i < j
      invariant 0 <= i <= j <= |anns|
      invariant forall k :: 0 <= k < i ==> anns[k].ts < ts
      invariant forall k :: j <= k < |anns| ==> anns[k].ts >= ts
    {
      var m := i + (j - i) / 2;
      if anns[m].ts < ts { i := m + 1; } else { j := m; }
    }
  }

  ghost predicate Splits<D>(anns: seq<Annotation<D>>, ts: i64, i: nat) {
    i <= |anns| && forall k :: 0 <= k < |anns| ==> (anns[k].ts < ts <==> k < i)
  }

  /** What the place of the annotation to draw at `ts` should be: none exactly when all are further than the
      tolerance; otherwise none is nearer, of two equally near the one before `ts` is drawn, and of those at the same
      moment the one next to `ts`. */
  ghost predicate IsClosest<D>(anns: seq<Annotation<D>>, ts: i64, tolerance: i64, r: Option<nat>) {
    match r
    case None => forall k :: 0 <= k < |anns| ==> Distance(anns[k].ts, ts) > tolerance
    case Some(j) =>
      && j < |anns| && Distance(anns[j].ts, ts) <= tolerance
      && forall k :: 0 <= k < |anns| ==>
           var mine, other := Distance(anns[j].ts, ts), Distance(anns[k].ts, ts);
           && mine <= other
           && (mine == other ==> anns[j].ts <= anns[k].ts)
           && (anns[k].ts == anns[j].ts ==> if anns[k].ts < ts then k <= j else j <= k)
  }

  /** The annotation `j` only seems to be near `ts`. */
  predicate Mirage<D>(anns: seq<Annotation<D>>, ts: i64, tolerance: i64, j: int) {
    0 <= j < |anns| && Distance(anns[j].ts, ts) > I64_MAX && Distance64(anns[j].ts, ts) <= tolerance
  }

  /** The annotation `j` is so near that one at a distance of `d` cannot hide it. */
  predicate Nearer<D>(anns: seq<Annotation<D>>, ts: i64, j: int, d: int) {
    0 <= j < |anns| && Distance(anns[j].ts, ts) <= I64_MAX && Distance(anns[j].ts, ts) < d
  }

  /** One of the two neighbours of `ts` only seems near, and the other one is not nearer than it seems. */
  predicate Misled<D>(anns: seq<Annotation<D>>, ts: i64, tolerance: i64, i: nat) {
    || (Mirage(anns, ts, tolerance, i - 1) && !Nearer(anns, ts, i, Distance64(anns[i - 1].ts, ts)))
    || (Mirage(anns, ts, tolerance, i) && !Nearer(anns, ts, i - 1, Distance64(anns[i].ts, ts) + 1))
  }

  lemma OneSplit<D>(anns: seq<Annotation<D>>, ts: i64, i: nat, j: nat)
    requires Splits(anns, ts, i) && Splits(anns, ts, j)
    ensures i == j
  {
    if i < |anns| { assert anns[i].ts < ts <==> i < j; }
    if j < |anns| { assert anns[j].ts < ts <==> j < i; }
  }

  /** The two neighbours of `ts` stand for the whole list. */
  lemma NeighboursDecide<D>(anns: seq<Annotation<D>>, ts: i64, tolerance: i64, i: nat)
    requires ByTime(anns) && Splits(anns, ts, i)
    ensures IsClosest(anns, ts, tolerance, None) <==>
            && (0 < i ==> Distance(anns[i - 1].ts, ts) > tolerance)
            && (i < |anns| ==> Distance(anns[i].ts, ts) > tolerance)
    ensures 0 < i ==> (IsClosest(anns, ts, tolerance, Some(i - 1)) <==>
                       && Distance(anns[i - 1].ts, ts) <= tolerance
                       && (i < |anns| ==> Distance(anns[i - 1].ts, ts) <= Distance(anns[i].ts, ts)))
    ensures i < |anns| ==> (IsClosest(anns, ts, tolerance, Some(i)) <==>
                            && Distance(anns[i].ts, ts) <= tolerance
                            && (0 < i ==> Distance(anns[i].ts, ts) < Distance(anns[i - 1].ts, ts)))
  {
    assert forall k :: 0 <= k < i ==> Distance(anns[i - 1].ts, ts) <= Distance(anns[k].ts, ts);
    assert forall k :: i <= k < |anns| ==> Distance(anns[i].ts, ts) <= Distance(anns[k].ts, ts);
  }

  /** The first of the two neighbours within the tolerance with the least computed distance. */
  function Chosen<D>(anns: seq<Annotation<D>>, ts: i64, tolerance: i64, i: nat): Option<nat>
    requires i <= |anns|
  {
    if i < |anns| && Distance64(anns[i].ts, ts) <= tolerance
       && (i == 0 || Distance64(anns[i - 1].ts, ts) > tolerance || Distance64(anns[i].ts, ts) < Distance64(anns[i - 1].ts, ts))
    then Some(i)
    else if 0 < i && Distance64(anns[i - 1].ts, ts) <= tolerance then Some(i - 1)
    else None
  }

  lemma ComputedDistance(a: i64, b: i64)
    ensures Distance(a, b) <= I64_MAX ==> Distance64(a, b) == Distance(a, b)
  {}

  lemma ChosenUnlessMisled<D>(anns: seq<Annotation<D>>, ts: i64, tolerance: i64, i: nat)
    requires ByTime(anns) && Splits(anns, ts, i)
    ensures var r := Chosen(anns, ts, tolerance, i);
            && (IsClosest(anns, ts, tolerance, r) <==> !Misled(anns, ts, tolerance, i))
            && (r.None? ==> IsClosest(anns, ts, tolerance, r))
  {
    NeighboursDecide(anns, ts, tolerance, i);
    if 0 < i { ComputedDistance(anns[i - 1].ts, ts); }
    if i < |anns| { ComputedDistance(anns[i].ts, ts); }
  }

  /** The place of the annotation drawn at `ts`: the closest one within the tolerance, except exactly when a
      difference that wraps around misleads the comparison of the two neighbours of `ts`. */
  method AnnotationAt<D>(anns: seq<Annotation<D>>, ts: i64, tolerance: i64) returns (r: Option<nat>)
    requires ByTime(anns)
    ensures forall i :: Splits(anns, ts, i) ==> (IsClosest(anns, ts, tolerance, r) <==> !Misled(anns, ts, tolerance, i))
    ensures r.None? ==> IsClosest(anns, ts, tolerance, r)
    ensures r.Some? ==> r.value < |anns|
  {
    var i := PartitionPoint(anns, ts);
    r := None;
    if 0 < i && Distance64(anns[i - 1].ts, ts) <= tolerance {
      r := Some(i - 1);
    }
    if i < |anns| && Distance64(anns[i].ts, ts) <= tolerance {
      if r.None? || Distance64(anns[i].ts, ts) < Distance64(anns[i - 1].ts, ts) {
        r := Some(i);
      }
    }
    ChosenUnlessMisled(anns, ts, tolerance, i);
    forall k | Splits(anns, ts, k)
      ensures k == i
    {
      OneSplit(anns, ts, i, k);
    }
  }

  /** Nothing misleads the comparison where every difference is a 64-bit number. */
  lemma NeverMisled<D>(anns: seq<Annotation<D>>, ts: i64, tolerance: i64, i: nat)
    requires forall k :: 0 <= k < |anns| ==> Distance(anns[k].ts, ts) <= I64_MAX
    ensures !Misled(anns, ts, tolerance, i)
  {}

  /** An annotation at the end of the range is drawn at its beginning, even for a tolerance of 1. */
  lemma FarEndIsDrawn<D>(boxes: D)
    ensures var anns := [Annotation(I64_MAX, boxes)];
            Splits(anns, I64_MIN, 0) && Chosen(anns, I64_MIN, 1, 0) == Some(0) && IsClosest(anns, I64_MIN, 1, None)
  {}
}
