/** What one pass leaves for a second one: over-long runs of its output, every one of which spans a place where the pass
    dropped items. `max` is three, as it is wherever loops are cut. */
module RepeatCuts {
  import opened Basics
  import opened RepeatCollapse

  /** Place `c` of the output comes right after a run that was cut. */
  ghost predicate Junction<T>(s: seq<T>, max: nat, c: nat)
    decreases |s|
  {
    s != [] &&
    var r := FirstRun(s, max);
    var kept := Width(Min(r.copies, max), |r.gram|);
    || (r.copies > max && c == kept)
    || (c >= kept && Junction(s[Width(r.copies, |r.gram|)..], max, c - kept))
  }

  lemma {:induction false} CollapsedStep<T>(s: seq<T>, max: nat, r: Run<T>, rest: seq<T>)
    requires s != [] && r == FirstRun(s, max) && rest == s[Width(r.copies, |r.gram|)..]
    ensures s == Times(r.gram, r.copies) + rest
    ensures Collapsed(s, max) == Times(r.gram, Min(r.copies, max)) + Collapsed(rest, max)
  {
    var run := Times(r.gram, r.copies);
    assert s == run + rest;
    SelectRun(r.gram, r.copies, max);
    SelectAppend(run, rest, RunMask(|r.gram|, r.copies, max), Mask(rest, max));
  }

  // ------------------------------------------------------------------ over-long runs as periods

  /** From `q` on, `n` items repeat with period `z`. */
  ghost predicate Periodic<T>(t: seq<T>, q: nat, z: nat, n: nat) {
    q + n <= |t| && forall i :: q <= i && i + z < q + n ==> t[i] == t[i + z]
  }

  lemma LongIsPeriodic<T>(t: seq<T>, q: nat, z: nat, max: nat)
    requires max == 3 && q <= |t| && TooLong(t[q..], max, z)
    ensures Periodic(t, q, z, 4 * z)
  {
    var u := t[q..];
    var g := u[..z];
    CopiesAreAll(u, g, 4);
    FourTimes(z);
    var run := Times(g, 4);
    forall i | q <= i && i + z < q + 4 * z ensures t[i] == t[i + z] {
      TimesPeriodic(g, 4, i - q + z);
      assert run == u[..4 * z];
      assert run[i - q] == t[i] && run[i - q + z] == t[i + z];
    }
  }

  lemma FourTimes(z: nat)
    ensures Width(4, z) == 4 * z && Width(3, z) == 3 * z
  {
    WidthIsProduct(4, z);
    WidthIsProduct(3, z);
  }

  lemma PeriodicIsLong<T>(s: seq<T>, z: nat, max: nat)
    requires max == 3 && 1 <= z <= MAX_NGRAM && Periodic(s, 0, z, 4 * z)
    ensures TooLong(s, max, z)
  {
    var g := s[..z];
    FourTimes(z);
    assert s[z..z + z] == g;
    assert s[z + z..z + z + z] == g;
    assert s[z + z + z..4 * z] == g;
    var a, b, c := s[3 * z..4 * z], s[2 * z..4 * z], s[z..4 * z];
    assert a == Times(g, 1) && b == g + a && c == g + b && s[..4 * z] == g + c;
    assert Times(g, 2) == b && Times(g, 3) == c && Times(g, 4) == g + c;
    CopiesAreAll(s, g, 4);
  }

  // ------------------------------------------------------------------ no second period inside three copies

  lemma TwoLetters<T>(g: seq<T>, u: seq<T>, q: nat)
    requires |g| == 2 && u == g + g + g && Periodic(u, q, 1, 4)
    ensures g[0] == g[1]
  {
    assert u[q] == u[q + 1];
    assert q == 0 || q == 1 || q == 2;
  }

  lemma ThreeLetters<T>(g: seq<T>, u: seq<T>, q: nat, z: nat)
    requires |g| == 3 && u == g + g + g && 1 <= z <= 2 && Periodic(u, q, z, 4 * z)
    ensures g[0] == g[1] == g[2]
  {
    assert u[q] == u[q + z] && u[q + 1] == u[q + 1 + z] && u[q + 2] == u[q + 2 + z];
    assert q == 0 || q == 1 || q == 2 || q == 3 || q == 4 || q == 5;
  }

  lemma FourLetters<T>(g: seq<T>, u: seq<T>, q: nat, z: nat)
    requires |g| == 4 && u == g + g + g && 1 <= z <= 3 && Periodic(u, q, z, 4 * z)
    ensures g[0] == g[2] && g[1] == g[3] && (z != 2 ==> g[0] == g[1])
  {
    assert u[q] == u[q + z] && u[q + 1] == u[q + 1 + z] && u[q + 2] == u[q + 2 + z];
    if z > 1 { assert u[q + 3] == u[q + 3 + z]; }
    assert q == 0 || q == 1 || q == 2 || q == 3 || q == 4 || q == 5 || q == 6 || q == 7 || q == 8;
  }

  /** Two copies of `g`, whose letters repeat with a period `y` that divides its length. */
  lemma ShorterGram<T>(s: seq<T>, max: nat, g: seq<T>, y: nat)
    requires max == 3 && 2 <= |g| <= MAX_NGRAM && g + g <= s
    requires (y == 1 && forall i :: 0 <= i < |g| ==> g[i] == g[0]) ||
             (y == 2 && |g| == 4 && g[0] == g[2] && g[1] == g[3])
    ensures TooLong(s, max, y)
  {
    var two := g + g;
    assert two == s[..|two|];
    forall i | 0 <= i && i + y < 4 * y ensures s[i] == s[i + y] {
      assert s[i] == two[i] && s[i + y] == two[i + y];
    }
    PeriodicIsLong(s, y, max);
  }

  /** A run is cut by its least gram, so no over-long run hides in the three copies that stay. */
  lemma NoLoopInside<T>(s: seq<T>, max: nat, g: seq<T>, q: nat, z: nat)
    requires max == 3 && 1 <= |g| <= MAX_NGRAM && g + g <= s && 1 <= z && Periodic(g + g + g, q, z, 4 * z)
    ensures exists y :: 1 <= y < |g| && TooLong(s, max, y)
  {
    var u := g + g + g;
    var y := if |g| == 4 && z == 2 then 2 else 1;
    if |g| == 2 {
      TwoLetters(g, u, q);
    } else if |g| == 3 {
      ThreeLetters(g, u, q, z);
    } else if |g| == 4 {
      FourLetters(g, u, q, z);
    }
    assert |g| >= 2;
    ShorterGram(s, max, g, y);
  }

  // ------------------------------------------------------------------ every over-long run spans a junction

  lemma {:induction false} TimesGrow<T>(g: seq<T>, a: nat, b: nat)
    requires a <= b
    ensures Times(g, a) <= Times(g, b)
    decreases a
  {
    if a > 0 { TimesGrow(g, a - 1, b - 1); }
  }

  lemma {:induction false} CutSizeIsLeast<T>(s: seq<T>, max: nat, from: nat, y: nat)
    requires 1 <= from <= y && CutSize(s, max, from).Some? && y < CutSize(s, max, from).value
    ensures !TooLong(s, max, y)
    decreases y - from
  {
    if from < y { CutSizeIsLeast(s, max, from + 1, y); }
  }

  lemma ItemAlone<T>(s: seq<T>, max: nat)
    requires max == 3 && s != [] && FirstRun(s, max).copies <= max
    ensures FirstRun(s, max) == Run(s[..1], 1) && Width(1, 1) == 1 && Times(s[..1], 1) == s[..1]
    ensures forall z :: 1 <= z ==> !TooLong(s, max, z)
  {
  }

  lemma JunctionAtCut<T>(s: seq<T>, max: nat)
    requires s != [] && FirstRun(s, max).copies > max
    ensures Junction(s, max, Width(max, |FirstRun(s, max).gram|))
  {
  }

  lemma JunctionLater<T>(s: seq<T>, max: nat, r: Run<T>, rest: seq<T>, kept: nat, c: nat)
    requires s != [] && r == FirstRun(s, max) && rest == s[Width(r.copies, |r.gram|)..]
    requires kept == Width(Min(r.copies, max), |r.gram|) && Junction(rest, max, c)
    ensures Junction(s, max, kept + c)
  {
  }

  ghost predicate NoJunctionBefore<T>(s: seq<T>, max: nat, n: nat) {
    forall c :: 0 < c < n ==> !Junction(s, max, c)
  }

  lemma NoJunctionInRest<T>(s: seq<T>, max: nat, n: nat)
    requires max == 3 && s != [] && FirstRun(s, max).copies <= max && NoJunctionBefore(s, max, n + 1)
    ensures NoJunctionBefore(s[1..], max, n)
  {
    ItemAlone(s, max);
    forall c | 0 < c < n ensures !Junction(s[1..], max, c) {
      if Junction(s[1..], max, c) { JunctionLater(s, max, FirstRun(s, max), s[1..], 1, c); }
    }
  }

  lemma CutIsJunction<T>(s: seq<T>, max: nat, n: nat)
    requires max == 3 && s != [] && FirstRun(s, max).copies > max && NoJunctionBefore(s, max, n)
    ensures n <= Width(max, |FirstRun(s, max).gram|)
  {
    JunctionAtCut(s, max);
    WidthGrows(1, max, |FirstRun(s, max).gram|);
  }

  lemma CollapsedItem<T>(s: seq<T>, max: nat, rest: seq<T>, t: seq<T>, more: seq<T>)
    requires max == 3 && s != [] && FirstRun(s, max).copies <= max
    requires rest == s[1..] && t == Collapsed(s, max) && more == Collapsed(rest, max)
    ensures t == s[..1] + more && |t| == 1 + |more|
  {
    ItemAlone(s, max);
    CollapsedStep(s, max, FirstRun(s, max), s[1..]);
  }

  lemma CutKeepsPrefix<T>(s: seq<T>, max: nat, t: seq<T>, n: nat)
    requires max == 3 && s != [] && FirstRun(s, max).copies > max && t == Collapsed(s, max)
    requires n <= Width(max, |FirstRun(s, max).gram|)
    ensures n <= |s| && n <= |t| && t[..n] == s[..n]
  {
    var r := FirstRun(s, max);
    CollapsedStep(s, max, r, s[Width(r.copies, |r.gram|)..]);
    TimesGrow(r.gram, max, r.copies);
    SamePrefixOf(Times(r.gram, max), Times(r.gram, r.copies), s, t, n);
  }

  /** What the first run of the input does to a prefix of the output without junctions: it holds the whole of it, or
      is one item. */
  lemma PrefixStep<T>(s: seq<T>, max: nat, t: seq<T>, n: nat)
    returns (cut: bool, rest: seq<T>, more: seq<T>)
    requires max == 3 && t == Collapsed(s, max) && 0 < n <= |t| && NoJunctionBefore(s, max, n)
    ensures s != [] && rest == s[1..] && more == Collapsed(rest, max)
    ensures cut ==> n <= |s| && t[..n] == s[..n]
    ensures !cut ==> n <= |more| + 1 && NoJunctionBefore(rest, max, n - 1)
    ensures !cut && n <= |s| && more[..n - 1] == rest[..n - 1] ==> t[..n] == s[..n]
  {
    assert s != [];
    rest := s[1..];
    more := Collapsed(rest, max);
    cut := FirstRun(s, max).copies > max;
    if cut {
      CutIsJunction(s, max, n);
      CutKeepsPrefix(s, max, t, n);
    } else {
      ItemPrefix(s, max, rest, t, more, n - 1);
    }
  }

  lemma ItemPrefix<T>(s: seq<T>, max: nat, rest: seq<T>, t: seq<T>, more: seq<T>, n: nat)
    requires max == 3 && s != [] && FirstRun(s, max).copies <= max && NoJunctionBefore(s, max, n + 1)
    requires rest == s[1..] && t == Collapsed(s, max) && more == Collapsed(rest, max) && n < |t|
    ensures n <= |more| && NoJunctionBefore(rest, max, n)
    ensures n < |s| && more[..n] == rest[..n] ==> t[..n + 1] == s[..n + 1]
  {
    NoJunctionInRest(s, max, n);
    CollapsedItem(s, max, rest, t, more);
    if n < |s| && more[..n] == rest[..n] { PrefixNext(s, rest, t, more, n); }
  }

  /** No junction stands within the first `n` items of the output, so they are the first `n` of the input. */
  lemma {:induction false} SamePrefix<T>(s: seq<T>, max: nat, t: seq<T>, n: nat)
    requires max == 3 && t == Collapsed(s, max) && n <= |t| && NoJunctionBefore(s, max, n)
    ensures n <= |s| && t[..n] == s[..n]
    decreases |s|
  {
    if n > 0 {
      var cut, rest, more := PrefixStep(s, max, t, n);
      if !cut { SamePrefix(rest, max, more, n - 1); }
    }
  }

  lemma PrefixNext<T>(s: seq<T>, rest: seq<T>, t: seq<T>, more: seq<T>, n: nat)
    requires s != [] && rest == s[1..] && t == s[..1] + more
    requires n <= |rest| && n <= |more| && more[..n] == rest[..n]
    ensures t[..n + 1] == s[..n + 1]
  {
    assert s == s[..1] + rest;
    PrefixMore(s[..1], rest, more, n);
  }

  lemma PrefixMore<T>(x: seq<T>, s: seq<T>, t: seq<T>, n: nat)
    requires n <= |s| && n <= |t| && s[..n] == t[..n]
    ensures (x + t)[..|x| + n] == (x + s)[..|x| + n]
  {
    assert (x + t)[..|x| + n] == x + t[..n] && (x + s)[..|x| + n] == x + s[..n];
  }

  lemma DropMore<T>(x: seq<T>, t: seq<T>, q: nat)
    requires |x| <= q <= |x| + |t|
    ensures (x + t)[q..] == t[q - |x|..]
  {
  }

  lemma SamePrefixOf<T>(a: seq<T>, b: seq<T>, s: seq<T>, t: seq<T>, n: nat)
    requires a <= b <= s && a <= t && n <= |a|
    ensures t[..n] == s[..n]
  {
    assert t[..|a|] == a && b[..|a|] == a && s[..|b|] == b;
    assert s[..|a|] == s[..|b|][..|a|];
    assert t[..n] == t[..|a|][..n] && s[..n] == s[..|a|][..n];
  }

  lemma LoopInKept<T>(s: seq<T>, max: nat, r: Run<T>, t: seq<T>, q: nat, z: nat)
    requires max == 3 && s != [] && r == FirstRun(s, max) && r.copies > max
    requires Times(r.gram, max) <= t && 1 <= z && q + 4 * z <= Width(max, |r.gram|)
    ensures !Periodic(t, q, z, 4 * z)
  {
    var g := r.gram;
    if Periodic(t, q, z, 4 * z) {
      ThreeCopies(g);
      var kept := Times(g, max);
      forall i | q <= i && i + z < q + 4 * z ensures kept[i] == kept[i + z] {
        assert t[i] == t[i + z] && kept == t[..|kept|];
      }
      TimesGrow(g, 2, r.copies);
      TwoAtFront(g, s, r.copies);
      NoLoopInside(s, max, g, q, z);
      var y :| 1 <= y < |g| && TooLong(s, max, y);
      CutSizeIsLeast(s, max, 1, y);
    }
  }

  lemma ThreeCopies<T>(g: seq<T>)
    ensures Times(g, 3) == g + g + g && Times(g, 2) == g + g
  {
    assert Times(g, 1) == g;
    assert Times(g, 2) == g + Times(g, 1);
    assert Times(g, 3) == g + Times(g, 2);
    Assoc(g, g, g);
  }

  lemma TwoAtFront<T>(g: seq<T>, s: seq<T>, k: nat)
    requires Times(g, 2) <= Times(g, k) <= s
    ensures g + g <= s
  {
    ThreeCopies(g);
    SamePrefixOf(Times(g, 2), Times(g, k), s, Times(g, 2), |Times(g, 2)|);
  }

  lemma SplitFirst<T>(s: seq<T>, max: nat) returns (r: Run<T>, rest: seq<T>, front: seq<T>)
    requires s != []
    ensures r == FirstRun(s, max) && rest == s[Width(r.copies, |r.gram|)..] && |rest| < |s|
    ensures front == Times(r.gram, Min(r.copies, max)) && Collapsed(s, max) == front + Collapsed(rest, max)
  {
    r := FirstRun(s, max);
    rest, front := s[Width(r.copies, |r.gram|)..], Times(r.gram, Min(r.copies, max));
    CollapsedStep(s, max, r, rest);
  }

  /** Wherever the output has a gram too often in a row, items were dropped in between. */
  lemma {:induction false} LongRunsSpanJunctions<T>(s: seq<T>, max: nat, q: nat, z: nat) returns (c: nat)
    requires max == 3 && q <= |Collapsed(s, max)| && TooLong(Collapsed(s, max)[q..], max, z)
    ensures q < c < q + 4 * z && Junction(s, max, c)
    decreases |s|
  {
    var r, rest, front := SplitFirst(s, max);
    if q >= |front| {
      DropMore(front, Collapsed(rest, max), q);
      var later := LongRunsSpanJunctions(rest, max, q - |front|, z);
      c := LaterPlace(s, max, r, rest, |front|, later);
    } else if r.copies > max {
      c := CutWithin(s, max, r, Collapsed(s, max), q, z);
    } else {
      c := ItemWithin(s, max, r, q, z);
    }
  }

  lemma LaterPlace<T>(s: seq<T>, max: nat, r: Run<T>, rest: seq<T>, kept: nat, later: nat) returns (c: nat)
    requires s != [] && r == FirstRun(s, max) && rest == s[Width(r.copies, |r.gram|)..]
    requires kept == Width(Min(r.copies, max), |r.gram|) && Junction(rest, max, later)
    ensures c == kept + later && Junction(s, max, c)
  {
    JunctionLater(s, max, r, rest, kept, later);
    c := kept + later;
  }

  lemma ItemWithin<T>(s: seq<T>, max: nat, r: Run<T>, q: nat, z: nat) returns (c: nat)
    requires max == 3 && s != [] && r == FirstRun(s, max) && r.copies <= max && q < Width(r.copies, |r.gram|)
    requires q <= |Collapsed(s, max)| && TooLong(Collapsed(s, max)[q..], max, z)
    ensures q < c < q + 4 * z && Junction(s, max, c)
  {
    LongIsPeriodic(Collapsed(s, max), q, z, max);
    ItemAlone(s, max);
    c := LoopAtItem(s, max, z);
  }

  lemma CutWithin<T>(s: seq<T>, max: nat, r: Run<T>, t: seq<T>, q: nat, z: nat) returns (c: nat)
    requires max == 3 && s != [] && r == FirstRun(s, max) && r.copies > max && q < Width(max, |r.gram|)
    requires Times(r.gram, max) <= t && q <= |t| && TooLong(t[q..], max, z)
    ensures q < c < q + 4 * z && Junction(s, max, c)
  {
    LongIsPeriodic(t, q, z, max);
    c := Width(max, |r.gram|);
    JunctionAtCut(s, max);
    if q + 4 * z <= c { LoopInKept(s, max, r, t, q, z); }
  }

  lemma LoopAtItem<T>(s: seq<T>, max: nat, z: nat) returns (c: nat)
    requires max == 3 && s != [] && FirstRun(s, max).copies <= max
    requires 1 <= z <= MAX_NGRAM && Periodic(Collapsed(s, max), 0, z, 4 * z)
    ensures 0 < c < 4 * z && Junction(s, max, c)
  {
    ItemAlone(s, max);
    if NoJunctionBefore(s, max, 4 * z) {
      var t, n := Collapsed(s, max), 4 * z;
      SamePrefix(s, max, t, n);
      forall i | 0 <= i && i + z < n ensures s[i] == s[i + z] {
        assert t[..n][i] == s[..n][i] && t[..n][i + z] == s[..n][i + z];
      }
      PeriodicIsLong(s, z, max);
    }
    c :| 0 < c < 4 * z && Junction(s, max, c);
  }

  // ------------------------------------------------------------------ when a second pass changes nothing

  /** Somewhere a gram follows itself too often across a place where items were dropped. */
  ghost predicate LoopsAcross<T(!new)>(s: seq<T>, max: nat) {
    exists q: nat, z: nat, c: nat ::
      q < c < q + 4 * z && q <= |Collapsed(s, max)| && Junction(s, max, c) && TooLong(Collapsed(s, max)[q..], max, z)
  }

  /** A second pass changes nothing exactly when nothing loops across a place where the first one dropped items. */
  lemma SecondPassIdleIff<T(!new)>(s: seq<T>, max: nat)
    requires max == 3
    ensures Collapsed(Collapsed(s, max), max) == Collapsed(s, max) <==> !LoopsAcross(s, max)
  {
    var t := Collapsed(s, max);
    SelectAll(t, Mask(t, max));
    KeptIffNoLongRun(t, max);
    if !NoLongRun(t, max) {
      var q: nat, z: nat :| q <= |t| && TooLong(t[q..], max, z);
      var c := LongRunsSpanJunctions(s, max, q, z);
    }
  }

  /** The items that stand right after a run that is cut. */
  ghost function AfterCuts<T>(s: seq<T>, max: nat): set<T>
    decreases |s|
  {
    if s == [] then {} else
    var r := FirstRun(s, max);
    var rest := s[Width(r.copies, |r.gram|)..];
    (if r.copies > max && rest != [] then {rest[0]} else {}) + AfterCuts(rest, max)
  }

  lemma FirstItemStays<T>(s: seq<T>, max: nat)
    requires s != [] && max == 3
    ensures Collapsed(s, max) != [] && Collapsed(s, max)[0] == s[0]
  {
    var r := FirstRun(s, max);
    CollapsedStep(s, max, r, s[Width(r.copies, |r.gram|)..]);
    assert Times(r.gram, Min(r.copies, max))[0] == r.gram[0];
    assert Times(r.gram, r.copies)[0] == r.gram[0];
  }

  lemma AfterCutsStep<T>(s: seq<T>, max: nat, r: Run<T>, rest: seq<T>)
    requires s != [] && r == FirstRun(s, max) && rest == s[Width(r.copies, |r.gram|)..]
    ensures AfterCuts(rest, max) <= AfterCuts(s, max)
    ensures r.copies > max && rest != [] ==> rest[0] in AfterCuts(s, max)
  {
  }

  lemma JunctionStep<T>(s: seq<T>, max: nat, r: Run<T>, rest: seq<T>, kept: nat, c: nat)
    requires s != [] && r == FirstRun(s, max) && rest == s[Width(r.copies, |r.gram|)..]
    requires kept == Width(Min(r.copies, max), |r.gram|) && Junction(s, max, c)
    ensures (r.copies > max && c == kept) || (c >= kept && Junction(rest, max, c - kept))
  {
  }

  /** The first run of the input, and what stays of it at the start of the output. */
  lemma FirstKept<T>(s: seq<T>, max: nat, t: seq<T>, c: nat) returns (cut: bool, kept: seq<T>, rest: seq<T>, more: seq<T>)
    requires max == 3 && t == Collapsed(s, max) && Junction(s, max, c)
    ensures t == kept + more && more == Collapsed(rest, max) && |rest| < |s| && AfterCuts(rest, max) <= AfterCuts(s, max)
    ensures cut && rest != [] ==> rest[0] in AfterCuts(s, max)
    ensures (cut && c == |kept|) || (c >= |kept| && Junction(rest, max, c - |kept|))
  {
    var r := FirstRun(s, max);
    cut, rest := r.copies > max, s[Width(r.copies, |r.gram|)..];
    kept, more := Times(r.gram, Min(r.copies, max)), Collapsed(rest, max);
    CollapsedStep(s, max, r, rest);
    AfterCutsStep(s, max, r, rest);
    JunctionStep(s, max, r, rest, |kept|, c);
  }

  lemma {:induction false} JunctionItem<T>(s: seq<T>, max: nat, t: seq<T>, c: nat)
    requires max == 3 && t == Collapsed(s, max) && Junction(s, max, c) && c < |t|
    ensures t[c] in AfterCuts(s, max)
    decreases |s|
  {
    var cut, kept, rest, more := FirstKept(s, max, t, c);
    ItemAfter(t, kept, more, c);
    if cut && c == |kept| {
      StartStays(rest, max, more);
    } else {
      JunctionItem(rest, max, more, c - |kept|);
    }
  }

  lemma ItemAfter<T>(t: seq<T>, kept: seq<T>, more: seq<T>, c: nat)
    requires t == kept + more && |kept| <= c < |t|
    ensures c - |kept| < |more| && t[c] == more[c - |kept|]
  {
  }

  lemma StartStays<T>(s: seq<T>, max: nat, t: seq<T>)
    requires max == 3 && t == Collapsed(s, max) && t != []
    ensures s != [] && t[0] == s[0]
  {
    if s != [] { FirstItemStays(s, max); }
  }

  lemma {:induction false} SelectTakes<T>(s: seq<T>, mask: seq<bool>)
    requires |s| == |mask|
    ensures multiset(Select(s, mask)) <= multiset(s)
    decreases s
  {
    if s != [] {
      SelectTakes(s[1..], mask[1..]);
      assert s == [s[0]] + s[1..];
    }
  }

  lemma Twice<T>(t: seq<T>, i: nat, j: nat)
    requires i < j < |t| && t[i] == t[j]
    ensures multiset(t)[t[i]] >= 2
  {
    assert t == t[..j] + t[j..];
    assert t[..j][i] in t[..j] && t[j..][0] in t[j..];
    assert multiset(t) == multiset(t[..j]) + multiset(t[j..]);
  }

  lemma ItemAtJunctionRepeats<T>(t: seq<T>, max: nat, q: nat, z: nat, c: nat)
    requires max == 3 && q <= |t| && TooLong(t[q..], max, z) && q < c < q + 4 * z
    ensures c < |t| && multiset(t)[t[c]] >= 2
  {
    LongIsPeriodic(t, q, z, max);
    if c + z < q + 4 * z {
      assert t[c] == t[c + z];
      Twice(t, c, c + z);
    } else {
      assert t[c - z] == t[c - z + z];
      Twice(t, c - z, c);
    }
  }

  /** A condition on the input alone: where every item that stands right after a cut run occurs nowhere else, one pass
      is enough. */
  lemma OnePassIsEnough<T(!new)>(s: seq<T>, max: nat)
    requires max == 3 && forall x :: x in AfterCuts(s, max) ==> multiset(s)[x] == 1
    ensures Collapsed(Collapsed(s, max), max) == Collapsed(s, max)
  {
    var t := Collapsed(s, max);
    SecondPassIdleIff(s, max);
    if LoopsAcross(s, max) {
      var q: nat, z: nat, c: nat :|
        q < c < q + 4 * z && q <= |t| && Junction(s, max, c) && TooLong(t[q..], max, z);
      ItemAtJunctionRepeats(t, max, q, z, c);
      JunctionItem(s, max, t, c);
      SelectTakes(s, Mask(s, max));
    }
  }
}
