/** Cutting decoding loops: where an n-gram of 1 to 4 items follows itself more than `max` times, only its first
    `max` copies stay. The input is read as a list of runs, each one gram and a number of copies. */
module RepeatCollapse {
  import opened Basics

  const MAX_REPEATS := 3
  const MAX_NGRAM := 4

  datatype Run<T> = Run(gram: seq<T>, copies: nat)

  /** The length of `k` copies of `size` items. */
  function Width(k: nat, size: nat): nat {
    if k == 0 then 0 else size + Width(k - 1, size)
  }

  lemma {:induction false} WidthIsProduct(k: nat, size: nat)
    ensures Width(k, size) == k * size
  {
    if k > 0 {
      WidthIsProduct(k - 1, size);
      assert k * size == (k - 1) * size + size;
    }
  }

  lemma {:induction false} WidthGrows(a: nat, b: nat, size: nat)
    requires a <= b && 1 <= size
    ensures Width(a, size) <= Width(b, size) && b <= Width(b, size)
    decreases b
  {
    if b > 0 {
      WidthGrows(if a == b then a - 1 else a, b - 1, size);
    }
  }

  lemma {:induction false} WidthNext(k: nat, size: nat)
    ensures Width(k + 1, size) == Width(k, size) + size
  {
  }

  function Times<T>(g: seq<T>, k: nat): (r: seq<T>)
    ensures |r| == Width(k, |g|)
  {
    if k == 0 then [] else g + Times(g, k - 1)
  }

  /** How many copies of `g` the sequence begins with. */
  function Copies<T(==)>(s: seq<T>, g: seq<T>): (k: nat)
    requires g != []
    ensures Times(g, k) <= s
    decreases |s|
  {
    if g <= s then
      assert s == g + s[|g|..];
      1 + Copies(s[|g|..], g)
    else 0
  }

  /** The copies counted are all there are: one more does not fit. */
  lemma {:induction false} CopiesAreAll<T>(s: seq<T>, g: seq<T>, k: nat)
    requires g != []
    ensures Times(g, k) <= s <==> k <= Copies(s, g)
    decreases k
  {
    if k > 0 {
      if g <= s {
        CopiesAreAll(s[|g|..], g, k - 1);
        assert s == g + s[|g|..];
        if Times(g, k) <= s {
          assert Times(g, k)[|g|..] == Times(g, k - 1);
          assert s[..|Times(g, k)|][|g|..] == s[|g|..][..|Times(g, k - 1)|];
        }
      }
    }
  }

  predicate TooLong<T(==)>(s: seq<T>, max: nat, size: nat) {
    1 <= size <= MAX_NGRAM && size <= |s| && Copies(s, s[..size]) > max
  }

  /** The first size, from `size` on, whose gram is repeated too often at the front. */
  function CutSize<T(==)>(s: seq<T>, max: nat, size: nat): (r: Option<nat>)
    requires 1 <= size
    ensures r.Some? ==> size <= r.value && TooLong(s, max, r.value)
    ensures r.None? ==> forall z :: size <= z ==> !TooLong(s, max, z)
    decreases MAX_NGRAM + 1 - size
  {
    if size > MAX_NGRAM || size > |s| then None
    else if Copies(s, s[..size]) > max then Some(size)
    else CutSize(s, max, size + 1)
  }

  /** The run at the front: a gram repeated too often with all its copies, or one item alone. */
  function FirstRun<T(==)>(s: seq<T>, max: nat): (r: Run<T>)
    requires s != []
    ensures 1 <= |r.gram| <= MAX_NGRAM && 1 <= r.copies && Times(r.gram, r.copies) <= s
    ensures 1 <= Width(r.copies, |r.gram|) <= |s|
  {
    match CutSize(s, max, 1)
    case None =>
      assert Times(s[..1], 1) == s[..1];
      Run(s[..1], 1)
    case Some(size) =>
      Run(s[..size], Copies(s, s[..size]))
  }

  function Runs<T(==)>(s: seq<T>, max: nat): seq<Run<T>>
    decreases |s|
  {
    if s == [] then [] else
    var r := FirstRun(s, max);
    [r] + Runs(s[Width(r.copies, |r.gram|)..], max)
  }

  function Fill(n: nat, b: bool): (r: seq<bool>)
    ensures |r| == n && forall i :: 0 <= i < n ==> r[i] == b
  {
    if n == 0 then [] else [b] + Fill(n - 1, b)
  }

  /** The first `max` of `k` copies of `size` items stay. */
  function RunMask(size: nat, k: nat, max: nat): (r: seq<bool>)
    ensures |r| == Width(k, size)
  {
    if k == 0 then [] else Fill(size, max > 0) + RunMask(size, k - 1, if max > 0 then max - 1 else 0)
  }

  /** Which items survive. */
  function Mask<T(==)>(s: seq<T>, max: nat): (r: seq<bool>)
    ensures |r| == |s|
    decreases |s|
  {
    if s == [] then [] else
    var r := FirstRun(s, max);
    RunMask(|r.gram|, r.copies, max) + Mask(s[Width(r.copies, |r.gram|)..], max)
  }

  /** The items whose mark is true. */
  function Select<T>(s: seq<T>, mask: seq<bool>): seq<T>
    requires |s| == |mask|
  {
    if s == [] then [] else (if mask[0] then [s[0]] else []) + Select(s[1..], mask[1..])
  }

  // ------------------------------------------------------------------ the loops

  predicate GramAt<T(==)>(keys: seq<T>, i: nat, g: seq<T>) {
    i + |g| <= |keys| && keys[i..i + |g|] == g
  }

  lemma GramIsPrefix<T>(keys: seq<T>, i: nat, g: seq<T>, rest: seq<T>)
    requires i <= |keys| && rest == keys[i..]
    ensures GramAt(keys, i, g) <==> g <= rest
  {
    if i + |g| <= |keys| {
      assert rest[..|g|] == keys[i..i + |g|];
    }
  }

  ghost function CopiesAt<T>(keys: seq<T>, i: nat, g: seq<T>): nat
    requires g != [] && i <= |keys|
    decreases |keys| - i
  {
    if GramAt(keys, i, g) then 1 + CopiesAt(keys, i + |g|, g) else 0
  }

  lemma {:induction false} CopiesAtIs<T>(keys: seq<T>, i: nat, g: seq<T>, rest: seq<T>)
    requires g != [] && i <= |keys| && rest == keys[i..]
    ensures CopiesAt(keys, i, g) == Copies(rest, g)
    decreases |keys| - i
  {
    GramIsPrefix(keys, i, g, rest);
    if GramAt(keys, i, g) {
      CopiesAtIs(keys, i + |g|, g, rest[|g|..]);
    }
  }

  method CountCopies<T(==)>(keys: seq<T>, i: nat, gram: seq<T>) returns (k: nat)
    requires gram != [] && GramAt(keys, i, gram)
    ensures k == Copies(keys[i..], gram)
  {
    k := 1;
    WidthNext(0, |gram|);
    while GramAt(keys, i + Width(k, |gram|), gram)
      invariant i + Width(k, |gram|) <= |keys|
      invariant CopiesAt(keys, i, gram) == k + CopiesAt(keys, i + Width(k, |gram|), gram)
      decreases |keys| - Width(k, |gram|)
    {
      WidthNext(k, |gram|);
      k := k + 1;
    }
    CopiesAtIs(keys, i, gram, keys[i..]);
  }

  /** The least size whose gram is repeated too often at the front. */
  ghost predicate FirstCut<T>(s: seq<T>, max: nat, size: nat) {
    TooLong(s, max, size) && forall z :: 1 <= z < size ==> !TooLong(s, max, z)
  }

  ghost predicate NoCut<T>(s: seq<T>, max: nat) {
    forall z :: 1 <= z <= MAX_NGRAM ==> !TooLong(s, max, z)
  }

  lemma {:induction false} CutSizeIs<T>(s: seq<T>, max: nat, from: nat, size: nat)
    requires 1 <= from <= size && FirstCut(s, max, size)
    ensures CutSize(s, max, from) == Some(size)
    decreases size - from
  {
    if from < size {
      assert !TooLong(s, max, from);
      CutSizeIs(s, max, from + 1, size);
    }
  }

  lemma {:induction false} CutSizeIsNone<T>(s: seq<T>, max: nat, from: nat)
    requires 1 <= from && NoCut(s, max)
    ensures CutSize(s, max, from) == None
    decreases MAX_NGRAM + 1 - from
  {
    if from <= MAX_NGRAM {
      assert !TooLong(s, max, from);
      CutSizeIsNone(s, max, from + 1);
    }
  }

  /** Tries the sizes in turn. */
  method FindCut<T(==)>(keys: seq<T>, max: nat, i: nat, ghost rest: seq<T>) returns (size: nat, k: nat)
    requires i < |keys| && rest == keys[i..]
    ensures size == 0 ==> NoCut(rest, max)
    ensures size > 0 ==> FirstCut(rest, max, size) && k == Copies(rest, rest[..size])
  {
    size, k := 1, 0;
    while size <= Min(MAX_NGRAM, |keys| - i)
      invariant 1 <= size
      invariant forall z :: 1 <= z < size ==> !TooLong(rest, max, z)
      decreases MAX_NGRAM + 1 - size
    {
      assert rest[..size] == keys[i..i + size];
      k := CountCopies(keys, i, keys[i..i + size]);
      if k > max { return; }
      size := size + 1;
    }
    size := 0;
  }

  lemma {:induction false} NoneKept(size: nat, k: nat)
    ensures RunMask(size, k, 0) == Fill(Width(k, size), false)
  {
    if k > 0 {
      NoneKept(size, k - 1);
      FillJoin(size, Width(k - 1, size), false);
    }
  }

  lemma {:induction false} MaskSplits(size: nat, k: nat, max: nat)
    requires max <= k && 1 <= size
    ensures Width(max, size) <= Width(k, size)
    ensures RunMask(size, k, max) == Fill(Width(max, size), true) + Fill(Width(k, size) - Width(max, size), false)
    decreases k
  {
    WidthGrows(max, k, size);
    if max == 0 {
      NoneKept(size, k);
    } else {
      MaskSplits(size, k - 1, max - 1);
      var less, rest := Width(max - 1, size), Width(k - 1, size);
      SplitOnce(RunMask(size, k - 1, max - 1), RunMask(size, k, max), size, less, rest - less);
    }
  }

  lemma SplitOnce(before: seq<bool>, now: seq<bool>, size: nat, less: nat, more: nat)
    requires before == Fill(less, true) + Fill(more, false) && now == Fill(size, true) + before
    ensures now == Fill(size + less, true) + Fill(more, false)
  {
    FillJoin(size, less, true);
    Assoc(Fill(size, true), Fill(less, true), Fill(more, false));
  }

  lemma FillJoin(a: nat, b: nat, x: bool)
    ensures Fill(a, x) + Fill(b, x) == Fill(a + b, x)
  {
  }

  lemma CutIsRun<T>(s: seq<T>, max: nat, size: nat)
    requires s != [] && CutSize(s, max, 1) == Some(size)
    ensures var r := FirstRun(s, max); r == Run(s[..size], Copies(s, s[..size])) && |r.gram| == size && r.copies > max
  {
  }

  lemma MaskOfRun<T>(s: seq<T>, max: nat, size: nat, k: nat, to: nat)
    requires s != [] && FirstRun(s, max).copies == k && |FirstRun(s, max).gram| == size && to == Width(k, size)
    ensures 0 < to <= |s| && Mask(s, max) == RunMask(size, k, max) + Mask(s[to..], max)
  {
  }

  lemma MaskOfCut<T>(s: seq<T>, max: nat, size: nat, from: nat, to: nat)
    requires s != [] && FirstCut(s, max, size)
    requires from == Width(max, size) && to == Width(Copies(s, s[..size]), size)
    ensures from <= to && 0 < to <= |s|
    ensures Mask(s, max) == Fill(from, true) + Fill(to - from, false) + Mask(s[to..], max)
  {
    CutSizeIs(s, max, 1, size);
    CutIsRun(s, max, size);
    var k := FirstRun(s, max).copies;
    MaskOfRun(s, max, size, k, to);
    MaskSplits(size, k, max);
  }

  lemma MaskOfItem<T>(s: seq<T>, max: nat)
    requires s != [] && NoCut(s, max)
    ensures Mask(s, max) == [true] + Mask(s[1..], max)
  {
    CutSizeIsNone(s, max, 1);
    assert !TooLong(s, max, 1);
    assert s[..1] <= s;
    assert Copies(s, s[..1]) >= 1;
    assert RunMask(1, 1, max) == [true];
  }

  /** The marks of the first `i` items, followed by those of the rest, are the whole mask. */
  ghost predicate Marked<T>(keys: seq<T>, max: nat, i: nat, rest: seq<T>, done: seq<bool>) {
    i <= |keys| && rest == keys[i..] && done + Mask(rest, max) == Mask(keys, max)
  }

  lemma MarkedAfter<T>(keys: seq<T>, max: nat, i: nat, rest: seq<T>, done: seq<bool>, marks: seq<bool>)
    requires Marked(keys, max, i, rest, done) && |marks| <= |rest|
    requires Mask(rest, max) == marks + Mask(rest[|marks|..], max)
    ensures Marked(keys, max, i + |marks|, rest[|marks|..], done + marks)
  {
    Assoc(done, marks, Mask(rest[|marks|..], max));
    assert keys[i..][|marks|..] == keys[i + |marks|..];
  }

  lemma MarkedToEnd<T>(keys: seq<T>, max: nat, rest: seq<T>, done: seq<bool>)
    requires Marked(keys, max, |keys|, rest, done)
    ensures done == Mask(keys, max)
  {
    Assoc(done, [], []);
  }

  lemma MarkedAtStart<T>(keys: seq<T>, max: nat)
    ensures Marked(keys, max, 0, keys, [])
  {
    Assoc([], Mask(keys, max), []);
  }

  /** The mask, filled in place. */
  method LoopMask<T(==)>(keys: seq<T>, max: nat) returns (keep: array<bool>)
    ensures fresh(keep) && keep[..] == Mask(keys, max)
  {
    var n := |keys|;
    keep := new bool[n](_ => true);
    ghost var done: seq<bool>, rest := [], keys;
    var i := 0;
    MarkedAtStart(keys, max);
    while i < n
      invariant 0 <= i <= n == keep.Length && fresh(keep)
      invariant Holds(keep, done, i)
      invariant Marked(keys, max, i, rest, done)
      decreases n - i
    {
      ghost var marks;
      i, marks := CutOrKeep(keys, max, i, keep, rest, done);
      MarkedAfter(keys, max, |done|, rest, done, marks);
      done, rest := done + marks, rest[|marks|..];
    }
    MarkedToEnd(keys, max, rest, done);
  }

  lemma MarksOfCut<T>(s: seq<T>, max: nat, size: nat, from: nat, to: nat) returns (marks: seq<bool>)
    requires s != [] && FirstCut(s, max, size)
    requires from == Width(max, size) && to == Width(Copies(s, s[..size]), size)
    ensures from <= to && |marks| == to && 0 < to <= |s|
    ensures marks == Fill(from, true) + Fill(to - from, false) && Mask(s, max) == marks + Mask(s[|marks|..], max)
  {
    MaskOfCut(s, max, size, from, to);
    marks := Fill(from, true) + Fill(to - from, false);
  }

  /** One turn of the loop: a run that is too long is cut, or one item kept. */
  method CutOrKeep<T(==)>(keys: seq<T>, max: nat, i: nat, keep: array<bool>, ghost rest: seq<T>, ghost done: seq<bool>)
      returns (next: nat, ghost marks: seq<bool>)
    requires i < |keys| == keep.Length && rest == keys[i..] && Holds(keep, done, i)
    modifies keep
    ensures next == i + |marks| && 0 < |marks| <= |rest| && Holds(keep, done + marks, next)
    ensures Mask(rest, max) == marks + Mask(rest[|marks|..], max)
  {
    var size, k := FindCut(keys, max, i, rest);
    if size > 0 {
      var from, to := Width(max, size), Width(k, size);
      marks := MarksOfCut(rest, max, size, from, to);
      CutOut(keep, i, from, to, done);
      next := i + to;
    } else {
      MaskOfItem(rest, max);
      marks := [true];
      next := i + 1;
    }
  }

  /** The array holds the marks `done` of the first `i` items; the others are still kept. */
  ghost predicate Holds(keep: array<bool>, done: seq<bool>, i: nat)
    reads keep
  {
    |done| == i <= keep.Length && forall j :: 0 <= j < keep.Length ==> keep[j] == (j < i ==> done[j])
  }

  /** Of the `to` items from `i` on, the first `from` stay. */
  method CutOut(keep: array<bool>, i: nat, from: nat, to: nat, ghost done: seq<bool>)
    requires from <= to && i + to <= keep.Length && Holds(keep, done, i)
    modifies keep
    ensures Holds(keep, done + (Fill(from, true) + Fill(to - from, false)), i + to)
  {
    var p := i + from;
    while p < i + to
      invariant i + from <= p <= i + to
      invariant forall j :: 0 <= j < keep.Length ==> keep[j] == (old(keep[j]) && !(i + from <= j < p))
    {
      keep[p] := false;
      p := p + 1;
    }
  }

  function Keys<W, T>(words: seq<W>, key: W -> T): (r: seq<T>)
    ensures |r| == |words| && forall i :: 0 <= i < |r| ==> r[i] == key(words[i])
  {
    if words == [] then [] else [key(words[0])] + Keys(words[1..], key)
  }

  lemma SelectStep<T>(s: seq<T>, mask: seq<bool>, i: nat)
    requires i < |s| == |mask|
    ensures Select(s[i..], mask[i..]) == (if mask[i] then [s[i]] else []) + Select(s[i + 1..], mask[i + 1..])
  {
    assert s[i..][1..] == s[i + 1..] && mask[i..][1..] == mask[i + 1..];
  }

  method Retain<W>(words: seq<W>, keep: array<bool>) returns (kept: seq<W>)
    requires |words| == keep.Length
    ensures kept == Select(words, keep[..])
  {
    kept := [];
    ghost var mask := keep[..];
    var i := 0;
    while i < |words|
      invariant 0 <= i <= |words|
      invariant kept + Select(words[i..], mask[i..]) == Select(words, mask)
    {
      SelectStep(words, mask, i);
      if keep[i] {
        kept := kept + [words[i]];
      }
      i := i + 1;
    }
  }

  /** The words that stay, compared by `key` alone. */
  method CollapseRepeats<W, T(==)>(words: seq<W>, key: W -> T) returns (kept: seq<W>)
    ensures kept == Select(words, Mask(Keys(words, key), 3))
  {
    var keep := LoopMask(Keys(words, key), MAX_REPEATS);
    kept := Retain(words, keep);
  }

  /** The words of the text, which is rewritten only where something is cut. */
  method CollapseText<T(==, !new)>(words: seq<string>, key: string -> T) returns (kept: Option<seq<string>>)
    ensures kept == None <==> NoLongRun(Keys(words, key), 3)
    ensures kept.Some? ==> kept.value == Select(words, Mask(Keys(words, key), 3))
  {
    ghost var keys := Keys(words, key);
    var keep := LoopMask(Keys(words, key), MAX_REPEATS);
    KeptIffNoLongRun(keys, MAX_REPEATS);
    if false !in keep[..] {
      assert forall j :: 0 <= j < keep.Length ==> keep[..][j] in keep[..];
      return None;
    }
    var result := Retain(words, keep);
    kept := Some(result);
  }

  // ------------------------------------------------------------------ what the runs spell

  function Spell<T>(runs: seq<Run<T>>): seq<T> {
    if runs == [] then [] else Times(runs[0].gram, runs[0].copies) + Spell(runs[1..])
  }

  /** Every run cut down to at most `max` copies. */
  function Shrunk<T>(runs: seq<Run<T>>, max: nat): (r: seq<Run<T>>)
  {
    if runs == [] then [] else [Run(runs[0].gram, Min(runs[0].copies, max))] + Shrunk(runs[1..], max)
  }

  lemma {:induction false} SelectAppend<T>(s: seq<T>, t: seq<T>, m: seq<bool>, n: seq<bool>)
    requires |s| == |m| && |t| == |n|
    ensures Select(s + t, m + n) == Select(s, m) + Select(t, n)
    decreases s
  {
    if s == [] {
      assert s + t == t && m + n == n;
    } else {
      SelectAppend(s[1..], t, m[1..], n);
      assert (s + t)[1..] == s[1..] + t && (m + n)[1..] == m[1..] + n;
      Assoc(if m[0] then [s[0]] else [], Select(s[1..], m[1..]), Select(t, n));
    }
  }

  lemma {:induction false} SelectFill<T>(s: seq<T>, b: bool)
    ensures Select(s, Fill(|s|, b)) == if b then s else []
    decreases s
  {
    if s != [] {
      SelectFill(s[1..], b);
      assert Fill(|s|, b)[1..] == Fill(|s[1..]|, b);
    }
  }

  lemma {:induction false} SelectRun<T>(g: seq<T>, k: nat, max: nat)
    ensures Select(Times(g, k), RunMask(|g|, k, max)) == Times(g, Min(k, max))
    decreases k
  {
    if k > 0 {
      var less := if max > 0 then max - 1 else 0;
      SelectRun(g, k - 1, less);
      SelectFill(g, max > 0);
      SelectAppend(g, Times(g, k - 1), Fill(|g|, max > 0), RunMask(|g|, k - 1, less));
    }
  }

  /** The runs spell the input, and what the mask keeps is the same runs cut down to `max` copies each. */
  lemma {:induction false} RunsAreCutDown<T>(s: seq<T>, max: nat)
    ensures Spell(Runs(s, max)) == s
    ensures Select(s, Mask(s, max)) == Spell(Shrunk(Runs(s, max), max))
    decreases |s|
  {
    if s != [] {
      var r := FirstRun(s, max);
      var n := Width(r.copies, |r.gram|);
      var run, rest := Times(r.gram, r.copies), s[n..];
      assert s == run + rest;
      RunsAreCutDown(rest, max);
      SelectRun(r.gram, r.copies, max);
      SelectAppend(run, rest, RunMask(|r.gram|, r.copies, max), Mask(rest, max));
      assert Runs(s, max)[1..] == Runs(rest, max);
      assert Shrunk(Runs(s, max), max)[1..] == Shrunk(Runs(rest, max), max);
    }
  }

  // ------------------------------------------------------------------ what is dropped

  lemma {:induction false} TimesPeriodic<T>(g: seq<T>, k: nat, j: nat)
    requires |g| <= j < Width(k, |g|)
    ensures Times(g, k)[j] == Times(g, k)[j - |g|]
    decreases k
  {
    var less := Times(g, k - 1);
    assert Times(g, k)[j] == less[j - |g|];
    if j >= |g| + |g| {
      TimesPeriodic(g, k - 1, j - |g|);
    }
  }

  predicate SameBack<T(==)>(s: seq<T>, p: nat, size: nat)
    requires p < |s|
  {
    1 <= size <= MAX_NGRAM && size <= p && s[p - size] == s[p]
  }

  /** The item at `p` equals one 1 to 4 places before it. */
  predicate RepeatsBack<T(==)>(s: seq<T>, p: nat)
    requires p < |s|
  {
    exists size: nat :: size <= MAX_NGRAM && SameBack(s, p, size)
  }

  lemma {:induction false} RunMaskAt(size: nat, k: nat, max: nat, j: nat)
    requires j < Width(k, size)
    ensures RunMask(size, k, max)[j] <==> j < Width(max, size)
    decreases k
  {
    if j >= size {
      RunMaskAt(size, k - 1, if max > 0 then max - 1 else 0, j - size);
    }
  }

  lemma SuffixOf<T>(s: seq<T>, i: nat, j: nat)
    requires i + j <= |s|
    ensures s[i..][j..] == s[i + j..]
  {
  }

  /** From `at` on stand `k` copies of `g`, among them item `p`. */
  ghost predicate InRun<T>(s: seq<T>, p: nat, at: nat, g: seq<T>, k: nat) {
    at <= p < at + Width(k, |g|) <= |s| && Times(g, k) <= s[at..]
  }

  lemma InRunLater<T>(s: seq<T>, n: nat, p: nat, at: nat, g: seq<T>, k: nat)
    requires n <= p < |s| && InRun(s[n..], p - n, at, g, k)
    ensures InRun(s, p, n + at, g, k)
  {
    SuffixOf(s, n, at);
  }

  lemma FirstRunMask<T>(s: seq<T>, max: nat, n: nat, p: nat)
    requires p < |s| && n == Width(FirstRun(s, max).copies, |FirstRun(s, max).gram|)
    ensures n <= |s| && if p < n then Mask(s, max)[p] <==> p < Width(max, |FirstRun(s, max).gram|)
                        else Mask(s, max)[p] == Mask(s[n..], max)[p - n]
  {
    var r := FirstRun(s, max);
    var first, later := RunMask(|r.gram|, r.copies, max), Mask(s[n..], max);
    MaskOfRun(s, max, |r.gram|, r.copies, n);
    assert Mask(s, max) == first + later;
    if p < n {
      RunMaskAt(|r.gram|, r.copies, max, p);
      assert (first + later)[p] == first[p];
    } else {
      assert (first + later)[p] == later[p - n];
    }
  }

  /** Every item lies in one of the runs, and is kept exactly when it lies in the first `max` copies there. */
  lemma {:induction false} KeptExactly<T>(s: seq<T>, max: nat, p: nat) returns (at: nat, g: seq<T>, k: nat)
    requires p < |s|
    ensures Run(g, k) in Runs(s, max) && 1 <= |g| <= MAX_NGRAM && InRun(s, p, at, g, k)
    ensures Mask(s, max)[p] <==> p < at + Width(max, |g|)
    decreases |s|
  {
    var r := FirstRun(s, max);
    var n := Width(r.copies, |r.gram|);
    FirstRunMask(s, max, n, p);
    if p < n {
      at, g, k := 0, r.gram, r.copies;
    } else {
      at, g, k := KeptExactly(s[n..], max, p - n);
      InRunLater(s, n, p, at, g, k);
      at := n + at;
    }
  }

  lemma WithinRun<T>(s: seq<T>, at: nat, g: seq<T>, k: nat, p: nat)
    requires at <= |s| && Times(g, k) <= s[at..] && at + |g| <= p < at + Width(k, |g|)
    ensures p < |s| && s[p - |g|] == s[p]
  {
    var run := Times(g, k);
    TimesPeriodic(g, k, p - at);
    assert run == s[at..][..|run|];
    assert run[p - at] == s[p] && run[p - at - |g|] == s[p - |g|];
  }

  /** Every item that is dropped lies in a run of more than `max` copies, past the first `max` of them, and equals the
      item one gram of that run before it. */
  lemma DroppedRepeats<T>(s: seq<T>, max: nat, p: nat) returns (at: nat, g: seq<T>, k: nat)
    requires 1 <= max && p < |s| && !Mask(s, max)[p]
    ensures Run(g, k) in Runs(s, max) && k > max && InRun(s, p, at, g, k) && at + Width(max, |g|) <= p
    ensures |g| <= p && s[p - |g|] == s[p] && RepeatsBack(s, p)
  {
    at, g, k := KeptExactly(s, max, p);
    PastTheFirst(s, max, p, at, g, k);
  }

  lemma PastTheFirst<T>(s: seq<T>, max: nat, p: nat, at: nat, g: seq<T>, k: nat)
    requires 1 <= max && p < |s| && 1 <= |g| <= MAX_NGRAM
    requires InRun(s, p, at, g, k) && at + Width(max, |g|) <= p
    ensures k > max && |g| <= p && s[p - |g|] == s[p] && RepeatsBack(s, p)
  {
    if k <= max { WidthGrows(k, max, |g|); }
    WidthGrows(1, max, |g|);
    WidthNext(0, |g|);
    WithinRun(s, at, g, k, p);
    assert SameBack(s, p, |g|);
  }

  predicate KeptUpTo<T(==)>(s: seq<T>, max: nat, p: nat)
    requires p < |s|
  {
    exists q :: 0 <= q <= p && s[q] == s[p] && Mask(s, max)[q]
  }

  /** Every item is kept or has an equal kept one before it; so the first occurrence of every key survives. */
  lemma {:induction false} FirstOccurrenceKept<T>(s: seq<T>, max: nat, p: nat)
    requires 1 <= max && p < |s|
    ensures KeptUpTo(s, max, p)
    ensures (forall q :: 0 <= q < p ==> s[q] != s[p]) ==> Mask(s, max)[p]
    decreases p
  {
    if !Mask(s, max)[p] {
      var _, _, _ := DroppedRepeats(s, max, p);
      var size: nat :| size <= MAX_NGRAM && SameBack(s, p, size);
      FirstOccurrenceKept(s, max, p - size);
    }
  }

  // ------------------------------------------------------------------ when nothing is dropped

  ghost predicate NoLongRun<T(!new)>(s: seq<T>, max: nat) {
    forall i: nat, size: nat :: i <= |s| ==> !TooLong(s[i..], max, size)
  }

  ghost predicate AllKept(mask: seq<bool>) {
    forall j :: 0 <= j < |mask| ==> mask[j]
  }

  lemma AllKeptAppend(a: seq<bool>, b: seq<bool>)
    ensures AllKept(a + b) <==> AllKept(a) && AllKept(b)
  {
    if AllKept(a + b) {
      assert forall j :: 0 <= j < |a| ==> (a + b)[j] == a[j];
      assert forall j :: 0 <= j < |b| ==> (a + b)[|a| + j] == b[j];
    }
  }

  lemma {:induction false} RunKept(size: nat, k: nat, max: nat)
    requires 1 <= size
    ensures AllKept(RunMask(size, k, max)) <==> k <= max
    decreases k
  {
    if k > 0 {
      var less := if max > 0 then max - 1 else 0;
      RunKept(size, k - 1, less);
      AllKeptAppend(Fill(size, max > 0), RunMask(size, k - 1, less));
      assert Fill(size, max > 0)[0] == (max > 0);
    }
  }

  lemma NoLongRunStep<T(!new)>(s: seq<T>, max: nat)
    requires s != []
    ensures NoLongRun(s, max) <==> CutSize(s, max, 1).None? && NoLongRun(s[1..], max)
  {
    assert s[0..] == s;
    if NoLongRun(s, max) {
      forall i: nat, size: nat | i <= |s[1..]| ensures !TooLong(s[1..][i..], max, size) {
        assert s[1..][i..] == s[i + 1..];
        assert !TooLong(s[i + 1..], max, size);
      }
    }
    if CutSize(s, max, 1).None? && NoLongRun(s[1..], max) {
      forall i: nat, size: nat | i <= |s| ensures !TooLong(s[i..], max, size) {
        if i > 0 {
          assert s[1..][i - 1..] == s[i..];
          assert !TooLong(s[1..][i - 1..], max, size);
        }
      }
    }
  }

  /** Nothing is dropped exactly when no gram of 1 to 4 items follows itself more than `max` times anywhere. */
  lemma {:induction false} KeptIffNoLongRun<T(!new)>(s: seq<T>, max: nat)
    ensures AllKept(Mask(s, max)) <==> NoLongRun(s, max)
    decreases |s|
  {
    if s != [] {
      var r := FirstRun(s, max);
      var n := Width(r.copies, |r.gram|);
      AllKeptAppend(RunMask(|r.gram|, r.copies, max), Mask(s[n..], max));
      RunKept(|r.gram|, r.copies, max);
      NoLongRunStep(s, max);
      if CutSize(s, max, 1).None? {
        assert n == 1;
        assert !TooLong(s, max, 1);
        assert s[..1] <= s;
        assert Copies(s, s[..1]) >= 1;
        KeptIffNoLongRun(s[1..], max);
      }
    }
  }

  lemma {:induction false} SelectAll<T>(s: seq<T>, mask: seq<bool>)
    requires |s| == |mask|
    ensures |Select(s, mask)| <= |s|
    ensures Select(s, mask) == s <==> AllKept(mask)
    ensures |Select(s, mask)| == |s| <==> AllKept(mask)
    decreases s
  {
    if s != [] {
      SelectAll(s[1..], mask[1..]);
      AllKeptAppend(mask[..1], mask[1..]);
      assert mask == mask[..1] + mask[1..];
    }
  }

  function Collapsed<T(==)>(s: seq<T>, max: nat): seq<T> {
    Select(s, Mask(s, max))
  }

  lemma Alone<T>(s: seq<T>, z: nat)
    requires 1 <= z < |s| && s[z] != s[0]
    ensures Copies(s, s[..z]) == 1
  {
    assert s[z..][0] != s[..z][0];
    assert s[..z] <= s;
  }

  lemma AloneAtFront<T>(s: seq<T>)
    requires 4 < |s| && forall z :: 1 <= z <= 4 ==> s[z] != s[0]
    ensures CutSize(s, MAX_REPEATS, 1) == None
  {
    Alone(s, 1);
    Alone(s, 2);
    Alone(s, 3);
    Alone(s, 4);
  }

  lemma FourOnes(rest: seq<int>)
    requires rest == [] || rest[0] == 0
    ensures Collapsed([1, 1, 1, 1] + rest, MAX_REPEATS) == [1, 1, 1] + Collapsed(rest, MAX_REPEATS)
  {
    var s := [1, 1, 1, 1] + rest;
    assert Times([1], 4) == [1, 1, 1, 1] && Times([1], 3) == [1, 1, 1];
    CopiesAreAll(s, [1], 4);
    CopiesAreAll(s, [1], 5);
    assert Times([1], 5)[4] == 1;
    assert s[..1] == [1] && s[4..] == rest;
    assert FirstRun(s, MAX_REPEATS) == Run([1], 4);
    SelectRun([1], 4, MAX_REPEATS);
    SelectAppend(Times([1], 4), rest, RunMask(1, 4, MAX_REPEATS), Mask(rest, MAX_REPEATS));
  }

  lemma FirstItemKept<T>(s: seq<T>, rest: seq<T>, kept: seq<T>)
    requires s != [] && s[1..] == rest && CutSize(s, MAX_REPEATS, 1) == None && Collapsed(rest, MAX_REPEATS) == kept
    ensures Collapsed(s, MAX_REPEATS) == [s[0]] + kept
  {
    MaskOfItem(s, MAX_REPEATS);
    assert Mask(s, MAX_REPEATS)[1..] == Mask(rest, MAX_REPEATS);
  }

  /** A zero and four ones lose one one. */
  lemma Block(s: seq<int>, ones: seq<int>, three: seq<int>, rest: seq<int>, kept: seq<int>)
    requires rest == [] || rest[0] == 0
    requires ones == [1, 1, 1, 1] && three == [1, 1, 1]
    requires s == [0] + ones + rest && kept == Collapsed(rest, MAX_REPEATS)
    ensures Collapsed(s, MAX_REPEATS) == [0] + three + kept
  {
    ZeroAlone(s, ones, rest);
    FourOnes(rest);
    FirstItemKept(s, ones + rest, three + kept);
    assert [0] + three + kept == [0] + (three + kept);
  }

  lemma ZeroAlone(s: seq<int>, ones: seq<int>, rest: seq<int>)
    requires ones == [1, 1, 1, 1] && s == [0] + ones + rest
    ensures CutSize(s, MAX_REPEATS, 1) == None && s[0] == 0 && s[1..] == ones + rest
  {
    assert forall z :: 1 <= z <= 4 ==> s[z] == ones[z - 1];
    AloneAtFront(s);
  }

  lemma {:induction false} Blocks(ones: seq<int>, three: seq<int>, n: nat)
    requires ones == [1, 1, 1, 1] && three == [1, 1, 1]
    ensures Collapsed(Times([0] + ones, n), MAX_REPEATS) == Times([0] + three, n)
  {
    if n > 0 {
      var rest := Times([0] + ones, n - 1);
      assert rest == [] || rest[0] == 0;
      Blocks(ones, three, n - 1);
      Block([0] + ones + rest, ones, three, rest, Times([0] + three, n - 1));
    }
  }

  lemma FourBlocksAreCut(g: seq<int>, t: seq<int>)
    requires |g| == 4 && t == Times(g, 4)
    ensures !AllKept(Mask(t, MAX_REPEATS))
  {
    assert g <= t;
    assert t[..4] == g;
    CopiesAreAll(t, g, 4);
    assert TooLong(t[0..], MAX_REPEATS, 4);
    KeptIffNoLongRun(t, MAX_REPEATS);
  }

  lemma SecondPassCuts<T>(s: seq<T>, t: seq<T>)
    requires Collapsed(s, MAX_REPEATS) == t && !AllKept(Mask(t, MAX_REPEATS))
    ensures Collapsed(Collapsed(s, MAX_REPEATS), MAX_REPEATS) != Collapsed(s, MAX_REPEATS)
  {
    SelectAll(t, Mask(t, MAX_REPEATS));
  }

  lemma SecondPassCutsBlocks(ones: seq<int>, three: seq<int>, n: nat)
    requires ones == [1, 1, 1, 1] && three == [1, 1, 1] && n == 4
    ensures exists s: seq<int> :: Collapsed(Collapsed(s, MAX_REPEATS), MAX_REPEATS) != Collapsed(s, MAX_REPEATS)
  {
    Blocks(ones, three, n);
    FourBlocksAreCut([0] + three, Times([0] + three, n));
    SecondPassCuts(Times([0] + ones, n), Times([0] + three, n));
  }

  /** Collapsing is not idempotent: (0 1 1 1 1) four times becomes (0 1 1 1) four times, and that is cut again. */
  lemma SecondPassCanCut()
    ensures exists s: seq<int> :: Collapsed(Collapsed(s, MAX_REPEATS), MAX_REPEATS) != Collapsed(s, MAX_REPEATS)
  {
    SecondPassCutsBlocks([1, 1, 1, 1], [1, 1, 1], 4);
  }
}
