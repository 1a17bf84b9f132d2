/** The cut of decoding loops as a rule on the items alone: one walk over the list, loop by loop. */
module RepeatRule {
  import opened Basics
  import opened RepeatCollapse
  import opened RepeatCuts

  /** From `i` on, `z` items, 1 to 4, follow themselves at least four times in a row. */
  ghost predicate LoopAt<T>(s: seq<T>, i: nat, z: nat) {
    1 <= z <= 4 && i + 4 * z <= |s| && forall j :: i <= j && j + z < i + 4 * z ==> s[j] == s[j + z]
  }

  /** `n` is `z` some number of times. */
  ghost predicate Multiple(n: nat, z: nat)
    requires 1 <= z
  {
    n == 0 || (n >= z && Multiple(n - z, z))
  }

  /** The copies of the `z` items at `i` end at `e`: whole copies up to there, and not one more. */
  ghost predicate CopiesEnd<T>(s: seq<T>, i: nat, z: nat, e: nat)
    requires 1 <= z
  {
    && i + z <= e <= |s| && Multiple(e - i, z)
    && (forall j :: i <= j && j + z < e ==> s[j] == s[j + z])
    && (e + z <= |s| ==> exists j :: e - z <= j < e && s[j] != s[j + z])
  }

  /** One step from `i` to `e`. Where items loop, the least number of items that do is taken with all its copies, and the
      first three copies stay; elsewhere one item stays. */
  ghost predicate StepIs<T>(s: seq<T>, mask: seq<bool>, i: nat, e: nat)
    requires |mask| == |s|
  {
    if exists z :: LoopAt(s, i, z) then exists z: nat :: LoopStep(s, mask, i, e, z) else e == i + 1 <= |s| && mask[i]
  }

  ghost predicate LoopStep<T>(s: seq<T>, mask: seq<bool>, i: nat, e: nat, z: nat)
    requires |mask| == |s|
  {
    && LoopAt(s, i, z) && (forall y :: 1 <= y < z ==> !LoopAt(s, i, y))
    && CopiesEnd(s, i, z, e) && forall j :: i <= j < e ==> (mask[j] <==> j < i + 3 * z)
  }

  /** Steps lead from `i` through the places of the list to `end`. */
  ghost predicate Path(step: (nat, nat) -> bool, at: seq<nat>, i: nat, end: nat)
    decreases |at|
  {
    at != [] && at[0] == i && if |at| == 1 then i == end else step(i, at[1]) && Path(step, at[1..], at[1], end)
  }

  /** A walk over all the items, from the first one to the end, every step as the rule says. */
  ghost predicate Walk<T>(s: seq<T>, mask: seq<bool>, at: seq<nat>) {
    Path(Rule(s, mask), at, 0, |s|)
  }

  ghost function Rule<T>(s: seq<T>, mask: seq<bool>): (nat, nat) -> bool {
    (i: nat, e: nat) => |mask| == |s| && StepIs(s, mask, i, e)
  }

  // ------------------------------------------------------------------ loops and copies

  lemma LoopIsLong<T>(s: seq<T>, i: nat, z: nat)
    requires i <= |s|
    ensures LoopAt(s, i, z) <==> TooLong(s[i..], 3, z)
  {
    if LoopAt(s, i, z) {
      assert Periodic(s[i..], 0, z, 4 * z);
      PeriodicIsLong(s[i..], z, 3);
    }
    if TooLong(s[i..], 3, z) {
      LongIsPeriodic(s, i, z, 3);
    }
  }

  /** The first `n` items repeat with the period of `g`. */
  ghost predicate Repeat<T>(s: seq<T>, g: seq<T>, n: nat)
  {
    g <= s && n <= |s| && forall j :: 0 <= j && j + |g| < n ==> s[j] == s[j + |g|]
  }

  lemma {:induction false} TimesRepeat<T>(s: seq<T>, g: seq<T>, k: nat)
    requires 1 <= k && g != []
    ensures Times(g, k) <= s <==> Repeat(s, g, Width(k, |g|))
    decreases k
  {
    WidthNext(k - 1, |g|);
    var n := Width(k, |g|);
    if k == 1 {
      assert Times(g, 1) == g;
    } else if n <= |s| && g <= s {
      var t := s[|g|..];
      TimesRepeat(t, g, k - 1);
      TailTimes(s, g, k);
      TailRepeats(s, g, n);
    } else {
      NotTimes(s, g, k);
    }
  }

  lemma NotTimes<T>(s: seq<T>, g: seq<T>, k: nat)
    requires 1 <= k && (!(g <= s) || Width(k, |g|) > |s|)
    ensures !(Times(g, k) <= s)
  {
  }

  lemma TailTimes<T>(s: seq<T>, g: seq<T>, k: nat)
    requires 1 <= k && g <= s && Width(k, |g|) <= |s|
    ensures Times(g, k) <= s <==> Times(g, k - 1) <= s[|g|..]
  {
    var n := Width(k, |g|);
    assert s[..n] == g + s[|g|..][..n - |g|];
  }

  lemma TailRepeats<T>(s: seq<T>, g: seq<T>, n: nat)
    requires g != [] && g <= s && |g| + |g| <= n <= |s|
    ensures Repeat(s, g, n) <==> Repeat(s[|g|..], g, n - |g|)
  {
    var t := s[|g|..];
    if Repeat(s, g, n) {
      assert forall j :: 0 <= j < |g| ==> s[j] == s[j + |g|] == t[j];
      assert t[..|g|] == g;
    }
    if Repeat(t, g, n - |g|) {
      forall j | 0 <= j && j + |g| < n ensures s[j] == s[j + |g|] {
        if j < |g| { assert t[j] == g[j] == s[j]; } else { assert t[j - |g|] == t[j - |g| + |g|]; }
      }
    }
  }

  lemma {:induction false} WidthIsMultiple(k: nat, z: nat)
    requires 1 <= z
    ensures Multiple(Width(k, z), z)
  {
    if k > 0 { WidthIsMultiple(k - 1, z); }
  }

  /** The copies counted at `i` end where one more does not fit. */
  lemma CopiesEndIs<T>(s: seq<T>, i: nat, z: nat, k: nat)
    requires i <= |s| && 1 <= z <= |s| - i && k == Copies(s[i..], s[i..][..z]) >= 1
    ensures i + Width(k, z) <= |s| && CopiesEnd(s, i, z, i + Width(k, z))
  {
    var t, n := s[i..], Width(k, z);
    CopiesRepeat(t, t[..z], k, n);
    WidthIsMultiple(k, z);
    RepeatEnds(s, i, t, t[..z], n);
  }

  lemma CopiesRepeat<T>(t: seq<T>, g: seq<T>, k: nat, n: nat)
    requires g != [] && k == Copies(t, g) >= 1 && n == Width(k, |g|)
    ensures |g| <= n && Repeat(t, g, n) && !Repeat(t, g, n + |g|)
  {
    CopiesAreAll(t, g, k);
    CopiesAreAll(t, g, k + 1);
    TimesRepeat(t, g, k);
    TimesRepeat(t, g, k + 1);
    WidthNext(k, |g|);
    WidthGrows(1, k, |g|);
    WidthNext(0, |g|);
  }

  lemma RepeatEnds<T>(s: seq<T>, i: nat, t: seq<T>, g: seq<T>, n: nat)
    requires i <= |s| && t == s[i..] && g != [] && |g| <= n && Multiple(n, |g|)
    requires Repeat(t, g, n) && !Repeat(t, g, n + |g|)
    ensures CopiesEnd(s, i, |g|, i + n)
  {
    var z := |g|;
    forall j | i <= j && j + z < i + n ensures s[j] == s[j + z] {
      assert t[j - i] == t[j - i + z];
    }
    if n + z <= |t| {
      var j :| 0 <= j && j + z < n + z && t[j] != t[j + z];
      assert s[i + j] != s[i + j + z];
    }
  }

  // ------------------------------------------------------------------ the walk

  lemma LoopsFrom<T>(s: seq<T>, n: nat, i: nat, z: nat)
    requires n <= |s|
    ensures LoopAt(s[n..], i, z) <==> LoopAt(s, n + i, z)
  {
    var t := s[n..];
    if LoopAt(t, i, z) {
      forall j | n + i <= j && j + z < n + i + 4 * z ensures s[j] == s[j + z] { assert t[j - n] == t[j - n + z]; }
    }
    if LoopAt(s, n + i, z) {
      forall j | i <= j && j + z < i + 4 * z ensures t[j] == t[j + z] { assert s[n + j] == s[n + j + z]; }
    }
  }

  lemma CopiesEndFrom<T>(s: seq<T>, n: nat, i: nat, z: nat, e: nat)
    requires n <= |s| && 1 <= z && CopiesEnd(s[n..], i, z, e)
    ensures CopiesEnd(s, n + i, z, n + e)
  {
    var t := s[n..];
    forall j | n + i <= j && j + z < n + e ensures s[j] == s[j + z] { assert t[j - n] == t[j - n + z]; }
    if n + e + z <= |s| {
      var j :| e - z <= j < e && t[j] != t[j + z];
      assert s[n + j] != s[n + j + z];
    }
  }

  lemma StepFrom<T>(s: seq<T>, mask: seq<bool>, n: nat, i: nat, e: nat, i': nat, e': nat)
    requires |mask| == |s| && n <= |s| && StepIs(s[n..], mask[n..], i, e) && i' == n + i && e' == n + e
    ensures StepIs(s, mask, i', e')
  {
    var t, rest := s[n..], mask[n..];
    forall z: nat ensures LoopAt(t, i, z) <==> LoopAt(s, i', z) { LoopsFrom(s, n, i, z); }
    if exists z :: LoopAt(t, i, z) {
      var z: nat :| LoopStep(t, rest, i, e, z);
      CopiesEndFrom(s, n, i, z, e);
      forall j | i' <= j < e' ensures mask[j] <==> j < i' + 3 * z { assert mask[j] == rest[j - n]; }
      assert LoopStep(s, mask, i', e', z);
    }
  }

  lemma FirstStep<T>(s: seq<T>, n: nat)
    requires s != [] && n == Width(FirstRun(s, 3).copies, |FirstRun(s, 3).gram|)
    ensures StepIs(s, Mask(s, 3), 0, n)
  {
    assert s[0..] == s;
    forall z ensures LoopAt(s, 0, z) <==> TooLong(s, 3, z) { LoopIsLong(s, 0, z); }
    match CutSize(s, 3, 1)
    case None =>
      forall z | 1 <= z ensures !LoopAt(s, 0, z) { assert !TooLong(s, 3, z); }
      MaskOfItem(s, 3);
    case Some(z) => CutStep(s, n, z);
  }

  lemma CutStep<T>(s: seq<T>, n: nat, z: nat)
    requires s != [] && n == Width(FirstRun(s, 3).copies, |FirstRun(s, 3).gram|) && CutSize(s, 3, 1) == Some(z)
    ensures StepIs(s, Mask(s, 3), 0, n)
  {
    var k := FirstRun(s, 3).copies;
    assert s[0..] == s;
    CutIsRun(s, 3, z);
    CopiesEndIs(s, 0, z, k);
    forall y ensures LoopAt(s, 0, y) <==> TooLong(s, 3, y) { LoopIsLong(s, 0, y); }
    forall y | 1 <= y < z ensures !LoopAt(s, 0, y) {
      if TooLong(s, 3, y) { CutSizeIsLeast(s, 3, 1, y); }
    }
    assert LoopAt(s, 0, z);
    MaskOfRun(s, 3, z, k, n);
    FourTimes(z);
    forall j | 0 <= j < n ensures Mask(s, 3)[j] <==> j < 3 * z { RunMaskAt(z, k, 3, j); }
    assert LoopStep(s, Mask(s, 3), 0, n, z);
  }

  lemma {:induction false} PathLater(step: (nat, nat) -> bool, step': (nat, nat) -> bool, n: nat, at: seq<nat>, i: nat, end: nat)
    returns (at': seq<nat>)
    requires Path(step, at, i, end) && forall a: nat, b: nat :: step(a, b) ==> step'(n + a, n + b)
    ensures Path(step', at', n + i, n + end)
    decreases |at|
  {
    if |at| == 1 {
      at' := [n + i];
    } else {
      var rest := PathLater(step, step', n, at[1..], at[1], end);
      at' := [n + i] + rest;
      assert at'[1..] == rest;
    }
  }

  lemma RuleLater<T>(s: seq<T>, mask: seq<bool>, n: nat)
    requires |mask| == |s| && n <= |s|
    ensures forall a: nat, b: nat :: Rule(s[n..], mask[n..])(a, b) ==> Rule(s, mask)(n + a, n + b)
  {
    forall a: nat, b: nat | Rule(s[n..], mask[n..])(a, b) ensures Rule(s, mask)(n + a, n + b) {
      StepFrom(s, mask, n, a, b, n + a, n + b);
    }
  }

  lemma FirstOfRule<T>(s: seq<T>, n: nat)
    requires s != [] && n == Width(FirstRun(s, 3).copies, |FirstRun(s, 3).gram|)
    ensures Rule(s, Mask(s, 3))(0, n)
  {
    FirstStep(s, n);
  }

  /** The rule for a list from its first run and the rule for the rest. */
  lemma RuleOf<T>(s: seq<T>) returns (n: nat, rest: seq<T>, rule: (nat, nat) -> bool, later: (nat, nat) -> bool)
    requires s != []
    ensures 0 < n <= |s| && rest == s[n..] && rule == Rule(s, Mask(s, 3)) && later == Rule(rest, Mask(rest, 3))
    ensures rule(0, n) && forall a: nat, b: nat :: later(a, b) ==> rule(n + a, n + b)
  {
    var r, mask := FirstRun(s, 3), Mask(s, 3);
    n := Width(r.copies, |r.gram|);
    rest := s[n..];
    rule, later := Rule(s, mask), Rule(rest, Mask(rest, 3));
    MaskOfRun(s, 3, |r.gram|, r.copies, n);
    assert mask[n..] == Mask(s[n..], 3);
    RuleLater(s, mask, n);
    FirstOfRule(s, n);
  }

  lemma PathFrom(step: (nat, nat) -> bool, step': (nat, nat) -> bool, n: nat, later: seq<nat>, end: nat, total: nat)
    returns (at: seq<nat>)
    requires total == n + end && Path(step, later, 0, end) && step'(0, n) && forall a: nat, b: nat :: step(a, b) ==> step'(n + a, n + b)
    ensures Path(step', at, 0, total)
  {
    var rest := PathLater(step, step', n, later, 0, end);
    at := [0] + rest;
    assert at[1..] == rest;
  }

  /** What stays of any list: a walk over it that follows the rule from the first item to the end. */
  lemma {:induction false} MaskFollowsRule<T>(s: seq<T>) returns (at: seq<nat>)
    ensures Walk(s, Mask(s, 3), at)
    decreases |s|
  {
    if s == [] {
      at := [0];
    } else {
      var n, rest, rule, ruleOfRest := RuleOf(s);
      var later := MaskFollowsRule(rest);
      at := PathFrom(ruleOfRest, rule, n, later, |rest|, |s|);
    }
  }
}
