/** Edit distance over words, and the word error rate accumulated with it. */
module EditDistances {
  import opened Basics

  /** One step of an edit script from a reference to a hypothesis. */
  datatype Edit<T> = Keep(x: T) | Sub(x: T, y: T) | Del(x: T) | Ins(y: T)

  function Source<T>(script: seq<Edit<T>>): seq<T> {
    if script == [] then [] else
    var e := script[|script| - 1];
    Source(script[..|script| - 1]) + if e.Ins? then [] else [e.x]
  }

  function Target<T>(script: seq<Edit<T>>): seq<T> {
    if script == [] then [] else
    var e := script[|script| - 1];
    Target(script[..|script| - 1]) + if e.Keep? then [e.x] else if e.Del? then [] else [e.y]
  }

  function Cost<T>(script: seq<Edit<T>>): nat {
    if script == [] then 0 else
    Cost(script[..|script| - 1]) + if script[|script| - 1].Keep? then 0 else 1
  }

  ghost predicate Turns<T>(script: seq<Edit<T>>, a: seq<T>, b: seq<T>) {
    Source(script) == a && Target(script) == b
  }

  /** The recurrence on the last words. */
  function Distance<T(==)>(a: seq<T>, b: seq<T>): nat
    decreases |a| + |b|
  {
    if a == [] then |b|
    else if b == [] then |a|
    else
      var (a', b') := (a[..|a| - 1], b[..|b| - 1]);
      Min(Min(Distance(a', b') + if a[|a| - 1] != b[|b| - 1] then 1 else 0, Distance(a', b) + 1), Distance(a, b') + 1)
  }

  // ------------------------------------------------------------------ the two rows

  /** A row of the table: distances from the first `i` reference words to every prefix of the hypothesis. */
  ghost predicate IsRow<T>(row: seq<nat>, a: seq<T>, b: seq<T>, upTo: nat) {
    upTo <= |row| == |b| + 1 && forall j :: 0 <= j < upTo ==> row[j] == Distance(a, b[..j])
  }

  /** One cell from its three neighbours. */
  lemma Cell<T>(a: seq<T>, b: seq<T>, i: nat, j: nat)
    requires i < |a| && j < |b|
    ensures Distance(a[..i + 1], b[..j + 1]) ==
            Min(Min(Distance(a[..i], b[..j]) + if a[i] != b[j] then 1 else 0, Distance(a[..i], b[..j + 1]) + 1),
                Distance(a[..i + 1], b[..j]) + 1)
  {
    assert a[..i + 1][..i] == a[..i] && b[..j + 1][..j] == b[..j];
  }

  method FillRow<T(==)>(prev: array<nat>, cur: array<nat>, reference: seq<T>, hypothesis: seq<T>, i: nat)
    requires prev != cur && prev.Length == cur.Length == |hypothesis| + 1 && i < |reference|
    requires IsRow(prev[..], reference[..i], hypothesis, |hypothesis| + 1)
    modifies cur
    ensures IsRow(cur[..], reference[..i + 1], hypothesis, |hypothesis| + 1)
  {
    cur[0] := i + 1;
    var j := 0;
    while j < |hypothesis|
      invariant 0 <= j <= |hypothesis|
      invariant IsRow(prev[..], reference[..i], hypothesis, |hypothesis| + 1)
      invariant IsRow(cur[..], reference[..i + 1], hypothesis, j + 1)
    {
      Cell(reference, hypothesis, i, j);
      assert prev[..][j] == prev[j] && prev[..][j + 1] == prev[j + 1] && cur[..][j] == cur[j];
      var sub := prev[j] + if reference[i] != hypothesis[j] then 1 else 0;
      cur[j + 1] := Min(Min(sub, prev[j + 1] + 1), cur[j] + 1);
      j := j + 1;
    }
  }

  /** Two rows, filled in turn and swapped. */
  method EditDistance<T(==)>(reference: seq<T>, hypothesis: seq<T>) returns (d: nat)
    ensures d == Distance(reference, hypothesis)
  {
    var prev := new nat[|hypothesis| + 1](j => j);
    var cur := new nat[|hypothesis| + 1](j => 0);
    forall j | 0 <= j <= |hypothesis| ensures prev[..][j] == Distance(reference[..0], hypothesis[..j]) {
    }
    var i := 0;
    while i < |reference|
      invariant 0 <= i <= |reference|
      invariant prev != cur && prev.Length == cur.Length == |hypothesis| + 1 && fresh(prev) && fresh(cur)
      invariant IsRow(prev[..], reference[..i], hypothesis, |hypothesis| + 1)
    {
      FillRow(prev, cur, reference, hypothesis, i);
      prev, cur := cur, prev;
      i := i + 1;
    }
    assert reference[..|reference|] == reference && hypothesis[..|hypothesis|] == hypothesis;
    d := prev[|hypothesis|];
    assert d == prev[..][|hypothesis|];
  }

  // ------------------------------------------------------------------ the distance is the least cost of a script

  function SourceOf<T>(e: Edit<T>): seq<T> {
    if e.Ins? then [] else [e.x]
  }

  function TargetOf<T>(e: Edit<T>): seq<T> {
    if e.Keep? then [e.x] else if e.Del? then [] else [e.y]
  }

  function CostOf<T>(e: Edit<T>): nat {
    if e.Keep? then 0 else 1
  }

  /** The step by which a cheapest script ends. */
  function LastEdit<T(==)>(a: seq<T>, b: seq<T>): Edit<T>
    requires a != [] || b != []
  {
    if b == [] then Del(a[|a| - 1])
    else if a == [] then Ins(b[|b| - 1])
    else if Distance(a, b) == Distance(a[..|a| - 1], b) + 1 then Del(a[|a| - 1])
    else if Distance(a, b) == Distance(a, b[..|b| - 1]) + 1 then Ins(b[|b| - 1])
    else if a[|a| - 1] == b[|b| - 1] then Keep(a[|a| - 1])
    else Sub(a[|a| - 1], b[|b| - 1])
  }

  lemma LastEditFits<T>(a: seq<T>, b: seq<T>) returns (a': seq<T>, b': seq<T>)
    requires a != [] || b != []
    ensures var e := LastEdit(a, b);
            && a == a' + SourceOf(e) && b == b' + TargetOf(e) && Distance(a, b) == Distance(a', b') + CostOf(e)
            && |a'| + |b'| < |a| + |b|
  {
    var e := LastEdit(a, b);
    a', b' := Before(a, e.Ins?), Before(b, e.Del?);
    LastEditEnds(a, b);
  }

  /** The list before its last item is touched. */
  function Before<T>(a: seq<T>, whole: bool): seq<T>
    requires !whole ==> a != []
  {
    if whole then a else a[..|a| - 1]
  }

  lemma LastEditEnds<T>(a: seq<T>, b: seq<T>)
    requires a != [] || b != []
    ensures var e := LastEdit(a, b);
            && (!e.Ins? ==> a != [] && a == a[..|a| - 1] + SourceOf(e)) && (e.Ins? ==> a == a + SourceOf(e))
            && (!e.Del? ==> b != [] && b == b[..|b| - 1] + TargetOf(e)) && (e.Del? ==> b == b + TargetOf(e))
  {
  }

  /** A script of that cost exists. */
  lemma {:induction false} BestScript<T>(a: seq<T>, b: seq<T>) returns (script: seq<Edit<T>>)
    ensures Turns(script, a, b) && Cost(script) == Distance(a, b)
    decreases |a| + |b|
  {
    if a == [] && b == [] {
      script := [];
    } else {
      var a', b' := LastEditFits(a, b);
      var rest := BestScript(a', b');
      script := rest + [LastEdit(a, b)];
    }
  }

  /** One more step adds at most its cost to the distance. */
  lemma StepDistance<T>(a: seq<T>, b: seq<T>, e: Edit<T>)
    ensures Distance(a + SourceOf(e), b + TargetOf(e)) <= Distance(a, b) + CostOf(e)
  {
    var c, d := a + SourceOf(e), b + TargetOf(e);
    if e.Ins? { assert c == a; } else { assert c[..|c| - 1] == a; }
    if e.Del? { assert d == b; } else { assert d[..|d| - 1] == b; }
  }

  /** No script is cheaper. */
  lemma {:induction false} NoCheaperScript<T>(script: seq<Edit<T>>)
    ensures Distance(Source(script), Target(script)) <= Cost(script)
  {
    if script != [] {
      var rest := script[..|script| - 1];
      NoCheaperScript(rest);
      StepDistance(Source(rest), Target(rest), script[|script| - 1]);
    }
  }

  /** The distance is the minimum cost over all edit scripts. */
  lemma DistanceIsLeastCost<T(!new)>(a: seq<T>, b: seq<T>)
    ensures exists script :: Turns(script, a, b) && Cost(script) == Distance(a, b)
    ensures forall script :: Turns(script, a, b) ==> Distance(a, b) <= Cost(script)
  {
    var best := BestScript(a, b);
    forall script | Turns(script, a, b) ensures Distance(a, b) <= Cost(script) {
      NoCheaperScript(script);
    }
  }

  // ------------------------------------------------------------------ it is a metric

  lemma {:induction false} DistanceSymmetric<T>(a: seq<T>, b: seq<T>)
    ensures Distance(a, b) == Distance(b, a)
    decreases |a| + |b|
  {
    if a != [] && b != [] {
      var a', b' := a[..|a| - 1], b[..|b| - 1];
      DistanceSymmetric(a', b');
      DistanceSymmetric(a', b);
      DistanceSymmetric(a, b');
    }
  }

  /** Two scripts one after the other, in one script that costs no more than both. */
  lemma {:induction false} Composed<T>(p: seq<Edit<T>>, q: seq<Edit<T>>) returns (r: seq<Edit<T>>)
    requires Target(p) == Source(q)
    ensures Turns(r, Source(p), Target(q)) && Cost(r) <= Cost(p) + Cost(q)
    decreases |p| + |q|
  {
    if p == [] && q == [] {
      r := [];
    } else if p != [] && p[|p| - 1].Del? {
      r := Composed(p[..|p| - 1], q);
      r := r + [p[|p| - 1]];
    } else if q != [] && q[|q| - 1].Ins? {
      r := Composed(p, q[..|q| - 1]);
      r := r + [q[|q| - 1]];
    } else {
      r := ComposedLast(p, q);
    }
  }

  /** The case where both scripts end on the same word in between. */
  lemma {:induction false} ComposedLast<T>(p: seq<Edit<T>>, q: seq<Edit<T>>) returns (r: seq<Edit<T>>)
    requires Target(p) == Source(q) && (p != [] || q != [])
    requires (p != [] ==> !p[|p| - 1].Del?) && (q != [] ==> !q[|q| - 1].Ins?)
    ensures Turns(r, Source(p), Target(q)) && Cost(r) <= Cost(p) + Cost(q)
    decreases |p| + |q|, 0
  {
    assert p != [] && q != [];
    var p', q', d, e := p[..|p| - 1], q[..|q| - 1], p[|p| - 1], q[|q| - 1];
    assert Target(p)[..|Target(p)| - 1] == Target(p') && Source(q)[..|Source(q)| - 1] == Source(q');
    r := Composed(p', q');
    if d.Ins? && e.Del? {
      return;
    }
    var last :=
      if d.Ins? then (if e.Keep? then d else Ins(e.y))
      else if e.Del? then Del(d.x)
      else if d.Keep? then e
      else if e.Keep? then d
      else Sub(d.x, e.y);
    r := r + [last];
  }

  lemma TriangleInequality<T>(a: seq<T>, b: seq<T>, c: seq<T>)
    ensures Distance(a, c) <= Distance(a, b) + Distance(b, c)
  {
    var p := BestScript(a, b);
    var q := BestScript(b, c);
    var r := Composed(p, q);
    NoCheaperScript(r);
  }

  /** It is zero only between equal lists, at least the difference of the lengths, at most the larger length. */
  lemma {:induction false} DistanceBounds<T>(a: seq<T>, b: seq<T>)
    ensures Distance(a, b) == 0 <==> a == b
    ensures Max(|a| - |b|, |b| - |a|) <= Distance(a, b) <= Max(|a|, |b|)
    decreases |a| + |b|
  {
    ZeroMeansEqual(a, b);
    if a != [] && b != [] {
      var a', b' := a[..|a| - 1], b[..|b| - 1];
      DistanceBounds(a', b');
      DistanceBounds(a', b);
      DistanceBounds(a, b');
    }
  }

  lemma {:induction false} ZeroMeansEqual<T>(a: seq<T>, b: seq<T>)
    ensures Distance(a, b) == 0 <==> a == b
    decreases |a|
  {
    if a != [] && b != [] {
      var a', b' := a[..|a| - 1], b[..|b| - 1];
      ZeroMeansEqual(a', b');
      assert a == a' + [a[|a| - 1]] && b == b' + [b[|b| - 1]];
    }
  }

  // ------------------------------------------------------------------ the corpus

  datatype Pair<T> = Pair(reference: seq<T>, hypothesis: seq<T>)

  ghost function Edits<T>(corpus: seq<Pair<T>>): nat {
    if corpus == [] then 0 else
    var n := |corpus| - 1;
    Edits(corpus[..n]) + Distance(corpus[n].reference, corpus[n].hypothesis)
  }

  ghost function Words<T>(corpus: seq<Pair<T>>): nat {
    if corpus == [] then 0 else Words(corpus[..|corpus| - 1]) + |corpus[|corpus| - 1].reference|
  }

  /** The accumulator, on normalised word lists. */
  class WerAccumulator<T(==)> {
    var edits: nat
    var refWords: nat
    ghost var corpus: seq<Pair<T>>

    ghost predicate Valid()
      reads this
    {
      edits == Edits(corpus) && refWords == Words(corpus)
    }

    constructor ()
      ensures Valid() && corpus == []
    {
      edits, refWords, corpus := 0, 0, [];
    }

    method Add(reference: seq<T>, hypothesis: seq<T>)
      requires Valid()
      modifies this
      ensures Valid() && corpus == old(corpus) + [Pair(reference, hypothesis)]
    {
      var d := EditDistance(reference, hypothesis);
      edits := edits + d;
      refWords := refWords + |reference|;
      corpus := corpus + [Pair(reference, hypothesis)];
      assert corpus[..|corpus| - 1] == old(corpus);
    }

    method Wer() returns (r: real)
      requires Valid()
      ensures r == if Words(corpus) == 0 then 0.0 else Edits(corpus) as real / Words(corpus) as real
    {
      r := if refWords == 0 then 0.0 else edits as real / refWords as real;
    }
  }
}
