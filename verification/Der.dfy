/** The diarization error rate: frames, the greedy mapping of labels, and the accounts. */
module DiarizationError {
  import opened Basics
  import opened Order
  import opened Matching

  datatype Turn = Turn(who: string, start: u32, end: u32)

  datatype Der = Der(total: int, miss: int, falseAlarm: int, confusion: int)

  const DER_FRAME_MS := 10

  /** One frame: the labels of the reference and of the hypothesis, each sorted and without duplicates. */
  type Frame = (seq<string>, seq<string>)

  function LabelsAt(turns: seq<Turn>, t: nat): seq<string> {
    if turns == [] then [] else
    var n := |turns| - 1;
    LabelsAt(turns[..n], t) + if turns[n].start <= t < turns[n].end then [turns[n].who] else []
  }

  function Active(turns: seq<Turn>, t: nat): seq<string> {
    SortedNames(LabelsAt(turns, t))
  }

  function LastEnd(turns: seq<Turn>): nat {
    if turns == [] then 0 else Max(LastEnd(turns[..|turns| - 1]), turns[|turns| - 1].end)
  }

  /** As many frames of 10 ms as start before the last end. */
  function FrameCount(end: nat): nat {
    (end + DER_FRAME_MS - 1) / DER_FRAME_MS
  }

  function Frames(reference: seq<Turn>, hypothesis: seq<Turn>): seq<Frame> {
    seq(FrameCount(LastEnd(reference + hypothesis)),
        i requires i >= 0 => (Active(reference, DER_FRAME_MS * i), Active(hypothesis, DER_FRAME_MS * i)))
  }

  /** Number of frames where `r` speaks in the reference and `h` in the hypothesis. */
  function Together(fs: seq<Frame>, r: string, h: string): nat {
    if fs == [] then 0 else
    var n := |fs| - 1;
    Together(fs[..n], r, h) + if r in fs[n].0 && h in fs[n].1 then 1 else 0
  }

  // ------------------------------------------------------------------ ranking and mapping

  datatype Rank = Rank(r: string, h: string, n: nat)

  /** Largest overlap first, then by the two labels. */
  predicate Before(a: Rank, b: Rank) {
    || a.n > b.n
    || (a.n == b.n && (StringLess(a.r, b.r) || (a.r == b.r && StringLess(a.h, b.h))))
  }

  lemma BeforeTotal()
    ensures StrictTotal(Before)
  {
    StringLessTotal();
  }

  ghost predicate IsRanking(fs: seq<Frame>, s: seq<Rank>) {
    && Ascending(Before, s)
    && (forall x :: x in s ==> 0 < x.n == Together(fs, x.r, x.h))
    && (forall r, h :: Together(fs, r, h) > 0 ==> Rank(r, h, Together(fs, r, h)) in s)
  }

  /** The order in which the pairs were counted does not matter: there is one ranking. */
  lemma RankingUnique(fs: seq<Frame>, s: seq<Rank>, t: seq<Rank>)
    requires IsRanking(fs, s) && IsRanking(fs, t)
    ensures s == t
  {
    BeforeTotal();
    forall x ensures x in s <==> x in t {
      if x in s { assert Rank(x.r, x.h, Together(fs, x.r, x.h)) in t; }
      if x in t { assert Rank(x.r, x.h, Together(fs, x.r, x.h)) in s; }
    }
    AscendingUnique(Before, s, t);
  }

  /** Pairs are taken in order, when neither label is mapped yet. */
  function Mapping(s: seq<Rank>): map<string, string> {
    if s == [] then map[] else
    var m, x := Mapping(s[..|s| - 1]), s[|s| - 1];
    if x.h !in m && x.r !in m.Values then m[x.h := x.r] else m
  }

  ghost predicate Injective(m: map<string, string>) {
    forall a, b :: a in m && b in m && a != b ==> m[a] != m[b]
  }

  function EdgesOf(s: seq<Rank>): seq<Edge<string, string>> {
    seq(|s|, i requires 0 <= i < |s| => Edge(s[i].h, s[i].r))
  }

  lemma {:induction false} MappingIsGreedy(s: seq<Rank>)
    ensures forall h, r :: h in Mapping(s) && Mapping(s)[h] == r <==> Edge(h, r) in Greedy(EdgesOf(s))
    ensures Injective(Mapping(s))
  {
    if s != [] {
      var n := |s| - 1;
      MappingIsGreedy(s[..n]);
      var es := EdgesOf(s);
      assert es[..n] == EdgesOf(s[..n]);
      var m, g, e := Mapping(s[..n]), Greedy(es[..n]), es[n];
      assert Free(g, e) <==> e.left !in m && e.right !in m.Values by {
        if e.left in m { assert Edge(e.left, m[e.left]) in g; }
        if e.right in m.Values {
          var h :| h in m && m[h] == e.right;
          assert Edge(h, e.right) in g;
        }
        if e.left !in m && e.right !in m.Values {
          forall c | c in g ensures !Touches(c, e) {
            assert c == Edge(c.left, c.right);
            assert c.left in m && m[c.left] == c.right;
          }
        }
      }
    }
  }

  // ------------------------------------------------------------------ the accounts

  /** Hypothesis labels of a frame whose mapped label speaks in it. */
  function Correct(m: map<string, string>, r: seq<string>, h: seq<string>): nat {
    if h == [] then 0 else
    var n := |h| - 1;
    Correct(m, r, h[..n]) + if h[n] in m && m[h[n]] in r then 1 else 0
  }

  function Account(m: map<string, string>, fs: seq<Frame>): Der {
    if fs == [] then Der(0, 0, 0, 0) else
    var n := |fs| - 1;
    var d, (r, h) := Account(m, fs[..n]), fs[n];
    Der(d.total + |r| * DER_FRAME_MS,
        d.miss + Max(0, |r| - |h|) * DER_FRAME_MS,
        d.falseAlarm + Max(0, |h| - |r|) * DER_FRAME_MS,
        d.confusion + (Min(|r|, |h|) - Correct(m, r, h)) * DER_FRAME_MS)
  }

  ghost predicate NoDuplicates(s: seq<string>) {
    forall i, j :: 0 <= i < j < |s| ==> s[i] != s[j]
  }

  ghost predicate Proper(fs: seq<Frame>) {
    forall i :: 0 <= i < |fs| ==> NoDuplicates(fs[i].0) && NoDuplicates(fs[i].1)
  }

  ghost function Elements(s: seq<string>): (e: set<string>)
    ensures |e| <= |s| && forall x :: x in e <==> x in s
  {
    if s == [] then {} else Elements(s[..|s| - 1]) + {s[|s| - 1]}
  }

  lemma {:induction false} ElementsCount(s: seq<string>)
    requires NoDuplicates(s)
    ensures |Elements(s)| == |s|
  {
    if s != [] { ElementsCount(s[..|s| - 1]); }
  }

  /** Reference labels credited in a frame. */
  ghost function Credited(m: map<string, string>, r: seq<string>, h: seq<string>): (s: set<string>)
    ensures forall y :: y in s ==> y in r && exists x :: x in h && x in m && m[x] == y
  {
    if h == [] then {} else
    var n := |h| - 1;
    assert forall x :: x in h[..n] ==> x in h;
    assert h[n] in h;
    Credited(m, r, h[..n]) + if h[n] in m && m[h[n]] in r then {m[h[n]]} else {}
  }

  lemma {:induction false} CreditedCount(m: map<string, string>, r: seq<string>, h: seq<string>)
    requires Injective(m) && NoDuplicates(h)
    ensures |Credited(m, r, h)| == Correct(m, r, h) <= |h|
  {
    if h != [] {
      var n := |h| - 1;
      CreditedCount(m, r, h[..n]);
    }
  }

  /** The mapping being one-to-one, a frame never credits more labels than either side has: the subtraction in
      the account of confusion cannot go below zero. */
  lemma CorrectIsBounded(m: map<string, string>, r: seq<string>, h: seq<string>)
    requires Injective(m) && NoDuplicates(r) && NoDuplicates(h)
    ensures Correct(m, r, h) <= Min(|r|, |h|)
  {
    CreditedCount(m, r, h);
    ElementsCount(r);
    SubsetSize(Credited(m, r, h), Elements(r));
  }

  /** Sums over all frames, in ms. */
  function CorrectMs(m: map<string, string>, fs: seq<Frame>): int {
    if fs == [] then 0 else
    var n := |fs| - 1;
    CorrectMs(m, fs[..n]) + Correct(m, fs[n].0, fs[n].1) * DER_FRAME_MS
  }

  function WrongMs(m: map<string, string>, fs: seq<Frame>): int {
    if fs == [] then 0 else
    var n := |fs| - 1;
    WrongMs(m, fs[..n]) + (Max(|fs[n].0|, |fs[n].1|) - Correct(m, fs[n].0, fs[n].1)) * DER_FRAME_MS
  }

  /** Reference speech is missed, confused or correct; the errors are what the larger side has and was not correct. */
  lemma {:induction false} AccountsBalance(m: map<string, string>, fs: seq<Frame>)
    requires Injective(m) && Proper(fs)
    ensures var d := Account(m, fs);
            && d.miss >= 0 && d.falseAlarm >= 0 && d.confusion >= 0 && CorrectMs(m, fs) >= 0
            && d.miss + d.confusion + CorrectMs(m, fs) == d.total
            && d.miss + d.falseAlarm + d.confusion == WrongMs(m, fs)
  {
    if fs != [] {
      var n := |fs| - 1;
      AccountsBalance(m, fs[..n]);
      CorrectIsBounded(m, fs[n].0, fs[n].1);
    }
  }
}
