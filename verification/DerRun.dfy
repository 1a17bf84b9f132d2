/** The error rate as it is computed. */
module DiarizationRun {
  import opened Basics
  import opened Order
  import opened DiarizationError
  import opened DiarizationRenaming
  import opened DiarizationTurns

  type Counts = map<(string, string), nat>

  /** The counts of the frames seen, plus `extra` on some pairs. */
  ghost predicate Counted(co: Counts, fs: seq<Frame>, extra: (string, string) -> bool) {
    forall r, h :: var n := Together(fs, r, h) + if extra(r, h) then 1 else 0;
                   ((r, h) in co <==> n > 0) && (n > 0 ==> co[(r, h)] == n)
  }

  method CountPairs(fs: seq<Frame>) returns (co: Counts)
    requires Proper(fs)
    ensures Counted(co, fs, (r, h) => false)
  {
    co := map[];
    var i := 0;
    while i < |fs|
      invariant 0 <= i <= |fs|
      invariant Counted(co, fs[..i], (r, h) => false)
    {
      co := CountFrame(co, fs[..i], fs[i]);
      assert fs[..i + 1][..i] == fs[..i];
      i := i + 1;
    }
    assert fs[..|fs|] == fs;
  }

  /** One frame: every reference label with every hypothesis label. */
  method CountFrame(before: Counts, ghost fs: seq<Frame>, f: Frame) returns (co: Counts)
    requires Counted(before, fs, (r, h) => false)
    requires NoDuplicates(f.0) && NoDuplicates(f.1)
    ensures Counted(co, fs, (r, h) => r in f.0 && h in f.1)
  {
    co := before;
    var a := 0;
    while a < |f.0|
      invariant 0 <= a <= |f.0|
      invariant Counted(co, fs, (r, h) => r in f.0[..a] && h in f.1)
    {
      var b := 0;
      while b < |f.1|
        invariant 0 <= b <= |f.1|
        invariant Counted(co, fs, (r, h) => (r in f.0[..a] && h in f.1) || (r == f.0[a] && h in f.1[..b]))
      {
        var k := (f.0[a], f.1[b]);
        assert f.0[a] !in f.0[..a] && f.1[b] !in f.1[..b];
        assert f.1[..b + 1] == f.1[..b] + [f.1[b]];
        co := co[k := 1 + if k in co then co[k] else 0];
        b := b + 1;
      }
      assert f.1[..b] == f.1;
      assert f.0[..a + 1] == f.0[..a] + [f.0[a]];
      a := a + 1;
    }
    assert f.0[..a] == f.0;
  }

  method RankPairs(fs: seq<Frame>, co: Counts) returns (s: seq<Rank>)
    requires Counted(co, fs, (r, h) => false)
    ensures IsRanking(fs, s)
  {
    BeforeTotal();
    s := [];
    var left := co.Keys;
    while left != {}
      invariant left <= co.Keys && Ascending(Before, s)
      invariant forall x :: x in s <==> (x.r, x.h) in co.Keys - left && x.n == co[(x.r, x.h)]
      decreases left
    {
      var k :| k in left;
      var x := Rank(k.0, k.1, co[k]);
      assert k == (x.r, x.h);
      InsertAscending(Before, x, s);
      s := Insert(Before, x, s);
      left := left - {k};
    }
  }

  method EndOf(turns: seq<Turn>) returns (end: nat)
    ensures end == LastEnd(turns)
  {
    end := 0;
    var i := 0;
    while i < |turns|
      invariant 0 <= i <= |turns|
      invariant end == LastEnd(turns[..i])
    {
      assert turns[..i + 1][..i] == turns[..i];
      end := Max(end, turns[i].end);
      i := i + 1;
    }
    assert turns[..|turns|] == turns;
  }

  method FramesOf(reference: seq<Turn>, hypothesis: seq<Turn>) returns (fs: seq<Frame>)
    ensures fs == Frames(reference, hypothesis)
  {
    var end := EndOf(reference + hypothesis);
    fs := [];
    var t := 0;
    while t < end
      invariant t == DER_FRAME_MS * |fs| && |fs| <= FrameCount(end)
      invariant forall i :: 0 <= i < |fs| ==>
                  fs[i] == (Active(reference, DER_FRAME_MS * i), Active(hypothesis, DER_FRAME_MS * i))
      decreases end - t
    {
      var r, h := Active(reference, t), Active(hypothesis, t);
      fs := fs + [(r, h)];
      t := t + DER_FRAME_MS;
    }
  }

  method MapLabels(s: seq<Rank>) returns (m: map<string, string>)
    ensures m == Mapping(s)
  {
    m := map[];
    var i := 0;
    while i < |s|
      invariant 0 <= i <= |s|
      invariant m == Mapping(s[..i])
    {
      assert s[..i + 1][..i] == s[..i];
      if s[i].h !in m && s[i].r !in m.Values { m := m[s[i].h := s[i].r]; }
      i := i + 1;
    }
    assert s[..|s|] == s;
  }

  method CountCorrect(m: map<string, string>, r: seq<string>, h: seq<string>) returns (correct: nat)
    ensures correct == Correct(m, r, h)
  {
    correct := 0;
    var j := 0;
    while j < |h|
      invariant 0 <= j <= |h|
      invariant correct == Correct(m, r, h[..j])
    {
      assert h[..j + 1][..j] == h[..j];
      if h[j] in m && m[h[j]] in r { correct := correct + 1; }
      j := j + 1;
    }
    assert h[..|h|] == h;
  }

  method AccountFrames(m: map<string, string>, fs: seq<Frame>) returns (d: Der)
    ensures d == Account(m, fs)
  {
    d := Der(0, 0, 0, 0);
    var i := 0;
    while i < |fs|
      invariant 0 <= i <= |fs|
      invariant d == Account(m, fs[..i])
    {
      assert fs[..i + 1][..i] == fs[..i];
      var (r, h) := fs[i];
      var correct := CountCorrect(m, r, h);
      d := Der(d.total + |r| * DER_FRAME_MS,
               d.miss + Max(0, |r| - |h|) * DER_FRAME_MS,
               d.falseAlarm + Max(0, |h| - |r|) * DER_FRAME_MS,
               d.confusion + (Min(|r|, |h|) - correct) * DER_FRAME_MS);
      i := i + 1;
    }
    assert fs[..|fs|] == fs;
  }

  lemma AccountsAreOnTurns(reference: seq<Turn>, hypothesis: seq<Turn>, m: map<string, string>, d: Der)
    requires d == Account(m, Frames(reference, hypothesis))
    ensures forall n: nat :: GridSize(reference + hypothesis, n) ==> d == DerOn(reference, hypothesis, n, m)
    ensures d.total == 10 * |Slots(reference)|
  {
    forall n: nat | GridSize(reference + hypothesis, n) ensures d == DerOn(reference, hypothesis, n, m) {
      DerIsOnTurns(reference, hypothesis, n, m);
    }
    FramesAreTurns(reference, hypothesis);
    TotalIsSlots(reference, hypothesis, |Frames(reference, hypothesis)|, m);
  }

  /** The error of a hypothesis: the accounts of the one ranking there is, none of them below zero, balanced;
      and no error at all when the hypothesis only renames the reference. */
  method ComputeDer(reference: seq<Turn>, hypothesis: seq<Turn>) returns (d: Der, ghost s: seq<Rank>)
    ensures IsRanking(Frames(reference, hypothesis), s)
    ensures d == Account(Mapping(s), Frames(reference, hypothesis))
    ensures forall n: nat :: GridSize(reference + hypothesis, n) ==> d == DerOn(reference, hypothesis, n, Mapping(s))
    ensures d.total == 10 * |Slots(reference)|
    ensures d.miss >= 0 && d.falseAlarm >= 0 && d.confusion >= 0
    ensures d.miss + d.confusion + CorrectMs(Mapping(s), Frames(reference, hypothesis)) == d.total
    ensures d.miss + d.falseAlarm + d.confusion == WrongMs(Mapping(s), Frames(reference, hypothesis))
    ensures forall rho: string -> string ::
              hypothesis == Renamed(reference, rho) && OneToOneOn(rho, Names(reference))
              ==> d.miss == d.falseAlarm == d.confusion == 0
  {
    var fs := FramesOf(reference, hypothesis);
    FramesProper(reference, hypothesis);
    var co := CountPairs(fs);
    var ranked := RankPairs(fs, co);
    s := ranked;
    var m := MapLabels(ranked);
    d := AccountFrames(m, fs);
    MappingIsGreedy(ranked);
    AccountsBalance(m, fs);
    AccountsAreOnTurns(reference, hypothesis, m, d);
    forall rho: string -> string |
      hypothesis == Renamed(reference, rho) && OneToOneOn(rho, Names(reference))
      ensures d.miss == d.falseAlarm == d.confusion == 0
    {
      RenamingHasNoError(reference, rho, ranked);
    }
  }
}
