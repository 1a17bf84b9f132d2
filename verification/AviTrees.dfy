/** Reading any file that is made of chunks and nested lists, in whatever order and depth, known chunks among unknown
    ones. */
module AviTrees {
  import opened Basics
  import opened AviFormat
  import opened AviReader
  import opened AviRoundTrip
  import opened AviHeaders

  /** A chunk, a `movi` list with anything in it, or a list of pieces. */
  datatype Piece =
    | Leaf(id: bytes, data: bytes)
    | Movie(data: bytes)
    | Nest(kind: bytes, items: seq<Piece>)

  ghost predicate Proper(p: Piece) {
    match p
    case Leaf(id, _) => |id| == 4 && id != LIST
    case Movie(_) => true
    case Nest(kind, items) => |kind| == 4 && kind != MOVI && AllProper(items)
  }

  ghost predicate AllProper(items: seq<Piece>) {
    items == [] || (Proper(items[0]) && AllProper(items[1..]))
  }

  ghost function Bytes(p: Piece): bytes {
    match p
    case Leaf(id, data) => Chunk(id, data)
    case Movie(data) => Chunk(LIST, MOVI + data)
    case Nest(kind, items) => Chunk(LIST, kind + AllBytes(items))
  }

  ghost function AllBytes(items: seq<Piece>): bytes {
    if items == [] then [] else Bytes(items[0]) + AllBytes(items[1..])
  }

  /** The chunks that tell the reader something. */
  datatype Kind = Main | Stream | Index | Frames

  ghost predicate IsKind(p: Piece, k: Kind) {
    match k
    case Main => p.Leaf? && p.id == AVIH
    case Stream => p.Leaf? && p.id == STRH
    case Index => p.Leaf? && p.id == IDX1
    case Frames => p.Movie?
  }

  /** Where the pieces of kind `k` stand, at any depth, the first of `items` standing at `pos`; with the length of their
      data. */
  ghost function Spots(items: seq<Piece>, pos: nat, k: Kind): seq<(nat, nat)> {
    if items == [] then []
    else SpotsOf(items[0], pos, k) + Spots(items[1..], pos + |Bytes(items[0])|, k)
  }

  ghost function SpotsOf(p: Piece, pos: nat, k: Kind): seq<(nat, nat)> {
    match p
    case Nest(_, items) => Spots(items, pos + 12, k)
    case Leaf(_, data) => if IsKind(p, k) then [(pos, |data|)] else []
    case Movie(data) => if IsKind(p, k) then [(pos, |data| + 4)] else []
  }

  // ------------------------------------------------------------------ what is pending

  /** The pieces are the range, to its last byte. */
  ghost predicate Fills(b: bytes, r: Range, items: seq<Piece>) {
    r.pos <= r.end <= |b| && AllProper(items) && r.end == r.pos + |AllBytes(items)| && At(b, r.pos, AllBytes(items))
  }

  ghost predicate AllFill(b: bytes, stack: seq<Range>, waiting: seq<seq<Piece>>) {
    |stack| == |waiting| && forall i :: 0 <= i < |stack| ==> Fills(b, stack[i], waiting[i])
  }

  ghost function StackSpots(stack: seq<Range>, waiting: seq<seq<Piece>>, k: Kind): seq<(nat, nat)>
    requires |stack| == |waiting|
  {
    if stack == [] then []
    else StackSpots(stack[..|stack| - 1], waiting[..|stack| - 1], k) + Spots(waiting[|stack| - 1], stack[|stack| - 1].pos, k)
  }

  /** Where the pieces of kind `k` not visited yet stand. */
  ghost function Ahead(cur: Range, items: seq<Piece>, stack: seq<Range>, waiting: seq<seq<Piece>>, k: Kind): seq<(nat, nat)>
    requires |stack| == |waiting|
  {
    Spots(items, cur.pos, k) + StackSpots(stack, waiting, k)
  }

  ghost predicate OneEach(cur: Range, items: seq<Piece>, stack: seq<Range>, waiting: seq<seq<Piece>>)
    requires |stack| == |waiting|
  {
    forall k: Kind :: |Ahead(cur, items, stack, waiting, k)| <= 1
  }

  /** What the scan knows once the spots ahead, at most one of each kind, have been visited. */
  ghost function Known(b: bytes, st: Scan, main: seq<(nat, nat)>, stream: seq<(nat, nat)>, index: seq<(nat, nat)>,
                       movie: seq<(nat, nat)>): Scan
  {
    Scan(
      if stream != [] && Number(b, stream[0].0 + 28) > 0 && Number(b, stream[0].0 + 32) > 0
      then Number(b, stream[0].0 + 32) as real / Number(b, stream[0].0 + 28) as real
      else if main != [] && Number(b, main[0].0 + 8) > 0 && st.fps == 0.0 then 1000000.0 / Number(b, main[0].0 + 8) as real
      else st.fps,
      if main != [] then Number(b, main[0].0 + 40) else st.width,
      if main != [] then Number(b, main[0].0 + 44) else st.height,
      if movie != [] then Some(movie[0].0 + 8) else st.movi,
      if movie != [] then movie[0].0 + 8 + movie[0].1 else st.moviEnd,
      if index != [] then Some((index[0].0 + 8, index[0].0 + 8 + index[0].1)) else st.idx1)
  }

  // ------------------------------------------------------------------ one step

  lemma FirstPiece(b: bytes, cur: Range, items: seq<Piece>)
    requires Fills(b, cur, items) && items != [] && |b| < U32
    ensures At(b, cur.pos, Bytes(items[0])) && |Bytes(items[0])| >= 8
    ensures Fills(b, Range(cur.pos + |Bytes(items[0])|, cur.end), items[1..])
  {
    AtSplit(b, cur.pos, Bytes(items[0]), AllBytes(items[1..]));
    PieceLength(items[0]);
  }

  lemma PieceLength(p: Piece)
    requires Proper(p)
    ensures |Bytes(p)| >= 8 && |Bytes(p)| % 2 == 0
  {
    match p {
      case Leaf(id, data) => ChunkLength(id, data);
      case Movie(data) => ChunkLength(LIST, MOVI + data);
      case Nest(kind, items) => ChunkLength(LIST, kind + AllBytes(items));
    }
  }

  lemma ChunkLength(id: bytes, data: bytes)
    requires |id| == 4
    ensures |Chunk(id, data)| >= 8 && |Chunk(id, data)| % 2 == 0
  {
  }

  lemma {:induction false} EvenBytes(items: seq<Piece>)
    requires AllProper(items)
    ensures |AllBytes(items)| % 2 == 0
  {
    if items != [] {
      EvenBytes(items[1..]);
      PieceLength(items[0]);
      EvenSum(|Bytes(items[0])|, |AllBytes(items[1..])|);
    }
  }

  lemma EvenSum(a: nat, b: nat)
    requires a % 2 == 0 && b % 2 == 0
    ensures (a + b) % 2 == 0
  {
  }

  lemma SameId(b: bytes, at: nat, id: bytes, other: bytes)
    requires at + 4 <= |b| && |id| == |other| == 4 && Is(b, at, id)
    ensures Is(b, at, other) <==> id == other
  {
  }

  /** What a chunk with data at `cur.pos` does to the scan. */
  lemma LeafStep(b: bytes, cur: Range, p: Piece, st: Scan)
    requires p.Leaf? && Proper(p) && At(b, cur.pos, Bytes(p)) && cur.pos + |Bytes(p)| <= cur.end <= |b| < U32
    requires st.moviEnd <= |b| && (st.idx1.Some? ==> st.idx1.value.1 <= |b|)
    ensures Visit(b, cur.pos, cur.end, st).Ok? && Visit(b, cur.pos, cur.end, st).value.1 == None
    ensures After(b, cur.pos) == cur.pos + |Bytes(p)|
    ensures Visit(b, cur.pos, cur.end, st).value.0 ==
            Known(b, st, SpotsOf(p, cur.pos, Main), SpotsOf(p, cur.pos, Stream), SpotsOf(p, cur.pos, Index), SpotsOf(p, cur.pos, Frames))
  {
    ChunkRead(b, cur.pos, p.id, p.data);
    SameId(b, cur.pos, p.id, LIST);
    SameId(b, cur.pos, p.id, AVIH);
    SameId(b, cur.pos, p.id, STRH);
    SameId(b, cur.pos, p.id, IDX1);
  }

  lemma MovieStep(b: bytes, cur: Range, p: Piece, st: Scan)
    requires p.Movie? && At(b, cur.pos, Bytes(p)) && cur.pos + |Bytes(p)| <= cur.end <= |b| < U32
    requires st.moviEnd <= |b| && (st.idx1.Some? ==> st.idx1.value.1 <= |b|)
    ensures Visit(b, cur.pos, cur.end, st).Ok? && Visit(b, cur.pos, cur.end, st).value.1 == None
    ensures After(b, cur.pos) == cur.pos + |Bytes(p)|
    ensures Visit(b, cur.pos, cur.end, st).value.0 == Known(b, st, [], [], [], [(cur.pos, |p.data| + 4)])
  {
    ChunkRead(b, cur.pos, LIST, MOVI + p.data);
    AtSplit(b, cur.pos + 8, MOVI, p.data);
  }

  lemma NestStep(b: bytes, cur: Range, p: Piece, st: Scan)
    requires p.Nest? && Proper(p) && At(b, cur.pos, Bytes(p)) && cur.pos + |Bytes(p)| <= cur.end <= |b| < U32
    requires st.moviEnd <= |b| && (st.idx1.Some? ==> st.idx1.value.1 <= |b|)
    ensures var inner := Range(cur.pos + 12, cur.pos + 12 + |AllBytes(p.items)|);
            Visit(b, cur.pos, cur.end, st) == Ok((st, Some(inner))) && Fills(b, inner, p.items)
    ensures After(b, cur.pos) == cur.pos + |Bytes(p)|
  {
    var data := p.kind + AllBytes(p.items);
    ChunkRead(b, cur.pos, LIST, data);
    AtSplit(b, cur.pos + 8, p.kind, AllBytes(p.items));
    SameId(b, cur.pos + 8, p.kind, MOVI);
    EvenBytes(p.items);
  }

  // ------------------------------------------------------------------ the whole walk

  /** Lists of one element at most can be joined in any order. */
  lemma Rotated<T>(a: seq<T>, b: seq<T>, c: seq<T>)
    requires |a + b + c| <= 1
    ensures a + b + c == b + (c + a) == (b + c) + a == a + (b + c)
  {
    if a != [] { assert b == [] && c == []; }
  }

  lemma StackMore(stack: seq<Range>, waiting: seq<seq<Piece>>, r: Range, items: seq<Piece>, k: Kind)
    requires |stack| == |waiting|
    ensures StackSpots(stack + [r], waiting + [items], k) == StackSpots(stack, waiting, k) + Spots(items, r.pos, k)
  {
    assert (stack + [r])[..|stack|] == stack && (waiting + [items])[..|stack|] == waiting;
  }

  lemma SpotsNest(items: seq<Piece>, pos: nat, inside: nat, next: nat, k: Kind)
    requires items != [] && items[0].Nest? && inside == pos + 12 && next == pos + |Bytes(items[0])|
    ensures Spots(items, pos, k) == Spots(items[0].items, inside, k) + Spots(items[1..], next, k)
  {
    assert SpotsOf(items[0], pos, k) == Spots(items[0].items, inside, k);
  }

  lemma Reordered<T>(a: seq<T>, b: seq<T>, c: seq<T>, before: seq<T>, after: seq<T>)
    requires before == (a + b) + c && after == b + (c + a) && |before| <= 1
    ensures after == before
  {
    Rotated(a, b, c);
  }

  lemma BeforeNest(cur: Range, items: seq<Piece>, stack: seq<Range>, waiting: seq<seq<Piece>>, rest: Range, inner: Range, k: Kind)
    requires |stack| == |waiting| && items != [] && items[0].Nest?
    requires rest.pos == cur.pos + |Bytes(items[0])| && inner.pos == cur.pos + 12
    ensures Ahead(cur, items, stack, waiting, k) ==
            (Spots(items[0].items, inner.pos, k) + Spots(items[1..], rest.pos, k)) + StackSpots(stack, waiting, k)
  {
    SpotsNest(items, cur.pos, inner.pos, rest.pos, k);
  }

  lemma AfterNest(later: seq<Piece>, stack: seq<Range>, waiting: seq<seq<Piece>>, rest: Range, inner: Range, inside: seq<Piece>, k: Kind)
    requires |stack| == |waiting|
    ensures Ahead(rest, later, stack + [inner], waiting + [inside], k) ==
            Spots(later, rest.pos, k) + (StackSpots(stack, waiting, k) + Spots(inside, inner.pos, k))
  {
    StackMore(stack, waiting, inner, inside, k);
  }

  /** Visiting a list moves its pieces from the front to the stack. */
  lemma NestAhead(cur: Range, items: seq<Piece>, stack: seq<Range>, waiting: seq<seq<Piece>>, rest: Range, inner: Range, k: Kind)
    requires |stack| == |waiting| && items != [] && items[0].Nest? && |Ahead(cur, items, stack, waiting, k)| <= 1
    requires rest.pos == cur.pos + |Bytes(items[0])| && inner.pos == cur.pos + 12
    ensures Ahead(rest, items[1..], stack + [inner], waiting + [items[0].items], k) == Ahead(cur, items, stack, waiting, k)
  {
    BeforeNest(cur, items, stack, waiting, rest, inner, k);
    AfterNest(items[1..], stack, waiting, rest, inner, items[0].items, k);
    Reordered(Spots(items[0].items, inner.pos, k), Spots(items[1..], rest.pos, k), StackSpots(stack, waiting, k),
              Ahead(cur, items, stack, waiting, k), Ahead(rest, items[1..], stack + [inner], waiting + [items[0].items], k));
  }

  /** At the end of a list the last one that waits comes next. */
  lemma PopAhead(cur: Range, stack: seq<Range>, waiting: seq<seq<Piece>>, k: Kind)
    requires |stack| == |waiting| && stack != [] && |Ahead(cur, [], stack, waiting, k)| <= 1
    ensures var n := |stack| - 1;
            Ahead(stack[n], waiting[n], stack[..n], waiting[..n], k) == Ahead(cur, [], stack, waiting, k)
  {
    var n := |stack| - 1;
    Rotated([], StackSpots(stack[..n], waiting[..n], k), Spots(waiting[n], stack[n].pos, k));
  }

  /** What is known at the end, from here. */
  ghost function Final(b: bytes, cur: Range, items: seq<Piece>, stack: seq<Range>, waiting: seq<seq<Piece>>, st: Scan): Scan
    requires |stack| == |waiting|
  {
    Known(b, st, Ahead(cur, items, stack, waiting, Main), Ahead(cur, items, stack, waiting, Stream),
          Ahead(cur, items, stack, waiting, Index), Ahead(cur, items, stack, waiting, Frames))
  }

  /** One spot known now and the others later is all of them known. */
  lemma KnownThen(b: bytes, st: Scan, st': Scan, a: seq<(nat, nat)>, a': seq<(nat, nat)>, s: seq<(nat, nat)>, s': seq<(nat, nat)>,
                  i: seq<(nat, nat)>, i': seq<(nat, nat)>, m: seq<(nat, nat)>, m': seq<(nat, nat)>)
    requires |a + a'| <= 1 && |s + s'| <= 1 && |i + i'| <= 1 && |m + m'| <= 1
    requires (if a != [] then 1 else 0) + (if s != [] then 1 else 0) <= 1
    requires st' == Known(b, st, a, s, i, m)
    ensures Known(b, st', a', s', i', m') == Known(b, st, a + a', s + s', i + i', m + m')
  {
  }

  ghost predicate Ready(b: bytes, cur: Range, items: seq<Piece>, stack: seq<Range>, waiting: seq<seq<Piece>>, st: Scan) {
    && |b| < U32 && Fills(b, cur, items) && AllFill(b, stack, waiting) && OneEach(cur, items, stack, waiting)
    && st.moviEnd <= |b| && (st.idx1.Some? ==> st.idx1.value.1 <= |b|)
  }

  lemma ReadyIsWithin(b: bytes, cur: Range, items: seq<Piece>, stack: seq<Range>, waiting: seq<seq<Piece>>, st: Scan)
    requires Ready(b, cur, items, stack, waiting, st)
    ensures cur.end <= |b| && Within(stack, |b|)
  {
    forall i | 0 <= i < |stack| ensures stack[i].end <= |b| { assert Fills(b, stack[i], waiting[i]); }
  }

  /** A chunk with data is the first of what is ahead. */
  lemma ChunkAhead(cur: Range, items: seq<Piece>, stack: seq<Range>, waiting: seq<seq<Piece>>, rest: Range, k: Kind)
    requires |stack| == |waiting| && items != [] && rest.pos == cur.pos + |Bytes(items[0])|
    ensures Ahead(cur, items, stack, waiting, k) == SpotsOf(items[0], cur.pos, k) + Ahead(rest, items[1..], stack, waiting, k)
  {
    Assoc(SpotsOf(items[0], cur.pos, k), Spots(items[1..], rest.pos, k), StackSpots(stack, waiting, k));
  }

  /** The next chunk, with data. */
  lemma ChunkNext(b: bytes, cur: Range, items: seq<Piece>, stack: seq<Range>, waiting: seq<seq<Piece>>, st: Scan, rest: Range, st': Scan)
    requires Ready(b, cur, items, stack, waiting, st) && items != []
    requires rest == Range(cur.pos + |Bytes(items[0])|, cur.end)
    requires st'.moviEnd <= |b| && (st'.idx1.Some? ==> st'.idx1.value.1 <= |b|)
    ensures Ready(b, rest, items[1..], stack, waiting, st')
  {
    FirstPiece(b, cur, items);
    OneEachLater(cur, items, stack, waiting, rest);
  }

  lemma OneEachLater(cur: Range, items: seq<Piece>, stack: seq<Range>, waiting: seq<seq<Piece>>, rest: Range)
    requires |stack| == |waiting| && OneEach(cur, items, stack, waiting) && items != []
    requires rest.pos == cur.pos + |Bytes(items[0])|
    ensures OneEach(rest, items[1..], stack, waiting)
  {
    forall k: Kind ensures |Ahead(rest, items[1..], stack, waiting, k)| <= 1 {
      assert |Ahead(cur, items, stack, waiting, k)| <= 1;
      ChunkAhead(cur, items, stack, waiting, rest, k);
    }
  }

  lemma ChunkFinal(b: bytes, cur: Range, items: seq<Piece>, stack: seq<Range>, waiting: seq<seq<Piece>>, st: Scan, rest: Range, st': Scan)
    requires |stack| == |waiting| && OneEach(cur, items, stack, waiting) && items != [] && !items[0].Nest?
    requires rest == Range(cur.pos + |Bytes(items[0])|, cur.end)
    requires st' == Known(b, st, SpotsOf(items[0], cur.pos, Main), SpotsOf(items[0], cur.pos, Stream),
                          SpotsOf(items[0], cur.pos, Index), SpotsOf(items[0], cur.pos, Frames))
    ensures Final(b, rest, items[1..], stack, waiting, st') == Final(b, cur, items, stack, waiting, st)
  {
    assert |Ahead(cur, items, stack, waiting, Main)| <= 1 && |Ahead(cur, items, stack, waiting, Stream)| <= 1;
    assert |Ahead(cur, items, stack, waiting, Index)| <= 1 && |Ahead(cur, items, stack, waiting, Frames)| <= 1;
    ChunkAhead(cur, items, stack, waiting, rest, Main);
    ChunkAhead(cur, items, stack, waiting, rest, Stream);
    ChunkAhead(cur, items, stack, waiting, rest, Index);
    ChunkAhead(cur, items, stack, waiting, rest, Frames);
    var p, later := items[0], items[1..];
    KnownThen(b, st, st', SpotsOf(p, cur.pos, Main), Ahead(rest, later, stack, waiting, Main),
              SpotsOf(p, cur.pos, Stream), Ahead(rest, later, stack, waiting, Stream),
              SpotsOf(p, cur.pos, Index), Ahead(rest, later, stack, waiting, Index),
              SpotsOf(p, cur.pos, Frames), Ahead(rest, later, stack, waiting, Frames));
  }

  /** The next list. */
  lemma NestNext(b: bytes, cur: Range, items: seq<Piece>, stack: seq<Range>, waiting: seq<seq<Piece>>, st: Scan, rest: Range, inner: Range)
    requires Ready(b, cur, items, stack, waiting, st) && items != [] && items[0].Nest?
    requires rest == Range(cur.pos + |Bytes(items[0])|, cur.end) && inner.pos == cur.pos + 12 && Fills(b, inner, items[0].items)
    ensures Ready(b, rest, items[1..], stack + [inner], waiting + [items[0].items], st)
    ensures Final(b, rest, items[1..], stack + [inner], waiting + [items[0].items], st) == Final(b, cur, items, stack, waiting, st)
  {
    FirstPiece(b, cur, items);
    forall k: Kind
      ensures Ahead(rest, items[1..], stack + [inner], waiting + [items[0].items], k) == Ahead(cur, items, stack, waiting, k)
    {
      assert |Ahead(cur, items, stack, waiting, k)| <= 1;
      NestAhead(cur, items, stack, waiting, rest, inner, k);
    }
    forall k: Kind ensures |Ahead(rest, items[1..], stack + [inner], waiting + [items[0].items], k)| <= 1 {
      assert |Ahead(cur, items, stack, waiting, k)| <= 1;
    }
  }

  lemma PopNext(b: bytes, cur: Range, stack: seq<Range>, waiting: seq<seq<Piece>>, st: Scan)
    requires Ready(b, cur, [], stack, waiting, st) && stack != []
    ensures var n := |stack| - 1;
            && Ready(b, stack[n], waiting[n], stack[..n], waiting[..n], st)
            && Final(b, stack[n], waiting[n], stack[..n], waiting[..n], st) == Final(b, cur, [], stack, waiting, st)
  {
    var n := |stack| - 1;
    forall k: Kind ensures Ahead(stack[n], waiting[n], stack[..n], waiting[..n], k) == Ahead(cur, [], stack, waiting, k) {
      assert |Ahead(cur, [], stack, waiting, k)| <= 1;
      PopAhead(cur, stack, waiting, k);
    }
    forall k: Kind ensures |Ahead(stack[n], waiting[n], stack[..n], waiting[..n], k)| <= 1 {
      assert |Ahead(cur, [], stack, waiting, k)| <= 1;
    }
    assert Fills(b, stack[n], waiting[n]);
  }

  lemma StepIsWalk(b: bytes, w: Walking, w': Walking)
    requires Steps(b, w, w')
    ensures Walk(b, w.cur, w.stack, w.st) == Walk(b, w'.cur, w'.stack, w'.st)
  {
  }

  lemma StepShrinks(b: bytes, w: Walking, w': Walking)
    requires Steps(b, w, w') && w.cur.pos + 8 <= w.cur.end
    ensures Length(w'.cur) + Pending(w'.stack) < Length(w.cur) + Pending(w.stack)
  {
    VisitShrinks(b, w.cur.pos, w.cur.end, w.stack, w.st);
  }

  /** One step of the walk and the pieces left. */
  lemma NextStep(b: bytes, cur: Range, items: seq<Piece>, stack: seq<Range>, waiting: seq<seq<Piece>>, st: Scan)
    returns (w: Walking, items': seq<Piece>, waiting': seq<seq<Piece>>)
    requires Ready(b, cur, items, stack, waiting, st) && items != []
    ensures cur.pos + 8 <= cur.end && Steps(b, Walking(cur, stack, st), w)
    ensures Ready(b, w.cur, items', w.stack, waiting', w.st)
    ensures Final(b, w.cur, items', w.stack, waiting', w.st) == Final(b, cur, items, stack, waiting, st)
  {
    var p, later := items[0], items[1..];
    var rest := Range(cur.pos + |Bytes(p)|, cur.end);
    FirstPiece(b, cur, items);
    ReadyIsWithin(b, cur, items, stack, waiting, st);
    if p.Nest? {
      var inner := NestSteps(b, cur, p, stack, st, rest);
      NestNext(b, cur, items, stack, waiting, st, rest, inner);
      w, items', waiting' := Walking(rest, stack + [inner], st), later, waiting + [p.items];
    } else {
      var st' := ChunkSteps(b, cur, p, stack, st, rest);
      ChunkNext(b, cur, items, stack, waiting, st, rest, st');
      ChunkFinal(b, cur, items, stack, waiting, st, rest, st');
      w, items', waiting' := Walking(rest, stack, st'), later, waiting;
    }
  }

  lemma NestSteps(b: bytes, cur: Range, p: Piece, stack: seq<Range>, st: Scan, rest: Range) returns (inner: Range)
    requires p.Nest? && Proper(p) && At(b, cur.pos, Bytes(p)) && |Bytes(p)| >= 8 && cur.pos + |Bytes(p)| <= cur.end <= |b| < U32
    requires rest == Range(cur.pos + |Bytes(p)|, cur.end) && Sound(b, Walking(cur, stack, st))
    ensures inner.pos == cur.pos + 12 && Fills(b, inner, p.items)
    ensures Steps(b, Walking(cur, stack, st), Walking(rest, stack + [inner], st))
  {
    inner := Range(cur.pos + 12, cur.pos + 12 + |AllBytes(p.items)|);
    NestStep(b, cur, p, st);
  }

  lemma ChunkSteps(b: bytes, cur: Range, p: Piece, stack: seq<Range>, st: Scan, rest: Range) returns (st': Scan)
    requires !p.Nest? && Proper(p) && At(b, cur.pos, Bytes(p)) && |Bytes(p)| >= 8 && cur.pos + |Bytes(p)| <= cur.end <= |b| < U32
    requires rest == Range(cur.pos + |Bytes(p)|, cur.end) && Sound(b, Walking(cur, stack, st))
    ensures Steps(b, Walking(cur, stack, st), Walking(rest, stack, st'))
    ensures st' == Known(b, st, SpotsOf(p, cur.pos, Main), SpotsOf(p, cur.pos, Stream), SpotsOf(p, cur.pos, Index), SpotsOf(p, cur.pos, Frames))
  {
    st' := ChunkStep(b, cur, p, st);
  }

  /** The walk over pieces, nested to any depth, with at most one chunk of each kind among them. */
  lemma {:induction false} WalkKnows(b: bytes, cur: Range, items: seq<Piece>, stack: seq<Range>, waiting: seq<seq<Piece>>, st: Scan)
    requires Ready(b, cur, items, stack, waiting, st)
    ensures Sound(b, Walking(cur, stack, st))
    ensures Walk(b, cur, stack, st) == Ok(Final(b, cur, items, stack, waiting, st))
    decreases Length(cur) + Pending(stack), |stack|
  {
    ReadyIsWithin(b, cur, items, stack, waiting, st);
    if items != [] {
      var w, items', waiting' := NextStep(b, cur, items, stack, waiting, st);
      StepIsWalk(b, Walking(cur, stack, st), w);
      StepShrinks(b, Walking(cur, stack, st), w);
      WalkKnows(b, w.cur, items', w.stack, waiting', w.st);
    } else if stack != [] {
      var n := |stack| - 1;
      PopNext(b, cur, stack, waiting, st);
      WalkKnows(b, stack[n], waiting[n], stack[..n], waiting[..n], st);
    } else {
      assert waiting == [];
    }
  }

  lemma ChunkStep(b: bytes, cur: Range, p: Piece, st: Scan) returns (st': Scan)
    requires !p.Nest? && Proper(p) && At(b, cur.pos, Bytes(p)) && |Bytes(p)| >= 8 && cur.pos + |Bytes(p)| <= cur.end <= |b| < U32
    requires st.moviEnd <= |b| && (st.idx1.Some? ==> st.idx1.value.1 <= |b|)
    ensures Visit(b, cur.pos, cur.end, st) == Ok((st', None)) && After(b, cur.pos) == cur.pos + |Bytes(p)|
    ensures st' == Known(b, st, SpotsOf(p, cur.pos, Main), SpotsOf(p, cur.pos, Stream), SpotsOf(p, cur.pos, Index), SpotsOf(p, cur.pos, Frames))
  {
    if p.Leaf? { LeafStep(b, cur, p, st); } else { MovieStep(b, cur, p, st); }
    st' := Visit(b, cur.pos, cur.end, st).value.0;
  }

  // ------------------------------------------------------------------ the frames

  /** The index entry at `e` names the frame `f`: by an offset from the `movi` identifier, where a JPEG starts, or by one
      from the start of the file, when no JPEG of that length starts where the other reading points. An entry of some
      other stream names none. */
  ghost predicate Names(b: bytes, movi: nat, e: nat, f: Option<(nat, nat)>)
    requires e + 16 <= |b|
  {
    var video, offset := b[e + 2] == 'd' as int && (b[e + 3] == 'c' as int || b[e + 3] == 'b' as int), Number(b, e + 8);
    match f
    case None => !video
    case Some((start, length)) =>
      && video && Number(b, e + 12) == length && start + length <= |b|
      && ((offset == start - movi - 8 && JpegAt(b, start)) || (offset == start - 8 && !PointsToJpeg(b, movi + offset + 8, length)))
  }

  ghost predicate JpegAt(b: bytes, at: nat) {
    at + 2 <= |b| && b[at] == 0xFF && b[at + 1] == 0xD8
  }

  ghost predicate PointsToJpeg(b: bytes, at: nat, length: nat) {
    at + length <= |b| && JpegAt(b, at)
  }

  /** The entries from `at` to `end` name these frames, one after another. */
  ghost predicate NamesAll(b: bytes, movi: nat, at: nat, end: nat, named: seq<Option<(nat, nat)>>)
    decreases |named|
  {
    if named == [] then at <= end < at + 16 && end <= |b|
    else at + 16 <= end <= |b| && Names(b, movi, at, named[0]) && NamesAll(b, movi, at + 16, end, named[1..])
  }

  ghost function Somes(named: seq<Option<(nat, nat)>>): seq<(nat, nat)> {
    if named == [] then [] else (match named[0] case Some(f) => [f] case None => []) + Somes(named[1..])
  }

  lemma NamedFrame(b: bytes, movi: nat, e: nat, f: Option<(nat, nat)>)
    requires e + 16 <= |b| && Names(b, movi, e, f)
    ensures EntryFrame(b, movi, e) == match f case Some(x) => [x] case None => []
  {
  }

  lemma {:induction false} IndexIsRead(b: bytes, movi: nat, at: nat, end: nat, named: seq<Option<(nat, nat)>>)
    requires NamesAll(b, movi, at, end, named)
    ensures end <= |b| && IndexFrames(b, movi, at, end) == Somes(named)
    decreases |named|
  {
    if named != [] {
      NamedFrame(b, movi, at, named[0]);
      IndexIsRead(b, movi, at + 16, end, named[1..]);
    }
  }

  ghost function Chunks(cs: seq<(bytes, bytes)>): bytes {
    if cs == [] then [] else Chunk(cs[0].0, cs[0].1) + Chunks(cs[1..])
  }

  ghost predicate FourLetters(cs: seq<(bytes, bytes)>) {
    cs == [] || (|cs[0].0| == 4 && FourLetters(cs[1..]))
  }

  /** The places of the chunks whose identifier ends in `dc`. */
  ghost function VideoChunks(cs: seq<(bytes, bytes)>, pos: nat): seq<(nat, nat)>
    requires FourLetters(cs)
  {
    if cs == [] then []
    else VideoChunk(cs[0].0, cs[0].1, pos) + VideoChunks(cs[1..], pos + |Chunk(cs[0].0, cs[0].1)|)
  }

  ghost function VideoChunk(id: bytes, data: bytes, pos: nat): seq<(nat, nat)>
    requires |id| == 4
  {
    if id[2] == 'd' as int && id[3] == 'c' as int then [(pos + 8, |data|)] else []
  }

  lemma ChunkIsFound(b: bytes, pos: nat, id: bytes, data: bytes, next: nat)
    requires |id| == 4 && |b| < U32 && At(b, pos, Chunk(id, data)) && next == pos + |Chunk(id, data)|
    ensures pos + 8 <= next <= |b| && ChunkFrame(b, pos) == VideoChunk(id, data, pos) && After(b, pos) == next
  {
    ChunkRead(b, pos, id, data);
  }

  lemma {:induction false} ScanIsRead(b: bytes, pos: nat, end: nat, cs: seq<(bytes, bytes)>)
    requires FourLetters(cs) && end == pos + |Chunks(cs)| <= |b| < U32 && At(b, pos, Chunks(cs))
    ensures ScanFrames(b, pos, end) == VideoChunks(cs, pos)
    decreases |cs|
  {
    if cs != [] {
      var id, data, next := cs[0].0, cs[0].1, pos + |Chunk(cs[0].0, cs[0].1)|;
      AtSplit(b, pos, Chunk(id, data), Chunks(cs[1..]));
      ChunkIsFound(b, pos, id, data, next);
      ScanIsRead(b, next, end, cs[1..]);
      ScanNext(b, pos, end, next, VideoChunk(id, data, pos));
      VideoNext(cs, pos, next);
    }
  }

  lemma VideoNext(cs: seq<(bytes, bytes)>, pos: nat, next: nat)
    requires cs != [] && FourLetters(cs) && next == pos + |Chunk(cs[0].0, cs[0].1)|
    ensures VideoChunks(cs, pos) == VideoChunk(cs[0].0, cs[0].1, pos) + VideoChunks(cs[1..], next)
  {
  }

  lemma ScanNext(b: bytes, pos: nat, end: nat, next: nat, found: seq<(nat, nat)>)
    requires pos + 8 <= next <= end <= |b| && ChunkFrame(b, pos) == found && After(b, pos) == next
    ensures ScanFrames(b, pos, end) == found + ScanFrames(b, next, end)
  {
  }

  /** The index chunk, if there is one, names these frames. */
  ghost predicate IndexNames(b: bytes, movi: nat, index: seq<(nat, nat)>, named: seq<Option<(nat, nat)>>) {
    if index == [] then named == [] else NamesAll(b, movi, index[0].0 + 8, index[0].0 + 8 + index[0].1, named)
  }

  /** The `movi` list at `movie` consists of these chunks. */
  ghost predicate MovieHolds(b: bytes, movie: (nat, nat), cs: seq<(bytes, bytes)>) {
    FourLetters(cs) && movie.1 == 4 + |Chunks(cs)| && At(b, movie.0 + 12, Chunks(cs))
  }

  // ------------------------------------------------------------------ main result

  /** A file below 4 GiB that consists of these pieces. */
  ghost predicate Consists(b: bytes, items: seq<Piece>) {
    && 12 <= |b| < U32 && Is(b, 0, RIFF) && Is(b, 8, AVI_)
    && AllProper(items) && |b| == 12 + |AllBytes(items)| && At(b, 12, AllBytes(items))
    && forall k: Kind :: |Spots(items, 12, k)| <= 1
  }

  /** The rate: that of the stream header when it has one, else that of the main header, else 1. */
  ghost function RateIn(b: bytes, main: seq<(nat, nat)>, stream: seq<(nat, nat)>): real {
    if stream != [] && Number(b, stream[0].0 + 28) > 0 && Number(b, stream[0].0 + 32) > 0
    then Number(b, stream[0].0 + 32) as real / Number(b, stream[0].0 + 28) as real
    else if main != [] && Number(b, main[0].0 + 8) > 0 then 1000000.0 / Number(b, main[0].0 + 8) as real
    else 1.0
  }

  /** A number of the main header, 0 without one. */
  ghost function MainNumber(b: bytes, main: seq<(nat, nat)>, at: nat): nat {
    if main == [] then 0 else Number(b, main[0].0 + at)
  }

  lemma TreeScan(b: bytes, items: seq<Piece>)
    requires Consists(b, items)
    ensures IsAvi(b)
    ensures Walk(b, Range(12, |b|), [], NOTHING) ==
            Ok(Known(b, NOTHING, Spots(items, 12, Main), Spots(items, 12, Stream), Spots(items, 12, Index), Spots(items, 12, Frames)))
  {
    var cur := Range(12, |b|);
    forall k: Kind ensures Ahead(cur, items, [], [], k) == Spots(items, 12, k) {
      assert StackSpots([], [], k) == [];
    }
    forall k: Kind ensures |Ahead(cur, items, [], [], k)| <= 1 { assert |Spots(items, 12, k)| <= 1; }
    WalkKnows(b, cur, items, [], [], NOTHING);
  }

  /** Where the chunks of the four kinds stand, with the length of their data. */
  datatype Where = Where(main: seq<(nat, nat)>, stream: seq<(nat, nat)>, index: seq<(nat, nat)>, movie: seq<(nat, nat)>)

  ghost predicate Located(items: seq<Piece>, where: Where) {
    where == Where(Spots(items, 12, Main), Spots(items, 12, Stream), Spots(items, 12, Index), Spots(items, 12, Frames))
  }

  /** The answer there should be: without a `movi` list an error; else size and rate of the headers, and the frames that
      the index names, or, when there is no index or it names none, the `dc` chunks of the `movi` list. */
  ghost function Expected(b: bytes, where: Where, named: seq<Option<(nat, nat)>>, cs: seq<(bytes, bytes)>)
    : Result<AviIndex, AviError>
    requires FourLetters(cs)
  {
    if where.movie == [] then Err(MissingMovi)
    else
      var frames := if Somes(named) != [] then Somes(named) else VideoChunks(cs, where.movie[0].0 + 12);
      Ok(AviIndex(RateIn(b, where.main, where.stream), MainNumber(b, where.main, 40), MainNumber(b, where.main, 44), frames))
  }

  /** Any file of chunks and nested lists, known chunks among unknown ones in whatever order and depth, with at most one
      main header, one stream header, one index and one `movi` list. */
  lemma TreesAreRead(b: bytes, items: seq<Piece>, where: Where, named: seq<Option<(nat, nat)>>, cs: seq<(bytes, bytes)>)
    requires Consists(b, items) && Located(items, where) && FourLetters(cs)
    requires where.movie != [] ==>
               IndexNames(b, where.movie[0].0 + 8, where.index, named) && MovieHolds(b, where.movie[0], cs)
    ensures ReadSpec(b) == Expected(b, where, named, cs)
  {
    var st := Known(b, NOTHING, where.main, where.stream, where.index, where.movie);
    TreeAnswer(b, items, where, st);
    AnswerIs(b, st, where, named, cs);
  }

  lemma TreeAnswer(b: bytes, items: seq<Piece>, where: Where, st: Scan)
    requires Consists(b, items) && Located(items, where)
    requires st == Known(b, NOTHING, where.main, where.stream, where.index, where.movie)
    ensures Bounded(b, st) && ReadSpec(b) == Answer(b, st)
  {
    TreeScan(b, items);
    AnswerFrom(b, st);
  }

  ghost predicate Bounded(b: bytes, st: Scan) {
    st.moviEnd <= |b| && (st.idx1.Some? ==> st.idx1.value.1 <= |b|)
  }

  /** What the reader makes of a finished scan. */
  ghost function Answer(b: bytes, st: Scan): Result<AviIndex, AviError>
    requires Bounded(b, st)
  {
    if st.movi.None? then Err(MissingMovi)
    else Ok(AviIndex(if st.fps <= 0.0 then 1.0 else st.fps, st.width, st.height, FramesFound(b, st)))
  }

  lemma AnswerFrom(b: bytes, st: Scan)
    requires IsAvi(b) && Walk(b, Range(12, |b|), [], NOTHING) == Ok(st)
    ensures Bounded(b, st) && ReadSpec(b) == Answer(b, st)
  {
  }

  lemma AnswerIs(b: bytes, st: Scan, where: Where, named: seq<Option<(nat, nat)>>, cs: seq<(bytes, bytes)>)
    requires |b| < U32 && st == Known(b, NOTHING, where.main, where.stream, where.index, where.movie) && Bounded(b, st)
    requires FourLetters(cs)
    requires where.movie != [] ==>
               IndexNames(b, where.movie[0].0 + 8, where.index, named) && MovieHolds(b, where.movie[0], cs)
    ensures Answer(b, st) == Expected(b, where, named, cs)
  {
    ScanIsDescribed(b, where.main, where.stream, where.index, where.movie, st);
    if where.movie != [] { MovieAnswer(b, st, where, where.movie[0], named, cs); }
  }

  lemma MovieAnswer(b: bytes, st: Scan, where: Where, movie: (nat, nat), named: seq<Option<(nat, nat)>>, cs: seq<(bytes, bytes)>)
    requires |b| < U32 && where.movie != [] && movie == where.movie[0] && Bounded(b, st) && FourLetters(cs)
    requires (if st.fps <= 0.0 then 1.0 else st.fps) == RateIn(b, where.main, where.stream)
    requires st.width == MainNumber(b, where.main, 40) && st.height == MainNumber(b, where.main, 44)
    requires st.movi == Some(movie.0 + 8) && st.moviEnd == movie.0 + 8 + movie.1
    requires st.idx1 == if where.index == [] then None else Some((where.index[0].0 + 8, where.index[0].0 + 8 + where.index[0].1))
    requires IndexNames(b, movie.0 + 8, where.index, named) && MovieHolds(b, movie, cs)
    ensures Answer(b, st) == Expected(b, where, named, cs)
  {
    var first := movie.0 + 12;
    FramesAreFound(b, st, where.index, movie.0 + 8, first, movie, named, cs);
    var frames := if Somes(named) != [] then Somes(named) else VideoChunks(cs, first);
    AnswerIsOk(b, st, RateIn(b, where.main, where.stream), frames);
    ExpectedIsOk(b, where, named, cs, first, frames);
  }

  lemma AnswerIsOk(b: bytes, st: Scan, rate: real, frames: seq<(nat, nat)>)
    requires Bounded(b, st) && st.movi.Some? && FramesFound(b, st) == frames && rate == if st.fps <= 0.0 then 1.0 else st.fps
    ensures Answer(b, st) == Ok(AviIndex(rate, st.width, st.height, frames))
  {
  }

  lemma ExpectedIsOk(b: bytes, where: Where, named: seq<Option<(nat, nat)>>, cs: seq<(bytes, bytes)>, first: nat, frames: seq<(nat, nat)>)
    requires FourLetters(cs) && where.movie != [] && first == where.movie[0].0 + 12
    requires frames == if Somes(named) != [] then Somes(named) else VideoChunks(cs, first)
    ensures Expected(b, where, named, cs) ==
            Ok(AviIndex(RateIn(b, where.main, where.stream), MainNumber(b, where.main, 40), MainNumber(b, where.main, 44), frames))
  {
  }

  lemma ScanIsDescribed(b: bytes, main: seq<(nat, nat)>, stream: seq<(nat, nat)>, index: seq<(nat, nat)>, movie: seq<(nat, nat)>, st: Scan)
    requires st == Known(b, NOTHING, main, stream, index, movie)
    ensures (if st.fps <= 0.0 then 1.0 else st.fps) == RateIn(b, main, stream)
    ensures st.width == MainNumber(b, main, 40) && st.height == MainNumber(b, main, 44)
    ensures st.movi == if movie == [] then None else Some(movie[0].0 + 8)
    ensures movie != [] ==> st.moviEnd == movie[0].0 + 8 + movie[0].1
    ensures st.idx1 == if index == [] then None else Some((index[0].0 + 8, index[0].0 + 8 + index[0].1))
  {
  }

  lemma FramesAreFound(b: bytes, st: Scan, index: seq<(nat, nat)>, movi: nat, first: nat, movie: (nat, nat),
                       named: seq<Option<(nat, nat)>>, cs: seq<(bytes, bytes)>)
    requires |b| < U32 && movi == movie.0 + 8 && first == movie.0 + 12
    requires st.movi == Some(movi) && st.moviEnd == movi + movie.1
    requires st.idx1 == if index == [] then None else Some((index[0].0 + 8, index[0].0 + 8 + index[0].1))
    requires IndexNames(b, movi, index, named) && MovieHolds(b, movie, cs)
    ensures st.moviEnd <= |b| && (st.idx1.Some? ==> st.idx1.value.1 <= |b|)
    ensures FramesFound(b, st) == if Somes(named) != [] then Somes(named) else VideoChunks(cs, first)
  {
    ScanIsRead(b, first, st.moviEnd, cs);
    IndexGives(b, movi, index, named, st.idx1);
    FoundIs(b, st, movi, first, Somes(named), VideoChunks(cs, first));
  }

  /** The frames an index names, none without one. */
  ghost function FramesBy(b: bytes, movi: nat, idx1: Option<(nat, nat)>): seq<(nat, nat)>
    requires idx1.Some? ==> idx1.value.1 <= |b|
  {
    if idx1.Some? then IndexFrames(b, movi, idx1.value.0, idx1.value.1) else []
  }

  lemma IndexGives(b: bytes, movi: nat, index: seq<(nat, nat)>, named: seq<Option<(nat, nat)>>, idx1: Option<(nat, nat)>)
    requires idx1 == if index == [] then None else Some((index[0].0 + 8, index[0].0 + 8 + index[0].1))
    requires IndexNames(b, movi, index, named)
    ensures (idx1.Some? ==> idx1.value.1 <= |b|) && FramesBy(b, movi, idx1) == Somes(named)
  {
    if idx1.Some? { IndexIsRead(b, movi, idx1.value.0, idx1.value.1, named); }
  }

  lemma FoundIs(b: bytes, st: Scan, movi: nat, first: nat, indexed: seq<(nat, nat)>, scanned: seq<(nat, nat)>)
    requires st.movi == Some(movi) && first == movi + 4 && st.moviEnd <= |b| && (st.idx1.Some? ==> st.idx1.value.1 <= |b|)
    requires FramesBy(b, movi, st.idx1) == indexed && ScanFrames(b, first, st.moviEnd) == scanned
    ensures FramesFound(b, st) == if indexed != [] then indexed else scanned
  {
  }

  // ------------------------------------------------------------------ when reading fails

  /** A list header with fewer than four bytes after it in the file. */
  ghost predicate CutOff(b: bytes, at: nat) {
    at + 8 <= |b| && Is(b, at, LIST) && at + 12 > |b|
  }

  ghost predicate SomeCutOff(b: bytes, headers: seq<nat>) {
    exists i :: 0 <= i < |headers| && CutOff(b, headers[i])
  }

  lemma SomeCutOffMore(b: bytes, at: nat, headers: seq<nat>)
    ensures SomeCutOff(b, [at] + headers) <==> CutOff(b, at) || SomeCutOff(b, headers)
  {
    var all := [at] + headers;
    if CutOff(b, at) { assert CutOff(b, all[0]); }
    if i :| 0 <= i < |headers| && CutOff(b, headers[i]) { assert CutOff(b, all[i + 1]); }
    if i :| 0 <= i < |all| && CutOff(b, all[i]) {
      if i > 0 { assert CutOff(b, headers[i - 1]); }
    }
  }

  /** The walk fails exactly when it comes upon a list that is cut off. */
  lemma {:induction false} WalkFails(b: bytes, cur: Range, stack: seq<Range>, st: Scan)
    requires cur.end <= |b| && Within(stack, |b|) && Bounded(b, st)
    ensures Walk(b, cur, stack, st).Err? <==> SomeCutOff(b, Visited(b, cur, stack, st))
    ensures Walk(b, cur, stack, st).Err? ==> Walk(b, cur, stack, st).error == TruncatedList
    decreases Length(cur) + Pending(stack), |stack|
  {
    if cur.pos + 8 <= cur.end {
      var v := Visit(b, cur.pos, cur.end, st);
      assert v.Err? <==> CutOff(b, cur.pos);
      if v.Err? {
        SomeCutOffMore(b, cur.pos, []);
      } else {
        VisitShrinks(b, cur.pos, cur.end, stack, st);
        var rest, more := Range(After(b, cur.pos), cur.end), Push(stack, v.value.1);
        SomeCutOffMore(b, cur.pos, Visited(b, rest, more, v.value.0));
        WalkFails(b, rest, more, v.value.0);
      }
    } else if stack != [] {
      WalkFails(b, stack[|stack| - 1], stack[..|stack| - 1], st);
    }
  }

  /** The errors: not an AVI file exactly when it does not begin as one; a truncated list exactly when it does, and the
      walk comes upon a list that is cut off. */
  lemma ErrorsAre(b: bytes)
    ensures ReadSpec(b) == Err(NotAvi) <==> !(|b| >= 12 && Ascii(b, 0, "RIFF") && Ascii(b, 8, "AVI "))
    ensures ReadSpec(b) == Err(TruncatedList) <==>
            |b| >= 12 && Ascii(b, 0, "RIFF") && Ascii(b, 8, "AVI ") && SomeCutOff(b, Visited(b, Range(12, |b|), [], NOTHING))
  {
    if |b| >= 12 {
      AsciiIs(b, 0, RIFF, "RIFF");
      AsciiIs(b, 8, AVI_, "AVI ");
      WalkFails(b, Range(12, |b|), [], NOTHING);
    }
  }

  lemma AsciiIs(b: bytes, at: nat, id: bytes, text: string)
    requires at + 4 <= |b| && |id| == 4 == |text| && forall j :: 0 <= j < 4 ==> id[j] == text[j] as int
    ensures Is(b, at, id) <==> Ascii(b, at, text)
  {
    if Is(b, at, id) { IsAscii(b, at, id, text); }
    if Ascii(b, at, text) {
      assert b[at + 0] == text[0] as int && b[at + 1] == text[1] as int && b[at + 2] == text[2] as int && b[at + 3] == text[3] as int;
    }
  }
}
