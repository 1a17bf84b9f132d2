/** Reading undoes writing, and the index agrees with the scan. */
module AviRoundTrip {
  import opened Basics
  import opened AviFormat
  import opened AviReader

  /** `part` stands at position `pos` of `b`. */
  ghost predicate At(b: bytes, pos: nat, part: bytes) {
    pos + |part| <= |b| && forall j {:trigger part[j]} :: 0 <= j < |part| ==> b[pos + j] == part[j]
  }

  /** `b` and `c` are the same bytes, one by one. */
  ghost predicate SameBytes(b: bytes, c: bytes) {
    |b| == |c| && At(b, 0, c)
  }

  lemma AtSplit(b: bytes, pos: nat, x: bytes, y: bytes)
    requires At(b, pos, x + y)
    ensures At(b, pos, x) && At(b, pos + |x|, y)
  {
    forall j | 0 <= j < |x| ensures b[pos + j] == x[j] {
      assert (x + y)[j] == x[j];
    }
    forall j | 0 <= j < |y| ensures b[pos + |x| + j] == y[j] {
      assert (x + y)[|x| + j] == y[j];
    }
  }

  lemma NumberRead(b: bytes, pos: nat, v: u32)
    requires At(b, pos, LE32(v))
    ensures U32At(b, pos) == Some(v)
  {
    var w := LE32(v);
    assert b[pos + 0] == w[0] && b[pos + 1] == w[1] && b[pos + 2] == w[2] && b[pos + 3] == w[3];
  }

  lemma {:induction false} WordRead(b: bytes, pos: nat, vs: seq<u32>, k: nat)
    requires At(b, pos, Words(vs)) && k < |vs|
    ensures U32At(b, pos + 4 * k) == Some(vs[k])
  {
    var n := |vs| - 1;
    AtSplit(b, pos, Words(vs[..n]), LE32(vs[n]));
    if k < n { WordRead(b, pos, vs[..n], k); } else { NumberRead(b, pos + 4 * n, vs[n]); }
  }

  /** A chunk is read back: identifier, size, data, and the position after it. */
  lemma ChunkRead(b: bytes, pos: nat, id: bytes, data: bytes)
    requires |id| == 4 && |data| < U32 && At(b, pos, Chunk(id, data))
    ensures Is(b, pos, id) && SizeAt(b, pos) == |data| && At(b, pos + 8, data)
    ensures After(b, pos) == pos + |Chunk(id, data)| <= |b|
    ensures At(b, pos + 8 + |data|, Padding(|data|))
  {
    AtSplit(b, pos, id, LE32(Low32(|data|)) + (data + Padding(|data|)));
    AtSplit(b, pos + 4, LE32(Low32(|data|)), data + Padding(|data|));
    AtSplit(b, pos + 8, data, Padding(|data|));
    NumberRead(b, pos + 4, |data|);
  }

  lemma ListRead(b: bytes, pos: nat, kind: bytes, data: bytes)
    requires |kind| == 4 && |data| + 4 < U32 && |data| % 2 == 0 && At(b, pos, ListOf(kind, data))
    ensures Is(b, pos, LIST) && SizeAt(b, pos) == |data| + 4 && Is(b, pos + 8, kind) && At(b, pos + 12, data)
    ensures After(b, pos) == pos + 12 + |data| <= |b|
  {
    AtSplit(b, pos, LIST, LE32(Low32(|data| + 4)) + (kind + data));
    AtSplit(b, pos + 4, LE32(Low32(|data| + 4)), kind + data);
    AtSplit(b, pos + 8, kind, data);
    NumberRead(b, pos + 4, |data| + 4);
  }

  // ------------------------------------------------------------------ the parts of a written file

  /** A file cut into its header list, its frames and its index. */
  ghost predicate Laid(b: bytes, head: bytes, body: bytes, index: bytes) {
    && |head| == 188 && |body| % 2 == 0 && |index| % 2 == 0
    && |b| == 232 + |body| + |index| < U32
    && At(b, 12, ListOf(HDRL, head))
    && At(b, 212, ListOf(MOVI, body))
    && At(b, 224 + |body|, Chunk(IDX1, index))
  }

  lemma CutRiff(b: bytes, body: bytes)
    requires |b| < U32 && |body| >= 4 && SameBytes(b, RIFF + (LE32(Low32(|body|)) + body))
    ensures Is(b, 0, RIFF) && U32At(b, 4) == Some(|b| - 8) && At(b, 8, body)
  {
    AtSplit(b, 0, RIFF, LE32(Low32(|body|)) + body);
    AtSplit(b, 4, LE32(Low32(|body|)), body);
    NumberRead(b, 4, |body|);
  }

  lemma CutBody(b: bytes, x: bytes, y: bytes, z: bytes)
    requires At(b, 8, AVI_ + (x + (y + z)))
    ensures |b| >= 12 && Is(b, 8, AVI_) && At(b, 12, x) && At(b, 12 + |x|, y) && At(b, 12 + |x| + |y|, z)
  {
    AtSplit(b, 8, AVI_, x + (y + z));
    AtSplit(b, 12, x, y + z);
    AtSplit(b, 12 + |x|, y, z);
  }

  lemma RiffIsLaid(b: bytes, head: bytes, body: bytes, index: bytes)
    requires |head| == 188 && |body| % 2 == 0 && |index| % 2 == 0 && |b| < U32
    requires SameBytes(b, Riff(Contents(head, body, index)))
    ensures Laid(b, head, body, index) && IsAvi(b) && U32At(b, 4) == Some(|b| - 8)
  {
    CutRiff(b, Contents(head, body, index));
    CutBody(b, ListOf(HDRL, head), ListOf(MOVI, body), Chunk(IDX1, index));
  }

  // ------------------------------------------------------------------ what can be read of the parts

  /** The header list, as it is read: the chunks at their places, the numbers in them. */
  ghost predicate HeadRead(b: bytes, m: Film) {
    && |b| >= 212
    && Is(b, 24, AVIH) && SizeAt(b, 24) == 56
    && Number(b, 32) == m.usec && Number(b, 64) == m.width && Number(b, 68) == m.height
    && Is(b, 88, LIST) && SizeAt(b, 88) == 116 && Is(b, 96, STRL)
    && Is(b, 100, STRH) && SizeAt(b, 100) == 56 && Number(b, 128) == SCALE && Number(b, 132) == m.rate
    && Is(b, 164, STRF) && SizeAt(b, 164) == 40
  }

  lemma AvihRead(b: bytes, m: Film)
    requires At(b, 32, Avih(m))
    ensures Number(b, 32) == m.usec && Number(b, 64) == m.width && Number(b, 68) == m.height
  {
    WordRead(b, 32, AvihWords(m), 0);
    WordRead(b, 32, AvihWords(m), 8);
    WordRead(b, 32, AvihWords(m), 9);
  }

  lemma StrhRead(b: bytes, m: Film)
    requires At(b, 108, Strh(m))
    ensures Number(b, 128) == SCALE && Number(b, 132) == m.rate
  {
    var words := Words(StrhWords(m));
    var tail := LE16(0) + (LE16(0) + (LE16(m.width) + LE16(m.height)));
    AtSplit(b, 108, VIDS, MJPG + (words + tail));
    AtSplit(b, 112, MJPG, words + tail);
    AtSplit(b, 116, words, tail);
    WordRead(b, 116, StrhWords(m), 3);
    WordRead(b, 116, StrhWords(m), 4);
  }

  lemma HeadIsRead(b: bytes, m: Film)
    requires At(b, 24, Head(m))
    ensures HeadRead(b, m)
  {
    AtSplit(b, 24, Chunk(AVIH, Avih(m)), Strl(m));
    ChunkRead(b, 24, AVIH, Avih(m));
    AvihRead(b, m);
    ListRead(b, 88, STRL, Chunk(STRH, Strh(m)) + Chunk(STRF, Strf(m)));
    AtSplit(b, 100, Chunk(STRH, Strh(m)), Chunk(STRF, Strf(m)));
    ChunkRead(b, 100, STRH, Strh(m));
    StrhRead(b, m);
    ChunkRead(b, 164, STRF, Strf(m));
  }

  /** `head` is a header list that reads as `m` wherever it stands at offset 24. */
  ghost predicate HeadOf(head: bytes, m: Film) {
    |head| == 188 && forall b: bytes {:trigger At(b, 24, head)} :: At(b, 24, head) ==> HeadRead(b, m)
  }

  lemma HeadIs(m: Film)
    ensures HeadOf(Head(m), m)
  {
    forall b: bytes | At(b, 24, Head(m)) ensures HeadRead(b, m) { HeadIsRead(b, m); }
  }

  /** A whole file, as it is read: `n` bytes of frames and `z` bytes of index. */
  ghost predicate Readable(b: bytes, m: Film, n: nat, z: nat) {
    && |b| == 232 + n + z < U32 && n % 2 == 0 && z % 2 == 0
    && Is(b, 12, LIST) && SizeAt(b, 12) == 192 && Is(b, 20, HDRL)
    && Is(b, 212, LIST) && SizeAt(b, 212) == n + 4 && Is(b, 220, MOVI)
    && Is(b, 224 + n, IDX1) && SizeAt(b, 224 + n) == z
    && HeadRead(b, m)
  }

  lemma LaidIsReadable(b: bytes, head: bytes, body: bytes, index: bytes, m: Film)
    requires Laid(b, head, body, index) && HeadOf(head, m)
    ensures Readable(b, m, |body|, |index|)
  {
    ListRead(b, 12, HDRL, head);
    ListRead(b, 212, MOVI, body);
    ChunkRead(b, 224 + |body|, IDX1, index);
  }

  // ------------------------------------------------------------------ the walk over a written file

  datatype Walking = Walking(cur: Range, stack: seq<Range>, st: Scan)

  ghost predicate Sound(b: bytes, w: Walking) {
    && w.cur.end <= |b| && Within(w.stack, |b|)
    && w.st.moviEnd <= |b| && (w.st.idx1.Some? ==> w.st.idx1.value.1 <= |b|)
  }

  ghost predicate Steps(b: bytes, w: Walking, w': Walking) {
    && Sound(b, w) && Sound(b, w')
    && if w.cur.pos + 8 <= w.cur.end then
         && Visit(b, w.cur.pos, w.cur.end, w.st).Ok?
         && var (st', nested) := Visit(b, w.cur.pos, w.cur.end, w.st).value;
            w' == Walking(Range(After(b, w.cur.pos), w.cur.end), Push(w.stack, nested), st')
       else
         w.stack != [] && w' == Walking(w.stack[|w.stack| - 1], w.stack[..|w.stack| - 1], w.st)
  }

  /** A trace of steps that ends with nothing left is the walk. */
  lemma {:induction false} TraceIsWalk(b: bytes, ws: seq<Walking>)
    requires ws != [] && Sound(b, ws[0])
    requires forall i :: 0 <= i < |ws| - 1 ==> Steps(b, ws[i], ws[i + 1])
    requires var w := ws[|ws| - 1]; w.cur.pos + 8 > w.cur.end && w.stack == []
    ensures Walk(b, ws[0].cur, ws[0].stack, ws[0].st) == Ok(ws[|ws| - 1].st)
  {
    if |ws| > 1 {
      assert Steps(b, ws[0], ws[0 + 1]);
      TraceIsWalk(b, ws[1..]);
    }
  }

  lemma PopStep(b: bytes, end: nat, r: Range, st: Scan)
    requires Sound(b, Walking(Range(end, end), [r], st))
    ensures Steps(b, Walking(Range(end, end), [r], st), Walking(r, [], st))
  {
    assert [r][..0] == [] && [r][0] == r;
  }

  /** What is known once `movi`, then `idx1`, then the headers have been visited. */
  function MoviScan(n: nat): Scan {
    NOTHING.(movi := Some(MOVI_AT), moviEnd := MOVI_AT + 4 + n)
  }

  function TopScan(n: nat, z: nat): Scan {
    MoviScan(n).(idx1 := Some((232 + n, 232 + n + z)))
  }

  function MainScan(m: Film, n: nat, z: nat): Scan {
    TopScan(n, z).(fps := if m.usec > 0 then 1000000.0 / m.usec as real else 0.0, width := m.width, height := m.height)
  }

  function FullScan(m: Film, n: nat, z: nat): Scan {
    MainScan(m, n, z).(fps := m.rate as real / SCALE as real)
  }

  /** The states of the walk over a written file: the top level first, then the header list, whose stream rate
      replaces the main one. */
  function Trace(m: Film, n: nat, z: nat): seq<Walking> {
    var h, s, end := Range(24, 212), Range(100, 212), 232 + n + z;
    [Walking(Range(12, end), [], NOTHING),
     Walking(Range(212, end), [h], NOTHING),
     Walking(Range(224 + n, end), [h], MoviScan(n)),
     Walking(Range(end, end), [h], TopScan(n, z)),
     Walking(h, [], TopScan(n, z)),
     Walking(Range(88, 212), [], MainScan(m, n, z)),
     Walking(Range(212, 212), [s], MainScan(m, n, z)),
     Walking(s, [], MainScan(m, n, z)),
     Walking(Range(164, 212), [], FullScan(m, n, z)),
     Walking(Range(212, 212), [], FullScan(m, n, z))]
  }

  lemma HdrlStep(b: bytes, m: Film, n: nat, z: nat)
    requires Readable(b, m, n, z)
    ensures Steps(b, Trace(m, n, z)[0], Trace(m, n, z)[1])
  {
    assert [] + [Range(24, 212)] == [Range(24, 212)];
  }

  lemma MoviStep(b: bytes, m: Film, n: nat, z: nat)
    requires Readable(b, m, n, z)
    ensures Steps(b, Trace(m, n, z)[1], Trace(m, n, z)[2])
  {
  }

  lemma IndexStep(b: bytes, m: Film, n: nat, z: nat)
    requires Readable(b, m, n, z)
    ensures Steps(b, Trace(m, n, z)[2], Trace(m, n, z)[3])
  {
  }

  lemma TopSteps(b: bytes, m: Film, n: nat, z: nat, i: nat)
    requires Readable(b, m, n, z) && i < 4
    ensures Steps(b, Trace(m, n, z)[i], Trace(m, n, z)[i + 1])
  {
    match i
    case 0 => HdrlStep(b, m, n, z);
    case 1 => MoviStep(b, m, n, z);
    case 2 => IndexStep(b, m, n, z);
    case _ => PopStep(b, |b|, Range(24, 212), TopScan(n, z));
  }

  lemma HeaderSteps(b: bytes, m: Film, n: nat, z: nat, i: nat)
    requires Readable(b, m, n, z) && m.rate > 0 && 4 <= i < 9
    ensures Steps(b, Trace(m, n, z)[i], Trace(m, n, z)[i + 1])
  {
    if i == 6 { PopStep(b, 212, Range(100, 212), MainScan(m, n, z)); }
    if i == 5 { assert [] + [Range(100, 212)] == [Range(100, 212)]; }
  }

  lemma WalkWritten(b: bytes, m: Film, n: nat, z: nat)
    requires Readable(b, m, n, z) && m.rate > 0
    ensures Walk(b, Range(12, |b|), [], NOTHING) == Ok(FullScan(m, n, z))
  {
    var ws := Trace(m, n, z);
    forall i | 0 <= i < |ws| - 1 ensures Steps(b, ws[i], ws[i + 1]) {
      if i < 4 { TopSteps(b, m, n, z, i); } else { HeaderSteps(b, m, n, z, i); }
    }
    TraceIsWalk(b, ws);
  }

  // ------------------------------------------------------------------ the frames of a written file

  /** The chunk of frame `k` stands at its place. */
  ghost predicate ChunkAt(b: bytes, frames: seq<bytes>, k: nat) {
    k < |frames| && At(b, FrameStart(frames, k) - 8, Chunk(FRAME_ID, frames[k]))
  }

  lemma {:induction false} ChunksAt(b: bytes, frames: seq<bytes>, n: nat, k: nat)
    requires k < n <= |frames| && At(b, 224, MoviBody(frames[..n]))
    ensures ChunkAt(b, frames, k)
    decreases n
  {
    var before := frames[..n - 1];
    assert frames[..n][..n - 1] == before && frames[..n][n - 1] == frames[n - 1];
    AtSplit(b, 224, MoviBody(before), Chunk(FRAME_ID, frames[n - 1]));
    if k < n - 1 { ChunksAt(b, frames, n - 1, k); } else { BodyLength(frames, k); }
  }

  /** A frame with its chunk header, its padding, and after that a byte that starts no JPEG. */
  ghost predicate Placed(b: bytes, start: nat, frame: bytes) {
    && 8 <= start <= |b| < U32 && Is(b, start - 8, FRAME_ID) && SizeAt(b, start - 8) == |frame|
    && At(b, start, frame) && At(b, start + |frame|, Padding(|frame|))
    && start + |frame| + |frame| % 2 < |b| && b[start + |frame| + |frame| % 2] != SOI[0]
  }

  lemma ChunkStartsWith(b: bytes, pos: nat, id: bytes, data: bytes)
    requires |id| == 4 && At(b, pos, Chunk(id, data))
    ensures pos < |b| && b[pos] == id[0]
  {
    assert b[pos + 0] == Chunk(id, data)[0];
  }

  lemma ChunkIsPlaced(b: bytes, start: nat, frame: bytes)
    requires |b| < U32 && 8 <= start && At(b, start - 8, Chunk(FRAME_ID, frame))
    requires start + |frame| + |frame| % 2 < |b| && b[start + |frame| + |frame| % 2] != SOI[0]
    ensures Placed(b, start, frame)
  {
    ChunkRead(b, start - 8, FRAME_ID, frame);
  }

  /** The index entry at `i`. */
  ghost predicate Listed(b: bytes, i: nat, p: Place) {
    && i + 16 <= |b| && Is(b, i, FRAME_ID)
    && Number(b, i + 4) == 0x10 && Number(b, i + 8) == p.offset && Number(b, i + 12) == p.size
  }

  lemma EntryRead(b: bytes, pos: nat, before: bytes, p: Place)
    requires At(b, pos, before + Entry(p.offset, p.size))
    ensures At(b, pos, before) && Listed(b, pos + |before|, p)
  {
    var i := pos + |before|;
    AtSplit(b, pos, before, Entry(p.offset, p.size));
    AtSplit(b, i, FRAME_ID, LE32(0x10) + (LE32(p.offset) + LE32(p.size)));
    AtSplit(b, i + 4, LE32(0x10), LE32(p.offset) + LE32(p.size));
    AtSplit(b, i + 8, LE32(p.offset), LE32(p.size));
    NumberRead(b, i + 4, 0x10);
    NumberRead(b, i + 8, p.offset);
    NumberRead(b, i + 12, p.size);
  }

  lemma {:induction false} EntriesRead(b: bytes, pos: nat, ps: seq<Place>)
    requires At(b, pos, Entries(ps))
    ensures forall k {:trigger ps[k]} :: 0 <= k < |ps| ==> Listed(b, pos + 16 * k, ps[k])
  {
    if ps != [] {
      var n := |ps| - 1;
      EntryRead(b, pos, Entries(ps[..n]), ps[n]);
      EntriesRead(b, pos, ps[..n]);
      forall k | 0 <= k < |ps| ensures Listed(b, pos + 16 * k, ps[k]) {
        if k < n { assert ps[..n][k] == ps[k]; }
      }
    }
  }

  /** What a file holds of frame `k`: the frame at its place, and its index entry. */
  ghost predicate Holds(b: bytes, frames: seq<bytes>, k: nat) {
    && k < |frames|
    && Placed(b, FrameStart(frames, k), frames[k])
    && Listed(b, IndexAt(frames) + 16 * k, Place(FrameStart(frames, k) - MOVI_AT - 8, |frames[k]|))
  }

  ghost predicate HoldsAll(b: bytes, frames: seq<bytes>) {
    && |b| == IndexAt(frames) + 16 * |frames|
    && forall k: nat {:trigger Holds(b, frames, k)} :: k < |frames| ==> Holds(b, frames, k)
  }

  lemma FrameIsPlaced(b: bytes, frames: seq<bytes>, k: nat)
    requires |b| < U32 && k < |frames| && At(b, 224, MoviBody(frames))
    requires IndexAt(frames) <= |b| && b[IndexAt(frames) - 8] != SOI[0]
    ensures Placed(b, FrameStart(frames, k), frames[k])
  {
    assert frames[..|frames|] == frames;
    ChunksAt(b, frames, |frames|, k);
    if k + 1 < |frames| {
      ChunksAt(b, frames, |frames|, k + 1);
      ChunkStartsWith(b, FrameStart(frames, k + 1) - 8, FRAME_ID, frames[k + 1]);
    }
    ChunkIsPlaced(b, FrameStart(frames, k), frames[k]);
  }

  lemma PlaceDefined(frames: seq<bytes>, k: nat, n: nat)
    requires k < |frames| && n == |MoviBody(frames[..k])| && 4 + n < U32 && |frames[k]| < U32
    ensures Places(frames)[k] == Place(4 + n, |frames[k]|)
  {
  }

  lemma PlaceIs(frames: seq<bytes>, k: nat, start: nat)
    requires k < |frames| && start == FrameStart(frames, k) < U32 && |frames[k]| < U32
    ensures Places(frames)[k] == Place(start - MOVI_AT - 8, |frames[k]|)
  {
    BodyLength(frames, k);
    PlaceDefined(frames, k, start - MOVI_AT - 12);
  }

  lemma LaidParts(b: bytes, head: bytes, body: bytes, index: bytes)
    requires Laid(b, head, body, index)
    ensures At(b, 224, body) && At(b, 232 + |body|, index) && b[224 + |body|] != SOI[0]
  {
    ListRead(b, 212, MOVI, body);
    ChunkRead(b, 224 + |body|, IDX1, index);
    ChunkStartsWith(b, 224 + |body|, IDX1, index);
  }

  lemma LaidHolds(b: bytes, head: bytes, body: bytes, index: bytes, frames: seq<bytes>)
    requires Laid(b, head, body, index) && body == MoviBody(frames) && index == Index(frames)
    requires |body| + 232 == IndexAt(frames)
    ensures HoldsAll(b, frames)
  {
    LaidParts(b, head, body, index);
    PartsHold(b, body, index, frames, 232 + |body|);
  }

  lemma PartsHold(b: bytes, body: bytes, index: bytes, frames: seq<bytes>, i: nat)
    requires body == MoviBody(frames) && index == Index(frames) && i == IndexAt(frames)
    requires |b| == i + |index| < U32 && At(b, 224, body) && At(b, i, index) && b[i - 8] != SOI[0]
    ensures HoldsAll(b, frames)
  {
    forall k: nat | k < |frames| ensures Holds(b, frames, k) {
      EntryListed(b, i, Places(frames), k);
      HoldsOne(b, frames, k);
    }
  }

  lemma EntryListed(b: bytes, pos: nat, ps: seq<Place>, k: nat)
    requires At(b, pos, Entries(ps)) && k < |ps|
    ensures Listed(b, pos + 16 * k, ps[k])
  {
    EntriesRead(b, pos, ps);
  }

  lemma HoldsOne(b: bytes, frames: seq<bytes>, k: nat)
    requires |b| < U32 && k < |frames| && At(b, 224, MoviBody(frames))
    requires IndexAt(frames) <= |b| && b[IndexAt(frames) - 8] != SOI[0]
    requires Listed(b, IndexAt(frames) + 16 * k, Places(frames)[k])
    ensures Holds(b, frames, k)
  {
    FrameIsPlaced(b, frames, k);
    PlaceIs(frames, k, FrameStart(frames, k));
  }

  predicate IsJpeg(frame: bytes) {
    StartsJpeg(frame, 0)
  }

  /** Where the index places frame `k`: at its data when the frame is a JPEG, else as if the offset were counted
      from the start of the file. */
  function IndexedAt(frames: seq<bytes>, k: nat): (nat, nat)
    requires k < |frames|
  {
    (if IsJpeg(frames[k]) then FrameStart(frames, k) else FrameStart(frames, k) - MOVI_AT, |frames[k]|)
  }

  function ScannedAt(frames: seq<bytes>, k: nat): (nat, nat)
    requires k < |frames|
  {
    (FrameStart(frames, k), |frames[k]|)
  }

  function Indexed(frames: seq<bytes>): seq<(nat, nat)> {
    seq(|frames|, k requires 0 <= k < |frames| => IndexedAt(frames, k))
  }

  function Scanned(frames: seq<bytes>): seq<(nat, nat)> {
    seq(|frames|, k requires 0 <= k < |frames| => ScannedAt(frames, k))
  }

  lemma EntryWritten(b: bytes, frames: seq<bytes>, k: nat)
    requires Holds(b, frames, k)
    ensures EntryFrame(b, MOVI_AT, IndexAt(frames) + 16 * k) == [IndexedAt(frames, k)]
  {
    var i, start := IndexAt(frames) + 16 * k, FrameStart(frames, k);
    assert Number(b, i + 8) == start - MOVI_AT - 8 && Number(b, i + 12) == |frames[k]|;
    assert MOVI_AT + Number(b, i + 8) + 8 == start;
    JpegStarts(b, start, frames[k]);
  }

  lemma JpegStarts(b: bytes, start: nat, frame: bytes)
    requires Placed(b, start, frame)
    ensures StartsJpeg(b, start) <==> IsJpeg(frame)
  {
    if |frame| >= 1 { assert b[start + 0] == frame[0]; }
    if |frame| >= 2 { assert b[start + 1] == frame[1]; }
    if |frame| == 1 { assert b[start + 1 + 0] == Padding(1)[0]; }
  }

  lemma {:induction false} IndexWritten(b: bytes, frames: seq<bytes>, k: nat)
    requires HoldsAll(b, frames) && k <= |frames|
    ensures IndexFrames(b, MOVI_AT, IndexAt(frames) + 16 * k, |b|) == Indexed(frames)[k..]
    decreases |frames| - k
  {
    if k < |frames| {
      assert Holds(b, frames, k);
      EntryWritten(b, frames, k);
      IndexWritten(b, frames, k + 1);
      assert Indexed(frames)[k..] == [IndexedAt(frames, k)] + Indexed(frames)[k + 1..];
    }
  }

  lemma IndexWrittenAt(b: bytes, frames: seq<bytes>, k: nat, at: nat)
    requires HoldsAll(b, frames) && k <= |frames| && at == IndexAt(frames) + 16 * k
    ensures IndexFrames(b, MOVI_AT, at, |b|) == Indexed(frames)[k..]
  {
    IndexWritten(b, frames, k);
  }

  lemma {:induction false} StartsGrow(frames: seq<bytes>, k: nat, n: nat)
    requires k <= n <= |frames|
    ensures FrameStart(frames, k) <= FrameStart(frames, n)
  {
    if k < n { StartsGrow(frames, k, n - 1); }
  }

  lemma ScanStep(b: bytes, pos: nat, end: nat, next: nat, f: (nat, nat))
    requires pos + 8 <= end <= |b| && ChunkFrame(b, pos) == [f] && After(b, pos) == next
    ensures ScanFrames(b, pos, end) == [f] + ScanFrames(b, next, end)
  {
  }

  lemma ScanWrittenStep(b: bytes, frames: seq<bytes>, k: nat, pos: nat, next: nat, end: nat)
    requires HoldsAll(b, frames) && k < |frames| && end + 8 == IndexAt(frames)
    requires pos + 8 == FrameStart(frames, k) && next + 8 == FrameStart(frames, k + 1)
    ensures end <= |b| && ScanFrames(b, pos, end) == [ScannedAt(frames, k)] + ScanFrames(b, next, end)
  {
    assert Holds(b, frames, k);
    StartsGrow(frames, k + 1, |frames|);
    ScanStep(b, pos, end, next, ScannedAt(frames, k));
  }

  lemma {:induction false} ScanWritten(b: bytes, frames: seq<bytes>, k: nat, pos: nat, end: nat)
    requires HoldsAll(b, frames) && k <= |frames| && pos + 8 == FrameStart(frames, k) && end + 8 == IndexAt(frames)
    requires end <= |b|
    ensures ScanFrames(b, pos, end) == Scanned(frames)[k..]
    decreases |frames| - k
  {
    if k < |frames| {
      var next := FrameStart(frames, k + 1) - 8;
      ScanWrittenStep(b, frames, k, pos, next, end);
      ScanWritten(b, frames, k + 1, next, end);
      TailOf(Scanned(frames), k);
    }
  }

  lemma TailOf<T>(s: seq<T>, k: nat)
    requires k < |s|
    ensures s[k..] == [s[k]] + s[k + 1..]
  {
  }

  // ------------------------------------------------------------------ main results

  lemma WholeBody(frames: seq<bytes>)
    ensures |MoviBody(frames)| + 232 == IndexAt(frames)
  {
    assert frames[..|frames|] == frames;
    BodyLength(frames, |frames|);
  }

  /** Everything a written file is: readable, and holding every frame. */
  lemma WrittenParts(m: Film, head: bytes, body: bytes, index: bytes, frames: seq<bytes>, b: bytes)
    requires HeadOf(head, m) && body == MoviBody(frames) && index == Index(frames)
    requires SameBytes(b, Riff(Contents(head, body, index))) && |b| < U32
    ensures IsAvi(b) && U32At(b, 4) == Some(|b| - 8) && HoldsAll(b, frames)
    ensures |body| + 232 == IndexAt(frames) && Readable(b, m, |body|, |index|)
  {
    RiffIsLaid(b, head, body, index);
    LaidIsReadable(b, head, body, index, m);
    WholeBody(frames);
    LaidHolds(b, head, body, index, frames);
  }

  lemma WrittenFile(m: Film, frames: seq<bytes>, b: bytes)
    requires SameBytes(b, FileOf(m, frames)) && |b| < U32
    ensures IsAvi(b) && U32At(b, 4) == Some(|b| - 8) && HoldsAll(b, frames)
    ensures Readable(b, m, IndexAt(frames) - 232, 16 * |frames|)
  {
    HeadIs(m);
    WrittenParts(m, Head(m), MoviBody(frames), Index(frames), frames, b);
  }

  lemma FoundInWritten(b: bytes, frames: seq<bytes>, st: Scan)
    requires HoldsAll(b, frames) && st.movi == Some(MOVI_AT) && st.moviEnd == IndexAt(frames) - 8
    requires st.idx1 == Some((IndexAt(frames), |b|))
    ensures FramesFound(b, st) == Indexed(frames)
  {
    IndexWritten(b, frames, 0);
    assert Indexed(frames)[0..] == Indexed(frames);
    if frames == [] { ScanWritten(b, frames, 0, 224, IndexAt(frames) - 8); }
  }

  lemma ReadFrom(b: bytes, st: Scan, frames: seq<bytes>)
    requires IsAvi(b) && Walk(b, Range(12, |b|), [], NOTHING) == Ok(st) && st.fps > 0.0
    requires HoldsAll(b, frames) && st.movi == Some(MOVI_AT) && st.moviEnd == IndexAt(frames) - 8
    requires st.idx1 == Some((IndexAt(frames), |b|))
    ensures ReadSpec(b) == Ok(AviIndex(st.fps, st.width, st.height, Indexed(frames)))
  {
    FoundInWritten(b, frames, st);
  }

  lemma ReadReadable(m: Film, frames: seq<bytes>, b: bytes, n: nat, z: nat, st: Scan)
    requires m.rate > 0 && IsAvi(b) && HoldsAll(b, frames) && Readable(b, m, n, z)
    requires n + 232 == IndexAt(frames) && z == 16 * |frames| && st == FullScan(m, n, z)
    ensures ReadSpec(b) == Ok(AviIndex(st.fps, m.width, m.height, Indexed(frames)))
  {
    WalkWritten(b, m, n, z);
    ReadFrom(b, st, frames);
  }

  lemma ReadHeld(m: Film, frames: seq<bytes>, b: bytes)
    requires m.rate > 0 && IsAvi(b) && HoldsAll(b, frames) && Readable(b, m, IndexAt(frames) - 232, 16 * |frames|)
    ensures ReadSpec(b) == Ok(AviIndex(m.rate as real / 1000.0, m.width, m.height, Indexed(frames)))
  {
    var n, z := IndexAt(frames) - 232, 16 * |frames|;
    ReadReadable(m, frames, b, n, z, FullScan(m, n, z));
  }

  /** Reading a written file, whatever the header numbers and the frames: the size, the rate to the thousandth, and
      every frame in order, placed where `IndexedAt` says. The RIFF size field is the length of the rest. */
  lemma ReadUndoesWrite(m: Film, frames: seq<bytes>, b: bytes)
    requires m.rate > 0 && SameBytes(b, FileOf(m, frames)) && |b| < U32
    ensures ReadSpec(b) == Ok(AviIndex(m.rate as real / 1000.0, m.width, m.height, Indexed(frames)))
    ensures U32At(b, 4) == Some(|b| - 8)
  {
    WrittenFile(m, frames, b);
    ReadHeld(m, frames, b);
  }

  /** The bytes of a frame range. */
  function Slice(b: bytes, range: (nat, nat)): bytes
    requires range.0 + range.1 <= |b|
  {
    b[range.0..range.0 + range.1]
  }

  lemma HeldFrame(b: bytes, frames: seq<bytes>, k: nat)
    requires HoldsAll(b, frames) && k < |frames|
    ensures ScannedAt(frames, k).0 + ScannedAt(frames, k).1 <= |b| && Slice(b, ScannedAt(frames, k)) == frames[k]
  {
    assert Holds(b, frames, k);
  }

  /** A frame stands in the file byte for byte, odd lengths and padding included, and the index places it there
      exactly when it is a JPEG. */
  lemma FramesComeBack(m: Film, frames: seq<bytes>, b: bytes, k: nat)
    requires SameBytes(b, FileOf(m, frames)) && |b| < U32 && k < |frames|
    ensures ScannedAt(frames, k).0 + ScannedAt(frames, k).1 <= |b| && Slice(b, ScannedAt(frames, k)) == frames[k]
    ensures IndexedAt(frames, k) == ScannedAt(frames, k) <==> IsJpeg(frames[k])
  {
    WrittenFile(m, frames, b);
    HeldFrame(b, frames, k);
  }

  lemma ListsAgree(frames: seq<bytes>)
    ensures Indexed(frames) == Scanned(frames) <==> forall k :: 0 <= k < |frames| ==> IsJpeg(frames[k])
  {
    if Indexed(frames) == Scanned(frames) {
      forall k | 0 <= k < |frames| ensures IsJpeg(frames[k]) {
        assert Indexed(frames)[k] == Scanned(frames)[k];
      }
    }
  }

  lemma HeldIndex(b: bytes, frames: seq<bytes>)
    requires HoldsAll(b, frames)
    ensures IndexFrames(b, MOVI_AT, IndexAt(frames), |b|) == Indexed(frames)
  {
    IndexWrittenAt(b, frames, 0, IndexAt(frames));
    assert Indexed(frames)[0..] == Indexed(frames);
  }

  lemma HeldScan(b: bytes, frames: seq<bytes>)
    requires HoldsAll(b, frames)
    ensures ScanFrames(b, MOVI_AT + 4, IndexAt(frames) - 8) == Scanned(frames)
  {
    ScanWritten(b, frames, 0, 224, IndexAt(frames) - 8);
    assert Scanned(frames)[0..] == Scanned(frames);
  }

  /** The frame list read through the index is the one the fallback scan of `movi` finds, exactly when every frame
      is a JPEG. */
  lemma IndexAgreesWithScan(m: Film, frames: seq<bytes>, b: bytes)
    requires SameBytes(b, FileOf(m, frames)) && |b| < U32
    ensures MOVI_AT + 12 <= IndexAt(frames) <= |b|
    ensures IndexFrames(b, MOVI_AT, IndexAt(frames), |b|) == Indexed(frames)
    ensures ScanFrames(b, MOVI_AT + 4, IndexAt(frames) - 8) == Scanned(frames)
    ensures Indexed(frames) == Scanned(frames) <==> forall k :: 0 <= k < |frames| ==> IsJpeg(frames[k])
  {
    WrittenFile(m, frames, b);
    HeldIndex(b, frames);
    HeldScan(b, frames);
    ListsAgree(frames);
  }

  lemma SlicesAre(b: bytes, frames: seq<bytes>, fs: seq<(nat, nat)>)
    requires HoldsAll(b, frames) && fs == Indexed(frames) && Inside(b, fs)
    requires forall k :: 0 <= k < |frames| ==> IsJpeg(frames[k])
    ensures |fs| == |frames| && forall k :: 0 <= k < |frames| ==> Slice(b, fs[k]) == frames[k]
  {
    forall k | 0 <= k < |frames| ensures Slice(b, fs[k]) == frames[k] {
      HeldFrame(b, frames, k);
    }
  }

  /** JPEG frames written, then read: the size and rate of the film, and exactly those frames, in order. */
  lemma JpegsComeBack(m: Film, frames: seq<bytes>, b: bytes)
    requires m.rate > 0 && SameBytes(b, FileOf(m, frames)) && |b| < U32
    requires forall k :: 0 <= k < |frames| ==> IsJpeg(frames[k])
    ensures ReadSpec(b) == Ok(AviIndex(m.rate as real / 1000.0, m.width, m.height, Indexed(frames)))
    ensures Inside(b, Indexed(frames))
    ensures forall k :: 0 <= k < |frames| ==> Slice(b, Indexed(frames)[k]) == frames[k]
  {
    ReadUndoesWrite(m, frames, b);
    WrittenFile(m, frames, b);
    SlicesAre(b, frames, Indexed(frames));
  }
}
