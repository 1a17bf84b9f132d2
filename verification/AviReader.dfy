/** Reading an AVI file: a walk over nested chunks with an explicit stack, then the frame list. */
module AviReader {
  import opened Basics
  import opened AviFormat

  datatype AviError = NotAvi | TruncatedList | MissingMovi

  /** What the walk has found. */
  datatype Scan = Scan(fps: real, width: u32, height: u32, movi: Option<nat>, moviEnd: nat, idx1: Option<(nat, nat)>)

  datatype AviIndex = AviIndex(fps: real, width: u32, height: u32, frames: seq<(nat, nat)>)

  const NOTHING: Scan := Scan(0.0, 0, 0, None, 0, None)

  /** Offsets of a range not walked yet, end excluded. */
  datatype Range = Range(pos: nat, end: nat)

  /** The four bytes at `i` are the identifier `id`. */
  predicate Is(b: bytes, i: nat, id: bytes)
    requires i + 4 <= |b| && |id| == 4
  {
    b[i] == id[0] && b[i + 1] == id[1] && b[i + 2] == id[2] && b[i + 3] == id[3]
  }

  /** The size of a chunk is always there to be read, so the errors for a truncated chunk and a truncated `movi` never
      arise. */
  function SizeAt(b: bytes, pos: nat): nat
    requires pos + 8 <= |b|
  {
    U32At(b, pos + 4).value
  }

  function Number(b: bytes, i: nat): u32 {
    U32At(b, i).GetOr(0)
  }

  /** Position after the chunk at `pos`, its padding included. */
  function After(b: bytes, pos: nat): nat
    requires pos + 8 <= |b|
  {
    pos + 8 + SizeAt(b, pos) + SizeAt(b, pos) % 2
  }

  function DataEnd(b: bytes, pos: nat, end: nat): nat
    requires pos + 8 <= end <= |b|
  {
    Min(pos + 8 + SizeAt(b, pos), end)
  }

  /** One chunk: what it adds to the scan, and the range it opens when it is a list other than `movi`. */
  function Visit(b: bytes, pos: nat, end: nat, st: Scan): (r: Result<(Scan, Option<Range>), AviError>)
    requires pos + 8 <= end <= |b|
    requires st.moviEnd <= |b| && (st.idx1.Some? ==> st.idx1.value.1 <= |b|)
    ensures r.Ok? ==> r.value.0.moviEnd <= |b| && (r.value.0.idx1.Some? ==> r.value.0.idx1.value.1 <= |b|)
    ensures r.Ok? && r.value.1.Some? ==> r.value.1.value == Range(pos + 12, DataEnd(b, pos, end))
  {
    var data, dataEnd := pos + 8, DataEnd(b, pos, end);
    if Is(b, pos, LIST) then
      if data + 4 > |b| then Err(TruncatedList)
      else if Is(b, data, MOVI) then Ok((st.(movi := Some(data), moviEnd := dataEnd), None))
      else Ok((st, Some(Range(data + 4, dataEnd))))
    else if Is(b, pos, AVIH) then
      var us := Number(b, data);
      Ok((st.(fps := if us > 0 && st.fps == 0.0 then 1000000.0 / us as real else st.fps,
              width := Number(b, data + 32), height := Number(b, data + 36)), None))
    else if Is(b, pos, STRH) then
      var scale, rate := Number(b, data + 20), Number(b, data + 24);
      Ok((if scale > 0 && rate > 0 then st.(fps := rate as real / scale as real) else st, None))
    else if Is(b, pos, IDX1) then Ok((st.(idx1 := Some((data, dataEnd))), None))
    else Ok((st, None))
  }

  function Length(r: Range): nat {
    Max(0, r.end - r.pos)
  }

  /** Bytes waiting on the stack. */
  function Pending(stack: seq<Range>): nat {
    if stack == [] then 0 else Pending(stack[..|stack| - 1]) + Length(stack[|stack| - 1])
  }

  function Push(stack: seq<Range>, r: Option<Range>): seq<Range> {
    if r.Some? then stack + [r.value] else stack
  }

  predicate Within(stack: seq<Range>, n: nat) {
    forall i :: 0 <= i < |stack| ==> stack[i].end <= n
  }

  /** A chunk and the range it opens take at least 8 bytes less than what was left: this is why the walk ends. */
  lemma VisitShrinks(b: bytes, pos: nat, end: nat, stack: seq<Range>, st: Scan)
    requires pos + 8 <= end <= |b|
    requires st.moviEnd <= |b| && (st.idx1.Some? ==> st.idx1.value.1 <= |b|)
    requires Visit(b, pos, end, st).Ok?
    ensures Length(Range(After(b, pos), end)) + Pending(Push(stack, Visit(b, pos, end, st).value.1)) + 8
            <= Length(Range(pos, end)) + Pending(stack)
  {
    var r := Visit(b, pos, end, st).value.1;
    if r.Some? { assert (stack + [r.value])[..|stack|] == stack; }
  }

  /** No offset lies in both ranges. */
  predicate Disjoint(r: Range, s: Range) {
    r.pos >= r.end || s.pos >= s.end || r.end <= s.pos || s.end <= r.pos
  }

  /** The range walked now and those waiting lie apart, each from every other. */
  ghost predicate Apart(cur: Range, stack: seq<Range>) {
    && (forall i :: 0 <= i < |stack| ==> Disjoint(cur, stack[i]))
    && (forall i, j :: 0 <= i < j < |stack| ==> Disjoint(stack[i], stack[j]))
  }

  /** The eight bytes of a chunk header. */
  function HeaderAt(pos: nat): Range {
    Range(pos, pos + 8)
  }

  /** The header lies in none of the ranges still to be walked. */
  ghost predicate Behind(pos: nat, cur: Range, stack: seq<Range>) {
    Disjoint(HeaderAt(pos), cur) && forall i :: 0 <= i < |stack| ==> Disjoint(HeaderAt(pos), stack[i])
  }

  /** A visit keeps the ranges apart, and leaves its own header and every one already behind in none of them. */
  lemma VisitKeepsApart(b: bytes, cur: Range, stack: seq<Range>, st: Scan)
    requires cur.pos + 8 <= cur.end <= |b| && Apart(cur, stack)
    requires st.moviEnd <= |b| && (st.idx1.Some? ==> st.idx1.value.1 <= |b|)
    requires Visit(b, cur.pos, cur.end, st).Ok?
    ensures var cur', stack' := Range(After(b, cur.pos), cur.end), Push(stack, Visit(b, cur.pos, cur.end, st).value.1);
            && Apart(cur', stack') && Behind(cur.pos, cur', stack')
            && forall p :: Behind(p, cur, stack) ==> Behind(p, cur', stack')
  {
    var cur', stack' := Range(After(b, cur.pos), cur.end), Push(stack, Visit(b, cur.pos, cur.end, st).value.1);
    forall p | Behind(p, cur, stack) ensures Behind(p, cur', stack') {
      assert Disjoint(HeaderAt(p), cur);
    }
  }

  function Walk(b: bytes, cur: Range, stack: seq<Range>, st: Scan): (r: Result<Scan, AviError>)
    requires cur.end <= |b| && Within(stack, |b|)
    requires st.moviEnd <= |b| && (st.idx1.Some? ==> st.idx1.value.1 <= |b|)
    ensures r.Ok? ==> r.value.moviEnd <= |b| && (r.value.idx1.Some? ==> r.value.idx1.value.1 <= |b|)
    decreases Length(cur) + Pending(stack), |stack|
  {
    if cur.pos + 8 <= cur.end then
      match Visit(b, cur.pos, cur.end, st)
      case Err(e) => Err(e)
      case Ok((st', nested)) =>
        VisitShrinks(b, cur.pos, cur.end, stack, st);
        Walk(b, Range(After(b, cur.pos), cur.end), Push(stack, nested), st')
    else if stack == [] then Ok(st)
    else Walk(b, stack[|stack| - 1], stack[..|stack| - 1], st)
  }

  // ------------------------------------------------------------------ frames

  /** Identifiers that end in `dc` or `db` are those of video frames. */
  predicate IsFrameId(b: bytes, i: nat)
    requires i + 4 <= |b|
  {
    b[i + 2] == 0x64 && (b[i + 3] == 0x63 || b[i + 3] == 0x62)
  }

  predicate StartsJpeg(b: bytes, i: nat) {
    i + 2 <= |b| && b[i] == SOI[0] && b[i + 1] == SOI[1]
  }

  predicate Inside(b: bytes, fs: seq<(nat, nat)>) {
    forall k :: 0 <= k < |fs| ==> fs[k].0 + fs[k].1 <= |b|
  }

  /** The frame of the index entry at `i`, its offset counted from `movi` when a JPEG starts there, else from the
      start of the file; nothing when it is not a video frame or lies outside the file. */
  function EntryFrame(b: bytes, movi: nat, i: nat): (fs: seq<(nat, nat)>)
    requires i + 16 <= |b|
    ensures Inside(b, fs)
  {
    var off, len := Number(b, i + 8), Number(b, i + 12);
    var rel := movi + off + 8;
    var start := if rel + len <= |b| && StartsJpeg(b, rel) then rel else off + 8;
    if IsFrameId(b, i) && start + len <= |b| then [(start, len)] else []
  }

  function IndexFrames(b: bytes, movi: nat, i: nat, end: nat): (fs: seq<(nat, nat)>)
    requires end <= |b|
    ensures Inside(b, fs)
    decreases end - i
  {
    if i + 16 > end then [] else EntryFrame(b, movi, i) + IndexFrames(b, movi, i + 16, end)
  }

  function ChunkFrame(b: bytes, pos: nat): (fs: seq<(nat, nat)>)
    requires pos + 8 <= |b|
    ensures Inside(b, fs)
  {
    var size := SizeAt(b, pos);
    if b[pos + 2] == 0x64 && b[pos + 3] == 0x63 && pos + 8 + size <= |b| then [(pos + 8, size)] else []
  }

  /** Frames found by scanning the `movi` list. */
  function ScanFrames(b: bytes, pos: nat, end: nat): (fs: seq<(nat, nat)>)
    requires end <= |b|
    ensures Inside(b, fs)
    decreases end - pos
  {
    if pos + 8 > end then [] else ChunkFrame(b, pos) + ScanFrames(b, After(b, pos), end)
  }

  function FramesFound(b: bytes, st: Scan): (fs: seq<(nat, nat)>)
    requires st.movi.Some? && st.moviEnd <= |b| && (st.idx1.Some? ==> st.idx1.value.1 <= |b|)
    ensures Inside(b, fs)
  {
    var indexed := if st.idx1.Some? then IndexFrames(b, st.movi.value, st.idx1.value.0, st.idx1.value.1) else [];
    if indexed == [] then ScanFrames(b, st.movi.value + 4, st.moviEnd) else indexed
  }

  predicate IsAvi(b: bytes) {
    |b| >= 12 && Is(b, 0, RIFF) && Is(b, 8, AVI_)
  }

  /** Reading any bytes whatever gives an error, or frames that all lie inside the file. */
  function ReadSpec(b: bytes): (r: Result<AviIndex, AviError>)
    ensures r.Ok? ==> Inside(b, r.value.frames)
  {
    if !IsAvi(b) then Err(NotAvi) else
    match Walk(b, Range(12, |b|), [], NOTHING)
    case Err(e) => Err(e)
    case Ok(st) =>
      if st.movi.None? then Err(MissingMovi)
      else Ok(AviIndex(if st.fps <= 0.0 then 1.0 else st.fps, st.width, st.height, FramesFound(b, st)))
  }

  /** The offsets of the headers the walk visits, in order. */
  ghost function Visited(b: bytes, cur: Range, stack: seq<Range>, st: Scan): seq<nat>
    requires cur.end <= |b| && Within(stack, |b|)
    requires st.moviEnd <= |b| && (st.idx1.Some? ==> st.idx1.value.1 <= |b|)
    decreases Length(cur) + Pending(stack), |stack|
  {
    if cur.pos + 8 <= cur.end then
      [cur.pos] +
      match Visit(b, cur.pos, cur.end, st)
      case Err(_) => []
      case Ok((st', nested)) =>
        VisitShrinks(b, cur.pos, cur.end, stack, st);
        Visited(b, Range(After(b, cur.pos), cur.end), Push(stack, nested), st')
    else if stack == [] then []
    else Visited(b, stack[|stack| - 1], stack[..|stack| - 1], st)
  }

  /** Headers inside the file, no two of which share a byte. */
  ghost predicate OneByOne(headers: seq<nat>, n: nat) {
    && (forall i :: 0 <= i < |headers| ==> 12 <= headers[i] && headers[i] + 8 <= n)
    && (forall i, j :: 0 <= i < j < |headers| ==> Disjoint(HeaderAt(headers[i]), HeaderAt(headers[j])))
  }

  /** Every header is behind once it has been visited, so none is visited twice. */
  ghost predicate AllBehind(headers: seq<nat>, cur: Range, stack: seq<Range>) {
    forall i :: 0 <= i < |headers| ==> Behind(headers[i], cur, stack)
  }

  ghost predicate From12(cur: Range, stack: seq<Range>) {
    cur.pos >= 12 && forall i :: 0 <= i < |stack| ==> stack[i].pos >= 12
  }

  /** What every step of the walk keeps. */
  ghost predicate Safe(n: nat, headers: seq<nat>, cur: Range, stack: seq<Range>) {
    cur.end <= n && Apart(cur, stack) && From12(cur, stack) && OneByOne(headers, n) && AllBehind(headers, cur, stack)
  }

  lemma NextHeader(n: nat, headers: seq<nat>, cur: Range, stack: seq<Range>)
    requires Safe(n, headers, cur, stack) && cur.pos + 8 <= cur.end
    ensures OneByOne(headers + [cur.pos], n)
  {
    forall i | 0 <= i < |headers| ensures Disjoint(HeaderAt(headers[i]), HeaderAt(cur.pos)) {
      assert Behind(headers[i], cur, stack);
    }
  }

  lemma SafeVisit(b: bytes, headers: seq<nat>, cur: Range, stack: seq<Range>, st: Scan)
    requires Safe(|b|, headers, cur, stack) && cur.pos + 8 <= cur.end
    requires st.moviEnd <= |b| && (st.idx1.Some? ==> st.idx1.value.1 <= |b|)
    requires Visit(b, cur.pos, cur.end, st).Ok?
    ensures var nested := Visit(b, cur.pos, cur.end, st).value.1;
            Safe(|b|, headers + [cur.pos], Range(After(b, cur.pos), cur.end), Push(stack, nested))
  {
    NextHeader(|b|, headers, cur, stack);
    VisitKeepsApart(b, cur, stack, st);
    var cur', stack' := Range(After(b, cur.pos), cur.end), Push(stack, Visit(b, cur.pos, cur.end, st).value.1);
    forall i | 0 <= i < |headers| ensures Behind(headers[i], cur', stack') {
      assert Behind(headers[i], cur, stack);
    }
  }

  lemma SafePop(n: nat, headers: seq<nat>, cur: Range, stack: seq<Range>)
    requires Safe(n, headers, cur, stack) && stack != [] && Within(stack, n)
    ensures Safe(n, headers, stack[|stack| - 1], stack[..|stack| - 1])
  {
    var top, rest := stack[|stack| - 1], stack[..|stack| - 1];
    forall i | 0 <= i < |headers| ensures Behind(headers[i], top, rest) {
      assert Behind(headers[i], cur, stack);
    }
  }

  /** The walk as it runs, with an explicit stack, on any bytes: no access leaves the file, the ranges still to be walked
      stay apart, no header visited lies in one of them or overlaps another one, so there is at most one every 8
      bytes. */
  method WalkChunks(b: bytes) returns (r: Result<Scan, AviError>, ghost headers: seq<nat>)
    requires |b| >= 12
    ensures r == Walk(b, Range(12, |b|), [], NOTHING)
    ensures headers == Visited(b, Range(12, |b|), [], NOTHING)
    ensures OneByOne(headers, |b|) && 8 * |headers| <= |b| - 12
  {
    headers := [];
    var st := NOTHING;
    var cur, stack := Range(12, |b|), [];
    ghost var all := Visited(b, cur, stack, st);
    while cur.pos + 8 <= cur.end || stack != []
      invariant cur.end <= |b| && Within(stack, |b|)
      invariant st.moviEnd <= |b| && (st.idx1.Some? ==> st.idx1.value.1 <= |b|)
      invariant Walk(b, Range(12, |b|), [], NOTHING) == Walk(b, cur, stack, st)
      invariant all == headers + Visited(b, cur, stack, st)
      invariant 8 * |headers| + Length(cur) + Pending(stack) <= |b| - 12
      invariant Safe(|b|, headers, cur, stack)
      decreases Length(cur) + Pending(stack), |stack|
    {
      if cur.pos + 8 <= cur.end {
        var v := Visit(b, cur.pos, cur.end, st);
        ghost var before := headers;
        headers := before + [cur.pos];
        if v.Err? {
          NextHeader(|b|, before, cur, stack);
          return Err(v.error), headers;
        }
        VisitShrinks(b, cur.pos, cur.end, stack, st);
        SafeVisit(b, before, cur, stack, st);
        ghost var here := cur.pos;
        st, stack := v.value.0, Push(stack, v.value.1);
        cur := Range(After(b, cur.pos), cur.end);
        Assoc(before, [here], Visited(b, cur, stack, st));
      } else {
        SafePop(|b|, headers, cur, stack);
        cur, stack := stack[|stack| - 1], stack[..|stack| - 1];
      }
    }
    r := Ok(st);
  }

  method ReadAvi(b: bytes) returns (r: Result<AviIndex, AviError>)
    ensures r == ReadSpec(b)
  {
    if |b| < 12 || !Is(b, 0, RIFF) || !Is(b, 8, AVI_) { return Err(NotAvi); }
    var walked, _ := WalkChunks(b);
    if walked.Err? { return Err(walked.error); }
    var st := walked.value;
    if st.movi.None? { return Err(MissingMovi); }
    var movi, frames := st.movi.value, [];
    if st.idx1.Some? {
      frames := ReadIndex(b, movi, st.idx1.value.0, st.idx1.value.1);
    }
    if frames == [] {
      frames := ReadMovi(b, movi + 4, st.moviEnd);
    }
    r := Ok(AviIndex(if st.fps <= 0.0 then 1.0 else st.fps, st.width, st.height, frames));
  }

  method ReadEntry(b: bytes, movi: nat, i: nat, frames: seq<(nat, nat)>) returns (frames': seq<(nat, nat)>)
    requires i + 16 <= |b|
    ensures frames' == frames + EntryFrame(b, movi, i)
  {
    frames' := frames;
    var off: nat, len: nat := Number(b, i + 8), Number(b, i + 12);
    if IsFrameId(b, i) {
      var rel := movi + off + 8;
      var start := if rel + len <= |b| && StartsJpeg(b, rel) then rel else off + 8;
      if start + len <= |b| { frames' := frames + [(start, len)]; }
    }
  }

  method ReadIndex(b: bytes, movi: nat, first: nat, end: nat) returns (frames: seq<(nat, nat)>)
    requires end <= |b|
    ensures frames == IndexFrames(b, movi, first, end)
  {
    var i := first;
    frames := [];
    while i + 16 <= end
      invariant IndexFrames(b, movi, first, end) == frames + IndexFrames(b, movi, i, end)
      decreases end - i
    {
      Assoc(frames, EntryFrame(b, movi, i), IndexFrames(b, movi, i + 16, end));
      frames := ReadEntry(b, movi, i, frames);
      i := i + 16;
    }
  }

  method ReadMovi(b: bytes, first: nat, end: nat) returns (frames: seq<(nat, nat)>)
    requires end <= |b|
    ensures frames == ScanFrames(b, first, end)
  {
    var pos := first;
    frames := [];
    while pos + 8 <= end
      invariant ScanFrames(b, first, end) == frames + ScanFrames(b, pos, end)
      decreases end - pos
    {
      ghost var before, rest := frames, ScanFrames(b, After(b, pos), end);
      var size := SizeAt(b, pos);
      if b[pos + 2] == 0x64 && b[pos + 3] == 0x63 && pos + 8 + size <= |b| { frames := frames + [(pos + 8, size)]; }
      assert frames == before + ChunkFrame(b, pos);
      Assoc(before, ChunkFrame(b, pos), rest);
      pos := pos + 8 + size + size % 2;
    }
  }
}
