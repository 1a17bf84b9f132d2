/** The headers of a written file, byte by byte, in terms of what was asked of the writer. */
module AviHeaders {
  import opened Basics
  import opened AviFormat
  import opened AviReader
  import opened AviRoundTrip

  /** The text, one byte for each character, stands at `at`. */
  ghost predicate Ascii(b: bytes, at: nat, text: string) {
    at + |text| <= |b| && forall j {:trigger text[j]} :: 0 <= j < |text| ==> b[at + j] == text[j] as int
  }

  /** The 32-bit little-endian number at `at` is `n`. */
  ghost predicate Is32(b: bytes, at: nat, n: int) {
    at + 4 <= |b| && b[at] as int + 0x100 * b[at + 1] as int + 0x1_0000 * b[at + 2] as int + 0x100_0000 * b[at + 3] as int == n
  }

  /** The 16-bit little-endian number at `at` is `n`. */
  ghost predicate Is16(b: bytes, at: nat, n: int) {
    at + 2 <= |b| && b[at] as int + 0x100 * b[at + 1] as int == n
  }

  /** The frame rate that is written: the one asked for, when it is finite and above zero, else 1. */
  function Asked(fps: Fps): real {
    match fps
    case Fps(r) => if r > 0.0 then r else 1.0
    case NotFinite => 1.0
  }

  /** `n` is the 32-bit number nearest to `x`, the greatest one for everything beyond. */
  ghost predicate Nearest32(n: int, x: real) {
    n as real - 0.5 <= x && (x < n as real + 0.5 || n == 0xFFFF_FFFF)
  }

  /** `n` is the least 32-bit number that is not below `x`, the greatest one for everything beyond. */
  ghost predicate Above32(n: int, x: real) {
    n as real - 1.0 < x && (x <= n as real || n == 0xFFFF_FFFF)
  }

  /** `n` is the length of the longest frame, 0 without any. */
  ghost predicate IsLongest(n: nat, frames: seq<bytes>) {
    (forall k :: 0 <= k < |frames| ==> |frames[k]| <= n) && (n == 0 || exists k :: 0 <= k < |frames| && |frames[k]| == n)
  }

  /** The main header. */
  ghost predicate MainHeader(b: bytes, width: nat, height: nat, usec: int, perSecond: int, count: int, longest: int) {
    && Ascii(b, 24, "avih") && Is32(b, 28, 56)
    && Is32(b, 32, usec) && Is32(b, 36, perSecond) && Is32(b, 40, 0) && Is32(b, 44, 0x10) && Is32(b, 48, count)
    && Is32(b, 52, 0) && Is32(b, 56, 1) && Is32(b, 60, longest) && Is32(b, 64, width) && Is32(b, 68, height)
    && Is32(b, 72, 0) && Is32(b, 76, 0) && Is32(b, 80, 0) && Is32(b, 84, 0)
  }

  /** The stream header: `rate` over 1000 frames a second, the greatest number for an unknown quality, and the whole
      picture as its rectangle. */
  ghost predicate StreamHeader(b: bytes, width: nat, height: nat, rate: int, count: int, longest: int) {
    && Ascii(b, 100, "strh") && Is32(b, 104, 56) && Ascii(b, 108, "vids") && Ascii(b, 112, "MJPG")
    && Is32(b, 116, 0) && Is32(b, 120, 0) && Is32(b, 124, 0) && Is32(b, 128, 1000) && Is32(b, 132, rate)
    && Is32(b, 136, 0) && Is32(b, 140, count) && Is32(b, 144, longest) && Is32(b, 148, 0xFFFF_FFFF) && Is32(b, 152, 0)
    && Is16(b, 156, 0) && Is16(b, 158, 0) && Is16(b, 160, width) && Is16(b, 162, height)
  }

  /** The picture format: one plane, 24 bits. */
  ghost predicate PictureFormat(b: bytes, width: nat, height: nat) {
    && Ascii(b, 164, "strf") && Is32(b, 168, 40) && Is32(b, 172, 40) && Is32(b, 176, width) && Is32(b, 180, height)
    && Is16(b, 184, 1) && Is16(b, 186, 24) && Ascii(b, 188, "MJPG")
    && Is32(b, 192, width * height * 3 % 0x1_0000_0000)
    && Is32(b, 196, 0) && Is32(b, 200, 0) && Is32(b, 204, 0) && Is32(b, 208, 0)
  }

  /** The lists and chunks that hold them. */
  ghost predicate InLists(b: bytes) {
    && Ascii(b, 0, "RIFF") && Ascii(b, 8, "AVI ") && Ascii(b, 12, "LIST") && Is32(b, 16, 192) && Ascii(b, 20, "hdrl")
    && Ascii(b, 88, "LIST") && Is32(b, 92, 116) && Ascii(b, 96, "strl") && Ascii(b, 212, "LIST") && Ascii(b, 220, "movi")
  }

  /** What the header bytes say: the numbers are those of the film asked for. */
  ghost predicate Headed(b: bytes, width: nat, height: nat, fps: Fps, frames: seq<bytes>) {
    exists usec, perSecond, ceiling, rate, longest: nat ::
      && InLists(b)
      && MainHeader(b, width, height, usec, perSecond, |frames| % 0x1_0000_0000, longest % 0x1_0000_0000)
      && StreamHeader(b, width, height, rate, |frames| % 0x1_0000_0000, longest % 0x1_0000_0000)
      && PictureFormat(b, width, height)
      && IsLongest(longest, frames)
      && Nearest32(usec, 1000000.0 / Asked(fps))
      && (if Asked(fps) * 1000.0 < 0.5 then rate == 1 else Nearest32(rate, Asked(fps) * 1000.0))
      && Above32(ceiling, Asked(fps))
      && perSecond == Max(1, Min(longest % 0x1_0000_0000 * ceiling, 0xFFFF_FFFF))
  }

  // ------------------------------------------------------------------ reading them off

  lemma NumberIs(b: bytes, at: nat, v: u32)
    requires U32At(b, at) == Some(v)
    ensures Is32(b, at, v)
  {
  }

  lemma {:induction false} WordIs(b: bytes, at: nat, vs: seq<u32>, k: nat, to: nat)
    requires At(b, at, Words(vs)) && k < |vs| && to == at + 4 * k
    ensures Is32(b, to, vs[k])
    decreases |vs|
  {
    var n := |vs| - 1;
    AtSplit(b, at, Words(vs[..n]), LE32(vs[n]));
    if k < n {
      WordIs(b, at, vs[..n], k, to);
    } else {
      NumberRead(b, to, vs[n]);
      NumberIs(b, to, vs[n]);
    }
  }

  lemma ShortIs(b: bytes, at: nat, v: u16)
    requires At(b, at, LE16(v))
    ensures Is16(b, at, v)
  {
    var w := LE16(v);
    assert b[at + 0] == w[0] && b[at + 1] == w[1];
  }

  lemma TextIs(b: bytes, at: nat, id: bytes, text: string)
    requires At(b, at, id) && |id| == |text| && forall j :: 0 <= j < |id| ==> id[j] == text[j] as int
    ensures Ascii(b, at, text)
  {
    forall j | 0 <= j < |text| ensures b[at + j] == text[j] as int {
      assert b[at + j] == id[j];
    }
  }

  lemma IdIs(b: bytes, at: nat, id: bytes, size: u32, data: bytes, text: string)
    requires |id| == 4 && At(b, at, id + (LE32(size) + data))
    requires |id| == |text| && forall j :: 0 <= j < |id| ==> id[j] == text[j] as int
    ensures Ascii(b, at, text) && Is32(b, at + 4, size) && At(b, at + 8, data)
  {
    AtSplit(b, at, id, LE32(size) + data);
    AtSplit(b, at + 4, LE32(size), data);
    TextIs(b, at, id, text);
    NumberRead(b, at + 4, size);
    NumberIs(b, at + 4, size);
  }

  lemma ChunkIs(b: bytes, at: nat, id: bytes, data: bytes, text: string)
    requires |id| == 4 && |data| < U32 && At(b, at, Chunk(id, data))
    requires |id| == |text| && forall j :: 0 <= j < |id| ==> id[j] == text[j] as int
    ensures Ascii(b, at, text) && Is32(b, at + 4, |data|) && At(b, at + 8, data)
  {
    IdIs(b, at, id, |data|, data + Padding(|data|), text);
    AtSplit(b, at + 8, data, Padding(|data|));
  }

  /** The size is right for a list that is not too long; the identifiers and the data stand there in any case. */
  lemma ListIs(b: bytes, at: nat, kind: bytes, data: bytes, text: string)
    requires |kind| == 4 && At(b, at, ListOf(kind, data))
    requires |kind| == |text| && forall j :: 0 <= j < |kind| ==> kind[j] == text[j] as int
    ensures Ascii(b, at, "LIST") && Is32(b, at + 4, Low32(|data| + 4)) && Ascii(b, at + 8, text) && At(b, at + 12, data)
  {
    IdIs(b, at, LIST, Low32(|data| + 4), kind + data, "LIST");
    AtSplit(b, at + 8, kind, data);
    TextIs(b, at + 8, kind, text);
  }

  lemma MainHeaderIs(b: bytes, m: Film)
    requires At(b, 24, Chunk(AVIH, Avih(m)))
    ensures MainHeader(b, m.width, m.height, m.usec, m.bytesPerSec, m.count, m.longest)
  {
    var ws := AvihWords(m);
    ChunkIs(b, 24, AVIH, Avih(m), "avih");
    forall k: nat | k < 14 ensures Is32(b, 32 + 4 * k, ws[k]) { WordIs(b, 32, ws, k, 32 + 4 * k); }
    MainNumbers(b, ws);
  }

  lemma MainNumbers(b: bytes, ws: seq<u32>)
    requires |ws| == 14 && forall k: nat {:trigger ws[k]} :: k < 14 ==> Is32(b, 32 + 4 * k, ws[k])
    ensures Is32(b, 32, ws[0]) && Is32(b, 36, ws[1]) && Is32(b, 40, ws[2]) && Is32(b, 44, ws[3]) && Is32(b, 48, ws[4])
    ensures Is32(b, 52, ws[5]) && Is32(b, 56, ws[6]) && Is32(b, 60, ws[7]) && Is32(b, 64, ws[8]) && Is32(b, 68, ws[9])
    ensures Is32(b, 72, ws[10]) && Is32(b, 76, ws[11]) && Is32(b, 80, ws[12]) && Is32(b, 84, ws[13])
  {
  }

  lemma StreamNumbers(b: bytes, ws: seq<u32>)
    requires |ws| == 10 && forall k: nat {:trigger ws[k]} :: k < 10 ==> Is32(b, 116 + 4 * k, ws[k])
    ensures Is32(b, 116, ws[0]) && Is32(b, 120, ws[1]) && Is32(b, 124, ws[2]) && Is32(b, 128, ws[3]) && Is32(b, 132, ws[4])
    ensures Is32(b, 136, ws[5]) && Is32(b, 140, ws[6]) && Is32(b, 144, ws[7]) && Is32(b, 148, ws[8]) && Is32(b, 152, ws[9])
  {
  }

  lemma RectangleIs(b: bytes, w: u16, h: u16)
    requires At(b, 156, LE16(0) + (LE16(0) + (LE16(w) + LE16(h))))
    ensures Is16(b, 156, 0) && Is16(b, 158, 0) && Is16(b, 160, w) && Is16(b, 162, h)
  {
    AtSplit(b, 156, LE16(0), LE16(0) + (LE16(w) + LE16(h)));
    AtSplit(b, 158, LE16(0), LE16(w) + LE16(h));
    AtSplit(b, 160, LE16(w), LE16(h));
    ShortIs(b, 156, 0);
    ShortIs(b, 158, 0);
    ShortIs(b, 160, w);
    ShortIs(b, 162, h);
  }

  lemma StreamHeaderIs(b: bytes, m: Film)
    requires At(b, 100, Chunk(STRH, Strh(m)))
    ensures StreamHeader(b, m.width, m.height, m.rate, m.count, m.longest)
  {
    var ws := StrhWords(m);
    var tail := LE16(0) + (LE16(0) + (LE16(m.width) + LE16(m.height)));
    ChunkIs(b, 100, STRH, Strh(m), "strh");
    AtSplit(b, 108, VIDS, MJPG + (Words(ws) + tail));
    AtSplit(b, 112, MJPG, Words(ws) + tail);
    AtSplit(b, 116, Words(ws), tail);
    TextIs(b, 108, VIDS, "vids");
    TextIs(b, 112, MJPG, "MJPG");
    RectangleIs(b, m.width, m.height);
    forall k: nat | k < 10 ensures Is32(b, 116 + 4 * k, ws[k]) { WordIs(b, 116, ws, k, 116 + 4 * k); }
    StreamNumbers(b, ws);
  }

  lemma PictureFormatIs(b: bytes, m: Film)
    requires At(b, 164, Chunk(STRF, Strf(m))) && m.imageSize == m.width * m.height * 3 % 0x1_0000_0000
    ensures PictureFormat(b, m.width, m.height)
  {
    var first, last := [40, m.width, m.height], [m.imageSize, 0, 0, 0, 0];
    ChunkIs(b, 164, STRF, Strf(m), "strf");
    PictureParts(b, first, last);
    forall k: nat | k < 3 ensures Is32(b, 172 + 4 * k, first[k]) { WordIs(b, 172, first, k, 172 + 4 * k); }
    forall k: nat | k < 5 ensures Is32(b, 192 + 4 * k, last[k]) { WordIs(b, 192, last, k, 192 + 4 * k); }
    PictureNumbers(b, first, last);
  }

  lemma PictureParts(b: bytes, first: seq<u32>, last: seq<u32>)
    requires |first| == 3 && |last| == 5 && At(b, 172, Words(first) + (LE16(1) + (LE16(24) + (MJPG + Words(last)))))
    ensures At(b, 172, Words(first)) && Is16(b, 184, 1) && Is16(b, 186, 24) && Ascii(b, 188, "MJPG") && At(b, 192, Words(last))
  {
    AtSplit(b, 172, Words(first), LE16(1) + (LE16(24) + (MJPG + Words(last))));
    AtSplit(b, 184, LE16(1), LE16(24) + (MJPG + Words(last)));
    AtSplit(b, 186, LE16(24), MJPG + Words(last));
    AtSplit(b, 188, MJPG, Words(last));
    ShortIs(b, 184, 1);
    ShortIs(b, 186, 24);
    TextIs(b, 188, MJPG, "MJPG");
  }

  lemma PictureNumbers(b: bytes, first: seq<u32>, last: seq<u32>)
    requires |first| == 3 && forall k: nat {:trigger first[k]} :: k < 3 ==> Is32(b, 172 + 4 * k, first[k])
    requires |last| == 5 && forall k: nat {:trigger last[k]} :: k < 5 ==> Is32(b, 192 + 4 * k, last[k])
    ensures Is32(b, 172, first[0]) && Is32(b, 176, first[1]) && Is32(b, 180, first[2])
    ensures Is32(b, 192, last[0]) && Is32(b, 196, last[1]) && Is32(b, 200, last[2]) && Is32(b, 204, last[3]) && Is32(b, 208, last[4])
  {
  }

  lemma HeadIsHeaders(b: bytes, m: Film)
    requires At(b, 24, Head(m)) && m.imageSize == m.width * m.height * 3 % 0x1_0000_0000
    ensures MainHeader(b, m.width, m.height, m.usec, m.bytesPerSec, m.count, m.longest)
    ensures Ascii(b, 88, "LIST") && Is32(b, 92, 116) && Ascii(b, 96, "strl")
    ensures StreamHeader(b, m.width, m.height, m.rate, m.count, m.longest)
    ensures PictureFormat(b, m.width, m.height)
  {
    AtSplit(b, 24, Chunk(AVIH, Avih(m)), Strl(m));
    MainHeaderIs(b, m);
    ListIs(b, 88, STRL, Chunk(STRH, Strh(m)) + Chunk(STRF, Strf(m)), "strl");
    AtSplit(b, 100, Chunk(STRH, Strh(m)), Chunk(STRF, Strf(m)));
    StreamHeaderIs(b, m);
    PictureFormatIs(b, m);
  }

  lemma FrameIs(b: bytes, head: bytes, body: bytes, index: bytes)
    requires |head| == 188 && SameBytes(b, Riff(Contents(head, body, index)))
    ensures OuterLists(b) && At(b, 24, head)
  {
    var hdrl, movi, idx1 := ListOf(HDRL, head), ListOf(MOVI, body), Chunk(IDX1, index);
    IdIs(b, 0, RIFF, Low32(|Contents(head, body, index)|), Contents(head, body, index), "RIFF");
    CutBody(b, hdrl, movi, idx1);
    AtSplit(b, 8, AVI_, hdrl + (movi + idx1));
    TextIs(b, 8, AVI_, "AVI ");
    ListIs(b, 12, HDRL, head, "hdrl");
    ListIs(b, 212, MOVI, body, "movi");
  }

  ghost predicate OuterLists(b: bytes) {
    && Ascii(b, 0, "RIFF") && Ascii(b, 8, "AVI ") && Ascii(b, 12, "LIST") && Is32(b, 16, 192) && Ascii(b, 20, "hdrl")
    && Ascii(b, 212, "LIST") && Ascii(b, 220, "movi")
  }

  // ------------------------------------------------------------------ the numbers

  lemma {:induction false} LongestIs(frames: seq<bytes>)
    ensures IsLongest(Longest(frames), frames)
  {
    if frames != [] { LongestIs(frames[..|frames| - 1]); }
  }

  lemma RoundIs(x: real)
    requires x >= 0.0
    ensures Nearest32(Round32(x), x)
  {
  }

  lemma CeilIs(x: real)
    requires x >= 0.0
    ensures Above32(Ceil32(x), x)
  {
  }

  lemma RateIs(fps: Fps)
    ensures if Asked(fps) * 1000.0 < 0.5 then RateOf(fps) == 1 else Nearest32(RateOf(fps), Asked(fps) * 1000.0)
  {
    RoundIs(Asked(fps) * 1000.0);
  }

  lemma LowIs(n: nat)
    ensures Low32(n) == n % 0x1_0000_0000
  {
  }

  lemma AskedIs(fps: Fps)
    ensures Asked(fps) == Effective(fps) > 0.0
  {
  }

  /** The sizes and counts of a film. */
  lemma NumbersAre(m: Film, width: u16, height: u16, fps: Fps, frames: seq<bytes>, longest: nat, size: nat)
    requires m == FilmOf(width, height, fps, frames) && longest == Longest(frames) && size == width * height * 3
    ensures m.width == width && m.height == height && m.imageSize == size % 0x1_0000_0000
    ensures m.count == |frames| % 0x1_0000_0000 && m.longest == longest % 0x1_0000_0000
  {
    LowIs(|frames|);
    LowIs(longest);
    LowIs(size);
  }

  lemma BytesPerSecondIs(m: Film, width: u16, height: u16, fps: Fps, frames: seq<bytes>, ceiling: nat)
    requires m == FilmOf(width, height, fps, frames) && ceiling == Ceil32(Effective(fps))
    ensures m.bytesPerSec == Max(1, Min(m.longest * ceiling, 0xFFFF_FFFF))
  {
    PerSecondIs(m.longest * ceiling);
  }

  lemma PerSecondIs(n: nat)
    ensures Max(Min(n, U32 - 1), 1) == Max(1, Min(n, 0xFFFF_FFFF))
  {
  }

  lemma PeriodIs(m: Film, width: u16, height: u16, fps: Fps, frames: seq<bytes>)
    requires m == FilmOf(width, height, fps, frames)
    ensures Nearest32(m.usec, 1000000.0 / Asked(fps)) && m.rate == RateOf(fps)
  {
    AskedIs(fps);
    RoundIs(1000000.0 / Effective(fps));
  }

  /** The headers of a written file of any length. */
  lemma HeadersAre(width: u16, height: u16, fps: Fps, frames: seq<bytes>, b: bytes)
    requires SameBytes(b, FileOf(FilmOf(width, height, fps, frames), frames))
    ensures Headed(b, width, height, fps, frames)
  {
    var m, longest, r, size := FilmOf(width, height, fps, frames), Longest(frames), Effective(fps), width * height * 3;
    NumbersAre(m, width, height, fps, frames, longest, size);
    BytesPerSecondIs(m, width, height, fps, frames, Ceil32(r));
    LongestIs(frames);
    AskedIs(fps);
    RateIs(fps);
    CeilIs(r);
    PeriodIs(m, width, height, fps, frames);
    FileIsHeaded(b, m, frames, size);
    HeadedFrom(b, m, m.width, m.height, fps, frames, Ceil32(r), longest);
  }

  lemma FileIsHeaded(b: bytes, m: Film, frames: seq<bytes>, size: nat)
    requires SameBytes(b, FileOf(m, frames)) && m.imageSize == size % 0x1_0000_0000 && size == m.width * m.height * 3
    ensures InLists(b) && MainHeader(b, m.width, m.height, m.usec, m.bytesPerSec, m.count, m.longest)
    ensures StreamHeader(b, m.width, m.height, m.rate, m.count, m.longest)
    ensures PictureFormat(b, m.width, m.height)
  {
    FrameIs(b, Head(m), MoviBody(frames), Index(frames));
    HeadIsHeaders(b, m);
  }

  lemma HeadedFrom(b: bytes, m: Film, width: nat, height: nat, fps: Fps, frames: seq<bytes>, ceiling: int, longest: nat)
    requires InLists(b) && m.width == width && m.height == height
    requires m.count == |frames| % 0x1_0000_0000 && m.longest == longest % 0x1_0000_0000
    requires MainHeader(b, width, height, m.usec, m.bytesPerSec, m.count, m.longest)
    requires StreamHeader(b, width, height, m.rate, m.count, m.longest) && PictureFormat(b, width, height)
    requires IsLongest(longest, frames) && Nearest32(m.usec, 1000000.0 / Asked(fps)) && Above32(ceiling, Asked(fps))
    requires if Asked(fps) * 1000.0 < 0.5 then m.rate == 1 else Nearest32(m.rate, Asked(fps) * 1000.0)
    requires m.bytesPerSec == Max(1, Min(m.longest * ceiling, 0xFFFF_FFFF))
    ensures Headed(b, width, height, fps, frames)
  {
  }

  // ------------------------------------------------------------------ the frames and their index

  /** Where the data of frame `k` starts: each frame has 8 bytes of header, and a pad byte when its length is odd. */
  function DataAt(frames: seq<bytes>, k: nat): (p: nat)
    requires k <= |frames|
    ensures p >= 232
  {
    if k == 0 then 232 else DataAt(frames, k - 1) + |frames[k - 1]| + |frames[k - 1]| % 2 + 8
  }

  /** Frame `k` stands whole at its place, followed by a zero when its length is odd; its index entry is a key frame
      with the offset of its header from the `movi` identifier and its length. */
  ghost predicate FrameStored(b: bytes, frames: seq<bytes>, k: nat)
    requires k < |frames|
  {
    var at, entry, size := DataAt(frames, k), DataAt(frames, |frames|) + 16 * k, |frames[k]|;
    && Ascii(b, at - 8, "00dc") && Is32(b, at - 4, size)
    && at + size <= |b| && b[at..at + size] == frames[k]
    && (size % 2 == 1 ==> at + size < |b| && b[at + size] == 0)
    && Ascii(b, entry, "00dc") && Is32(b, entry + 4, 0x10) && Is32(b, entry + 8, at - 8 - 220) && Is32(b, entry + 12, size)
  }

  /** The frames, and behind them the index, which ends the file. */
  ghost predicate Stored(b: bytes, frames: seq<bytes>) {
    var index := DataAt(frames, |frames|);
    && Is32(b, 4, |b| - 8)
    && Is32(b, 216, index - 228)
    && Ascii(b, index - 8, "idx1") && Is32(b, index - 4, 16 * |frames|) && |b| == index + 16 * |frames|
    && forall k: nat :: k < |frames| ==> FrameStored(b, frames, k)
  }

  lemma {:induction false} DataAtIs(frames: seq<bytes>, k: nat)
    requires k <= |frames|
    ensures DataAt(frames, k) == FrameStart(frames, k)
  {
    if k > 0 { DataAtIs(frames, k - 1); }
  }

  lemma IsAscii(b: bytes, at: nat, id: bytes, text: string)
    requires at + 4 <= |b| && |id| == 4 == |text| && Is(b, at, id) && forall j :: 0 <= j < 4 ==> id[j] == text[j] as int
    ensures Ascii(b, at, text)
  {
    assert id[0] == text[0] as int && id[1] == text[1] as int && id[2] == text[2] as int && id[3] == text[3] as int;
  }

  lemma NumberAt(b: bytes, at: nat)
    requires at + 4 <= |b|
    ensures Is32(b, at, Number(b, at))
  {
  }

  lemma PlacedIsStored(b: bytes, at: nat, frame: bytes)
    requires Placed(b, at, frame)
    ensures Ascii(b, at - 8, "00dc") && Is32(b, at - 4, |frame|)
    ensures at + |frame| <= |b| && b[at..at + |frame|] == frame
    ensures |frame| % 2 == 1 ==> at + |frame| < |b| && b[at + |frame|] == 0
  {
    IsAscii(b, at - 8, FRAME_ID, "00dc");
    NumberAt(b, at - 4);
    if |frame| % 2 == 1 {
      assert b[at + |frame| + 0] == Padding(|frame|)[0];
    }
  }

  lemma ListedIsStored(b: bytes, i: nat, p: Place)
    requires Listed(b, i, p)
    ensures Ascii(b, i, "00dc") && Is32(b, i + 4, 0x10) && Is32(b, i + 8, p.offset) && Is32(b, i + 12, p.size)
  {
    IsAscii(b, i, FRAME_ID, "00dc");
    NumberAt(b, i + 4);
    NumberAt(b, i + 8);
    NumberAt(b, i + 12);
  }

  lemma FrameIsStored(b: bytes, frames: seq<bytes>, k: nat)
    requires Holds(b, frames, k)
    ensures FrameStored(b, frames, k)
  {
    DataAtIs(frames, k);
    DataAtIs(frames, |frames|);
    PlacedIsStored(b, FrameStart(frames, k), frames[k]);
    ListedIsStored(b, IndexAt(frames) + 16 * k, Place(FrameStart(frames, k) - MOVI_AT - 8, |frames[k]|));
  }

  lemma IndexIsStored(b: bytes, m: Film, n: nat, z: nat)
    requires Readable(b, m, n, z)
    ensures Is32(b, 216, n + 4) && Ascii(b, 224 + n, "idx1") && Is32(b, 228 + n, z)
  {
    NumberAt(b, 216);
    IsAscii(b, 224 + n, IDX1, "idx1");
    NumberAt(b, 228 + n);
  }

  /** The frames of a written file below 4 GiB, and their index. */
  lemma FramesAreStored(m: Film, frames: seq<bytes>, b: bytes)
    requires SameBytes(b, FileOf(m, frames)) && |b| < U32
    ensures Stored(b, frames)
  {
    WrittenFile(m, frames, b);
    HeldIsStored(b, m, frames, IndexAt(frames));
  }

  lemma HeldIsStored(b: bytes, m: Film, frames: seq<bytes>, index: nat)
    requires index == IndexAt(frames) && HoldsAll(b, frames) && U32At(b, 4) == Some(|b| - 8)
    requires index >= 232 && Readable(b, m, index - 232, 16 * |frames|)
    ensures Stored(b, frames)
  {
    DataAtIs(frames, |frames|);
    NumberIs(b, 4, |b| - 8);
    IndexIsStored(b, m, index - 232, 16 * |frames|);
    forall k: nat | k < |frames| ensures FrameStored(b, frames, k) {
      assert Holds(b, frames, k);
      FrameIsStored(b, frames, k);
    }
  }
}
