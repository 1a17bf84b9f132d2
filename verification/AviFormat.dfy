/** Bytes, chunks and lists of a RIFF file, and the AVI file that is written. */
module AviFormat {
  import opened Basics

  type byte = x: nat | x < 256

  type bytes = seq<byte>

  type u16 = x: nat | x < 0x1_0000

  const RIFF: bytes := [0x52, 0x49, 0x46, 0x46]
  const AVI_: bytes := [0x41, 0x56, 0x49, 0x20]
  const LIST: bytes := [0x4C, 0x49, 0x53, 0x54]
  const HDRL: bytes := [0x68, 0x64, 0x72, 0x6C]
  const STRL: bytes := [0x73, 0x74, 0x72, 0x6C]
  const MOVI: bytes := [0x6D, 0x6F, 0x76, 0x69]
  const AVIH: bytes := [0x61, 0x76, 0x69, 0x68]
  const STRH: bytes := [0x73, 0x74, 0x72, 0x68]
  const STRF: bytes := [0x73, 0x74, 0x72, 0x66]
  const IDX1: bytes := [0x69, 0x64, 0x78, 0x31]
  const VIDS: bytes := [0x76, 0x69, 0x64, 0x73]
  const MJPG: bytes := [0x4D, 0x4A, 0x50, 0x47]
  const FRAME_ID: bytes := [0x30, 0x30, 0x64, 0x63]

  /** The first two bytes of a JPEG. */
  const SOI: bytes := [0xFF, 0xD8]

  /** `as u32`. */
  function Low32(n: nat): u32 {
    if n < U32 then n else n % U32
  }

  function LE16(v: u16): (b: bytes)
    ensures |b| == 2
  {
    [v % 256, v / 256]
  }

  function FromLE(a: byte, b: byte, c: byte, d: byte): u32 {
    var (x, y, z) := (b as int, c as int, d as int);
    a + 0x100 * x + 0x1_0000 * y + 0x100_0000 * z
  }

  lemma FromLEInjective(v: bytes, w: bytes)
    requires |v| == |w| == 4 && FromLE(v[0], v[1], v[2], v[3]) == FromLE(w[0], w[1], w[2], w[3])
    ensures v == w
  {
    var (v1, v2, v3) := (v[1] as int, v[2] as int, v[3] as int);
    var (w1, w2, w3) := (w[1] as int, w[2] as int, w[3] as int);
    LowByte(v[0], v1 + 0x100 * (v2 + 0x100 * v3), w[0], w1 + 0x100 * (w2 + 0x100 * w3));
    LowByte(v[1], v2 + 0x100 * v3, w[1], w2 + 0x100 * w3);
    LowByte(v[2], v3, w[2], w3);
  }

  lemma LowByte(a: byte, x: int, b: byte, y: int)
    requires a + 0x100 * x == b + 0x100 * y
    ensures a == b && x == y
  {
    var d := x - y;
    assert 0x100 * d == b as int - a as int;
  }

  /** `to_le_bytes`, as it is computed. */
  function LittleEndian(v: u32): (b: bytes)
    ensures |b| == 4 && FromLE(b[0], b[1], b[2], b[3]) == v
  {
    assert v / 0x100 / 0x100 == v / 0x1_0000 && v / 0x1_0000 / 0x100 == v / 0x100_0000;
    [v % 256, v / 0x100 % 256, v / 0x1_0000 % 256, v / 0x100_0000]
  }

  /** The four bytes whose little-endian value is `v`. */
  ghost function LE32(v: u32): (b: bytes)
    ensures |b| == 4
  {
    assert |LittleEndian(v)| == 4;
    var b: bytes :| |b| == 4 && FromLE(b[0], b[1], b[2], b[3]) == v;
    b
  }

  lemma LittleEndianIs(v: u32)
    ensures LittleEndian(v) == LE32(v)
  {
    FromLEInjective(LittleEndian(v), LE32(v));
  }

  /** The little-endian number at `i`, if four bytes are there. */
  function U32At(b: bytes, i: nat): Option<u32> {
    if i + 4 <= |b| then Some(FromLE(b[i], b[i + 1], b[i + 2], b[i + 3])) else None
  }

  function Padding(n: nat): (p: bytes)
    ensures |p| == n % 2
  {
    if n % 2 == 1 then [0] else []
  }

  ghost function Chunk(id: bytes, data: bytes): (c: bytes)
    ensures |c| == |id| + 4 + |data| + |data| % 2
  {
    id + (LE32(Low32(|data|)) + (data + Padding(|data|)))
  }

  ghost function ListOf(kind: bytes, data: bytes): (c: bytes)
    ensures |c| == 8 + |kind| + |data|
  {
    LIST + (LE32(Low32(|data| + 4)) + (kind + data))
  }

  // ------------------------------------------------------------------ the file

  /** A rate in frames per second, or a number that is not finite. */
  datatype Fps = Fps(r: real) | NotFinite

  function Effective(fps: Fps): (r: real)
    ensures r > 0.0
  {
    if fps.Fps? && fps.r > 0.0 then fps.r else 1.0
  }

  /** Rounding half away from zero, then the saturating `as u32`. */
  function Round32(x: real): u32
    requires x >= 0.0
  {
    Min((x + 0.5).Floor, U32 - 1)
  }

  function Ceil32(x: real): u32
    requires x >= 0.0
  {
    Min(if x == x.Floor as real then x.Floor else x.Floor + 1, U32 - 1)
  }

  const SCALE: u32 := 1000

  function RateOf(fps: Fps): (r: u32)
    ensures r >= 1
  {
    Max(Round32(Effective(fps) * 1000.0), 1)
  }

  function UsecPerFrame(fps: Fps): u32 {
    Round32(1000000.0 / Effective(fps))
  }

  function Longest(frames: seq<bytes>): nat {
    if frames == [] then 0 else Max(Longest(frames[..|frames| - 1]), |frames[|frames| - 1]|)
  }

  ghost function Words(vs: seq<u32>): (b: bytes)
    ensures |b| == 4 * |vs|
  {
    if vs == [] then [] else Words(vs[..|vs| - 1]) + LE32(vs[|vs| - 1])
  }

  /** The numbers the headers are made of. */
  datatype Film = Film(width: u16, height: u16, usec: u32, bytesPerSec: u32, rate: u32,
                       count: u32, longest: u32, imageSize: u32)

  function FilmOf(width: u16, height: u16, fps: Fps, frames: seq<bytes>): Film {
    var longest := Low32(Longest(frames));
    Film(width, height, UsecPerFrame(fps), Max(Min(longest * Ceil32(Effective(fps)), U32 - 1), 1), RateOf(fps),
         Low32(|frames|), longest, Low32(width * height * 3))
  }

  function AvihWords(m: Film): seq<u32> {
    [m.usec, m.bytesPerSec, 0, 0x10, m.count, 0, 1, m.longest, m.width, m.height, 0, 0, 0, 0]
  }

  function StrhWords(m: Film): seq<u32> {
    [0, 0, 0, SCALE, m.rate, 0, m.count, m.longest, U32 - 1, 0]
  }

  ghost function Avih(m: Film): (b: bytes)
    ensures |b| == 56
  {
    Words(AvihWords(m))
  }

  ghost function Strh(m: Film): (b: bytes)
    ensures |b| == 56
  {
    VIDS + (MJPG + (Words(StrhWords(m)) + (LE16(0) + (LE16(0) + (LE16(m.width) + LE16(m.height))))))
  }

  ghost function Strf(m: Film): (b: bytes)
    ensures |b| == 40
  {
    Words([40, m.width, m.height]) + (LE16(1) + (LE16(24) + (MJPG + Words([m.imageSize, 0, 0, 0, 0]))))
  }

  ghost function Strl(m: Film): (b: bytes)
    ensures |b| == 124
  {
    ListOf(STRL, Chunk(STRH, Strh(m)) + Chunk(STRF, Strf(m)))
  }

  ghost function Head(m: Film): (b: bytes)
    ensures |b| == 188
  {
    Chunk(AVIH, Avih(m)) + Strl(m)
  }

  ghost function MoviBody(frames: seq<bytes>): (b: bytes)
    ensures |b| % 2 == 0
  {
    if frames == [] then [] else MoviBody(frames[..|frames| - 1]) + Chunk(FRAME_ID, frames[|frames| - 1])
  }

  ghost function Entry(offset: u32, size: u32): (b: bytes)
    ensures |b| == 16
  {
    FRAME_ID + (LE32(0x10) + (LE32(offset) + LE32(size)))
  }

  datatype Place = Place(offset: u32, size: u32)

  /** Where each frame is in the `movi` list; offsets are counted from its identifier. */
  ghost function Places(frames: seq<bytes>): (ps: seq<Place>)
    ensures |ps| == |frames|
  {
    seq(|frames|, k requires 0 <= k < |frames| => Place(Low32(4 + |MoviBody(frames[..k])|), Low32(|frames[k]|)))
  }

  ghost function Entries(ps: seq<Place>): (b: bytes)
    ensures |b| == 16 * |ps|
  {
    if ps == [] then [] else Entries(ps[..|ps| - 1]) + Entry(ps[|ps| - 1].offset, ps[|ps| - 1].size)
  }

  ghost function Index(frames: seq<bytes>): (b: bytes)
    ensures |b| == 16 * |frames|
  {
    Entries(Places(frames))
  }

  /** Everything after the size field. */
  ghost function Contents(head: bytes, body: bytes, index: bytes): (b: bytes)
    ensures |b| >= 4
  {
    AVI_ + (ListOf(HDRL, head) + (ListOf(MOVI, body) + Chunk(IDX1, index)))
  }

  ghost function Riff(contents: bytes): bytes {
    RIFF + (LE32(Low32(|contents|)) + contents)
  }

  /** The file of a list of frames. */
  ghost function FileOf(m: Film, frames: seq<bytes>): bytes {
    Riff(Contents(Head(m), MoviBody(frames), Index(frames)))
  }

  // ------------------------------------------------------------------ places in the file

  /** Offset of the `movi` identifier. */
  const MOVI_AT := 220

  /** Where the data of frame `k` starts: after those before it, each with its header and its padding. */
  function FrameStart(frames: seq<bytes>, k: nat): (p: nat)
    requires k <= |frames|
    ensures p >= MOVI_AT + 12
    decreases k
  {
    if k == 0 then MOVI_AT + 12 else FrameStart(frames, k - 1) + |frames[k - 1]| + |frames[k - 1]| % 2 + 8
  }

  /** Where the index entries start. */
  function IndexAt(frames: seq<bytes>): nat {
    FrameStart(frames, |frames|)
  }

  lemma {:induction false} BodyLength(frames: seq<bytes>, k: nat)
    requires k <= |frames|
    ensures |MoviBody(frames[..k])| + MOVI_AT + 12 == FrameStart(frames, k)
  {
    if k > 0 {
      BodyLength(frames, k - 1);
      assert frames[..k][..k - 1] == frames[..k - 1];
    }
  }
}
