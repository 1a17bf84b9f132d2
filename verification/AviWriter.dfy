/** The writer as it runs: byte buffers grown chunk by chunk. */
module AviWriting {
  import opened Basics
  import opened AviFormat
  import opened AviRoundTrip
  import opened AviHeaders

  method PutWords(buf: bytes, vs: seq<u32>) returns (out: bytes)
    ensures out == buf + Words(vs)
  {
    out := buf;
    var i := 0;
    while i < |vs|
      invariant 0 <= i <= |vs|
      invariant out == buf + Words(vs[..i])
    {
      LittleEndianIs(vs[i]);
      assert vs[..i + 1][..i] == vs[..i];
      out := out + LittleEndian(vs[i]);
      i := i + 1;
    }
    assert vs[..|vs|] == vs;
  }

  method MakeChunk(id: bytes, data: bytes) returns (out: bytes)
    ensures out == Chunk(id, data)
  {
    LittleEndianIs(Low32(|data|));
    out := id + LittleEndian(Low32(|data|));
    out := out + data;
    if |data| % 2 == 1 { out := out + [0]; }
    assert out == id + (LE32(Low32(|data|)) + (data + Padding(|data|)));
  }

  method MakeList(kind: bytes, data: bytes) returns (out: bytes)
    ensures out == ListOf(kind, data)
  {
    LittleEndianIs(Low32(|data| + 4));
    out := LIST + LittleEndian(Low32(|data| + 4));
    out := out + kind;
    out := out + data;
    assert out == LIST + (LE32(Low32(|data| + 4)) + (kind + data));
  }

  method MakeStrh(m: Film) returns (out: bytes)
    ensures out == Strh(m)
  {
    out := PutWords(VIDS + MJPG, StrhWords(m));
    ghost var words := Words(StrhWords(m));
    out := out + LE16(0) + LE16(0) + LE16(m.width) + LE16(m.height);
    assert out == VIDS + (MJPG + (words + (LE16(0) + (LE16(0) + (LE16(m.width) + LE16(m.height))))));
  }

  method MakeStrf(m: Film) returns (out: bytes)
    ensures out == Strf(m)
  {
    var first := PutWords([], [40, m.width, m.height]);
    var last := PutWords([], [m.imageSize, 0, 0, 0, 0]);
    assert first == Words([40, m.width, m.height]) && last == Words([m.imageSize, 0, 0, 0, 0]);
    out := first + LE16(1) + LE16(24) + MJPG + last;
    assert out == first + (LE16(1) + (LE16(24) + (MJPG + last)));
  }

  method MakeHead(m: Film) returns (out: bytes)
    ensures out == Head(m)
  {
    var avih := PutWords([], AvihWords(m));
    assert avih == Avih(m);
    var avihChunk := MakeChunk(AVIH, avih);
    var strh := MakeStrh(m);
    var strhChunk := MakeChunk(STRH, strh);
    var strf := MakeStrf(m);
    var strfChunk := MakeChunk(STRF, strf);
    var strl := MakeList(STRL, strhChunk + strfChunk);
    out := avihChunk + strl;
  }

  method PutEntry(idx: bytes, offset: u32, size: u32) returns (out: bytes)
    ensures out == idx + Entry(offset, size)
  {
    LittleEndianIs(0x10);
    LittleEndianIs(offset);
    LittleEndianIs(size);
    out := idx + FRAME_ID + LittleEndian(0x10) + LittleEndian(offset) + LittleEndian(size);
    assert out == idx + (FRAME_ID + (LE32(0x10) + (LE32(offset) + LE32(size))));
  }

  lemma PlacesPrefix(frames: seq<bytes>, i: nat, place: Place)
    requires i < |frames| && place == Place(Low32(4 + |MoviBody(frames[..i])|), Low32(|frames[i]|))
    ensures Places(frames[..i + 1]) == Places(frames[..i]) + [place]
  {
    var ps, qs := Places(frames[..i + 1]), Places(frames[..i]);
    forall k | 0 <= k < i ensures ps[k] == qs[k] {
      assert frames[..i + 1][..k] == frames[..i][..k];
    }
    LastPlace(frames, i, place);
  }

  lemma LastPlace(frames: seq<bytes>, i: nat, place: Place)
    requires i < |frames| && place == Place(Low32(4 + |MoviBody(frames[..i])|), Low32(|frames[i]|))
    ensures Places(frames[..i + 1])[i] == place
  {
    assert frames[..i + 1][..i] == frames[..i];
  }

  method PutFrame(frames: seq<bytes>, i: nat, body: bytes, idx: bytes) returns (body': bytes, idx': bytes)
    requires i < |frames| && body == MoviBody(frames[..i]) && idx == Entries(Places(frames[..i]))
    ensures body' == MoviBody(frames[..i + 1]) && idx' == Entries(Places(frames[..i + 1]))
  {
    var offset, size := Low32(4 + |body|), Low32(|frames[i]|);
    PlacesPrefix(frames, i, Place(offset, size));
    idx' := PutEntry(idx, offset, size);
    EntriesNext(Places(frames[..i]), Place(offset, size));
    var c := MakeChunk(FRAME_ID, frames[i]);
    body' := body + c;
    BodyNext(frames, i);
  }

  lemma EntriesNext(ps: seq<Place>, p: Place)
    ensures Entries(ps + [p]) == Entries(ps) + Entry(p.offset, p.size)
  {
    assert (ps + [p])[..|ps|] == ps;
  }

  lemma BodyNext(frames: seq<bytes>, i: nat)
    requires i < |frames|
    ensures MoviBody(frames[..i + 1]) == MoviBody(frames[..i]) + Chunk(FRAME_ID, frames[i])
  {
    assert frames[..i + 1][..i] == frames[..i];
  }

  /** The frames and, beside them, their index. */
  method MakeMovi(frames: seq<bytes>) returns (body: bytes, idx: bytes)
    ensures body == MoviBody(frames) && idx == Index(frames)
  {
    body, idx := [], [];
    var i := 0;
    while i < |frames|
      invariant 0 <= i <= |frames|
      invariant body == MoviBody(frames[..i]) && idx == Entries(Places(frames[..i]))
    {
      body, idx := PutFrame(frames, i, body, idx);
      i := i + 1;
    }
    assert frames[..|frames|] == frames;
  }

  method WriteAvi(width: u16, height: u16, fps: Fps, frames: seq<bytes>) returns (out: bytes)
    ensures SameBytes(out, FileOf(FilmOf(width, height, fps, frames), frames))
    ensures Headed(out, width, height, fps, frames)
    ensures |out| < 0x1_0000_0000 ==> Stored(out, frames)
  {
    out := WriteFilm(FilmOf(width, height, fps, frames), frames);
    HeadersAre(width, height, fps, frames, out);
    if |out| < 0x1_0000_0000 { FramesAreStored(FilmOf(width, height, fps, frames), frames, out); }
  }

  method WriteFilm(m: Film, frames: seq<bytes>) returns (out: bytes)
    ensures SameBytes(out, FileOf(m, frames))
  {
    var head := MakeHead(m);
    var hdrl := MakeList(HDRL, head);
    var body, idx := MakeMovi(frames);
    var movi := MakeList(MOVI, body);
    var idx1 := MakeChunk(IDX1, idx);
    out := Assemble(hdrl, movi, idx1);
    assert out == Riff(Contents(head, body, idx));
  }

  method Assemble(hdrl: bytes, movi: bytes, idx1: bytes) returns (out: bytes)
    ensures out == Riff(AVI_ + (hdrl + (movi + idx1)))
  {
    var body := AVI_;
    body := body + hdrl;
    body := body + movi;
    body := body + idx1;
    assert body == AVI_ + (hdrl + (movi + idx1));
    LittleEndianIs(Low32(|body|));
    out := RIFF + LittleEndian(Low32(|body|));
    out := out + body;
    assert out == RIFF + (LE32(Low32(|body|)) + body);
  }

  function TotalLength(frames: seq<bytes>): nat {
    if frames == [] then 0 else TotalLength(frames[..|frames| - 1]) + |frames[|frames| - 1]|
  }

  class AviWriter {
    const width: u16
    const height: u16
    var frames: seq<bytes>
    var payload: nat

    ghost predicate Valid()
      reads this
    {
      payload == TotalLength(frames)
    }

    constructor (width: u16, height: u16)
      ensures Valid() && frames == [] && this.width == width && this.height == height
    {
      this.width, this.height := width, height;
      frames, payload := [], 0;
    }

    method Push(jpeg: bytes)
      requires Valid()
      modifies this`frames, this`payload
      ensures Valid() && frames == old(frames) + [jpeg]
    {
      payload := payload + |jpeg|;
      frames := frames + [jpeg];
    }

    /** The file of everything pushed. */
    method Finish(fps: Fps) returns (out: bytes)
      requires Valid()
      ensures SameBytes(out, FileOf(FilmOf(width, height, fps, frames), frames))
      ensures Headed(out, width, height, fps, frames)
      ensures |out| < 0x1_0000_0000 ==> Stored(out, frames)
    {
      out := WriteAvi(width, height, fps, frames);
    }
  }

  /** The rate and the size a reader gets back, see `JpegsComeBack`, are those asked of the writer: the rate in
      thousandths, rounded, and never zero. */
  lemma FilmNumbers(width: u16, height: u16, fps: Fps, frames: seq<bytes>)
    ensures var m := FilmOf(width, height, fps, frames);
            m.width == width && m.height == height && m.rate == RateOf(fps) > 0
    ensures fps.Fps? && 0.001 <= fps.r <= 1000000.0 ==>
              -0.0005 <= RateOf(fps) as real / 1000.0 - fps.r <= 0.0005
  {
  }
}
