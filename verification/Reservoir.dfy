/** The bit reservoir of the MP3 decoder: main data carried from frame to frame. */
module Reservoir {
  import opened Machine
  import opened BitReader
  import opened SideInfo

  const MAX_RESERVOIR: nat := 511
  const MAX_PAYLOAD: nat := 2304

  // ----- one frame -----

  /** The last `k` elements, or all of them. */
  function Last(s: seq<Byte>, k: nat): seq<Byte> {
    if |s| <= k then s else s[|s| - k..]
  }

  ghost predicate Suffix(a: seq<Byte>, b: seq<Byte>) {
    |a| <= |b| && a == b[|b| - |a|..]
  }

  /** A frame: the bytes after its side information, how far back its main data
      begins, the bits of its parts, and whether the samples are wanted. */
  datatype Frame = Frame(payload: seq<Byte>, mainDataBegin: nat, bits: nat, play: bool)

  /** What the length check of the side information leaves through. */
  predicate FrameOk(f: Frame) {
    f.bits <= 8 * (|f.payload| + f.mainDataBegin)
  }

  /** The frame's main data, as far as the reservoir reaches back. */
  function Main(kept: seq<Byte>, f: Frame): seq<Byte> {
    Last(kept, f.mainDataBegin) + f.payload
  }

  predicate Succeeds(kept: seq<Byte>, f: Frame) {
    |kept| >= f.mainDataBegin
  }

  /** The bytes the decoder used: none when it fails or the samples are not wanted. */
  function Used(kept: seq<Byte>, f: Frame): nat {
    if Succeeds(kept, f) && f.play then (f.bits + 7) / 8 else 0
  }

  /** The reservoir after the frame. */
  function Saved(kept: seq<Byte>, f: Frame): (s: seq<Byte>)
    requires FrameOk(f)
    ensures |s| <= MAX_RESERVOIR
  {
    UsedFits(kept, f);
    Last(Main(kept, f)[Used(kept, f)..], MAX_RESERVOIR)
  }

  lemma UsedFits(kept: seq<Byte>, f: Frame)
    requires FrameOk(f)
    ensures Used(kept, f) <= |Main(kept, f)|
  {
  }

  // ----- runs of frames -----

  function Payloads(frames: seq<Frame>): seq<Byte> {
    if frames == [] then [] else Payloads(frames[..|frames| - 1]) + frames[|frames| - 1].payload
  }

  predicate AllOk(frames: seq<Frame>) {
    forall i | 0 <= i < |frames| :: FrameOk(frames[i])
  }

  /** The reservoir after all frames since the decoder lost track. */
  function Kept(frames: seq<Frame>): (s: seq<Byte>)
    requires AllOk(frames)
    ensures |s| <= MAX_RESERVOIR
  {
    if frames == [] then [] else Saved(Kept(frames[..|frames| - 1]), frames[|frames| - 1])
  }

  lemma SuffixOfSum(a: seq<Byte>, b: seq<Byte>, c: seq<Byte>)
    requires Suffix(a, b)
    ensures Suffix(a + c, b + c)
  {
  }

  lemma SuffixTrans(a: seq<Byte>, b: seq<Byte>, c: seq<Byte>)
    requires Suffix(a, b) && Suffix(b, c)
    ensures Suffix(a, c)
  {
  }

  lemma LastIsSuffix(s: seq<Byte>, k: nat)
    ensures Suffix(Last(s, k), s)
  {
  }

  lemma SavedIsSuffix(kept: seq<Byte>, f: Frame)
    requires FrameOk(f)
    ensures Suffix(Saved(kept, f), Main(kept, f)) && Suffix(Main(kept, f), kept + f.payload)
  {
    UsedFits(kept, f);
    LastIsSuffix(kept, f.mainDataBegin);
    SuffixOfSum(Last(kept, f.mainDataBegin), kept, f.payload);
    var rest := Main(kept, f)[Used(kept, f)..];
    LastIsSuffix(rest, MAX_RESERVOIR);
    assert Suffix(rest, Main(kept, f));
    SuffixTrans(Saved(kept, f), rest, Main(kept, f));
  }

  /** The reservoir holds the last bytes of the payloads so far, never more than 511. */
  lemma {:induction false} KeptIsSuffix(frames: seq<Frame>)
    requires AllOk(frames)
    ensures Suffix(Kept(frames), Payloads(frames)) && |Kept(frames)| <= 511
  {
    if frames != [] {
      var before, f := frames[..|frames| - 1], frames[|frames| - 1];
      KeptIsSuffix(before);
      var kept := Kept(before);
      SavedIsSuffix(kept, f);
      SuffixOfSum(kept, Payloads(before), f.payload);
      SuffixTrans(Saved(kept, f), Main(kept, f), kept + f.payload);
      SuffixTrans(Saved(kept, f), kept + f.payload, Payloads(frames));
    }
  }

  /** The main data of the next frame are the last bytes of the payloads, its own
      payload and as many before it as the reservoir has and the frame asks for. */
  lemma MainIsSuffix(frames: seq<Frame>, f: Frame)
    requires AllOk(frames)
    ensures Suffix(Main(Kept(frames), f), Payloads(frames) + f.payload)
    ensures |Main(Kept(frames), f)| ==
      |f.payload| + if |Kept(frames)| < f.mainDataBegin then |Kept(frames)| else f.mainDataBegin
  {
    KeptIsSuffix(frames);
    var kept := Kept(frames);
    LastIsSuffix(kept, f.mainDataBegin);
    SuffixTrans(Last(kept, f.mainDataBegin), kept, Payloads(frames));
    SuffixOfSum(Last(kept, f.mainDataBegin), Payloads(frames), f.payload);
  }

  /** A frame that is skipped leaves at least what it leaves when played. */
  lemma SkippingKeepsMore(kept: seq<Byte>, f: Frame)
    requires FrameOk(f)
    ensures Suffix(Saved(kept, f), Saved(kept, f.(play := false)))
  {
    UsedFits(kept, f);
  }

  // ----- what an encoder lays out comes back -----

  /** With `held` the bytes sent ahead, the frame carries main data `chunk`: it points
      back over the bytes held, the chunk comes next, its parts fit in it, and the rest
      can be held for the next frame. */
  predicate Carries(f: Frame, chunk: seq<Byte>, held: seq<Byte>) {
    f.mainDataBegin == |held| && (f.bits + 7) / 8 <= |chunk| <= |held + f.payload| &&
    chunk == (held + f.payload)[..|chunk|] && |held + f.payload| - |chunk| <= 511
  }

  /** The chunks laid out over the frames, one after the other. */
  predicate Encodes(frames: seq<Frame>, chunks: seq<seq<Byte>>, held: seq<Byte>)
    decreases |frames|
  {
    |frames| == |chunks| &&
    (frames != [] ==>
       Carries(frames[0], chunks[0], held) &&
       Encodes(frames[1..], chunks[1..], (held + frames[0].payload)[|chunks[0]|..]))
  }

  /** Every frame decodes, and its main data begin with its chunk. */
  predicate Decodes(kept: seq<Byte>, frames: seq<Frame>, chunks: seq<seq<Byte>>)
    decreases |frames|
  {
    |frames| == |chunks| &&
    (frames != [] ==>
       FrameOk(frames[0]) && Succeeds(kept, frames[0]) && chunks[0] <= Main(kept, frames[0]) &&
       Decodes(Saved(kept, frames[0]), frames[1..], chunks[1..]))
  }

  lemma HeldIsKept(kept: seq<Byte>, f: Frame, chunk: seq<Byte>, held: seq<Byte>)
    requires Suffix(held, kept) && Carries(f, chunk, held)
    ensures FrameOk(f) && Succeeds(kept, f) && Main(kept, f) == held + f.payload
    ensures Suffix((held + f.payload)[|chunk|..], Saved(kept, f))
  {
    UsedFits(kept, f);
    assert Last(kept, f.mainDataBegin) == held;
    var main, rest := Main(kept, f), Main(kept, f)[Used(kept, f)..];
    assert main[|chunk|..] == rest[|chunk| - Used(kept, f)..];
    assert Suffix(main[|chunk|..], rest);
    SuffixOfLast(main[|chunk|..], rest, MAX_RESERVOIR);
  }

  lemma SuffixOfLast(a: seq<Byte>, s: seq<Byte>, k: nat)
    requires Suffix(a, s) && |a| <= k
    ensures Suffix(a, Last(s, k))
  {
  }

  /** Whatever layout an encoder chooses, with frames played or skipped, every frame
      finds its main data. */
  lemma {:induction false} EveryFrameDecodes(kept: seq<Byte>, frames: seq<Frame>, chunks: seq<seq<Byte>>, held: seq<Byte>)
    requires Encodes(frames, chunks, held) && Suffix(held, kept)
    ensures Decodes(kept, frames, chunks)
    decreases |frames|
  {
    if frames != [] {
      HeldIsKept(kept, frames[0], chunks[0], held);
      assert chunks[0] <= held + frames[0].payload;
      EveryFrameDecodes(Saved(kept, frames[0]), frames[1..], chunks[1..], (held + frames[0].payload)[|chunks[0]|..]);
    }
  }

  // ----- the decoder -----

  class Decoder {
    const reservBuf: array<Byte>
    var reserv: nat
    /** The working copy of one frame's main data, its length, and the bit position in it. */
    const mainData: array<Byte>
    var mainBytes: nat
    var pos: nat

    ghost predicate Valid()
      reads this
    {
      reservBuf.Length == MAX_RESERVOIR && mainData.Length == MAX_RESERVOIR + MAX_PAYLOAD && reservBuf != mainData &&
      reserv <= MAX_RESERVOIR && mainBytes <= mainData.Length
    }

    ghost function Held(): seq<Byte>
      reads this, reservBuf
      requires Valid()
    {
      reservBuf[..reserv]
    }

    ghost function Data(): seq<Byte>
      reads this, mainData
      requires Valid()
    {
      mainData[..mainBytes]
    }

    constructor ()
      ensures Valid() && Held() == [] && fresh(reservBuf) && fresh(mainData)
    {
      reservBuf := new Byte[MAX_RESERVOIR](_ => 0);
      mainData := new Byte[MAX_RESERVOIR + MAX_PAYLOAD](_ => 0);
      reserv, mainBytes, pos := 0, 0, 0;
    }

    /** Copies the asked-for end of the reservoir and the payload into the working copy. */
    method RestoreReservoir(bs: BitStream, mainDataBegin: nat, ghost f: Frame) returns (success: bool)
      requires Valid() && bs.Valid() && bs.pos <= bs.limit && |bs.buf| <= MAX_PAYLOAD && bs.pos % 8 == 0
      requires f.payload == bs.buf[bs.pos / 8..] && f.mainDataBegin == mainDataBegin
      modifies this`mainBytes, this`pos, mainData
      ensures Valid() && Held() == old(Held()) && pos == 0
      ensures Data() == Main(Held(), f) && (success <==> Succeeds(Held(), f))
    {
      var frameBytes := (bs.limit - bs.pos) / 8;
      var have := if reserv < mainDataBegin then reserv else mainDataBegin;
      var from := if reserv > mainDataBegin then reserv - mainDataBegin else 0;
      Copy(reservBuf, from, mainData, 0, have);
      RestoredBytes(Held(), mainDataBegin, reservBuf[from..from + have]);
      ghost var kept := mainData[..have];
      assert kept == Last(Held(), mainDataBegin);
      BytesLeft(|bs.buf|, bs.pos);
      CopySeq(bs.buf, bs.pos / 8, mainData, have, frameBytes);
      assert mainData[..have + frameBytes] == kept + bs.buf[bs.pos / 8..];
      mainBytes, pos := have + frameBytes, 0;
      success := reserv >= mainDataBegin;
    }

    /** Keeps what is left after the bit position, at most 511 bytes of it. */
    method SaveReservoir()
      requires Valid() && pos <= 8 * mainBytes
      modifies this`reserv, reservBuf
      ensures Valid() && Data() == old(Data())
      ensures Held() == Last(Data()[(pos + 7) / 8..], MAX_RESERVOIR)
    {
      var p := (pos + 7) / 8;
      var remains := mainBytes - p;
      if remains > MAX_RESERVOIR {
        p := p + remains - MAX_RESERVOIR;
        remains := MAX_RESERVOIR;
      }
      if remains > 0 {
        Copy(mainData, p, reservBuf, 0, remains);
      }
      reserv := remains;
      assert Held() == mainData[p..p + remains];
    }

    /** The bit position moves over the parts, one after the other. */
    method DecodeParts(parts: seq<nat>)
      modifies this`pos
      ensures pos == old(pos) + Sum(parts)
    {
      var i := 0;
      while i < |parts|
        invariant i <= |parts| && pos == old(pos) + Sum(parts[..i])
      {
        SumMore(parts[..i], parts[i]);
        assert parts[..i + 1] == parts[..i] + [parts[i]];
        pos := pos + parts[i];
        i := i + 1;
      }
      assert parts[..i] == parts;
    }

    /** The main data of a frame whose side information was accepted. */
    method DecodeMainData(bs: BitStream, mainDataBegin: nat, parts: seq<nat>, play: bool, ghost f: Frame)
        returns (success: bool)
      requires Valid() && bs.Valid() && bs.pos <= bs.limit && |bs.buf| <= MAX_PAYLOAD && bs.pos % 8 == 0
      requires f == Frame(bs.buf[bs.pos / 8..], mainDataBegin, Sum(parts), play) && FrameOk(f)
      modifies this`reserv, this`mainBytes, this`pos, reservBuf, mainData
      ensures Valid() && Held() == Saved(old(Held()), f) && (success <==> Succeeds(old(Held()), f))
    {
      success := RestoreReservoir(bs, mainDataBegin, f);
      UsedFits(Held(), f);
      if success && play {
        DecodeParts(parts);
      }
      SaveReservoir();
    }

    /** A Layer III frame, after its header: a refused side information leaves the
        reservoir alone, and otherwise the reservoir changes as specified. */
    method DecodeFrame(bs: BitStream, h: Header, play: bool) returns (success: bool, ghost f: Option<Frame>)
      requires Valid() && bs.Valid() && |bs.buf| <= MAX_PAYLOAD && bs.pos % 8 == 0
      modifies this`reserv, this`mainBytes, this`pos, reservBuf, mainData, bs`pos
      ensures Valid() && f == FrameOf(bs.buf, SideOf(bs.buf, h, old(bs.pos)), play)
      ensures f.None? ==> !success && Held() == old(Held())
      ensures f.Some? ==>
                FrameOk(f.value) && Held() == Saved(old(Held()), f.value) && (success <==> Succeeds(old(Held()), f.value))
    {
      ghost var buf := bs.buf;
      ghost var side := (start: nat) => SideOf(buf, h, start);
      success, f := DecodeWith(bs, h, play, side);
    }

    /** `DecodeFrame`, with the side information's meaning as a function value. */
    method DecodeWith(bs: BitStream, h: Header, play: bool, ghost side: nat -> Option<Side>)
        returns (success: bool, ghost f: Option<Frame>)
      requires Valid() && bs.Valid() && |bs.buf| <= MAX_PAYLOAD && bs.pos % 8 == 0 && StandsForSide(side, bs.buf, h)
      modifies this`reserv, this`mainBytes, this`pos, reservBuf, mainData, bs`pos
      ensures Valid() && f == FrameOf(bs.buf, side(old(bs.pos)), play)
      ensures f.None? ==> !success && Held() == old(Held())
      ensures f.Some? ==>
                FrameOk(f.value) && Held() == Saved(old(Held()), f.value) && (success <==> Succeeds(old(Held()), f.value))
    {
      f := FrameOf(bs.buf, side(bs.pos), play);
      if f.Some? {
        FrameFits(bs.buf, h, bs.pos, play, side);
      }
      var mainDataBegin, parts := ReadSide(bs, h, side);
      if mainDataBegin < 0 || bs.pos > bs.limit {
        return false, f;
      }
      success := DecodeMainData(bs, mainDataBegin, parts, play, f.value);
    }
  }

  /** The frame with this side information, unless that is refused or runs past the bytes. */
  function FrameOf(buf: seq<Byte>, side: Option<Side>, play: bool): Option<Frame> {
    if side.None? || side.value.end > 8 * |buf| then None
    else Some(Frame(buf[side.value.end / 8..], side.value.mainDataBegin, Sum(side.value.parts), play))
  }

  /** The length check of the side information bounds the parts by the main data, and the payload starts at a byte. */
  lemma FrameFits(buf: seq<Byte>, h: Header, start: nat, play: bool, side: nat -> Option<Side>)
    requires start % 8 == 0 && StandsForSide(side, buf, h) && FrameOf(buf, side(start), play).Some?
    ensures side(start).value.end % 8 == 0 && FrameOk(FrameOf(buf, side(start), play).value)
  {
    SideFits(side, buf, h, start);
    var s := side(start).value;
    LengthInBytes(Sum(s.parts), s.end, |buf|, s.mainDataBegin);
  }

  lemma RestoredBytes(held: seq<Byte>, k: nat, copied: seq<Byte>)
    requires copied == held[if |held| > k then |held| - k else 0..]
    ensures copied == Last(held, k)
  {
  }

  lemma BytesLeft(length: nat, pos: nat)
    requires pos % 8 == 0 && pos <= 8 * length
    ensures pos / 8 + (8 * length - pos) / 8 == length
  {
  }

  lemma LengthInBytes(bits: nat, at: nat, length: nat, back: nat)
    requires at % 8 == 0 && at <= 8 * length && bits + at <= 8 * length + 8 * back
    ensures bits <= 8 * (length - at / 8 + back)
  {
  }

  /** Copies `n` bytes from one array to another. */
  method Copy(src: array<Byte>, from: nat, dst: array<Byte>, at: nat, n: nat)
    requires src != dst && from + n <= src.Length && at + n <= dst.Length
    modifies dst
    ensures dst[..at + n] == old(dst[..at]) + src[from..from + n]
  {
    CopySeq(src[..], from, dst, at, n);
  }

  method CopySeq(src: seq<Byte>, from: nat, dst: array<Byte>, at: nat, n: nat)
    requires from + n <= |src| && at + n <= dst.Length
    modifies dst
    ensures dst[..at + n] == old(dst[..at]) + src[from..from + n]
  {
    var i := 0;
    while i < n
      invariant i <= n
      invariant forall k | 0 <= k < at :: dst[k] == old(dst[k])
      invariant forall k | from <= k < from + i :: dst[k - from + at] == src[k]
    {
      dst[at + i] := src[from + i];
      i := i + 1;
    }
    forall k | 0 <= k < at + n
      ensures dst[k] == (old(dst[..at]) + src[from..from + n])[k]
    {
      if k >= at {
        assert dst[(k - at + from) - from + at] == src[k - at + from];
      }
    }
  }
}
