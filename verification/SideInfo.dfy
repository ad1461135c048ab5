/** The side information of a Layer III frame: where the main data begins and
    how long its parts are. */
module SideInfo {
  import opened Machine
  import opened BitReader

  /** What the frame header says of the layout. */
  datatype Header = Header(mono: bool, mpeg1: bool)

  function Channels(h: Header): nat { if h.mono then 1 else 2 }

  function Granules(h: Header): nat { if h.mpeg1 then 2 * Channels(h) else Channels(h) }

  /** The bits before the first granule. */
  function LeadBits(h: Header): nat { if h.mpeg1 then 16 + Granules(h) else 8 + Granules(h) }

  function GranuleBits(h: Header): nat { if h.mpeg1 then 59 else 63 }

  function GranuleAt(h: Header, start: nat, i: nat): nat {
    if i == 0 then start + LeadBits(h) else GranuleAt(h, start, i - 1) + GranuleBits(h)
  }

  function MainDataBegin(buf: seq<Byte>, h: Header, start: nat): nat {
    if h.mpeg1 then Field(buf, start, 9) else Shr(Field(buf, start, 8 + Granules(h)), Granules(h))
  }

  /** The length, in bits, of the scale factors and Huffman data of a granule that begins at `at`. */
  function Part23(buf: seq<Byte>, at: nat): nat { Field(buf, at, 12) }

  function SwitchAt(h: Header, at: nat): nat { if h.mpeg1 then at + 33 else at + 38 }

  /** The granule is not refused: few enough big values, and no switch to block type zero. */
  predicate GranuleOk(buf: seq<Byte>, h: Header, at: nat) {
    Field(buf, at + 12, 9) <= 288 && SwitchOk(buf, SwitchAt(h, at))
  }

  predicate SwitchOk(buf: seq<Byte>, at: nat) {
    Field(buf, at, 1) != 0 ==> Field(buf, at + 1, 2) != 0
  }

  predicate GranulesOk(buf: seq<Byte>, h: Header, start: nat, n: nat) {
    forall i | 0 <= i < n :: GranuleOk(buf, h, GranuleAt(h, start, i))
  }

  function Parts(buf: seq<Byte>, h: Header, start: nat, n: nat): seq<nat> {
    if n == 0 then [] else Parts(buf, h, start, n - 1) + [Part23(buf, GranuleAt(h, start, n - 1))]
  }

  function Sum(s: seq<nat>): nat {
    if s == [] then 0 else Sum(s[..|s| - 1]) + s[|s| - 1]
  }

  lemma SumMore(s: seq<nat>, x: nat)
    ensures Sum(s + [x]) == Sum(s) + x
  {
    assert (s + [x])[..|s|] == s;
  }

  /** The side information ends at a byte boundary: 32, 17 or 9 bytes on. */
  lemma SideInfoBytes(h: Header, start: nat)
    ensures GranuleAt(h, start, Granules(h)) ==
      start + 8 * if h.mpeg1 then (if h.mono then 17 else 32) else if h.mono then 9 else 17
  {
    assert GranuleAt(h, start, 1) == start + LeadBits(h) + GranuleBits(h);
    assert GranuleAt(h, start, 2) == start + LeadBits(h) + 2 * GranuleBits(h);
    assert GranuleAt(h, start, 3) == start + LeadBits(h) + 3 * GranuleBits(h);
  }

  /** The window switching flag and the 22 bits after it. */
  method ReadSwitch(bs: BitStream) returns (ok: bool)
    requires bs.Valid()
    modifies bs`pos
    ensures ok <==> SwitchOk(bs.buf, old(bs.pos))
    ensures ok ==> bs.pos == old(bs.pos) + 23
  {
    var switching := bs.GetBits(1);
    if switching != 0 {
      var blockType := bs.GetBits(2);
      if blockType == 0 {
        return false;
      }
      var mixed := bs.GetBits(1);
      var tables := bs.GetBits(10);
      var gain0 := bs.GetBits(3);
      var gain1 := bs.GetBits(3);
      var gain2 := bs.GetBits(3);
    } else {
      var tables := bs.GetBits(15);
      var region0 := bs.GetBits(4);
      var region1 := bs.GetBits(3);
    }
    return true;
  }

  /** The fields before the switch. */
  method ReadPart(bs: BitStream, h: Header) returns (part: nat, ok: bool)
    requires bs.Valid()
    modifies bs`pos
    ensures part == Part23(bs.buf, old(bs.pos))
    ensures ok <==> Field(bs.buf, old(bs.pos) + 12, 9) <= 288
    ensures ok ==> bs.pos == SwitchAt(h, old(bs.pos))
  {
    part := bs.GetBits(12);
    var bigValues := bs.GetBits(9);
    ok := bigValues <= 288;
    if ok {
      var globalGain := bs.GetBits(8);
      var scalefacCompress := bs.GetBits(if h.mpeg1 then 4 else 9);
    }
  }

  method ReadGranule(bs: BitStream, h: Header) returns (part: nat, ok: bool)
    requires bs.Valid()
    modifies bs`pos
    ensures part == Part23(bs.buf, old(bs.pos))
    ensures ok <==> GranuleOk(bs.buf, h, old(bs.pos))
    ensures ok ==> bs.pos == old(bs.pos) + GranuleBits(h)
  {
    part, ok := ReadPart(bs, h);
    if ok {
      ok := ReadSwitch(bs);
      if ok {
        var flags := ReadFlags(bs, h);
      }
    }
  }

  /** The pre-emphasis flag of MPEG-1, the scale and the table selection. */
  method ReadFlags(bs: BitStream, h: Header) returns (flags: nat)
    requires bs.Valid()
    modifies bs`pos
    ensures bs.pos == old(bs.pos) + if h.mpeg1 then 3 else 2
  {
    if h.mpeg1 {
      var preflag := bs.GetBits(1);
    }
    var scalefacScale := bs.GetBits(1);
    flags := bs.GetBits(1);
  }

  method ReadLead(bs: BitStream, h: Header) returns (mainDataBegin: nat)
    requires bs.Valid()
    modifies bs`pos
    ensures mainDataBegin == MainDataBegin(bs.buf, h, old(bs.pos))
    ensures bs.pos == old(bs.pos) + LeadBits(h)
  {
    if h.mpeg1 {
      mainDataBegin := bs.GetBits(9);
      var scfsi := bs.GetBits(7 + Granules(h));
    } else {
      mainDataBegin := bs.GetBits(8 + Granules(h));
      mainDataBegin := Shr(mainDataBegin, Granules(h));
    }
  }

  lemma NextGranule(buf: seq<Byte>, h: Header, start: nat, i: nat)
    requires i < Granules(h)
    ensures GranulesOk(buf, h, start, i + 1) <==> GranulesOk(buf, h, start, i) && GranuleOk(buf, h, GranuleAt(h, start, i))
    ensures !GranuleOk(buf, h, GranuleAt(h, start, i)) ==> !GranulesOk(buf, h, start, Granules(h))
  {
  }

  /** The granules refused or not, and the lengths of their parts. */
  method ReadGranules(bs: BitStream, h: Header, ghost start: nat) returns (parts: seq<nat>, sum: nat, ok: bool)
    requires bs.Valid() && bs.pos == start + LeadBits(h)
    modifies bs`pos
    ensures ok <==> GranulesOk(bs.buf, h, start, Granules(h))
    ensures ok ==> bs.pos == GranuleAt(h, start, Granules(h)) && parts == Parts(bs.buf, h, start, Granules(h))
    ensures ok ==> sum == Sum(parts)
  {
    parts, sum := [], 0;
    var i := 0;
    while i < Granules(h)
      invariant i <= Granules(h)
      invariant bs.pos == GranuleAt(h, start, i) && GranulesOk(bs.buf, h, start, i)
      invariant parts == Parts(bs.buf, h, start, i) && sum == Sum(parts)
    {
      NextGranule(bs.buf, h, start, i);
      var part;
      part, ok := ReadGranule(bs, h);
      if !ok {
        return;
      }
      SumMore(parts, part);
      parts, sum := parts + [part], sum + part;
      i := i + 1;
    }
    ok := true;
  }

  /** The granules are accepted, and their parts are no longer than the main data can be. */
  predicate Accepted(buf: seq<Byte>, h: Header, start: nat) {
    GranulesOk(buf, h, start, Granules(h)) &&
    Sum(Parts(buf, h, start, Granules(h))) + GranuleAt(h, start, Granules(h)) <= 8 * |buf| + 8 * MainDataBegin(buf, h, start)
  }

  /** The start of the main data, or -1. */
  method ReadSideInfo(bs: BitStream, h: Header) returns (r: int, parts: seq<nat>)
    requires bs.Valid()
    modifies bs`pos
    ensures r == if Accepted(bs.buf, h, old(bs.pos)) then MainDataBegin(bs.buf, h, old(bs.pos)) else -1
    ensures r >= 0 ==> bs.pos == GranuleAt(h, old(bs.pos), Granules(h))
    ensures r >= 0 ==> parts == Parts(bs.buf, h, old(bs.pos), Granules(h))
  {
    ghost var start := bs.pos;
    var mainDataBegin := ReadLead(bs, h);
    var sum, ok;
    parts, sum, ok := ReadGranules(bs, h, start);
    if !ok || sum + bs.pos > bs.limit + 8 * mainDataBegin {
      return -1, parts;
    }
    return mainDataBegin, parts;
  }

  /** What the side information says: where the main data begin, where it ends
      itself, and the lengths of the parts. */
  datatype Side = Side(mainDataBegin: nat, end: nat, parts: seq<nat>)

  function SideOf(buf: seq<Byte>, h: Header, start: nat): Option<Side> {
    if !Accepted(buf, h, start) then None
    else Some(Side(MainDataBegin(buf, h, start), GranuleAt(h, start, Granules(h)), Parts(buf, h, start, Granules(h))))
  }

  /** `side` is `SideOf` on these bytes, as a function value. */
  ghost predicate StandsForSide(side: nat -> Option<Side>, buf: seq<Byte>, h: Header) {
    forall start: nat {:trigger SideOf(buf, h, start)} :: side(start) == SideOf(buf, h, start)
  }

  /** `ReadSideInfo`, its result in one piece. */
  method ReadSide(bs: BitStream, h: Header, ghost side: nat -> Option<Side>) returns (r: int, parts: seq<nat>)
    requires bs.Valid() && StandsForSide(side, bs.buf, h)
    modifies bs`pos
    ensures r == (if side(old(bs.pos)).Some? then side(old(bs.pos)).value.mainDataBegin else -1)
    ensures r >= 0 ==> side(old(bs.pos)).value == Side(r, bs.pos, parts)
  {
    ghost var start := bs.pos;
    r, parts := ReadSideInfo(bs, h);
    assert side(start) == SideOf(bs.buf, h, start);
  }

  /** Side information that starts at a byte ends at one, and its length check
      bounds the parts by the main data. */
  lemma SideFits(side: nat -> Option<Side>, buf: seq<Byte>, h: Header, start: nat)
    requires StandsForSide(side, buf, h) && start % 8 == 0 && side(start).Some?
    ensures var s := side(start).value;
            s.end % 8 == 0 && Sum(s.parts) + s.end <= 8 * |buf| + 8 * s.mainDataBegin
  {
    assert side(start) == SideOf(buf, h, start);
    SideInfoBytes(h, start);
    WholeBytes(start, if h.mpeg1 then (if h.mono then 17 else 32) else if h.mono then 9 else 17);
  }

  lemma WholeBytes(start: nat, m: nat)
    requires start % 8 == 0
    ensures (start + 8 * m) % 8 == 0
  {
  }

  /** The main data begins at most 511 bytes back in MPEG-1, and 255 otherwise. */
  lemma MainDataBeginBound(buf: seq<Byte>, h: Header, start: nat)
    ensures MainDataBegin(buf, h, start) <= if h.mpeg1 then 511 else 255
  {
    EightOnes();
    assert Ones(9) == 511 && Ones(10) == 1023;
    if h.mpeg1 {
      FieldBound(buf, start, 9);
    } else {
      FieldBound(buf, start, 8 + Granules(h));
      Halved(Field(buf, start, 8 + Granules(h)));
    }
  }

  lemma Halved(x: nat)
    ensures Shr(x, 1) == x / 2 && Shr(x, 2) == x / 4
  {
    assert Shr(x, 2) == Shr(x / 2, 1);
  }
}
