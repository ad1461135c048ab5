/** Side information as an encoder lays it out, ISO 11172-3 section 2.4.1.7 and
    ISO 13818-3 section 2.4.1.7, and what the decoder reads from it. */
module SideWriter {
  import opened Machine
  import opened BitReader
  import opened SideInfo

  // ----- writing bits -----

  /** `v` in `n` bits, most significant first. */
  function Spell(v: nat, n: nat): (bits: seq<Bit>)
    ensures |bits| == n
  {
    if n == 0 then [] else Spell(v / 2, n - 1) + [v % 2]
  }

  /** `part` stands in `bits` at `pos`. */
  predicate StandsAt(bits: seq<Bit>, pos: nat, part: seq<Bit>) {
    pos + |part| <= |bits| && bits[pos..pos + |part|] == part
  }

  lemma StandsParts(bits: seq<Bit>, pos: nat, a: seq<Bit>, b: seq<Bit>)
    requires StandsAt(bits, pos, a + b)
    ensures StandsAt(bits, pos, a) && StandsAt(bits, pos + |a|, b)
  {
    var s := bits[pos..pos + |a + b|];
    assert s[..|a|] == a && s[|a|..] == b;
    assert bits[pos..pos + |a|] == s[..|a|];
    assert bits[pos + |a|..pos + |a| + |b|] == s[|a|..];
  }

  lemma {:induction false} SpelledReads(bits: seq<Bit>, pos: nat, v: nat, n: nat)
    requires StandsAt(bits, pos, Spell(v, n)) && v <= Ones(n)
    ensures Bits(bits, pos, n) == v
    decreases n
  {
    if n > 0 {
      StandsParts(bits, pos, Spell(v / 2, n - 1), [v % 2]);
      SpelledReads(bits, pos, v / 2, n - 1);
      assert bits[pos + n - 1] == bits[pos + (n - 1)..pos + (n - 1) + 1][0];
    }
  }

  // ----- the layout -----

  datatype Switch =
    | Switched(blockType: nat, mixed: nat, tables: nat, gain0: nat, gain1: nat, gain2: nat)
    | Long(tables: nat, region0: nat, region1: nat)

  datatype Granule = Granule(part23: nat, bigValues: nat, globalGain: nat, scalefacCompress: nat, switching: Switch,
                             preflag: nat, scalefacScale: nat, count1Table: nat)

  datatype Info = Info(mainDataBegin: nat, privateBits: nat, scfsi: nat, granules: seq<Granule>)

  function PointerWidth(h: Header): nat { if h.mpeg1 then 9 else 8 }

  function PrivateWidth(h: Header): nat {
    if h.mpeg1 then (if h.mono then 5 else 3) else if h.mono then 1 else 2
  }

  /** Four bits of scale factor selection for each channel, in MPEG-1 only. */
  function ScfsiWidth(h: Header): nat {
    if !h.mpeg1 then 0 else if h.mono then 4 else 8
  }

  function CompressWidth(h: Header): nat { if h.mpeg1 then 4 else 9 }

  /** Two granules of each channel in MPEG-1, one otherwise. */
  function GranuleCount(h: Header): nat {
    if h.mpeg1 then (if h.mono then 2 else 4) else if h.mono then 1 else 2
  }

  predicate SwitchFits(s: Switch) {
    match s
    case Switched(blockType, _, _, _, _, _) => blockType <= Ones(2)
    case Long(_, _, _) => true
  }

  predicate GranuleFits(g: Granule) {
    g.part23 <= Ones(12) && g.bigValues <= Ones(9) && SwitchFits(g.switching)
  }

  /** The fields the decoder keeps fit in their bits; of the others the low bits are written. */
  predicate InfoFits(h: Header, s: Info) {
    s.mainDataBegin <= Ones(PointerWidth(h)) && |s.granules| == GranuleCount(h) &&
    forall i | 0 <= i < |s.granules| :: GranuleFits(s.granules[i])
  }

  function LeadOf(h: Header, s: Info): (bits: seq<Bit>)
    ensures |bits| == LeadBits(h)
  {
    Spell(s.mainDataBegin, PointerWidth(h)) + (Spell(s.privateBits, PrivateWidth(h)) + Spell(s.scfsi, ScfsiWidth(h)))
  }

  function SwitchOf(s: Switch): (bits: seq<Bit>)
    ensures |bits| == 23
  {
    match s
    case Switched(blockType, mixed, tables, gain0, gain1, gain2) =>
      Spell(1, 1) + (Spell(blockType, 2) + (Spell(mixed, 1) + Spell(tables, 10) + Spell(gain0, 3) + Spell(gain1, 3) + Spell(gain2, 3)))
    case Long(tables, region0, region1) =>
      Spell(0, 1) + (Spell(tables, 15) + Spell(region0, 4) + Spell(region1, 3))
  }

  function FrontOf(h: Header, g: Granule): (bits: seq<Bit>)
    ensures |bits| == 29 + CompressWidth(h)
  {
    Spell(g.part23, 12) + (Spell(g.bigValues, 9) + (Spell(g.globalGain, 8) + Spell(g.scalefacCompress, CompressWidth(h))))
  }

  function FlagsOf(h: Header, g: Granule): (bits: seq<Bit>)
    ensures |bits| == if h.mpeg1 then 3 else 2
  {
    (if h.mpeg1 then Spell(g.preflag, 1) else []) + Spell(g.scalefacScale, 1) + Spell(g.count1Table, 1)
  }

  function GranuleOf(h: Header, g: Granule): (bits: seq<Bit>)
    ensures |bits| == GranuleBits(h)
  {
    FrontOf(h, g) + (SwitchOf(g.switching) + FlagsOf(h, g))
  }

  /** Pieces one behind the other. */
  function Concat(pieces: seq<seq<Bit>>): seq<Bit> {
    if pieces == [] then [] else Concat(pieces[..|pieces| - 1]) + pieces[|pieces| - 1]
  }

  function GranulesOf(h: Header, gs: seq<Granule>): (pieces: seq<seq<Bit>>)
    ensures |pieces| == |gs| && forall i | 0 <= i < |gs| :: |pieces[i]| == GranuleBits(h)
  {
    seq<seq<Bit>>(|gs|, i requires 0 <= i < |gs| => GranuleOf(h, gs[i]))
  }

  /** The side information of a frame. */
  function Written(h: Header, s: Info): seq<Bit> {
    LeadOf(h, s) + Concat(GranulesOf(h, s.granules))
  }

  // ----- reading it -----

  lemma FieldReads(buf: seq<Byte>, pos: nat, v: nat, n: nat)
    requires StandsAt(Unpack(buf), pos, Spell(v, n)) && v <= Ones(n)
    ensures Field(buf, pos, n) == v
  {
    SpelledReads(Unpack(buf), pos, v, n);
  }

  lemma PointerReads(buf: seq<Byte>, h: Header, s: Info, start: nat)
    requires StandsAt(Unpack(buf), start, LeadOf(h, s)) && s.mainDataBegin <= Ones(PointerWidth(h))
    ensures MainDataBegin(buf, h, start) == s.mainDataBegin
  {
    var bits := Unpack(buf);
    StandsParts(bits, start, Spell(s.mainDataBegin, PointerWidth(h)), Spell(s.privateBits, PrivateWidth(h)) + Spell(s.scfsi, ScfsiWidth(h)));
    SpelledReads(bits, start, s.mainDataBegin, PointerWidth(h));
    if !h.mpeg1 {
      BitsDrop(bits, start, 8, Granules(h));
    }
  }

  lemma FrontReads(buf: seq<Byte>, h: Header, g: Granule, at: nat)
    requires StandsAt(Unpack(buf), at, FrontOf(h, g)) && GranuleFits(g)
    ensures Part23(buf, at) == g.part23 && Field(buf, at + 12, 9) == g.bigValues
  {
    var bits := Unpack(buf);
    var rest := Spell(g.globalGain, 8) + Spell(g.scalefacCompress, CompressWidth(h));
    StandsParts(bits, at, Spell(g.part23, 12), Spell(g.bigValues, 9) + rest);
    StandsParts(bits, at + 12, Spell(g.bigValues, 9), rest);
    FieldReads(buf, at, g.part23, 12);
    FieldReads(buf, at + 12, g.bigValues, 9);
  }

  /** A switch to block type zero. */
  predicate BadSwitch(s: Switch) {
    s.Switched? && s.blockType == 0
  }

  lemma SwitchReads(buf: seq<Byte>, s: Switch, at: nat)
    requires StandsAt(Unpack(buf), at, SwitchOf(s)) && SwitchFits(s)
    ensures SwitchOk(buf, at) <==> !BadSwitch(s)
  {
    var bits := Unpack(buf);
    match s
    case Switched(blockType, mixed, tables, gain0, gain1, gain2) =>
      var rest := Spell(mixed, 1) + Spell(tables, 10) + Spell(gain0, 3) + Spell(gain1, 3) + Spell(gain2, 3);
      StandsParts(bits, at, Spell(1, 1), Spell(blockType, 2) + rest);
      StandsParts(bits, at + 1, Spell(blockType, 2), rest);
      FieldReads(buf, at, 1, 1);
      FieldReads(buf, at + 1, blockType, 2);
    case Long(tables, region0, region1) =>
      StandsParts(bits, at, Spell(0, 1), Spell(tables, 15) + Spell(region0, 4) + Spell(region1, 3));
      FieldReads(buf, at, 0, 1);
  }

  lemma GranuleReads(buf: seq<Byte>, h: Header, g: Granule, at: nat)
    requires StandsAt(Unpack(buf), at, GranuleOf(h, g)) && GranuleFits(g)
    ensures Part23(buf, at) == g.part23
    ensures GranuleOk(buf, h, at) <==> g.bigValues <= 288 && !BadSwitch(g.switching)
  {
    var bits := Unpack(buf);
    StandsParts(bits, at, FrontOf(h, g), SwitchOf(g.switching) + FlagsOf(h, g));
    StandsParts(bits, SwitchAt(h, at), SwitchOf(g.switching), FlagsOf(h, g));
    FrontReads(buf, h, g, at);
    SwitchReads(buf, g.switching, SwitchAt(h, at));
  }

  predicate Decodable(gs: seq<Granule>) {
    forall i | 0 <= i < |gs| :: gs[i].bigValues <= 288 && !BadSwitch(gs[i].switching)
  }

  function PartsOf(gs: seq<Granule>): seq<nat> {
    seq(|gs|, i requires 0 <= i < |gs| => gs[i].part23)
  }

  /** Every piece stands at its place. */
  lemma {:induction false} PieceStands(h: Header, bits: seq<Bit>, start: nat, pieces: seq<seq<Bit>>, i: nat)
    requires StandsAt(bits, start + LeadBits(h), Concat(pieces)) && i < |pieces|
    requires forall k | 0 <= k < |pieces| :: |pieces[k]| == GranuleBits(h)
    ensures StandsAt(bits, GranuleAt(h, start, i), pieces[i])
    decreases |pieces|
  {
    var n := |pieces| - 1;
    StandsParts(bits, start + LeadBits(h), Concat(pieces[..n]), pieces[n]);
    if i < n {
      PieceStands(h, bits, start, pieces[..n], i);
    } else {
      PiecesEnd(h, pieces[..n], start);
    }
  }

  lemma {:induction false} PiecesEnd(h: Header, pieces: seq<seq<Bit>>, start: nat)
    requires forall k | 0 <= k < |pieces| :: |pieces[k]| == GranuleBits(h)
    ensures start + LeadBits(h) + |Concat(pieces)| == GranuleAt(h, start, |pieces|)
    decreases |pieces|
  {
    if pieces != [] {
      PiecesEnd(h, pieces[..|pieces| - 1], start);
    }
  }

  /** The decoder makes of granule `i` what was written. */
  predicate ReadAs(buf: seq<Byte>, h: Header, g: Granule, at: nat) {
    Part23(buf, at) == g.part23 && (GranuleOk(buf, h, at) <==> g.bigValues <= 288 && !BadSwitch(g.switching))
  }

  lemma GranulesRead(buf: seq<Byte>, h: Header, gs: seq<Granule>, start: nat)
    requires StandsAt(Unpack(buf), start + LeadBits(h), Concat(GranulesOf(h, gs))) && forall i | 0 <= i < |gs| :: GranuleFits(gs[i])
    ensures forall i | 0 <= i < |gs| :: ReadAs(buf, h, gs[i], GranuleAt(h, start, i))
  {
    forall i | 0 <= i < |gs|
      ensures ReadAs(buf, h, gs[i], GranuleAt(h, start, i))
    {
      PieceStands(h, Unpack(buf), start, GranulesOf(h, gs), i);
      GranuleReads(buf, h, gs[i], GranuleAt(h, start, i));
    }
  }

  lemma AllRead(buf: seq<Byte>, h: Header, gs: seq<Granule>, start: nat)
    requires forall i | 0 <= i < |gs| :: ReadAs(buf, h, gs[i], GranuleAt(h, start, i))
    ensures GranulesOk(buf, h, start, |gs|) <==> Decodable(gs)
    ensures Parts(buf, h, start, |gs|) == PartsOf(gs)
  {
    if GranulesOk(buf, h, start, |gs|) {
      forall i | 0 <= i < |gs|
        ensures gs[i].bigValues <= 288 && !BadSwitch(gs[i].switching)
      {
        assert ReadAs(buf, h, gs[i], GranuleAt(h, start, i)) && GranuleOk(buf, h, GranuleAt(h, start, i));
      }
    }
    if Decodable(gs) {
      forall i | 0 <= i < |gs|
        ensures GranuleOk(buf, h, GranuleAt(h, start, i))
      {
        assert ReadAs(buf, h, gs[i], GranuleAt(h, start, i)) && gs[i].bigValues <= 288;
      }
    }
    PartsFound(buf, h, gs, start);
  }

  lemma NextPart(a: seq<nat>, x: nat, b: seq<nat>, n: nat)
    requires 0 < n <= |b| && a == b[..n - 1] && x == b[n - 1]
    ensures a + [x] == b[..n]
  {
  }

  /** `part` gives the part lengths by granule, as a function value. */
  ghost predicate StandsForPart(part: nat -> nat, buf: seq<Byte>) {
    forall at: nat {:trigger Part23(buf, at)} :: part(at) == Part23(buf, at)
  }

  lemma PartStep(buf: seq<Byte>, h: Header, start: nat, n: nat, part: nat -> nat)
    requires n > 0 && StandsForPart(part, buf)
    ensures Parts(buf, h, start, n) == Parts(buf, h, start, n - 1) + [part(GranuleAt(h, start, n - 1))]
  {
    assert part(GranuleAt(h, start, n - 1)) == Part23(buf, GranuleAt(h, start, n - 1));
  }

  lemma {:induction false} PartsRead(buf: seq<Byte>, h: Header, parts: seq<nat>, start: nat, n: nat, part: nat -> nat)
    requires n <= |parts| && StandsForPart(part, buf)
    requires forall i | 0 <= i < |parts| :: part(GranuleAt(h, start, i)) == parts[i]
    ensures Parts(buf, h, start, n) == parts[..n]
  {
    if n > 0 {
      PartsRead(buf, h, parts, start, n - 1, part);
      PartStep(buf, h, start, n, part);
      NextPart(Parts(buf, h, start, n - 1), part(GranuleAt(h, start, n - 1)), parts, n);
    }
  }

  lemma PartsFound(buf: seq<Byte>, h: Header, gs: seq<Granule>, start: nat)
    requires forall i | 0 <= i < |gs| :: ReadAs(buf, h, gs[i], GranuleAt(h, start, i))
    ensures Parts(buf, h, start, |gs|) == PartsOf(gs)
  {
    var part := (at: nat) => Part23(buf, at);
    forall i | 0 <= i < |gs|
      ensures part(GranuleAt(h, start, i)) == PartsOf(gs)[i]
    {
      assert ReadAs(buf, h, gs[i], GranuleAt(h, start, i));
    }
    PartsRead(buf, h, PartsOf(gs), start, |gs|, part);
    assert PartsOf(gs)[..|gs|] == PartsOf(gs);
  }

  /** What the decoder finds at `start`, for these granules behind this pointer. */
  predicate ReadsBack(buf: seq<Byte>, h: Header, gs: seq<Granule>, start: nat, pointer: nat, end: nat) {
    SideOf(buf, h, start) ==
      if Decodable(gs) && Sum(PartsOf(gs)) + end <= 8 * |buf| + 8 * pointer then Some(Side(pointer, end, PartsOf(gs))) else None
  }

  lemma SideReads(buf: seq<Byte>, h: Header, gs: seq<Granule>, start: nat, pointer: nat, end: nat)
    requires AllReadAs(buf, h, gs, start, pointer) && GranuleAt(h, start, |gs|) == end
    ensures ReadsBack(buf, h, gs, start, pointer, end)
  {
    AllRead(buf, h, gs, start);
  }

  /** The bytes of the side information. */
  function SideBytes(h: Header): nat {
    if h.mpeg1 then (if h.mono then 17 else 32) else if h.mono then 9 else 17
  }

  lemma WrittenStands(bits: seq<Bit>, h: Header, s: Info, start: nat)
    requires StandsAt(bits, start, Written(h, s))
    ensures StandsAt(bits, start, LeadOf(h, s)) && StandsAt(bits, start + LeadBits(h), Concat(GranulesOf(h, s.granules)))
  {
    StandsParts(bits, start, LeadOf(h, s), Concat(GranulesOf(h, s.granules)));
  }

  /** The pointer and every granule are read as written. */
  predicate AllReadAs(buf: seq<Byte>, h: Header, gs: seq<Granule>, start: nat, pointer: nat) {
    MainDataBegin(buf, h, start) == pointer && |gs| == GranuleCount(h) &&
    forall i | 0 <= i < |gs| :: ReadAs(buf, h, gs[i], GranuleAt(h, start, i))
  }

  lemma WrittenFound(buf: seq<Byte>, h: Header, s: Info, start: nat)
    requires StandsAt(Unpack(buf), start, Written(h, s)) && InfoFits(h, s)
    ensures AllReadAs(buf, h, s.granules, start, s.mainDataBegin)
  {
    WrittenStands(Unpack(buf), h, s, start);
    PointerReads(buf, h, s, start);
    GranulesRead(buf, h, s.granules, start);
  }

  /** Wherever written side information stands in a buffer, the decoder finds just its pointer, its end and
      its part lengths, unless a granule has too many big values or a switch to block type zero, or
      the parts are longer than the pointer and the buffer allow. */
  lemma WrittenReads(buf: seq<Byte>, h: Header, s: Info, start: nat)
    requires StandsAt(Unpack(buf), start, Written(h, s)) && InfoFits(h, s)
    ensures ReadsBack(buf, h, s.granules, start, s.mainDataBegin, start + 8 * SideBytes(h))
  {
    WrittenFound(buf, h, s, start);
    SideInfoBytes(h, start);
    SideReads(buf, h, s.granules, start, s.mainDataBegin, start + 8 * SideBytes(h));
  }

  // ----- such buffers exist -----

  /** Eight bits a byte. */
  function Packed(bits: seq<Bit>): (buf: seq<Byte>)
    requires |bits| % 8 == 0
    ensures |buf| == |bits| / 8
  {
    seq<Byte>(|bits| / 8, i requires 0 <= i < |bits| / 8 => ByteAt(bits, i))
  }

  function ByteAt(bits: seq<Bit>, i: nat): Byte
    requires 8 * i + 8 <= |bits|
  {
    BitsBound(bits, 8 * i, 8);
    EightOnes();
    Bits(bits, 8 * i, 8)
  }

  /** Bit `j` of the number that `n` bits spell. */
  lemma SpelledBit(bits: seq<Bit>, at: nat, n: nat, j: nat)
    requires at + n <= |bits| && j < n
    ensures Shr(Bits(bits, at, n), n - 1 - j) % 2 == bits[at + j]
  {
    BitsDrop(bits, at, j + 1, n - 1 - j);
    assert Bits(bits, at, j + 1) == 2 * Bits(bits, at, j) + bits[at + j];
  }

  lemma PackedBit(bits: seq<Bit>, i: nat, j: nat)
    requires |bits| % 8 == 0 && 8 * i + 8 <= |bits| && j < 8
    ensures Unpack(Packed(bits))[8 * i + j] == bits[8 * i + j]
  {
    UnpackedBit(Packed(bits), i, j);
    SpelledBit(bits, 8 * i, 8, j);
  }

  lemma PackedUnpacks(bits: seq<Bit>)
    requires |bits| % 8 == 0
    ensures Unpack(Packed(bits)) == bits
  {
    forall k | 0 <= k < |bits|
      ensures Unpack(Packed(bits))[k] == bits[k]
    {
      PackedBit(bits, k / 8, k % 8);
    }
  }

  /** Side information written in a buffer of its own is whole bytes and stands there. */
  lemma WrittenPacks(h: Header, s: Info)
    requires InfoFits(h, s)
    ensures |Written(h, s)| == 8 * SideBytes(h)
    ensures StandsAt(Unpack(Packed(Written(h, s))), 0, Written(h, s))
  {
    WrittenLength(h, s);
    PackedUnpacks(Written(h, s));
  }

  lemma WrittenLength(h: Header, s: Info)
    requires InfoFits(h, s)
    ensures |Written(h, s)| == 8 * SideBytes(h)
  {
    PiecesEnd(h, GranulesOf(h, s.granules), 0);
    SideInfoBytes(h, 0);
  }
}
