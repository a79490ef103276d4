/**
 * The AVCDecoderConfigurationRecord of ISO/IEC 14496-15:2010, section 5.2.4.1.1,
 * as the mpeg4-avc codec holds it in memory and lays it out in bytes, together
 * with the ITU-T H.264 Annex B byte stream the converter produces from it.
 *
 * Everything here is a value: the abstract state of the codec's record, the byte
 * layout its encoder writes, the unit loop its decoder runs, and the stream its
 * converter writes. The imperative codec in module Mpeg4AvcCodec is proved
 * against these definitions, and module AvcProperties proves what they mean.
 */
module AvcRecord {

  type byte = b: int | 0 <= b < 256

  /** `v & (m - 1)` for `m` a power of two: the bits of `v` below `m`. */
  function LowBits(v: byte, m: nat): (r: byte)
    requires m == 4 || m == 8 || m == 32
    ensures r < m
  {
    v % m
  }

  /** `(0x100 - m) | v` for `m` a power of two: the bits of `v` below `m`, under
      reserved bits that are all 1. */
  function WithReserved(v: byte, m: nat): (r: byte)
    requires m == 4 || m == 8 || m == 32
    ensures LowBits(r, m) == LowBits(v, m) && r >= 0x100 - m
  {
    if m == 4 then 0xFC + v % 4
    else if m == 8 then 0xF8 + v % 8
    else 0xE0 + v % 32
  }

  datatype Option<T> = None | Some(value: T)

  /** SPS slots in the record; the encoder also rejects counts above the literal 32. */
  const SPS_SLOTS: nat := 32
  /** PPS slots in the record (the header declaring them is not part of this model). */
  const PPS_SLOTS: nat := 32
  /** Bytes of storage in one SPS or PPS slot; the decoder keeps only shorter units. */
  const UNIT_CAPACITY: nat := 4096

  /** The valid bytes of one SPS or PPS slot. */
  type Unit = u: seq<byte> | |u| <= UNIT_CAPACITY

  /** The profiles whose record carries the chroma and bit-depth extension. */
  predicate HighProfile(profile: byte)
  {
    profile in {100, 110, 122, 244, 44, 83, 86, 118, 128, 138, 139, 134}
  }

  /** The codec's in-memory record (`struct mpeg4_avc_t`) as a value. */
  datatype AvcConfig = AvcConfig(
    profile: byte,
    compatibility: byte,
    level: byte,
    nalu: byte,           // NAL unit length size; the decoder stores 1..4
    nbSps: byte,
    sps: seq<Unit>,       // SPS_SLOTS slots, the first nbSps of them in use
    nbPps: byte,
    pps: seq<Unit>,       // PPS_SLOTS slots, the first nbPps of them in use
    chromaFormatIdc: byte,
    bitDepthLumaMinus8: byte,
    bitDepthChromaMinus8: byte)
  {
    /** The slot arrays have their fixed sizes. */
    predicate Valid()
    {
      |sps| == SPS_SLOTS && |pps| == PPS_SLOTS
    }

    /** Both declared counts stay within the slot arrays. */
    predicate CountsInSlots()
    {
      Valid() && nbSps <= SPS_SLOTS && nbPps <= PPS_SLOTS
    }

    /** The SPS units in use, in order. */
    function SpsList(): (r: seq<Unit>)
      requires CountsInSlots()
    {
      sps[..nbSps]
    }

    /** The PPS units in use, in order. */
    function PpsList(): (r: seq<Unit>)
      requires CountsInSlots()
    {
      pps[..nbPps]
    }
  }

  // ---------------------------------------------------------------------------
  // Length-prefixed units, as both the encoder and the decoder see them

  /** The big-endian 16-bit value `(hi << 8) | lo`. */
  function BE16(hi: byte, lo: byte): (n: nat)
    ensures n < 0x1_0000
  {
    hi * 256 + lo
  }

  /** The two big-endian bytes of a 16-bit length. */
  function LengthPrefix(n: nat): (s: seq<byte>)
    requires n < 0x1_0000
    ensures |s| == 2
  {
    [n / 256, n % 256]
  }

  /** One unit as the record stores it: its length, then its bytes. */
  function EncodeUnit(u: Unit): (s: seq<byte>)
    ensures |s| == |u| + 2
  {
    LengthPrefix(|u|) + u
  }

  /** A list of units, each length-prefixed, one after the other. */
  function EncodeUnits(units: seq<Unit>): (r: seq<byte>)
  {
    if |units| == 0 then []
    else EncodeUnits(units[..|units| - 1]) + EncodeUnit(units[|units| - 1])
  }

  // ---------------------------------------------------------------------------
  // The encoder's layout

  /** configurationVersion, the three profile bytes, the length-size byte and the
      SPS count byte, with their reserved bits set: `0xFC | nalu` and
      `0xE0 | nb_sps`. The length-size byte carries `nalu` itself, although the
      decoder reads `nalu - 1` from it. */
  function Header(a: AvcConfig): (r: seq<byte>)
  {
    [1, a.profile, a.compatibility, a.level, WithReserved(a.nalu, 4), WithReserved(a.nbSps, 32)]
  }

  /** The header and the SPS units. */
  function SpsSection(a: AvcConfig): (r: seq<byte>)
    requires a.CountsInSlots()
  {
    Header(a) + EncodeUnits(a.SpsList())
  }

  /** Everything the encoder writes up to the last PPS. */
  function ConfigBody(a: AvcConfig): (s: seq<byte>)
    requires a.CountsInSlots()
  {
    SpsSection(a) + [a.nbPps] + EncodeUnits(a.PpsList())
  }

  /** The encoder succeeds on a buffer of `cap` bytes. */
  predicate SaveFits(a: AvcConfig, cap: nat)
    requires a.Valid() && a.nbPps <= PPS_SLOTS
  {
    cap >= 7 && a.nbSps <= 32 && |ConfigBody(a)| <= cap
  }

  /** The four extension bytes `0xFC | chroma_format_idc`, `0xF8 | bit_depth_luma_minus8`,
      `0xF8 | bit_depth_chroma_minus8` and numOfSequenceParameterSetExt, always 0. */
  function Extension(a: AvcConfig): (r: seq<byte>)
  {
    [WithReserved(a.chromaFormatIdc, 4), WithReserved(a.bitDepthLumaMinus8, 8),
     WithReserved(a.bitDepthChromaMinus8, 8), 0]
  }

  /** The encoder appends the extension: a high profile and four bytes to spare. */
  predicate HasExtension(a: AvcConfig, cap: nat)
    requires a.CountsInSlots()
  {
    HighProfile(a.profile) && |ConfigBody(a)| + 4 <= cap
  }

  /** The whole record the encoder writes into a buffer of `cap` bytes. */
  function ConfigRecord(a: AvcConfig, cap: nat): (r: seq<byte>)
    requires a.CountsInSlots()
  {
    ConfigBody(a) + (if HasExtension(a, cap) then Extension(a) else [])
  }

  // ---------------------------------------------------------------------------
  // The decoder

  /** Where a unit loop of the decoder stopped: the slots after it, the number of
      slots it filled, the cursor, and whether it stopped without error. */
  datatype Parsed = Parsed(slots: seq<Unit>, filled: nat, cursor: nat, ok: bool)

  /** `u` is encoded at offset `j` of `data` as the decoder's loop accepts it:
      shorter than a slot, and inside the input; an SPS (not `mayReachEnd`)
      must end before the end of the input. */
  predicate UnitEncodedAt(data: seq<byte>, j: nat, u: Unit, mayReachEnd: bool)
  {
    |u| < UNIT_CAPACITY && j + 2 + |u| <= |data| && (!mayReachEnd ==> j + 2 + |u| < |data|)
    && data[j..j + 2 + |u|] == EncodeUnit(u)
  }

  /** No unit is encoded at offset `j` of `data` as UnitEncodedAt demands. */
  ghost predicate NoUnitAt(data: seq<byte>, j: nat, mayReachEnd: bool)
  {
    forall u: Unit :: !UnitEncodedAt(data, j, u, mayReachEnd)
  }

  /** The unit the decoder's loop reads at `j`: a 16-bit length, then that many
      bytes. A length that is not below UNIT_CAPACITY is an error, and so is one
      that overruns the input: a PPS (`mayReachEnd`) may end exactly at the end
      of the input, an SPS must end before it. */
  function NextUnit(data: seq<byte>, j: nat, mayReachEnd: bool): (r: Option<Unit>)
    requires j + 2 < |data|
  {
    var len := BE16(data[j], data[j + 1]);
    if (if mayReachEnd then len + j + 2 > |data| else len + j + 2 >= |data|) || len >= UNIT_CAPACITY then None
    else
      var u: Unit := data[j + 2..j + 2 + len];
      Some(u)
  }

  /** The decoder's unit loop from slot `i` and cursor `j`, filling at most slot
      `n - 1`. It stops without error once fewer than three bytes remain, and
      with an error on a unit NextUnit rejects. */
  function ParseUnits(data: seq<byte>, slots: seq<Unit>, i: nat, n: nat, j: nat, mayReachEnd: bool): (p: Parsed)
    requires i <= n <= |slots|
    ensures |p.slots| == |slots| && i <= p.filled <= n
    decreases n - i
  {
    if i < n && j + 2 < |data| then
      match NextUnit(data, j, mayReachEnd)
      case None => Parsed(slots, i, j, false)
      case Some(u) => ParseUnits(data, slots[i := u], i + 1, n, j + 2 + |u|, mayReachEnd)
    else
      Parsed(slots, i, j, true)
  }

  /** The record after the decoder ran, its result (-1 or the bytes consumed), and
      where it got to: SPS slots filled, offset of the PPS count, PPS slots filled. */
  datatype Loaded = Loaded(config: AvcConfig, result: int, spsRead: nat, ppsCountAt: nat, ppsRead: nat)

  /** The decoder run on `data` over the record `a`. Fields are stored as soon as
      they are read, so a failure leaves what was decoded before it in place. */
  function LoadRecord(data: seq<byte>, a: AvcConfig): (l: Loaded)
    requires a.Valid()
    ensures l.config.Valid()
  {
    if |data| < 7 then Loaded(a, -1, 0, 0, 0)
    else LoadSps(data, DecodeHeader(data, a))
  }

  /** The fixed header the decoder stores. configurationVersion is not checked. */
  function DecodeHeader(data: seq<byte>, a: AvcConfig): (r: AvcConfig)
    requires |data| >= 7
  {
    a.(profile := data[1], compatibility := data[2], level := data[3],
       nalu := LowBits(data[4], 4) + 1, nbSps := LowBits(data[5], 32))
  }

  /** The decoder from its SPS loop on. The source first rejects an SPS count above
      SPS_SLOTS; a 5-bit count is at most 31, so that rejection cannot happen and
      has no branch here. */
  function LoadSps(data: seq<byte>, h: AvcConfig): (l: Loaded)
    requires h.Valid() && h.nbSps < 32
    ensures l.config.Valid()
  {
    var s := ParseUnits(data, h.sps, 0, h.nbSps, 6, false);
    var hs := h.(sps := s.slots);
    if !s.ok then Loaded(hs, -1, s.filled, 0, 0)
    else LoadPps(data, hs, s.filled, s.cursor)
  }

  /** The decoder from the PPS count at offset `j` on. */
  function LoadPps(data: seq<byte>, hs: AvcConfig, spsRead: nat, j: nat): (l: Loaded)
    requires hs.Valid()
    ensures l.config.Valid()
  {
    if j + 1 >= |data| || data[j] > PPS_SLOTS then Loaded(hs, -1, spsRead, j, 0)
    else
      var hp := hs.(nbPps := data[j]);
      var p := ParseUnits(data, hp.pps, 0, hp.nbPps, j + 1, true);
      Loaded(hp.(pps := p.slots), if p.ok then p.cursor else -1, spsRead, j, p.filled)
  }

  // ---------------------------------------------------------------------------
  // The Annex B converter

  const START_CODE: seq<byte> := [0, 0, 0, 1]

  /** The H264_STARTCODE test on the first four bytes: 00 00 01 or 00 00 00 01. */
  predicate StartCode(p: seq<byte>)
    requires |p| >= 4
  {
    p[0] == 0 && p[1] == 0 && (p[2] == 1 || (p[2] == 0 && p[3] == 1))
  }

  /** The converter writes a start code before this unit. */
  predicate NeedsStartCode(u: seq<byte>)
  {
    |u| < 4 || !StartCode(u)
  }

  /** One unit of the stream: a start code when it needs one, then its bytes. */
  function AnnexBUnit(u: seq<byte>): (r: seq<byte>)
  {
    (if NeedsStartCode(u) then START_CODE else []) + u
  }

  /** Units converted one after the other. */
  function AnnexB(units: seq<seq<byte>>): (r: seq<byte>)
  {
    if |units| == 0 then []
    else AnnexB(units[..|units| - 1]) + AnnexBUnit(units[|units| - 1])
  }

  /** Units one after the other, without anything between them. */
  function Concat(units: seq<seq<byte>>): (r: seq<byte>)
  {
    if |units| == 0 then [] else Concat(units[..|units| - 1]) + units[|units| - 1]
  }

  /** A converter loop that starts at offset `base` of a buffer of `cap` bytes
      accepts every unit: before each unit it demands room for the unit plus
      `slack` after what the units before it took. */
  predicate StreamFits(base: nat, units: seq<seq<byte>>, cap: nat, slack: nat)
  {
    |units| == 0
    || (var n := |units| - 1;
        StreamFits(base, units[..n], cap, slack) && base + |AnnexB(units[..n])| + |units[n]| + slack <= cap)
  }

  /** The stream of all SPS units followed by all PPS units. */
  function NaluStream(a: AvcConfig): (r: seq<byte>)
    requires a.CountsInSlots()
  {
    AnnexB(a.SpsList()) + AnnexB(a.PpsList())
  }

  /** The converter succeeds on a buffer of `cap` bytes, each loop reserving room
      for a 4-byte start code. */
  predicate NaluFits(a: AvcConfig, cap: nat)
    requires a.CountsInSlots()
  {
    StreamFits(0, a.SpsList(), cap, 4) && StreamFits(|AnnexB(a.SpsList())|, a.PpsList(), cap, 4)
  }

  /** The converter with the PPS loop as the source has it: that loop reserves
      only 2 bytes beyond the unit, though it may write a 4-byte start code. */
  function ToNaluAsWritten(a: AvcConfig, cap: nat): (r: Option<seq<byte>>)
    requires a.CountsInSlots()
  {
    if StreamFits(0, a.SpsList(), cap, 4) && StreamFits(|AnnexB(a.SpsList())|, a.PpsList(), cap, 2)
    then Some(NaluStream(a))
    else None
  }
}
