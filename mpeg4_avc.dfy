/**
 * The mpeg4-avc codec: a record object whose fields the decoder fills in place,
 * an encoder that writes the record into a caller's buffer, and a converter that
 * writes its parameter sets into a caller's buffer as an Annex B byte stream.
 * Each operation is proved against the definitions of module AvcRecord.
 */
module Mpeg4AvcCodec {
  import opened AvcRecord
  import opened AvcProperties

  /** Stores `src` at `data[p..]` and returns the offset after it: the byte
      stores `*p++ = x` and the `memcpy` calls of the codec. */
  method Write(data: array<byte>, p: nat, src: seq<byte>) returns (q: nat)
    requires p + |src| <= data.Length
    modifies data
    ensures q == p + |src|
    ensures data[..q] == old(data[..p]) + src
    ensures forall k :: q <= k < data.Length ==> data[k] == old(data[k])
  {
    var k := 0;
    while k < |src|
      invariant 0 <= k <= |src|
      invariant data[..p + k] == old(data[..p]) + src[..k]
      invariant forall m :: p + k <= m < data.Length ==> data[m] == old(data[m])
    {
      data[p + k] := src[k];
      assert data[..p + k + 1] == data[..p + k] + [src[k]];
      assert src[..k + 1] == src[..k] + [src[k]];
      k := k + 1;
    }
    q := p + |src|;
  }

  /** One unit loop of the decoder, SPS or PPS, as ParseUnits describes it from
      slot 0 and cursor `j0`; the slots it fills follow the input's units. */
  method ReadUnits(data: seq<byte>, slots: seq<Unit>, n: nat, j0: nat, mayReachEnd: bool) returns (p: Parsed)
    requires n <= |slots|
    ensures p == ParseUnits(data, slots, 0, n, j0, mayReachEnd)
  {
    var units: seq<Unit> := slots;
    var i: nat := 0;
    var j: nat := j0;
    while i < n && j + 2 < |data|
      invariant i <= n && |units| == |slots|
      invariant ParseUnits(data, units, i, n, j, mayReachEnd) == ParseUnits(data, slots, 0, n, j0, mayReachEnd)
      decreases n - i
    {
      var len := BE16(data[j], data[j + 1]);
      if (if mayReachEnd then len + j + 2 > |data| else len + j + 2 >= |data|) || len >= UNIT_CAPACITY {
        return Parsed(units, i, j, false);
      }
      units := units[i := data[j + 2..j + 2 + len]];
      j := j + len + 2;
      i := i + 1;
    }
    return Parsed(units, i, j, true);
  }

  /** One unit loop of the encoder, SPS or PPS: writes length-prefixed units at
      `data[p0..]` while the remaining capacity holds the next one, and returns
      the new offset, the capacity left and the number of units written. */
  method WriteUnits(data: array<byte>, p0: nat, units: seq<Unit>, bytes0: nat) returns (p: nat, bytes: nat, i: nat)
    requires p0 + bytes0 <= data.Length
    modifies data
    ensures i <= |units| && (i == |units| <==> |EncodeUnits(units)| <= bytes0)
    ensures i < |units| ==> bytes < |units[i]| + 2
    ensures p == p0 + |EncodeUnits(units[..i])| && bytes == bytes0 - |EncodeUnits(units[..i])|
    ensures data[..p] == old(data[..p0]) + EncodeUnits(units[..i])
    ensures forall k :: p <= k < data.Length ==> data[k] == old(data[k])
  {
    p, bytes, i := p0, bytes0, 0;
    while i < |units| && bytes >= |units[i]| + 2
      invariant i <= |units|
      invariant p == p0 + |EncodeUnits(units[..i])| && bytes == bytes0 - |EncodeUnits(units[..i])|
      invariant data[..p] == old(data[..p0]) + EncodeUnits(units[..i])
      invariant forall k :: p <= k < data.Length ==> data[k] == old(data[k])
    {
      EncodeUnitsStep(units, i);
      // the two length bytes, then the `memcpy` of the unit
      p := Write(data, p, EncodeUnit(units[i]));
      bytes := bytes - (|units[i]| + 2);
      i := i + 1;
    }
    if i < |units| {
      EncodeUnitsStep(units, i);
      EncodeUnitsPrefix(units, i + 1);
    } else {
      assert units[..i] == units;
    }
  }

  /** The converter's step for one unit: a start code when the unit needs
      one, then the unit's bytes. */
  method WriteAnnexBUnit(data: array<byte>, k0: nat, u: seq<byte>) returns (k: nat)
    requires k0 + |u| + 4 <= data.Length
    modifies data
    ensures k == k0 + |AnnexBUnit(u)|
    ensures data[..k] == old(data[..k0]) + AnnexBUnit(u)
    ensures forall m :: k <= m < data.Length ==> data[m] == old(data[m])
  {
    k := k0;
    if |u| < 4 || !StartCode(u) {
      k := Write(data, k, START_CODE);
    }
    k := Write(data, k, u);
  }

  /** One unit loop of the converter, SPS or PPS: writes units at `data[k0..]`
      while the buffer holds the next unit and four bytes more, and returns the
      new offset and the number of units written. */
  method WriteAnnexB(data: array<byte>, k0: nat, units: seq<seq<byte>>) returns (k: nat, i: nat)
    requires k0 <= data.Length
    modifies data
    ensures i <= |units| && (i == |units| <==> StreamFits(k0, units, data.Length, 4))
    ensures i < |units| ==> k + |units[i]| + 4 > data.Length
    ensures k == k0 + |AnnexB(units[..i])| && k <= data.Length
    ensures data[..k] == old(data[..k0]) + AnnexB(units[..i])
    ensures forall m :: k <= m < data.Length ==> data[m] == old(data[m])
  {
    k, i := k0, 0;
    while i < |units| && data.Length >= k + |units[i]| + 4
      invariant i <= |units|
      invariant k == k0 + |AnnexB(units[..i])| <= data.Length
      invariant StreamFits(k0, units[..i], data.Length, 4)
      invariant data[..k] == old(data[..k0]) + AnnexB(units[..i])
      invariant forall m :: k <= m < data.Length ==> data[m] == old(data[m])
    {
      AnnexBStep(units, i);
      StreamFitsStep(k0, units, i, data.Length, 4);
      ghost var before := data[..k];
      k := WriteAnnexBUnit(data, k, units[i]);
      assert data[..k] == before + AnnexBUnit(units[i]);
      i := i + 1;
    }
    StreamFitsExit(k0, units, i, data.Length, 4);
  }

  /** The record `struct mpeg4_avc_t`: its value is Value(). */
  class Mpeg4Avc {
    var profile: byte
    var compatibility: byte
    var level: byte
    var nalu: byte
    var nbSps: byte
    var sps: seq<Unit>
    var nbPps: byte
    var pps: seq<Unit>
    var chromaFormatIdc: byte
    var bitDepthLumaMinus8: byte
    var bitDepthChromaMinus8: byte

    function Value(): (r: AvcConfig)
      reads this
    {
      AvcConfig(profile, compatibility, level, nalu, nbSps, sps, nbPps, pps,
                chromaFormatIdc, bitDepthLumaMinus8, bitDepthChromaMinus8)
    }

    /** The slot arrays have their fixed sizes. */
    predicate Valid()
      reads this
    {
      Value().Valid()
    }

    /** A zeroed record with empty slots. */
    constructor ()
      ensures Valid()
      ensures profile == 0 && compatibility == 0 && level == 0 && nalu == 0
      ensures nbSps == 0 && nbPps == 0
      ensures chromaFormatIdc == 0 && bitDepthLumaMinus8 == 0 && bitDepthChromaMinus8 == 0
      ensures forall k :: 0 <= k < |sps| ==> sps[k] == []
      ensures forall k :: 0 <= k < |pps| ==> pps[k] == []
    {
      profile, compatibility, level, nalu := 0, 0, 0, 0;
      nbSps, nbPps := 0, 0;
      sps := seq(SPS_SLOTS, _ => []);
      pps := seq(PPS_SLOTS, _ => []);
      chromaFormatIdc, bitDepthLumaMinus8, bitDepthChromaMinus8 := 0, 0, 0;
    }

    /** mpeg4_avc_decoder_configuration_record_load: decodes `data` into this
        record and returns the bytes consumed, or -1. */
    method Load(data: seq<byte>) returns (r: int)
      requires Valid()
      modifies this
      ensures Valid()
      ensures Value() == LoadRecord(data, old(Value())).config
      ensures r == LoadRecord(data, old(Value())).result
    {
      ghost var l := LoadRecord(data, Value());
      if |data| < 7 {
        return -1;
      }
      // configurationVersion, data[0], is expected to be 1 and is not checked.
      profile := data[1];
      compatibility := data[2];
      level := data[3];
      nalu := LowBits(data[4], 4) + 1;
      nbSps := LowBits(data[5], 32);
      // A 5-bit count never exceeds SPS_SLOTS, so the source's rejection of one
      // that does, with its debug assert (line 62), cannot happen and is not
      // repeated here.
      ghost var h := Value();
      assert l == LoadSps(data, h);

      var s := ReadUnits(data, sps, nbSps, 6, false);
      sps := s.slots;
      if !s.ok {
        // A debug build aborts here instead (assert at line 73).
        assert l == Loaded(Value(), -1, s.filled, 0, 0);
        return -1;
      }
      assert l == LoadPps(data, Value(), s.filled, s.cursor);

      var j := s.cursor;
      if j + 1 >= |data| || data[j] > PPS_SLOTS {
        // A debug build aborts here instead (assert at line 84).
        assert l == Loaded(Value(), -1, s.filled, s.cursor, 0);
        return -1;
      }
      nbPps := data[j];
      var p := ReadUnits(data, pps, nbPps, j + 1, true);
      pps := p.slots;
      assert l == Loaded(Value(), if p.ok then p.cursor else -1, s.filled, s.cursor, p.filled);
      if !p.ok {
        return -1;
      }
      return p.cursor;
    }

    /** The first part of the encoder: the six header bytes and the SPS loop,
        which succeeds when the SPS units fit in the capacity left for them. */
    method SaveSps(data: array<byte>) returns (p: nat, ok: bool)
      requires Valid() && 7 <= data.Length && nbSps <= SPS_SLOTS && nbPps <= PPS_SLOTS
      modifies data
      ensures ok <==> 7 + |EncodeUnits(Value().SpsList())| <= data.Length
      ensures p <= data.Length && p <= |SpsSection(Value())|
      ensures ok ==> p == |SpsSection(Value())|
      ensures data[..p] == SpsSection(Value())[..p]
      ensures forall k :: p <= k < data.Length ==> data[k] == old(data[k])
    {
      ghost var a := Value();
      p := Write(data, 0, [1, profile, compatibility, level, WithReserved(nalu, 4), WithReserved(nbSps, 32)]);
      ghost var h := data[..p];
      assert h == Header(a);
      var bytes, i;
      p, bytes, i := WriteUnits(data, p, sps[..nbSps], data.Length - 7);
      ghost var es := EncodeUnits(a.SpsList()[..i]);
      assert data[..p] == h + es;
      EncodeUnitsPrefix(a.SpsList(), i);
      ok := i == nbSps;
      if ok {
        assert a.SpsList()[..i] == a.SpsList();
      }
      assert SpsSection(a)[..p] == h + es;
    }

    /** The second part of the encoder: the PPS count byte and the PPS loop,
        which succeeds when the PPS units fit in the capacity left for them. */
    method SavePps(data: array<byte>, p0: nat) returns (p: nat, ok: bool)
      requires Valid() && nbSps <= SPS_SLOTS && nbPps <= PPS_SLOTS
      requires p0 == |SpsSection(Value())| && p0 < data.Length
      requires data[..p0] == SpsSection(Value())
      modifies data
      ensures ok <==> |ConfigBody(Value())| <= data.Length
      ensures p0 < p <= data.Length && p <= |ConfigBody(Value())|
      ensures ok ==> p == |ConfigBody(Value())|
      ensures data[..p] == ConfigBody(Value())[..p]
      ensures forall k :: p <= k < data.Length ==> data[k] == old(data[k])
    {
      ghost var a := Value();
      p := Write(data, p0, [nbPps]);
      ghost var h := data[..p];
      assert h == SpsSection(a) + [nbPps];
      var bytes, i;
      p, bytes, i := WriteUnits(data, p, pps[..nbPps], data.Length - p);
      ghost var ep := EncodeUnits(a.PpsList()[..i]);
      assert data[..p] == h + ep;
      EncodeUnitsPrefix(a.PpsList(), i);
      ok := i == nbPps;
      if ok {
        assert a.PpsList()[..i] == a.PpsList();
      }
      assert ConfigBody(a)[..p] == h + ep;
    }

    /** mpeg4_avc_decoder_configuration_record_save: writes this record into
        `data`, whose length is the capacity `bytes`, and returns the bytes
        written or -1. A failed call may leave a prefix of the record written. */
    method Save(data: array<byte>) returns (r: int, ghost written: nat)
      requires Valid() && nbPps <= PPS_SLOTS
      modifies data
      ensures written <= data.Length
      ensures r >= 0 <==> SaveFits(Value(), data.Length)
      ensures r >= 0 ==>
                Value().CountsInSlots() && r == written == |ConfigRecord(Value(), data.Length)|
                && data[..r] == ConfigRecord(Value(), data.Length)
      ensures r < 0 ==> r == -1
      ensures r < 0 && written > 0 ==>
                Value().CountsInSlots() && written <= |ConfigBody(Value())|
                && data[..written] == ConfigBody(Value())[..written]
      ensures forall k :: written <= k < data.Length ==> data[k] == old(data[k])
    {
      // The source asserts a non-zero nalu here; it does not affect the result.
      if data.Length < 7 || nbSps > 32 {
        return -1, 0;
      }
      ghost var a := Value();
      var p, ok := SaveSps(data);
      if !ok {
        assert ConfigBody(a)[..p] == SpsSection(a)[..p];
        return -1, p;
      }
      p, ok := SavePps(data, p);
      if !ok {
        return -1, p;
      }
      var bytes: nat := data.Length - p;
      if bytes >= 4 {
        if HighProfile(profile) {
          p := Write(data, p, [WithReserved(chromaFormatIdc, 4), WithReserved(bitDepthLumaMinus8, 8),
                               WithReserved(bitDepthChromaMinus8, 8), 0]);
        }
      }
      return p, p;
    }

    /** mpeg4_avc_to_nalu: writes the SPS and then the PPS units of this record
        into `data` as an Annex B byte stream and returns its length, or -1 when
        a unit does not fit. A failed call may leave a prefix of the stream
        written. Both loops keep room for a whole start code; see ToNaluAsWritten
        for the PPS loop as the source has it. */
    method ToNalu(data: array<byte>) returns (r: int, ghost written: nat)
      requires Valid() && nbSps <= SPS_SLOTS && nbPps <= PPS_SLOTS
      modifies data
      ensures written <= data.Length && written <= |NaluStream(Value())|
      ensures r >= 0 <==> NaluFits(Value(), data.Length)
      ensures r >= 0 ==> r == written == |NaluStream(Value())|
      ensures r < 0 ==> r == -1
      ensures data[..written] == NaluStream(Value())[..written]
      ensures forall m :: written <= m < data.Length ==> data[m] == old(data[m])
    {
      ghost var a := Value();
      var k, i := WriteAnnexB(data, 0, sps[..nbSps]);
      AnnexBPrefix(a.SpsList(), i);
      ghost var s := data[..k];
      assert s == AnnexB(a.SpsList()[..i]);
      if i < nbSps {
        assert NaluStream(a)[..k] == s;
        return -1, k;
      }
      assert a.SpsList()[..i] == a.SpsList();
      k, i := WriteAnnexB(data, k, pps[..nbPps]);
      AnnexBPrefix(a.PpsList(), i);
      assert data[..k] == s + AnnexB(a.PpsList()[..i]);
      assert NaluStream(a)[..k] == s + AnnexB(a.PpsList()[..i]);
      if i < nbPps {
        return -1, k;
      }
      assert a.PpsList()[..i] == a.PpsList();
      return k, k;
    }
  }
}