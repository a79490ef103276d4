# mpeg4-avc: the AVC decoder configuration record codec

A Dafny model of `librtmp/source/mpeg4-avc.c`. That file is a byte-level codec
for the AVCDecoderConfigurationRecord of ISO/IEC 14496-15:2010, section
5.2.4.1.1. It holds one record object, `struct mpeg4_avc_t`, with these fields:
profile, compatibility, level, the NAL unit length size `nalu`, up to 32 SPS
(sequence parameter set) units, a count of PPS (picture parameter set) units
with their slots, and the chroma and bit-depth fields. It has three operations:

- the **decoder** (`mpeg4_avc_decoder_configuration_record_load`) fills the
  record in place from raw bytes. It walks two lists of length-prefixed units
  with a cursor, and returns the number of bytes consumed or -1;
- the **encoder** (`mpeg4_avc_decoder_configuration_record_save`) writes the
  record into a caller's buffer while counting the capacity left. It appends the
  four-byte chroma/bit-depth extension for high profiles when room remains;
- the **converter** (`mpeg4_avc_to_nalu`) writes the SPS units and then the PPS
  units as an ITU-T H.264 Annex B byte stream. It puts the start code
  `00 00 00 01` before every unit except one of at least four bytes that
  passes the `H264_STARTCODE` test.

The project has three modules:

- `AvcRecord` (`avc_record.dfy`) holds the values:
  - the record as a datatype;
  - the byte layout the encoder writes;
  - the decoder's unit loop and the whole decoder, as functions;
  - the Annex B stream.
- `Mpeg4AvcCodec` (`mpeg4_avc.dfy`) is the imperative codec:
  - class `Mpeg4Avc` has the record's fields;
  - `Load` updates those fields in place;
  - `Save` and `ToNalu` write into an `array<byte>` whose length is the
    caller's capacity `bytes`;
  - every loop is its own method with its invariants, proved against the
    functions of `AvcRecord`.
- `AvcProperties` (`avc_properties.dfy`) proves what those functions mean:
  - the decoder reads back what the encoder writes (`LoadOfSave`);
  - what any successful or failed decode implies about its input
    (`LoadAccepted`, `LoadRejected`);
  - the fields the encoder writes (`ConfigRecordLayout`);
  - a converted unit is never given a second start code
    (`AnnexBUnitIdempotent`), and start-coded units of four bytes or more are
    copied unchanged (`AnnexBOfStartCoded`);
  - the corrected converter stays within its buffer (`ToNaluWithinCapacity`),
    while the converter as written can write up to two bytes past it
    (`ToNaluAsWrittenBound`, `ToNaluAsWrittenOverrun`).

The model has these constants. They stand in for the header that declares the
struct, which is not part of this model:

- `SPS_SLOTS = 32`, the bound the encoder checks at line 110;
- `PPS_SLOTS = 32`;
- `UNIT_CAPACITY = 4096`, the bytes of one slot. The decoder keeps only units
  shorter than this.

Bytes are `int`s in `0..255`.

The model keeps these behaviours of the code as written:

- The encoder writes `0xFC | nalu` (line 120), not the length size minus one.
  The decoder reads `(b & 3) + 1` (line 58). So the length size does not
  survive a round trip: it comes back as `nalu % 4 + 1` (`LengthSizeShifts`,
  `LoadOfOwnBody`). A baseline-profile (66) record of one four-byte SPS, one
  four-byte PPS and `nalu == 3` is 19 bytes long, with `0xFF` at offset 4 (`BaselineRecord`).
- A 5-bit SPS count is at most 31, so the decoder's rejection of a count
  above 32 (lines 60-64) can never happen. It has no branch in the model.
- The encoder accepts `nb_sps == 32`, but `0xE0 | 32` reads back as a count of
  0 (`SpsCountOfThirtyTwo`). The round trip therefore needs `nbSps < 32`.
- The extension is gated on the code's twelve profiles (lines 151-155), not on
  the four profiles in the syntax comment (lines 29-30).
- The converter adds a start code to every unit shorter than four bytes
  (lines 178, 194), even to the three-byte start code `00 00 01` itself, which
  then appears twice in the stream (`ShortStartCodeDoubled`).
- The decoder rejects a PPS count above the number of PPS slots (line 82), which caps it at `PPS_SLOTS` rather than 255.

## Model

| member | source | states |
|---|---|---|
| AvcRecord.LowBits | librtmp/source/mpeg4-avc.c:58-59 | masking a byte with `m - 1` gives a value below `m`, so the decoded `nalu - 1` is below 4 and the SPS count below 32 |
| AvcRecord.WithReserved | librtmp/source/mpeg4-avc.c:120-124 | `0xFC \| v`, `0xF8 \| v`, `0xE0 \| v` keep the low bits of `v` and set every reserved bit above them |
| AvcRecord.BE16 | librtmp/source/mpeg4-avc.c:69 | the big-endian length read from two bytes is a 16-bit value |
| AvcRecord.ParseUnits | librtmp/source/mpeg4-avc.c:67-80 | a decoder unit loop keeps the slot array's size and fills between the first slot it starts at and the declared count |
| AvcRecord.UnitEncodedAt | librtmp/source/mpeg4-avc.c:69-79 | the unit the decoder's loop accepts at an offset: its two length bytes, then its bytes, shorter than a slot, inside the input, and for an SPS ending before the input's end |
| AvcRecord.NextUnit | librtmp/source/mpeg4-avc.c:69-79 | one step of a decoder loop: the 16-bit length at the cursor, an error when it is not below the slot capacity or overruns the input (`>=` for an SPS, `>` for a PPS), and otherwise the unit after it; its meaning is NextUnitEncoded |
| AvcRecord.LoadRecord | librtmp/source/mpeg4-avc.c:46-102 | the decoder on `data` over a record: -1 below 7 bytes, else the header, the SPS loop and the PPS stage, the record keeping its slot sizes; its meaning is LoadAccepted, LoadRejected, LoadSlots and LoadOfSave |
| AvcRecord.DecodeHeader | librtmp/source/mpeg4-avc.c:52-59 | the header fields the decoder stores: bytes 1-3, `(data[4] & 3) + 1` and `data[5] & 0x1F`; the version byte is not checked |
| AvcRecord.LoadSps | librtmp/source/mpeg4-avc.c:66-80 | the SPS loop from offset 6, storing the slots it reads; -1 on its error, otherwise on to the PPS stage at its cursor |
| AvcRecord.LoadPps | librtmp/source/mpeg4-avc.c:82-101 | -1 without two bytes at the PPS count or with a count above `PPS_SLOTS`; otherwise stores the count, runs the PPS loop and returns its cursor or -1 |
| AvcRecord.LengthPrefix | librtmp/source/mpeg4-avc.c:127-128 | the two big-endian bytes `(len >> 8) & 0xFF`, `len & 0xFF` of a 16-bit length |
| AvcRecord.EncodeUnit | librtmp/source/mpeg4-avc.c:127-131 | one unit as the encoder writes it: its length bytes, then its bytes, two bytes longer than the unit |
| AvcRecord.EncodeUnits | librtmp/source/mpeg4-avc.c:125-147 | the units of one encoder loop, each encoded, one after the other |
| AvcRecord.Header | librtmp/source/mpeg4-avc.c:116-124 | the six header bytes: `1`, profile, compatibility, level, `0xFC \| nalu`, `0xE0 \| nb_sps` |
| AvcRecord.SpsSection | librtmp/source/mpeg4-avc.c:116-134 | the header followed by the encoded SPS units in use |
| AvcRecord.ConfigBody | librtmp/source/mpeg4-avc.c:116-147 | the header, the SPS units, the PPS count byte and the PPS units in use |
| AvcRecord.SaveFits | librtmp/source/mpeg4-avc.c:110-147 | the encoder's success condition: at least 7 bytes, `nb_sps <= 32`, and room for the whole body |
| AvcRecord.HighProfile | librtmp/source/mpeg4-avc.c:151-155 | the twelve profiles whose record carries the extension |
| AvcRecord.Extension | librtmp/source/mpeg4-avc.c:157-160 | the four extension bytes `0xFC \| chroma_format_idc`, `0xF8 \| bit_depth_luma_minus8`, `0xF8 \| bit_depth_chroma_minus8`, `0` |
| AvcRecord.HasExtension | librtmp/source/mpeg4-avc.c:149-156 | the encoder appends the extension: four bytes remain after the body and the profile is high |
| AvcRecord.ConfigRecord | librtmp/source/mpeg4-avc.c:116-164 | the whole output of a successful encode: the body, then the extension when HasExtension holds; its meaning is ConfigRecordLayout and LoadOfSave |
| AvcRecord.StartCode | librtmp/source/mpeg4-avc.c:167 | `H264_STARTCODE`: the first bytes are `00 00 01`, or `00 00 00 01` |
| AvcRecord.NeedsStartCode | librtmp/source/mpeg4-avc.c:178 | the converter writes a start code before a unit shorter than 4 bytes or one not passing `H264_STARTCODE` |
| AvcRecord.AnnexBUnit | librtmp/source/mpeg4-avc.c:178-187 | one unit as the converter writes it: `00 00 00 01` when NeedsStartCode holds, then its bytes; its meaning is AnnexBUnitShape and AnnexBUnitIdempotent |
| AvcRecord.AnnexB | librtmp/source/mpeg4-avc.c:176-205 | the units of one converter loop, each converted, one after the other |
| AvcRecord.StreamFits | librtmp/source/mpeg4-avc.c:176-192 | a converter loop accepts every unit: before each one it has room for the unit plus the loop's slack after what the earlier units took |
| AvcRecord.NaluStream | librtmp/source/mpeg4-avc.c:169-207 | the converted SPS units followed by the converted PPS units |
| AvcRecord.NaluFits | librtmp/source/mpeg4-avc.c:176-205 | the corrected converter's success condition: both loops accept every unit with a slack of 4 |
| AvcRecord.ToNaluAsWritten | librtmp/source/mpeg4-avc.c:169-208 | the converter as the source has it: the SPS loop with slack 4 and the PPS loop with slack 2, returning NaluStream when both accept every unit; its meaning is ToNaluAsWrittenAgrees, ToNaluAsWrittenBound, ToNaluAsWrittenStartCoded and ToNaluAsWrittenOverrun |
| AvcProperties.BE16OfLengthPrefix | librtmp/source/mpeg4-avc.c:127-128 | the decoder's 16-bit read recovers the length the encoder's two bytes carry |
| AvcProperties.LengthPrefixOfBE16 | librtmp/source/mpeg4-avc.c:69 | any two length bytes the decoder reads are the ones the encoder writes for that length |
| AvcProperties.EncodeUnitsAppend | librtmp/source/mpeg4-avc.c:125-133 | encoding a list of length-prefixed units distributes over concatenation |
| AvcProperties.EncodeUnitsPrefix | librtmp/source/mpeg4-avc.c:125-133 | encoding the first `i` units gives a prefix of encoding them all |
| AvcProperties.NextUnitEncoded | librtmp/source/mpeg4-avc.c:69-79 | one decoder step returns a unit encoded at the cursor, shorter than a slot and inside the input (an SPS strictly before its end); when it fails, no unit is encoded there |
| AvcProperties.UnitEncodedAtUnique | librtmp/source/mpeg4-avc.c:69-71 | at most one unit is encoded at a given offset |
| AvcProperties.NextUnitOfEncoding | librtmp/source/mpeg4-avc.c:69-79 | one decoder step reads back any unit encoded at the cursor |
| AvcProperties.ParseUnitsOfEncoding | librtmp/source/mpeg4-avc.c:67-99 | a unit loop run over encoded units that fit their slots fills exactly those units, leaves the other slots, succeeds and ends the cursor after them; an SPS list must be followed by a byte, a PPS list may end the input if its last unit is not empty |
| AvcProperties.ParseUnitsKeepsBelow | librtmp/source/mpeg4-avc.c:77-78 | a unit loop never changes the slots before the one it starts at |
| AvcProperties.ParseUnitsSlots | librtmp/source/mpeg4-avc.c:77-78 | a unit loop keeps the slots after the last one it filled, and every slot it filled is shorter than a slot's capacity |
| AvcProperties.ParseUnitsStops | librtmp/source/mpeg4-avc.c:67-75 | a unit loop stops without error only with every declared slot filled or fewer than three bytes left; with an error only where no acceptable unit is encoded |
| AvcProperties.ParseUnitsReads | librtmp/source/mpeg4-avc.c:67-80 | the input between the loop's first and last cursor is exactly the encoding of the slots it filled, each an acceptable unit at its offset |
| AvcProperties.LengthSizeShifts | librtmp/source/mpeg4-avc.c:120 | the length size read back from the encoder's header is `nalu % 4 + 1`, which differs from any `nalu` in 1..4 |
| AvcProperties.SpsCountOfThirtyTwo | librtmp/source/mpeg4-avc.c:124 | a record of 32 SPS that the encoder accepts is read back with an SPS count of 0 |
| AvcProperties.LoadOfBody | librtmp/source/mpeg4-avc.c:46-102 | decoding the encoder's body followed by any bytes restores profile, compatibility, level, both counts and every unit, keeps the other slots, reads `nalu` as `nalu % 4 + 1` and consumes exactly the body |
| AvcProperties.LoadOfSave | librtmp/source/mpeg4-avc.c:46-165 | decoding what a successful encode wrote, plus any trailing bytes, restores the record (apart from `nalu` and the extension fields) and consumes everything but the extension |
| AvcProperties.LoadOfOwnBody | librtmp/source/mpeg4-avc.c:46-165 | decoding a record's encoding over itself changes only its `nalu` |
| AvcProperties.RestoredOwn | librtmp/source/mpeg4-avc.c:55-99 | restoring a record over itself changes only `nalu` |
| AvcProperties.LoadAccepted | librtmp/source/mpeg4-avc.c:52-101 | a successful decode had at least 7 bytes and copied bytes 1-3; `nalu` is `(data[4] & 3) + 1`, in 1..4, and the SPS count is `data[5] & 0x1F`; the SPS and PPS sections are exactly the encodings of the slots filled; the PPS count is the byte after the SPS section, with a byte after it; the result is the offset after the last PPS, so 7 <= result <= bytes; a loop that filled fewer slots than declared stopped because the input ran short |
| AvcProperties.LoadPpsAccepted | librtmp/source/mpeg4-avc.c:82-101 | a successful PPS count and loop read a count of at most `PPS_SLOTS` with a byte after it, and the PPS encodings up to the returned cursor |
| AvcProperties.LoadSlots | librtmp/source/mpeg4-avc.c:77-97 | whatever the outcome, every slot the decoder filled is shorter than its capacity and every later slot is left as it was |
| AvcProperties.LoadRejected | librtmp/source/mpeg4-avc.c:52-94 | a failed decode returns -1 for one of these reasons: fewer than 7 bytes; an SPS that no acceptable unit matches; no room for the PPS count or a count above `PPS_SLOTS`; a PPS that no acceptable unit matches |
| AvcProperties.LoadPpsRejected | librtmp/source/mpeg4-avc.c:82-94 | a failed PPS stage leaves the SPS part alone and failed on its count or on a PPS no acceptable unit matches |
| AvcProperties.ConfigRecordLayout | librtmp/source/mpeg4-avc.c:116-162 | the encoder's output is `01`, profile, compatibility, level, `0xFC + nalu % 4`, `0xE0 + nb_sps % 32`, the SPS encodings, the PPS count byte and the PPS encodings; the four extension bytes follow exactly when the profile is high and four bytes of capacity remain |
| AvcProperties.BaselineRecord | librtmp/source/mpeg4-avc.c:116-162 | the encoder writes the baseline example as the 19 bytes `01 42 00 1E FF E1 00 04 67 42 00 1E 01 00 04 68 CE 3C 80` |
| AvcProperties.BaselineStream | librtmp/source/mpeg4-avc.c:176-205 | the converter writes the baseline example as `00 00 00 01 67 42 00 1E 00 00 00 01 68 CE 3C 80` |
| AvcProperties.AnnexBAppend | librtmp/source/mpeg4-avc.c:176-205 | converting a list of units distributes over concatenation |
| AvcProperties.AnnexBPrefix | librtmp/source/mpeg4-avc.c:176-205 | converting the first `i` units gives a prefix of converting them all |
| AvcProperties.StreamFitsOfPrefix | librtmp/source/mpeg4-avc.c:176-192 | a converter loop accepts the first `n` units exactly when each of them passed the loop's capacity test |
| AvcProperties.StreamFitsExit | librtmp/source/mpeg4-avc.c:176-192 | a loop that accepted the first `i` units and then stopped, at the end of the list or at a unit that failed the test, accepts the whole list exactly when it reached the end |
| AvcProperties.AnnexBUnitShape | librtmp/source/mpeg4-avc.c:167-187 | a converted unit starts with a start code and ends with the unit; it is the unit itself exactly when the unit has at least four bytes and passes `H264_STARTCODE`, and otherwise four bytes longer |
| AvcProperties.AnnexBUnitIdempotent | librtmp/source/mpeg4-avc.c:167-187 | converting an already converted unit changes nothing: a converted unit is never given a second start code |
| AvcProperties.ShortStartCodeDoubled | librtmp/source/mpeg4-avc.c:167-187 | the three-byte unit `00 00 01`, itself a start code, is shorter than four bytes and so is still given a start code, so the stream `00 00 00 01 00 00 01` holds two |
| AvcProperties.AnnexBOfStartCoded | librtmp/source/mpeg4-avc.c:176-205 | units that each have at least four bytes and pass `H264_STARTCODE` are copied unchanged, one after the other |
| AvcProperties.AnnexBLength | librtmp/source/mpeg4-avc.c:176-205 | the stream holds all unit bytes and at most four more per unit |
| AvcProperties.StreamFitsEnd | librtmp/source/mpeg4-avc.c:176-187 | a loop that accepted every unit wrote at most `4 - slack` bytes past the capacity |
| AvcProperties.StreamFitsEndStartCoded | librtmp/source/mpeg4-avc.c:192-204 | if the last accepted unit needed no start code (at least four bytes, passing `H264_STARTCODE`), the loop stayed `slack` bytes inside the capacity |
| AvcProperties.StreamFitsWeaker | librtmp/source/mpeg4-avc.c:176-192 | a loop that reserves more room before each unit accepts only lists that a loop reserving less also accepts |
| AvcProperties.ToNaluWithinCapacity | librtmp/source/mpeg4-avc.c:169-208 | when both loops reserve room for a start code, a successful conversion fits the buffer |
| AvcProperties.ToNaluAsWrittenAgrees | librtmp/source/mpeg4-avc.c:169-208 | the converter as written succeeds, with the same stream, whenever the corrected one does |
| AvcProperties.ToNaluAsWrittenBound | librtmp/source/mpeg4-avc.c:192-207 | the converter as written may return up to `bytes + 2`, and no more |
| AvcProperties.ToNaluAsWrittenStartCoded | librtmp/source/mpeg4-avc.c:192-207 | the converter as written stays within `bytes` when no PPS needs a start code, that is each has at least four bytes and passes `H264_STARTCODE` |
| AvcProperties.ToNaluStartCodedSlack | librtmp/source/mpeg4-avc.c:192-204 | one PPS `00 00 00 01 68` into a 7-byte buffer: the converter as written copies its five bytes within the buffer, and the corrected converter rejects it |
| AvcProperties.ToNaluAsWrittenOverrun | librtmp/source/mpeg4-avc.c:192-199 | one PPS of one byte into a 3-byte buffer passes the PPS test, but the converter as written writes five bytes; the corrected converter rejects it |
| Mpeg4AvcCodec.Write | librtmp/source/mpeg4-avc.c:127-131 | storing bytes at an offset writes exactly them there and leaves the remaining bytes of the buffer alone (the byte stores and `memcpy`) |
| Mpeg4AvcCodec.ReadUnits | librtmp/source/mpeg4-avc.c:66-80 | the decoder's unit loop, with its `>=` (SPS) or `>` (PPS) end test and its capacity test, computes ParseUnits |
| Mpeg4AvcCodec.WriteUnits | librtmp/source/mpeg4-avc.c:125-134 | the encoder's unit loop writes the encodings of the units that fit in turn, decreasing the remaining capacity, and stops at the first unit whose encoding exceeds what remains; it writes them all exactly when their total encoding fits |
| Mpeg4AvcCodec.WriteAnnexBUnit | librtmp/source/mpeg4-avc.c:178-187 | the converter writes one unit, preceded by a start code unless it has at least four bytes and passes `H264_STARTCODE` |
| Mpeg4AvcCodec.WriteAnnexB | librtmp/source/mpeg4-avc.c:176-189 | a converter loop writes the converted units that its capacity test lets through, never past the buffer, and stops at the first unit that fails the test; it converts them all exactly when each passes |
| Mpeg4AvcCodec.Mpeg4Avc.Load | librtmp/source/mpeg4-avc.c:46-102 | the decoder updates the record's fields to LoadRecord's record and returns its result |
| Mpeg4AvcCodec.Mpeg4Avc.SaveSps | librtmp/source/mpeg4-avc.c:110-134 | the header and SPS section are written, fully exactly when they fit with one byte left for the PPS count (line 111), and otherwise as a prefix |
| Mpeg4AvcCodec.Mpeg4Avc.SavePps | librtmp/source/mpeg4-avc.c:136-147 | the PPS count and units follow, fully exactly when the whole body fits |
| Mpeg4AvcCodec.Mpeg4Avc.Save | librtmp/source/mpeg4-avc.c:104-165 | the encoder succeeds exactly when the buffer holds at least 7 bytes and the body, and `nb_sps <= 32`; it then writes ConfigRecord and returns its length; on failure it returns -1 with at most a prefix of the body written |
| Mpeg4AvcCodec.Mpeg4Avc.ToNalu | librtmp/source/mpeg4-avc.c:169-208 | the converter succeeds exactly when every unit passes its loop's test, then writes the SPS stream followed by the PPS stream into the buffer and returns its length; on failure it returns -1 with a prefix of the stream written |

## Left out

- The `assert` calls at lines 53, 62, 73, 84 and 109 are debug checks. The model follows release (`NDEBUG`) builds, where they have no effect, and keeps them as comments. In debug builds `assert(1 == data[0])` (line 53) aborts on a version byte other than 1, where release builds go on decoding; `assert(0)` (lines 62, 73 and 84) aborts where release builds return -1; and line 109 aborts on a zero `nalu`.
- The decoder's rejection of an SPS count above 32 (lines 60-64) has no branch, since a 5-bit count cannot reach it.
- `mpeg4-avc.h` is not part of this model. The slot counts and slot capacity are the named constants above, and `sizeof` tests use them.
- C integer widths are not modelled:
  - the `uint8_t` loop counters and `uint16_t` length;
  - the `int` return cast;
  - truncation of unit lengths of 65536 or more at lines 127-128.
  Units are bounded by `UNIT_CAPACITY`, below 65536, instead.
- The decoder reads no extension bytes. Neither does the model, so the extension fields do not round-trip, and the SPS-extension loop in the syntax comment (lines 39-42) is not modelled.
- The decoder's input is a read-only `seq<byte>`; its length is `bytes`. Reads past the input cannot happen in Dafny: every index is proved in range, which is the model's statement of the bounds checks.
- `memcpy` is a copy into a disjoint buffer. No aliasing between the input, the output and the record is modelled.
- A failed call may leave part of its output written. The model states that part through the ghost result `written` of `Save` and `ToNalu`.
- There is no I/O, concurrency or floating point in the file.
- Mpeg4AvcCodec.Mpeg4Avc.Save: requires `nbPps <= PPS_SLOTS`, because the source reads `pps[i]` for every `i < nb_pps` without a check.
- Mpeg4AvcCodec.Mpeg4Avc.ToNalu: requires `nbSps <= SPS_SLOTS` and `nbPps <= PPS_SLOTS`, for the same reason.
- Mpeg4AvcCodec.Mpeg4Avc.ToNalu: its PPS loop reserves four bytes past each unit, not two, as corrected under "Findings". So besides the inputs the source would overrun, it also rejects PPS units that need no start code (at least four bytes, passing `H264_STARTCODE`) and leave only 2 or 3 spare bytes, which the source accepts within its buffer (`ToNaluStartCodedSlack`). The source's PPS loop is modelled as the function `AvcRecord.ToNaluAsWritten`, whose results agree with the method wherever the method succeeds (`ToNaluAsWrittenAgrees`).
- AvcProperties.LoadOfSave: requires `nbSps < 32`, units shorter than `UNIT_CAPACITY`, and, when neither the extension nor further bytes follow the record, at least one PPS with the last one not empty. These are the cases the decoder, as written, reads back. A count of 32 reads back as 0 (`SpsCountOfThirtyTwo`). A unit of `UNIT_CAPACITY` bytes or more is rejected (lines 71, 93). At the end of the input, an empty last PPS is never read, because the loop at line 89 needs three bytes left. With no PPS at all, the count byte is the last byte, which line 82 rejects.

## Findings

| source | as written | input that shows it | evidently intended | confidence | as-written member | corrected member |
|---|---|---|---|---|---|---|
| librtmp/source/mpeg4-avc.c:192 | the PPS loop lets a unit in when `bytes >= k + len + 2`, then may write a 4-byte start code and the unit, `len + 4` bytes | no SPS, one PPS `68`, `bytes == 3`: the test `3 >= 0 + 1 + 2` passes and five bytes are written into a 3-byte buffer | reserve `len + 4` as the SPS loop does at line 176, so the stream never exceeds `bytes` | not executed | AvcProperties.ToNaluAsWrittenOverrun | AvcProperties.ToNaluWithinCapacity |
