/**
 * What the definitions of module AvcRecord mean: how the length-prefixed and the
 * Annex B encodings compose, what the decoder accepts and stores, that decoding
 * an encoded record gives it back, and how much of its buffer the converter uses.
 */
module AvcProperties {
  import opened AvcRecord

  // ---------------------------------------------------------------------------
  // Composition of the two encodings

  lemma {:induction false} EncodeUnitsAppend(a: seq<Unit>, b: seq<Unit>)
    ensures EncodeUnits(a + b) == EncodeUnits(a) + EncodeUnits(b)
    decreases |b|
  {
    if |b| == 0 {
      assert a + b == a;
    } else {
      var b', x := b[..|b| - 1], b[|b| - 1];
      assert (a + b)[..|a + b| - 1] == a + b' && (a + b)[|a + b| - 1] == x;
      assert EncodeUnits(a + b) == EncodeUnits(a + b') + EncodeUnit(x);
      assert EncodeUnits(b) == EncodeUnits(b') + EncodeUnit(x);
      EncodeUnitsAppend(a, b');
    }
  }

  /** The encoder's loop appends one unit at a time. */
  lemma EncodeUnitsStep(units: seq<Unit>, i: nat)
    requires i < |units|
    ensures EncodeUnits(units[..i + 1]) == EncodeUnits(units[..i]) + EncodeUnit(units[i])
  {
    assert units[..i + 1][..i] == units[..i];
  }

  /** Encoding a first part of the units gives a first part of the encoding. */
  lemma EncodeUnitsPrefix(units: seq<Unit>, i: nat)
    requires i <= |units|
    ensures |EncodeUnits(units[..i])| <= |EncodeUnits(units)|
    ensures EncodeUnits(units)[..|EncodeUnits(units[..i])|] == EncodeUnits(units[..i])
  {
    assert units == units[..i] + units[i..];
    EncodeUnitsAppend(units[..i], units[i..]);
  }

  lemma {:induction false} AnnexBAppend(a: seq<seq<byte>>, b: seq<seq<byte>>)
    ensures AnnexB(a + b) == AnnexB(a) + AnnexB(b)
    decreases |b|
  {
    if |b| == 0 {
      assert a + b == a;
    } else {
      var b', x := b[..|b| - 1], b[|b| - 1];
      assert (a + b)[..|a + b| - 1] == a + b' && (a + b)[|a + b| - 1] == x;
      assert AnnexB(a + b) == AnnexB(a + b') + AnnexBUnit(x);
      assert AnnexB(b) == AnnexB(b') + AnnexBUnit(x);
      AnnexBAppend(a, b');
    }
  }

  /** The converter's loop appends one unit at a time. */
  lemma AnnexBStep(units: seq<seq<byte>>, i: nat)
    requires i < |units|
    ensures AnnexB(units[..i + 1]) == AnnexB(units[..i]) + AnnexBUnit(units[i])
  {
    assert units[..i + 1][..i] == units[..i];
  }

  /** Converting a first part of the units gives a first part of the stream. */
  lemma AnnexBPrefix(units: seq<seq<byte>>, i: nat)
    requires i <= |units|
    ensures |AnnexB(units[..i])| <= |AnnexB(units)|
    ensures AnnexB(units)[..|AnnexB(units[..i])|] == AnnexB(units[..i])
  {
    assert units == units[..i] + units[i..];
    AnnexBAppend(units[..i], units[i..]);
  }

  /** StreamFits of the first `n` units holds exactly when each of them passed the
      loop's test. */
  lemma {:induction false} StreamFitsOfPrefix(base: nat, units: seq<seq<byte>>, n: nat, cap: nat, slack: nat)
    requires n <= |units|
    ensures StreamFits(base, units[..n], cap, slack)
        <==> forall m :: 0 <= m < n ==> base + |AnnexB(units[..m])| + |units[m]| + slack <= cap
  {
    if n > 0 {
      assert units[..n][..n - 1] == units[..n - 1];
      StreamFitsOfPrefix(base, units, n - 1, cap, slack);
    }
  }

  /** A converter loop that accepted the first `i` units accepts unit `i` too
      when it fits. */
  lemma StreamFitsStep(base: nat, units: seq<seq<byte>>, i: nat, cap: nat, slack: nat)
    requires i < |units| && StreamFits(base, units[..i], cap, slack)
    requires base + |AnnexB(units[..i])| + |units[i]| + slack <= cap
    ensures StreamFits(base, units[..i + 1], cap, slack)
  {
    assert units[..i + 1][..i] == units[..i];
  }

  /** A converter loop that accepted the first `i` units and then stopped,
      because the list ended or unit `i` did not fit, accepts the whole list
      exactly when it reached its end. */
  lemma StreamFitsExit(base: nat, units: seq<seq<byte>>, i: nat, cap: nat, slack: nat)
    requires i <= |units| && StreamFits(base, units[..i], cap, slack)
    requires i < |units| ==> base + |AnnexB(units[..i])| + |units[i]| + slack > cap
    ensures i == |units| <==> StreamFits(base, units, cap, slack)
  {
    assert units[..|units|] == units;
    if i < |units| {
      StreamFitsOfPrefix(base, units, |units|, cap, slack);
    }
  }

  // ---------------------------------------------------------------------------
  // The 16-bit length fields

  /** The two bytes of a 16-bit length read back as that length. */
  lemma BE16OfLengthPrefix(n: nat)
    requires n < 0x1_0000
    ensures BE16(LengthPrefix(n)[0], LengthPrefix(n)[1]) == n
  {
  }

  /** Two bytes read as a 16-bit length and written back are the same bytes. */
  lemma LengthPrefixOfBE16(hi: byte, lo: byte)
    ensures LengthPrefix(BE16(hi, lo)) == [hi, lo]
  {
  }

  // ---------------------------------------------------------------------------
  // The decoder's unit loop against the length-prefixed encoding

  /** The encoding of a list is its first unit's encoding, then the rest's. */
  lemma EncodeUnitsCons(units: seq<Unit>)
    requires |units| > 0
    ensures EncodeUnits(units) == EncodeUnit(units[0]) + EncodeUnits(units[1..])
  {
    var u, rest := units[0], units[1..];
    assert EncodeUnits([u]) == EncodeUnit(u) by {
      assert [u][..0] == [];
    }
    EncodeUnitsAppend([u], rest);
    assert [u] + rest == units;
  }

  /** The unit NextUnit returns is encoded at the cursor as UnitEncodedAt
      says; when it returns none, no unit is. */
  lemma NextUnitEncoded(data: seq<byte>, j: nat, mayReachEnd: bool)
    requires j + 2 < |data|
    ensures var r := NextUnit(data, j, mayReachEnd);
      (r.Some? ==> UnitEncodedAt(data, j, r.value, mayReachEnd))
      && (r.None? ==> NoUnitAt(data, j, mayReachEnd))
  {
    var len := BE16(data[j], data[j + 1]);
    LengthPrefixOfBE16(data[j], data[j + 1]);
    assert data[j..j + 2] == [data[j], data[j + 1]];
    forall u: Unit | UnitEncodedAt(data, j, u, mayReachEnd)
      ensures NextUnit(data, j, mayReachEnd).Some?
    {
      assert data[j..j + 2] == EncodeUnit(u)[..2] == LengthPrefix(|u|);
      BE16OfLengthPrefix(|u|);
    }
    if NextUnit(data, j, mayReachEnd).Some? {
      var u := NextUnit(data, j, mayReachEnd).value;
      assert data[j..j + 2 + len] == data[j..j + 2] + u;
    }
  }

  /** At most one unit is encoded at an offset: its length field fixes it. */
  lemma UnitEncodedAtUnique(data: seq<byte>, j: nat, u: Unit, v: Unit, mayReachEnd: bool)
    requires UnitEncodedAt(data, j, u, mayReachEnd) && UnitEncodedAt(data, j, v, mayReachEnd)
    ensures u == v
  {
    assert BE16(data[j], data[j + 1]) == |u| by {
      assert data[j..j + 2] == EncodeUnit(u)[..2] == LengthPrefix(|u|);
      BE16OfLengthPrefix(|u|);
    }
    assert BE16(data[j], data[j + 1]) == |v| by {
      assert data[j..j + 2] == EncodeUnit(v)[..2] == LengthPrefix(|v|);
      BE16OfLengthPrefix(|v|);
    }
    assert u == EncodeUnit(u)[2..] == data[j + 2..j + 2 + |u|];
    assert v == EncodeUnit(v)[2..] == data[j + 2..j + 2 + |v|];
  }

  /** The decoder's loop reads the unit encoded at its cursor. */
  lemma NextUnitOfEncoding(data: seq<byte>, j: nat, u: Unit, mayReachEnd: bool)
    requires j + 2 < |data| && UnitEncodedAt(data, j, u, mayReachEnd)
    ensures NextUnit(data, j, mayReachEnd) == Some(u)
  {
    NextUnitEncoded(data, j, mayReachEnd);
    UnitEncodedAtUnique(data, j, NextUnit(data, j, mayReachEnd).value, u, mayReachEnd);
  }

  /** Encoded units at offset `j` of `data` are the first unit's encoding, then
      the rest's. */
  lemma EncodedAt(data: seq<byte>, j: nat, units: seq<Unit>)
    requires |units| > 0
    requires j + |EncodeUnits(units)| <= |data| && data[j..j + |EncodeUnits(units)|] == EncodeUnits(units)
    ensures var j' := j + 2 + |units[0]|;
      j' + |EncodeUnits(units[1..])| == j + |EncodeUnits(units)|
      && data[j..j'] == EncodeUnit(units[0])
      && data[j'..j' + |EncodeUnits(units[1..])|] == EncodeUnits(units[1..])
  {
    var e := EncodeUnits(units);
    EncodeUnitsCons(units);
    var j' := j + 2 + |units[0]|;
    assert data[j..j'] == e[..2 + |units[0]|];
    assert data[j'..j' + |EncodeUnits(units[1..])|] == e[2 + |units[0]|..];
  }

  /** The slots after a loop that stored `units[0]` and then the rest. */
  lemma StoredSlots(slots: seq<Unit>, i: nat, n: nat, units: seq<Unit>)
    requires |units| > 0 && n == i + |units| <= |slots|
    ensures slots[i := units[0]][..i + 1] + units[1..] + slots[i := units[0]][n..]
         == slots[..i] + units + slots[n..]
  {
  }

  /** A loop started at unit `i` that was to fill slots up to `n` filled them,
      without error, with `units`, and stopped at `end`. */
  predicate DecodedAs(p: Parsed, slots: seq<Unit>, i: nat, n: nat, units: seq<Unit>, end: nat)
    requires i <= n <= |slots|
  {
    p.ok && p.filled == n && p.cursor == end && p.slots == slots[..i] + units + slots[n..]
  }

  /** The step of ParseUnitsOfEncoding. */
  lemma ParseUnitsOfEncodingStep(data: seq<byte>, slots: seq<Unit>, i: nat, n: nat, units: seq<Unit>, j: nat, mayReachEnd: bool, end: nat)
    requires |units| > 0 && n == i + |units| <= |slots|
    requires j + 2 < |data| && NextUnit(data, j, mayReachEnd) == Some(units[0])
    requires var u := units[0];
      DecodedAs(ParseUnits(data, slots[i := u], i + 1, n, j + 2 + |u|, mayReachEnd), slots[i := u], i + 1, n, units[1..], end)
    ensures DecodedAs(ParseUnits(data, slots, i, n, j, mayReachEnd), slots, i, n, units, end)
  {
    ParseUnitsUnfold(data, slots, i, n, j, mayReachEnd);
    StoredSlots(slots, i, n, units);
  }

  /** Every unit fits in a slot of the decoder. */
  predicate FitSlots(units: seq<Unit>)
  {
    forall k :: 0 <= k < |units| ==> |units[k]| < UNIT_CAPACITY
  }

  /** The decoder's unit loop reads back the units that were encoded at its
      cursor, provided each is shorter than a slot and the loop cannot mistake
      the end of the input for the end of the list: the encoding is followed by
      at least one byte, or units may reach the end and the last is not empty. */
  lemma {:induction false} ParseUnitsOfEncoding(data: seq<byte>, slots: seq<Unit>, i: nat, n: nat, units: seq<Unit>, j: nat, mayReachEnd: bool)
    requires n == i + |units| <= |slots|
    requires j + |EncodeUnits(units)| <= |data| && data[j..j + |EncodeUnits(units)|] == EncodeUnits(units)
    requires FitSlots(units)
    requires |units| == 0 || j + |EncodeUnits(units)| < |data| || (mayReachEnd && LastNonEmpty(units))
    ensures DecodedAs(ParseUnits(data, slots, i, n, j, mayReachEnd), slots, i, n, units, j + |EncodeUnits(units)|)
    decreases |units|
  {
    if |units| == 0 {
      ParseUnitsHalts(data, slots, i, n, j, mayReachEnd);
      assert slots[..i] + units + slots[i..] == slots;
    } else {
      var u, rest := units[0], units[1..];
      var j' := j + 2 + |u|;
      EncodedAt(data, j, units);
      NextUnitOfEncoding(data, j, u, mayReachEnd);
      assert j' + |EncodeUnits(rest)| == j + |EncodeUnits(units)|;
      assert forall k :: 0 <= k < |rest| ==> rest[k] == units[k + 1];
      if |rest| > 0 {
        assert |EncodeUnits(rest)| >= 2;
      }
      ParseUnitsOfEncoding(data, slots[i := u], i + 1, n, rest, j', mayReachEnd);
      ParseUnitsOfEncodingStep(data, slots, i, n, units, j, mayReachEnd, j + |EncodeUnits(units)|);
    }
  }

  /** One step of the decoder's unit loop: it stores the unit at its cursor
      and goes on after it. */
  lemma ParseUnitsUnfold(data: seq<byte>, slots: seq<Unit>, i: nat, n: nat, j: nat, mayReachEnd: bool)
    requires i < n <= |slots| && j + 2 < |data| && NextUnit(data, j, mayReachEnd).Some?
    ensures var u := NextUnit(data, j, mayReachEnd).value;
      ParseUnits(data, slots, i, n, j, mayReachEnd) == ParseUnits(data, slots[i := u], i + 1, n, j + 2 + |u|, mayReachEnd)
  {
  }

  /** The decoder's unit loop stops where it is when its count is reached, fewer
      than three bytes remain, or no unit can be read at its cursor; only the
      last is an error. */
  lemma ParseUnitsHalts(data: seq<byte>, slots: seq<Unit>, i: nat, n: nat, j: nat, mayReachEnd: bool)
    requires i <= n <= |slots|
    requires !(i < n && j + 2 < |data| && NextUnit(data, j, mayReachEnd).Some?)
    ensures ParseUnits(data, slots, i, n, j, mayReachEnd) == Parsed(slots, i, j, !(i < n && j + 2 < |data|))
  {
  }

  /** The decoder's unit loop leaves the slots before its first one alone. */
  lemma {:induction false} ParseUnitsKeepsBelow(data: seq<byte>, slots: seq<Unit>, i: nat, n: nat, j: nat, mayReachEnd: bool, k: nat)
    requires i <= n <= |slots| && k < i
    ensures ParseUnits(data, slots, i, n, j, mayReachEnd).slots[k] == slots[k]
    decreases n - i
  {
    if i < n && j + 2 < |data| && NextUnit(data, j, mayReachEnd).Some? {
      var u := NextUnit(data, j, mayReachEnd).value;
      ParseUnitsUnfold(data, slots, i, n, j, mayReachEnd);
      ParseUnitsKeepsBelow(data, slots[i := u], i + 1, n, j + 2 + |u|, mayReachEnd, k);
    }
  }

  /** Of the slots `slots` a loop started with at unit `i`, the loop's result
      `p` changed only those it filled, and filled them with units shorter than
      a slot. */
  predicate StoredFrom(p: Parsed, slots: seq<Unit>, i: nat)
  {
    |p.slots| == |slots| && i <= p.filled <= |slots|
    && (forall k :: 0 <= k < |slots| && !(i <= k < p.filled) ==> p.slots[k] == slots[k])
    && (forall k :: i <= k < p.filled ==> |p.slots[k]| < UNIT_CAPACITY)
  }

  /** The step of ParseUnitsSlots. */
  lemma ParseUnitsSlotsStep(data: seq<byte>, slots: seq<Unit>, i: nat, n: nat, j: nat, mayReachEnd: bool)
    requires i < n <= |slots| && j + 2 < |data| && NextUnit(data, j, mayReachEnd).Some?
    requires var u := NextUnit(data, j, mayReachEnd).value;
      StoredFrom(ParseUnits(data, slots[i := u], i + 1, n, j + 2 + |u|, mayReachEnd), slots[i := u], i + 1)
    ensures StoredFrom(ParseUnits(data, slots, i, n, j, mayReachEnd), slots, i)
  {
    var u := NextUnit(data, j, mayReachEnd).value;
    NextUnitEncoded(data, j, mayReachEnd);
    ParseUnitsUnfold(data, slots, i, n, j, mayReachEnd);
    var p := ParseUnits(data, slots[i := u], i + 1, n, j + 2 + |u|, mayReachEnd);
    assert p.slots[i] == slots[i := u][i] == u;
  }

  /** The decoder's unit loop stores only into the slots it fills, and what it
      stores there is shorter than a slot. */
  lemma {:induction false} ParseUnitsSlots(data: seq<byte>, slots: seq<Unit>, i: nat, n: nat, j: nat, mayReachEnd: bool)
    requires i <= n <= |slots|
    ensures StoredFrom(ParseUnits(data, slots, i, n, j, mayReachEnd), slots, i)
    decreases n - i
  {
    if i < n && j + 2 < |data| && NextUnit(data, j, mayReachEnd).Some? {
      var u := NextUnit(data, j, mayReachEnd).value;
      ParseUnitsSlots(data, slots[i := u], i + 1, n, j + 2 + |u|, mayReachEnd);
      ParseUnitsSlotsStep(data, slots, i, n, j, mayReachEnd);
    } else {
      ParseUnitsHalts(data, slots, i, n, j, mayReachEnd);
    }
  }

  /** How a loop that was to fill slots up to `n` ended: short of `n` without
      error only when fewer than three bytes remained, and with an error only
      at a cursor where no unit is encoded as UnitEncodedAt demands. */
  ghost predicate StoppedAt(data: seq<byte>, p: Parsed, n: nat, mayReachEnd: bool)
  {
    (p.ok && p.filled < n ==> p.cursor + 2 >= |data|)
    && (!p.ok ==> p.filled < n && p.cursor + 2 < |data|
                  && NoUnitAt(data, p.cursor, mayReachEnd))
  }

  /** The decoder's unit loop stops early without error only when fewer than
      three bytes remain, and with an error only where no unit is encoded. */
  lemma {:induction false} ParseUnitsStops(data: seq<byte>, slots: seq<Unit>, i: nat, n: nat, j: nat, mayReachEnd: bool)
    requires i <= n <= |slots|
    ensures StoppedAt(data, ParseUnits(data, slots, i, n, j, mayReachEnd), n, mayReachEnd)
    decreases n - i
  {
    if i < n && j + 2 < |data| && NextUnit(data, j, mayReachEnd).Some? {
      var u := NextUnit(data, j, mayReachEnd).value;
      ParseUnitsUnfold(data, slots, i, n, j, mayReachEnd);
      ParseUnitsStops(data, slots[i := u], i + 1, n, j + 2 + |u|, mayReachEnd);
    } else {
      ParseUnitsHalts(data, slots, i, n, j, mayReachEnd);
      if i < n && j + 2 < |data| {
        NextUnitEncoded(data, j, mayReachEnd);
      }
    }
  }

  /** The step of ParseUnitsReads: a loop that read `u` at `j` and then the
      units `i + 1 .. f` read the units `i .. f`. */
  lemma ReadUnitsStep(data: seq<byte>, after: seq<Unit>, i: nat, f: nat, j: nat, u: Unit)
    requires i < f <= |after| && after[i] == u
    requires j + 2 + |u| <= |data| && data[j..j + 2 + |u|] == EncodeUnit(u)
    requires var j' := j + 2 + |u|;
      j' + |EncodeUnits(after[i + 1..f])| <= |data|
      && data[j'..j' + |EncodeUnits(after[i + 1..f])|] == EncodeUnits(after[i + 1..f])
    ensures |EncodeUnits(after[i..f])| == 2 + |u| + |EncodeUnits(after[i + 1..f])|
    ensures data[j..j + |EncodeUnits(after[i..f])|] == EncodeUnits(after[i..f])
  {
    assert after[i..f][1..] == after[i + 1..f];
    EncodeUnitsCons(after[i..f]);
    var j' := j + 2 + |u|;
    assert data[j..j + |EncodeUnits(after[i..f])|] == data[j..j'] + data[j'..j + |EncodeUnits(after[i..f])|];
  }

  /** What ParseUnitsReads states about a loop that starts at unit `i`, cursor
      `j`, given that it read `u` there and what is stated about the loop
      starting at unit `i + 1` right after `u`. */
  predicate ReadFrom(data: seq<byte>, p: Parsed, i: nat, j: nat, mayReachEnd: bool)
  {
    i <= p.filled <= |p.slots|
    && p.cursor == j + |EncodeUnits(p.slots[i..p.filled])|
    && (p.filled > i ==> p.cursor <= |data| && data[j..p.cursor] == EncodeUnits(p.slots[i..p.filled]))
    && (p.filled > i && !mayReachEnd ==> p.cursor < |data|)
  }

  /** A loop that stored nothing read nothing. */
  lemma ReadFromNothing(data: seq<byte>, slots: seq<Unit>, i: nat, j: nat, ok: bool, mayReachEnd: bool)
    requires i <= |slots|
    ensures ReadFrom(data, Parsed(slots, i, j, ok), i, j, mayReachEnd)
  {
    assert slots[i..i] == [];
  }

  /** The step of ParseUnitsReads. */
  lemma ReadFromStep(data: seq<byte>, p: Parsed, i: nat, j: nat, u: Unit, mayReachEnd: bool)
    requires UnitEncodedAt(data, j, u, mayReachEnd)
    requires i < |p.slots| && p.slots[i] == u
    requires ReadFrom(data, p, i + 1, j + 2 + |u|, mayReachEnd)
    ensures ReadFrom(data, p, i, j, mayReachEnd)
  {
    var j' := j + 2 + |u|;
    var e' := EncodeUnits(p.slots[i + 1..p.filled]);
    assert j' + |e'| <= |data| && data[j'..j' + |e'|] == e';
    ReadUnitsStep(data, p.slots, i, p.filled, j, u);
  }

  /** The step of ParseUnitsReads, on the loop itself. */
  lemma ParseUnitsReadsStep(data: seq<byte>, slots: seq<Unit>, i: nat, n: nat, j: nat, mayReachEnd: bool)
    requires i < n <= |slots| && j + 2 < |data| && NextUnit(data, j, mayReachEnd).Some?
    requires var u := NextUnit(data, j, mayReachEnd).value;
      ReadFrom(data, ParseUnits(data, slots[i := u], i + 1, n, j + 2 + |u|, mayReachEnd), i + 1, j + 2 + |u|, mayReachEnd)
    ensures ReadFrom(data, ParseUnits(data, slots, i, n, j, mayReachEnd), i, j, mayReachEnd)
  {
    var u := NextUnit(data, j, mayReachEnd).value;
    var j' := j + 2 + |u|;
    var p' := ParseUnits(data, slots[i := u], i + 1, n, j', mayReachEnd);
    assert UnitEncodedAt(data, j, u, mayReachEnd) by { NextUnitEncoded(data, j, mayReachEnd); }
    ParseUnitsKeepsBelow(data, slots[i := u], i + 1, n, j', mayReachEnd, i);
    ReadFromStep(data, p', i, j, u, mayReachEnd);
    ParseUnitsUnfold(data, slots, i, n, j, mayReachEnd);
    assert ParseUnits(data, slots, i, n, j, mayReachEnd) == p';
  }

  /** The decoder's unit loop read, from its cursor on, the length-prefixed
      encoding of the units it stored; an SPS loop never reads up to the end. */
  lemma {:induction false} ParseUnitsReads(data: seq<byte>, slots: seq<Unit>, i: nat, n: nat, j: nat, mayReachEnd: bool)
    requires i <= n <= |slots|
    ensures ReadFrom(data, ParseUnits(data, slots, i, n, j, mayReachEnd), i, j, mayReachEnd)
    decreases n - i
  {
    if i < n && j + 2 < |data| && NextUnit(data, j, mayReachEnd).Some? {
      var u := NextUnit(data, j, mayReachEnd).value;
      ParseUnitsReads(data, slots[i := u], i + 1, n, j + 2 + |u|, mayReachEnd);
      ParseUnitsReadsStep(data, slots, i, n, j, mayReachEnd);
    } else {
      ParseUnitsHalts(data, slots, i, n, j, mayReachEnd);
      ReadFromNothing(data, slots, i, j, !(i < n && j + 2 < |data|), mayReachEnd);
    }
  }

  // ---------------------------------------------------------------------------
  // The header byte that carries the NAL unit length size

  /** The length-size byte the encoder writes, `0xFC | nalu`, is read back by the
      decoder as `(nalu & 3) + 1`: every valid length size 1, 2, 3, 4 comes back
      as 2, 3, 4, 1. */
  lemma LengthSizeShifts(a: AvcConfig, b: AvcConfig, x: seq<byte>)
    requires |x| >= 1
    ensures DecodeHeader(Header(a) + x, b).nalu == a.nalu % 4 + 1
    ensures 1 <= a.nalu <= 4 ==> DecodeHeader(Header(a) + x, b).nalu != a.nalu
  {
    assert (Header(a) + x)[4] == WithReserved(a.nalu, 4);
  }

  /** The encoder accepts 32 SPS units, but the 5-bit count it writes for them
      reads back as 0. */
  lemma SpsCountOfThirtyTwo(a: AvcConfig, b: AvcConfig, x: seq<byte>)
    requires a.nbSps == 32 && |x| >= 1
    ensures DecodeHeader(Header(a) + x, b).nbSps == 0
  {
    assert (Header(a) + x)[5] == WithReserved(a.nbSps, 32);
  }

  // ---------------------------------------------------------------------------
  // Decoding an encoded record

  /** There is a unit, and the last one is not empty. */
  predicate LastNonEmpty(units: seq<Unit>)
  {
    |units| > 0 && |units[|units| - 1]| > 0
  }

  /** The record `b` after the decoder reads the encoding of `a`: the header
      fields, counts and units in use of `a`, the length size its header byte
      carries (see LengthSizeShifts), and the other slots and the extension
      fields of `b`. */
  function Restored(a: AvcConfig, b: AvcConfig): (r: AvcConfig)
    requires a.CountsInSlots() && b.Valid()
  {
    SpsRestored(a, b).(nbPps := a.nbPps, pps := a.PpsList() + b.pps[a.nbPps..])
  }

  /** Restored as far as the PPS count: the header fields and SPS units of `a`. */
  function SpsRestored(a: AvcConfig, b: AvcConfig): (r: AvcConfig)
    requires a.CountsInSlots() && b.Valid()
  {
    b.(profile := a.profile, compatibility := a.compatibility, level := a.level,
       nalu := a.nalu % 4 + 1, nbSps := a.nbSps, sps := a.SpsList() + b.sps[a.nbSps..])
  }

  /** Where the parts of an encoded record lie. */
  lemma BodyLayout(a: AvcConfig, rest: seq<byte>)
    requires a.CountsInSlots()
    ensures var data, j, es, ep := ConfigBody(a) + rest, |SpsSection(a)|, EncodeUnits(a.SpsList()), EncodeUnits(a.PpsList());
      j == 6 + |es| && |ConfigBody(a)| == j + 1 + |ep| && |data| == j + 1 + |ep| + |rest|
      && data[..6] == Header(a) && data[6..j] == es && data[j] == a.nbPps && data[j + 1..j + 1 + |ep|] == ep
  {
    var data, j, es, ep := ConfigBody(a) + rest, |SpsSection(a)|, EncodeUnits(a.SpsList()), EncodeUnits(a.PpsList());
    assert data == Header(a) + es + [a.nbPps] + ep + rest;
    assert data[6..j] == es;
    assert data[j + 1..j + 1 + |ep|] == ep;
  }

  /** The decoder's header step on an encoded record with fewer than 32 SPS units. */
  lemma HeaderOfBody(a: AvcConfig, b: AvcConfig, data: seq<byte>)
    requires a.nbSps < 32 && |data| >= 7 && data[..6] == Header(a)
    ensures DecodeHeader(data, b) == b.(profile := a.profile, compatibility := a.compatibility, level := a.level,
                                        nalu := a.nalu % 4 + 1, nbSps := a.nbSps)
  {
    assert data[4] == Header(a)[4] && data[5] == Header(a)[5];
  }

  /** The decoder's SPS loop on an encoded record reads back the SPS units in use
      and stops at the PPS count. */
  lemma SpsOfBody(a: AvcConfig, b: AvcConfig, rest: seq<byte>)
    requires a.CountsInSlots() && b.Valid() && FitSlots(a.SpsList())
    ensures var data := ConfigBody(a) + rest;
      DecodedAs(ParseUnits(data, b.sps, 0, a.nbSps, 6, false), b.sps, 0, a.nbSps, a.SpsList(), |SpsSection(a)|)
  {
    var data := ConfigBody(a) + rest;
    BodyLayout(a, rest);
    ParseUnitsOfEncoding(data, b.sps, 0, a.nbSps, a.SpsList(), 6, false);
  }

  /** The decoder's PPS loop on an encoded record reads back the PPS units in use,
      provided it cannot mistake the end of the input for the end of the list. */
  lemma PpsOfBody(a: AvcConfig, b: AvcConfig, rest: seq<byte>)
    requires a.CountsInSlots() && b.Valid() && FitSlots(a.PpsList())
    requires |rest| > 0 || LastNonEmpty(a.PpsList())
    ensures var data := ConfigBody(a) + rest;
      DecodedAs(ParseUnits(data, b.pps, 0, a.nbPps, |SpsSection(a)| + 1, true), b.pps, 0, a.nbPps, a.PpsList(), |ConfigBody(a)|)
  {
    var data := ConfigBody(a) + rest;
    BodyLayout(a, rest);
    ParseUnitsOfEncoding(data, b.pps, 0, a.nbPps, a.PpsList(), |SpsSection(a)| + 1, true);
  }

  /** The decoder on an encoded record reaches the PPS count with the header
      and the SPS units of `a` stored. */
  lemma LoadSpsOfBody(a: AvcConfig, b: AvcConfig, rest: seq<byte>)
    requires a.CountsInSlots() && a.nbSps < 32 && b.Valid() && FitSlots(a.SpsList())
    ensures LoadRecord(ConfigBody(a) + rest, b) == LoadPps(ConfigBody(a) + rest, SpsRestored(a, b), a.nbSps, |SpsSection(a)|)
  {
    var data := ConfigBody(a) + rest;
    BodyLayout(a, rest);
    HeaderOfBody(a, b, data);
    var h := DecodeHeader(data, b);
    SpsOfBody(a, b, rest);
    var s := ParseUnits(data, h.sps, 0, h.nbSps, 6, false);
    assert s.slots == a.SpsList() + b.sps[a.nbSps..] by { assert b.sps[..0] == []; }
  }

  /** The decoder from the PPS count of an encoded record on stores the PPS units
      of `a` and consumes the rest of the encoding. */
  lemma LoadPpsOfBody(a: AvcConfig, hs: AvcConfig, rest: seq<byte>, spsRead: nat)
    requires a.CountsInSlots() && hs.Valid() && FitSlots(a.PpsList())
    requires |rest| > 0 || LastNonEmpty(a.PpsList())
    ensures LoadPps(ConfigBody(a) + rest, hs, spsRead, |SpsSection(a)|)
         == Loaded(hs.(nbPps := a.nbPps, pps := a.PpsList() + hs.pps[a.nbPps..]), |ConfigBody(a)|,
                   spsRead, |SpsSection(a)|, a.nbPps)
  {
    var data := ConfigBody(a) + rest;
    BodyLayout(a, rest);
    PpsOfBody(a, hs, rest);
    var p := ParseUnits(data, hs.pps, 0, a.nbPps, |SpsSection(a)| + 1, true);
    assert p.slots == a.PpsList() + hs.pps[a.nbPps..] by { assert hs.pps[..0] == []; }
  }

  /** Decoding the encoding of `a`, followed by anything, into a record `b`
      restores `a` and consumes exactly the encoding. The decoder cannot tell
      where the PPS list ends when the input ends: the encoding must be followed
      by at least one byte, or the record must have PPS units and the last of
      them must not be empty. */
  lemma LoadOfBody(a: AvcConfig, b: AvcConfig, rest: seq<byte>)
    requires a.CountsInSlots() && a.nbSps < 32 && b.Valid()
    requires FitSlots(a.SpsList()) && FitSlots(a.PpsList())
    requires |rest| > 0 || LastNonEmpty(a.PpsList())
    ensures LoadRecord(ConfigBody(a) + rest, b).config == Restored(a, b)
    ensures LoadRecord(ConfigBody(a) + rest, b).result == |ConfigBody(a)|
  {
    LoadSpsOfBody(a, b, rest);
    LoadPpsOfBody(a, SpsRestored(a, b), rest, a.nbSps);
  }

  /** Decoding what the encoder wrote into a buffer of `cap` bytes restores the
      record. The extension, when the encoder writes one, is left unread and
      itself ends the PPS list. */
  lemma LoadOfSave(a: AvcConfig, b: AvcConfig, cap: nat, rest: seq<byte>)
    requires a.CountsInSlots() && a.nbSps < 32 && b.Valid() && SaveFits(a, cap)
    requires FitSlots(a.SpsList()) && FitSlots(a.PpsList())
    requires HasExtension(a, cap) || |rest| > 0 || LastNonEmpty(a.PpsList())
    ensures LoadRecord(ConfigRecord(a, cap) + rest, b).config == Restored(a, b)
    ensures LoadRecord(ConfigRecord(a, cap) + rest, b).result == |ConfigBody(a)|
  {
    var tail := (if HasExtension(a, cap) then Extension(a) else []) + rest;
    assert ConfigRecord(a, cap) + rest == ConfigBody(a) + tail;
    LoadOfBody(a, b, tail);
  }

  /** Decoding the encoding of a record into that record changes only its length
      size. */
  lemma LoadOfOwnBody(a: AvcConfig, rest: seq<byte>)
    requires a.CountsInSlots() && a.nbSps < 32
    requires FitSlots(a.SpsList()) && FitSlots(a.PpsList())
    requires |rest| > 0 || LastNonEmpty(a.PpsList())
    ensures LoadRecord(ConfigBody(a) + rest, a).config == a.(nalu := a.nalu % 4 + 1)
  {
    LoadOfBody(a, a, rest);
    RestoredOwn(a);
  }

  /** Restored into the record itself changes only the length size. */
  lemma RestoredOwn(a: AvcConfig)
    requires a.CountsInSlots()
    ensures Restored(a, a) == a.(nalu := a.nalu % 4 + 1)
  {
    assert a.SpsList() + a.sps[a.nbSps..] == a.sps;
    assert a.PpsList() + a.pps[a.nbPps..] == a.pps;
  }

  // ---------------------------------------------------------------------------
  // What the decoder accepts

  /** When the decoder succeeds on `data`, the record holds the header fields of
      `data`, a length size of 1..4 and counts within the slots; `data` holds,
      after the header, the length-prefixed SPS units read, the PPS count and the
      length-prefixed PPS units read, and the result is where those end. The
      decoder also succeeds on a truncated record: it stops reading SPS (or PPS)
      units once fewer than three bytes remain, and then a missing SPS leaves
      exactly two bytes, the PPS count and one more, and no PPS is read. */
  lemma LoadAccepted(data: seq<byte>, b: AvcConfig)
    requires b.Valid()
    ensures var l := LoadRecord(data, b); var c := l.config;
      l.result >= 0 ==>
        |data| >= 7 && c.CountsInSlots()
        && c.profile == data[1] && c.compatibility == data[2] && c.level == data[3]
        && c.nalu == data[4] % 4 + 1 && 1 <= c.nalu <= 4 && c.nbSps == data[5] % 32
        && l.spsRead <= c.nbSps && l.ppsRead <= c.nbPps
        && l.ppsCountAt == 6 + |EncodeUnits(c.sps[..l.spsRead])| && l.ppsCountAt + 1 < |data|
        && data[6..l.ppsCountAt] == EncodeUnits(c.sps[..l.spsRead])
        && data[l.ppsCountAt] == c.nbPps
        && l.result == l.ppsCountAt + 1 + |EncodeUnits(c.pps[..l.ppsRead])| <= |data|
        && data[l.ppsCountAt + 1..l.result] == EncodeUnits(c.pps[..l.ppsRead])
        && (l.spsRead < c.nbSps ==> l.ppsCountAt + 2 == |data| && l.ppsRead == 0)
        && (l.ppsRead < c.nbPps ==> l.result + 2 >= |data|)
  {
    var l := LoadRecord(data, b);
    if |data| >= 7 && l.result >= 0 {
      var h := DecodeHeader(data, b);
      var s := ParseUnits(data, h.sps, 0, h.nbSps, 6, false);
      ParseUnitsReads(data, h.sps, 0, h.nbSps, 6, false);
      ParseUnitsStops(data, h.sps, 0, h.nbSps, 6, false);
      var hs := h.(sps := s.slots);
      assert s.ok && l == LoadPps(data, hs, s.filled, s.cursor);
      LoadPpsAccepted(data, hs, s.filled, s.cursor);
      assert s.slots[0..s.filled] == s.slots[..s.filled];
    }
  }

  /** LoadAccepted from the PPS count at `j` on. */
  lemma LoadPpsAccepted(data: seq<byte>, hs: AvcConfig, spsRead: nat, j: nat)
    requires hs.Valid()
    ensures var l := LoadPps(data, hs, spsRead, j); var c := l.config;
      l.result >= 0 ==>
        c == hs.(nbPps := c.nbPps, pps := c.pps) && c.Valid()
        && l.spsRead == spsRead && l.ppsCountAt == j && j + 1 < |data|
        && c.nbPps == data[j] <= PPS_SLOTS && l.ppsRead <= c.nbPps
        && l.result == j + 1 + |EncodeUnits(c.pps[..l.ppsRead])| <= |data|
        && data[j + 1..l.result] == EncodeUnits(c.pps[..l.ppsRead])
        && (l.ppsRead < c.nbPps ==> l.result + 2 >= |data|)
        && (j + 2 == |data| ==> l.ppsRead == 0)
  {
    var l := LoadPps(data, hs, spsRead, j);
    if l.result >= 0 {
      var hp := hs.(nbPps := data[j]);
      var p := ParseUnits(data, hp.pps, 0, hp.nbPps, j + 1, true);
      ParseUnitsReads(data, hp.pps, 0, hp.nbPps, j + 1, true);
      ParseUnitsStops(data, hp.pps, 0, hp.nbPps, j + 1, true);
      assert l == Loaded(hp.(pps := p.slots), p.cursor, spsRead, j, p.filled);
      assert p.slots[0..p.filled] == p.slots[..p.filled];
    }
  }

  /** Whatever its outcome, the decoder stores only into the slots it fills,
      with units shorter than a slot, and leaves the later slots of `b` alone. */
  lemma LoadSlots(data: seq<byte>, b: AvcConfig)
    requires b.Valid()
    ensures var l := LoadRecord(data, b); var c := l.config;
      l.spsRead <= SPS_SLOTS && l.ppsRead <= PPS_SLOTS
      && FitSlots(c.sps[..l.spsRead]) && FitSlots(c.pps[..l.ppsRead])
      && (forall k :: l.spsRead <= k < SPS_SLOTS ==> c.sps[k] == b.sps[k])
      && (forall k :: l.ppsRead <= k < PPS_SLOTS ==> c.pps[k] == b.pps[k])
  {
    if |data| >= 7 {
      var h := DecodeHeader(data, b);
      var s := ParseUnits(data, h.sps, 0, h.nbSps, 6, false);
      ParseUnitsSlots(data, h.sps, 0, h.nbSps, 6, false);
      var hs := h.(sps := s.slots);
      if s.ok {
        LoadPpsSlots(data, hs, s.filled, s.cursor);
      }
    }
  }

  /** LoadSlots from the PPS count at `j` on. */
  lemma LoadPpsSlots(data: seq<byte>, hs: AvcConfig, spsRead: nat, j: nat)
    requires hs.Valid()
    ensures var l := LoadPps(data, hs, spsRead, j); var c := l.config;
      c.sps == hs.sps && l.spsRead == spsRead && l.ppsRead <= PPS_SLOTS && FitSlots(c.pps[..l.ppsRead])
      && (forall k :: l.ppsRead <= k < PPS_SLOTS ==> c.pps[k] == hs.pps[k])
  {
    if !(j + 1 >= |data| || data[j] > PPS_SLOTS) {
      var hp := hs.(nbPps := data[j]);
      ParseUnitsSlots(data, hp.pps, 0, hp.nbPps, j + 1, true);
    }
  }

  /** The decoder fails, returning -1, only on an input shorter than seven
      bytes, on an SPS it cannot read where one is due, on a PPS count with no
      byte after it or above PPS_SLOTS, or on a PPS it cannot read where one is
      due. A unit cannot be read where no unit is encoded as UnitEncodedAt
      demands: an SPS must end before the end of the input, a PPS may end at it,
      and both must be shorter than a slot. Where a unit is due, three bytes or
      more remain. */
  lemma LoadRejected(data: seq<byte>, b: AvcConfig)
    requires b.Valid()
    ensures var l := LoadRecord(data, b); var c := l.config;
      var spsEnd := 6 + |EncodeUnits(c.sps[..l.spsRead])|;
      var ppsEnd := l.ppsCountAt + 1 + |EncodeUnits(c.pps[..l.ppsRead])|;
      l.result < 0 ==>
        l.result == -1
        && (|data| < 7
            || (l.spsRead < c.nbSps && spsEnd + 2 < |data| && NoUnitAt(data, spsEnd, false))
            || (l.ppsCountAt == spsEnd && (spsEnd + 1 >= |data| || data[spsEnd] > PPS_SLOTS))
            || (l.ppsCountAt == spsEnd && l.ppsRead < c.nbPps && ppsEnd + 2 < |data|
                && NoUnitAt(data, ppsEnd, true)))
  {
    if |data| >= 7 && LoadRecord(data, b).result < 0 {
      var h := DecodeHeader(data, b);
      if ParseUnits(data, h.sps, 0, h.nbSps, 6, false).ok {
        LoadRejectedAtPps(data, b);
      } else {
        LoadRejectedAtSps(data, b);
      }
    }
  }

  /** LoadRejected when the SPS loop fails. */
  lemma LoadRejectedAtSps(data: seq<byte>, b: AvcConfig)
    requires b.Valid() && |data| >= 7
    requires !ParseUnits(data, DecodeHeader(data, b).sps, 0, DecodeHeader(data, b).nbSps, 6, false).ok
    ensures var l := LoadRecord(data, b); var c := l.config;
      var spsEnd := 6 + |EncodeUnits(c.sps[..l.spsRead])|;
      l.result == -1 && l.spsRead < c.nbSps && spsEnd + 2 < |data| && NoUnitAt(data, spsEnd, false)
  {
    var h := DecodeHeader(data, b);
    var s := ParseUnits(data, h.sps, 0, h.nbSps, 6, false);
    SpsLoopOutcome(data, h.sps, h.nbSps);
    assert LoadRecord(data, b) == Loaded(h.(sps := s.slots), -1, s.filled, 0, 0);
  }

  /** LoadRejected when the SPS loop succeeds and the decoder fails later. */
  lemma LoadRejectedAtPps(data: seq<byte>, b: AvcConfig)
    requires b.Valid() && |data| >= 7 && LoadRecord(data, b).result < 0
    requires ParseUnits(data, DecodeHeader(data, b).sps, 0, DecodeHeader(data, b).nbSps, 6, false).ok
    ensures var l := LoadRecord(data, b); var c := l.config;
      var spsEnd := 6 + |EncodeUnits(c.sps[..l.spsRead])|;
      var ppsEnd := l.ppsCountAt + 1 + |EncodeUnits(c.pps[..l.ppsRead])|;
      l.result == -1 && l.ppsCountAt == spsEnd
      && ((spsEnd + 1 >= |data| || data[spsEnd] > PPS_SLOTS)
          || (l.ppsRead < c.nbPps && ppsEnd + 2 < |data| && NoUnitAt(data, ppsEnd, true)))
  {
    var h := DecodeHeader(data, b);
    var s := ParseUnits(data, h.sps, 0, h.nbSps, 6, false);
    SpsLoopOutcome(data, h.sps, h.nbSps);
    var hs := h.(sps := s.slots);
    assert LoadRecord(data, b) == LoadPps(data, hs, s.filled, s.cursor);
    LoadPpsRejected(data, hs, s.filled, s.cursor);
  }

  /** What ParseUnitsReads and ParseUnitsStops state about the decoder's SPS loop. */
  lemma SpsLoopOutcome(data: seq<byte>, slots: seq<Unit>, n: nat)
    requires n <= |slots|
    ensures var s := ParseUnits(data, slots, 0, n, 6, false);
      s.cursor == 6 + |EncodeUnits(s.slots[..s.filled])|
      && (!s.ok ==> s.filled < n && s.cursor + 2 < |data| && NoUnitAt(data, s.cursor, false))
  {
    var s := ParseUnits(data, slots, 0, n, 6, false);
    ParseUnitsReads(data, slots, 0, n, 6, false);
    ParseUnitsStops(data, slots, 0, n, 6, false);
    assert s.slots[0..s.filled] == s.slots[..s.filled];
  }

  /** LoadRejected from the PPS count at `j` on. */
  lemma LoadPpsRejected(data: seq<byte>, hs: AvcConfig, spsRead: nat, j: nat)
    requires hs.Valid()
    ensures var l := LoadPps(data, hs, spsRead, j); var c := l.config;
      var ppsEnd := j + 1 + |EncodeUnits(c.pps[..l.ppsRead])|;
      l.result < 0 ==>
        l.result == -1 && c.sps == hs.sps && c.nbSps == hs.nbSps && l.spsRead == spsRead && l.ppsCountAt == j
        && ((j + 1 >= |data| || data[j] > PPS_SLOTS)
            || (l.ppsRead < c.nbPps && ppsEnd + 2 < |data| && NoUnitAt(data, ppsEnd, true)))
  {
    var l := LoadPps(data, hs, spsRead, j);
    if l.result < 0 && !(j + 1 >= |data| || data[j] > PPS_SLOTS) {
      var hp := hs.(nbPps := data[j]);
      var p := ParseUnits(data, hp.pps, 0, hp.nbPps, j + 1, true);
      ParseUnitsReads(data, hp.pps, 0, hp.nbPps, j + 1, true);
      ParseUnitsStops(data, hp.pps, 0, hp.nbPps, j + 1, true);
      assert p.slots[0..p.filled] == p.slots[..p.filled];
    }
  }

  /** The encoder's output, field by field: the header with its reserved bits,
      the SPS units, the PPS count, the PPS units and, exactly when the profile
      is a high one and four bytes of capacity remain, the extension. */
  lemma ConfigRecordLayout(a: AvcConfig, cap: nat)
    requires a.CountsInSlots()
    ensures var r, body, j := ConfigRecord(a, cap), |ConfigBody(a)|, |SpsSection(a)|;
      j < body <= |r| && r[..body] == ConfigBody(a)
      && r[0] == 1 && r[1] == a.profile && r[2] == a.compatibility && r[3] == a.level
      && r[4] == 0xFC + a.nalu % 4 && r[5] == 0xE0 + a.nbSps % 32
      && r[6..j] == EncodeUnits(a.SpsList()) && r[j] == a.nbPps
      && r[j + 1..body] == EncodeUnits(a.PpsList())
      && (|r| > body <==> HasExtension(a, cap))
      && (HasExtension(a, cap) ==>
            r[body..] == [0xFC + a.chromaFormatIdc % 4, 0xF8 + a.bitDepthLumaMinus8 % 8,
                          0xF8 + a.bitDepthChromaMinus8 % 8, 0])
  {
    BodyLayout(a, if HasExtension(a, cap) then Extension(a) else []);
  }

  /** A baseline record with one SPS and one PPS of four bytes each, and a NAL
      unit length field of 3. */
  function Baseline(): (a: AvcConfig)
    ensures a.CountsInSlots() && a.SpsList() == [[0x67, 0x42, 0x00, 0x1E]] && a.PpsList() == [[0x68, 0xCE, 0x3C, 0x80]]
  {
    var s: Unit, q: Unit := [0x67, 0x42, 0x00, 0x1E], [0x68, 0xCE, 0x3C, 0x80];
    var a := AvcConfig(66, 0, 0x1E, 3, 1, [s] + seq(SPS_SLOTS - 1, _ => []), 1, [q] + seq(PPS_SLOTS - 1, _ => []), 0, 0, 0);
    assert a.SpsList() == [s] && a.PpsList() == [q];
    a
  }

  /** The encoder writes the baseline record in 19 bytes, without extension. */
  lemma BaselineRecord()
    ensures ConfigRecord(Baseline(), 64)
         == [0x01, 0x42, 0x00, 0x1E, 0xFF, 0xE1, 0x00, 0x04, 0x67, 0x42, 0x00, 0x1E,
             0x01, 0x00, 0x04, 0x68, 0xCE, 0x3C, 0x80]
  {
    var s: Unit, q: Unit := [0x67, 0x42, 0x00, 0x1E], [0x68, 0xCE, 0x3C, 0x80];
    assert [s][..0] == [] && [q][..0] == [];
    assert EncodeUnits([s]) == [0x00, 0x04, 0x67, 0x42, 0x00, 0x1E];
    assert EncodeUnits([q]) == [0x00, 0x04, 0x68, 0xCE, 0x3C, 0x80];
    assert Header(Baseline()) == [0x01, 0x42, 0x00, 0x1E, 0xFF, 0xE1];
    assert !HighProfile(66);
  }

  /** The converter gives each baseline unit a start code. */
  lemma BaselineStream()
    ensures NaluStream(Baseline()) == [0, 0, 0, 1, 0x67, 0x42, 0x00, 0x1E, 0, 0, 0, 1, 0x68, 0xCE, 0x3C, 0x80]
  {
    var s: seq<byte>, q: seq<byte> := [0x67, 0x42, 0x00, 0x1E], [0x68, 0xCE, 0x3C, 0x80];
    assert [s][..0] == [] && [q][..0] == [];
    assert AnnexB([s]) == [0, 0, 0, 1, 0x67, 0x42, 0x00, 0x1E];
    assert AnnexB([q]) == [0, 0, 0, 1, 0x68, 0xCE, 0x3C, 0x80];
  }

  // ---------------------------------------------------------------------------
  // The Annex B stream

  /** A converted unit starts with a start code and ends with the unit; it is
      the unit itself exactly when the unit needs none (at least four bytes
      that pass the start-code test), and otherwise four bytes longer. */
  lemma AnnexBUnitShape(u: seq<byte>)
    ensures var r := AnnexBUnit(u);
      |r| >= 4 && StartCode(r) && r[|r| - |u|..] == u
      && (|r| == |u| <==> !NeedsStartCode(u))
      && (NeedsStartCode(u) <==> |r| == |u| + 4)
  {
  }

  /** Converting a converted unit again changes nothing. */
  lemma AnnexBUnitIdempotent(u: seq<byte>)
    ensures AnnexBUnit(AnnexBUnit(u)) == AnnexBUnit(u)
  {
    AnnexBUnitShape(u);
  }

  /** A unit shorter than four bytes is always given a start code, even when it
      is itself the three-byte start code: the stream then holds two. */
  lemma ShortStartCodeDoubled()
    ensures NeedsStartCode([0, 0, 1])
    ensures AnnexBUnit([0, 0, 1]) == [0, 0, 0, 1] + [0, 0, 1]
    ensures AnnexB([[0, 0, 1]]) != Concat([[0, 0, 1]])
  {
    assert [[0, 0, 1]][..0] == [];
    assert AnnexB([[0, 0, 1]]) == AnnexB([]) + AnnexBUnit([0, 0, 1]);
  }

  /** Units that need no start code are copied as they are. */
  lemma {:induction false} AnnexBOfStartCoded(units: seq<seq<byte>>)
    requires forall k :: 0 <= k < |units| ==> !NeedsStartCode(units[k])
    ensures AnnexB(units) == Concat(units)
  {
    if |units| > 0 {
      var n := |units| - 1;
      assert forall k :: 0 <= k < n ==> units[..n][k] == units[k];
      AnnexBOfStartCoded(units[..n]);
    }
  }

  /** The stream holds every unit and at most one start code per unit. */
  lemma {:induction false} AnnexBLength(units: seq<seq<byte>>)
    ensures |Concat(units)| <= |AnnexB(units)| <= |Concat(units)| + 4 * |units|
  {
    if |units| > 0 {
      var n := |units| - 1;
      AnnexBLength(units[..n]);
      AnnexBUnitShape(units[n]);
    }
  }

  /** A converter loop that accepted every unit wrote at most 4 - `slack` bytes
      past the capacity: its last unit fitted with `slack` bytes to spare and
      gained at most a 4-byte start code. */
  lemma StreamFitsEnd(base: nat, units: seq<seq<byte>>, cap: nat, slack: nat)
    requires StreamFits(base, units, cap, slack) && |units| > 0
    ensures base + |AnnexB(units)| + slack <= cap + 4
  {
    var n := |units| - 1;
    assert base + |AnnexB(units[..n])| + |units[n]| + slack <= cap;
    AnnexBUnitShape(units[n]);
  }

  /** Reserving more room before each unit accepts fewer lists. */
  lemma {:induction false} StreamFitsWeaker(base: nat, units: seq<seq<byte>>, cap: nat, slack: nat, slack': nat)
    requires slack' <= slack && StreamFits(base, units, cap, slack)
    ensures StreamFits(base, units, cap, slack')
    decreases |units|
  {
    if |units| > 0 {
      StreamFitsWeaker(base, units[..|units| - 1], cap, slack, slack');
    }
  }

  /** When both loops of the converter reserve room for a start code, a
      successful conversion fits in the buffer. */
  lemma ToNaluWithinCapacity(a: AvcConfig, cap: nat)
    requires a.CountsInSlots() && NaluFits(a, cap)
    ensures |NaluStream(a)| <= cap
  {
    var s, q := a.SpsList(), a.PpsList();
    if |q| > 0 {
      StreamFitsEnd(|AnnexB(s)|, q, cap, 4);
    } else if |s| > 0 {
      StreamFitsEnd(0, s, cap, 4);
    }
  }

  /** The converter as the source has it succeeds whenever the corrected one
      does, with the same stream. */
  lemma ToNaluAsWrittenAgrees(a: AvcConfig, cap: nat)
    requires a.CountsInSlots() && NaluFits(a, cap)
    ensures ToNaluAsWritten(a, cap) == Some(NaluStream(a))
  {
    StreamFitsWeaker(|AnnexB(a.SpsList())|, a.PpsList(), cap, 4, 2);
  }

  /** The converter as the source has it may return a stream up to two bytes
      longer than its buffer. */
  lemma ToNaluAsWrittenBound(a: AvcConfig, cap: nat)
    requires a.CountsInSlots() && ToNaluAsWritten(a, cap).Some?
    ensures |ToNaluAsWritten(a, cap).value| <= cap + 2
  {
    var s, q := a.SpsList(), a.PpsList();
    if |q| > 0 {
      StreamFitsEnd(|AnnexB(s)|, q, cap, 2);
    } else if |s| > 0 {
      StreamFitsEnd(0, s, cap, 4);
    }
  }

  /** A converter loop that accepted every unit, the last of which needed no
      start code, kept `slack` bytes of its buffer free. */
  lemma StreamFitsEndStartCoded(base: nat, units: seq<seq<byte>>, cap: nat, slack: nat)
    requires StreamFits(base, units, cap, slack) && |units| > 0
    requires !NeedsStartCode(units[|units| - 1])
    ensures base + |AnnexB(units)| + slack <= cap
  {
    var n := |units| - 1;
    assert base + |AnnexB(units[..n])| + |units[n]| + slack <= cap;
    AnnexBUnitShape(units[n]);
  }

  /** The converter as the source has it stays within its buffer when no PPS
      needs a start code. */
  lemma ToNaluAsWrittenStartCoded(a: AvcConfig, cap: nat)
    requires a.CountsInSlots() && ToNaluAsWritten(a, cap).Some?
    requires forall k :: 0 <= k < |a.PpsList()| ==> !NeedsStartCode(a.PpsList()[k])
    ensures |ToNaluAsWritten(a, cap).value| <= cap
  {
    var s, q := a.SpsList(), a.PpsList();
    if |q| > 0 {
      StreamFitsEndStartCoded(|AnnexB(s)|, q, cap, 2);
    } else if |s| > 0 {
      StreamFitsEnd(0, s, cap, 4);
    }
  }

  /** A record with no SPS and one one-byte PPS, converted into a buffer of three
      bytes by the converter as the source has it: the PPS loop lets the unit in
      with two bytes to spare, then writes a four-byte start code and the unit,
      five bytes in all. */
  lemma ToNaluAsWrittenOverrun()
    ensures var a := AvcConfig(0, 0, 0, 4, 0, seq(SPS_SLOTS, _ => []), 1, [[0x68]] + seq(PPS_SLOTS - 1, _ => []), 0, 0, 0);
      a.CountsInSlots() && ToNaluAsWritten(a, 3) == Some([0, 0, 0, 1, 0x68]) && !NaluFits(a, 3)
  {
    var a := AvcConfig(0, 0, 0, 4, 0, seq(SPS_SLOTS, _ => []), 1, [[0x68]] + seq(PPS_SLOTS - 1, _ => []), 0, 0, 0);
    var q: seq<seq<byte>> := [[0x68]];
    assert a.SpsList() == [] && a.PpsList() == q;
    assert q[..0] == [];
    assert AnnexB(q) == AnnexB([]) + AnnexBUnit([0x68]);
    assert AnnexBUnit([0x68]) == [0, 0, 0, 1, 0x68];
    assert NaluStream(a) == [0, 0, 0, 1, 0x68];
    assert StreamFits(0, q, 3, 2);
    assert !StreamFits(0, q, 3, 4);
    assert |AnnexB(a.SpsList())| == 0;
  }

  /** A record with no SPS and one five-byte PPS that needs no start code,
      converted into a buffer of seven bytes: the converter as the source has it
      copies the five bytes and stays within the buffer, while the corrected
      converter, which reserves four bytes past every unit, rejects it. */
  lemma ToNaluStartCodedSlack()
    ensures var a := AvcConfig(0, 0, 0, 4, 0, seq(SPS_SLOTS, _ => []), 1, [[0, 0, 0, 1, 0x68]] + seq(PPS_SLOTS - 1, _ => []), 0, 0, 0);
      a.CountsInSlots() && ToNaluAsWritten(a, 7) == Some([0, 0, 0, 1, 0x68]) && !NaluFits(a, 7)
  {
    var a := AvcConfig(0, 0, 0, 4, 0, seq(SPS_SLOTS, _ => []), 1, [[0, 0, 0, 1, 0x68]] + seq(PPS_SLOTS - 1, _ => []), 0, 0, 0);
    var q: seq<seq<byte>> := [[0, 0, 0, 1, 0x68]];
    assert a.SpsList() == [] && a.PpsList() == q;
    assert q[..0] == [];
    assert AnnexB(q) == AnnexB([]) + AnnexBUnit([0, 0, 0, 1, 0x68]);
    assert AnnexBUnit([0, 0, 0, 1, 0x68]) == [0, 0, 0, 1, 0x68];
    assert NaluStream(a) == [0, 0, 0, 1, 0x68];
    assert StreamFits(0, q, 7, 2);
    assert !StreamFits(0, q, 7, 4);
    assert |AnnexB(a.SpsList())| == 0;
  }
}
