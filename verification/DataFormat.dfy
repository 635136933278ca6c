/** The data frame header of the TRIDAS format: bit layout, payload size, and time encoding. */
module DataFormat {
  import opened MachineInts

  // ---- Layout -------------------------------------------------------------------------------

  datatype DataFrameHeader = DataFrameHeader(
    pmtId: int, efcmId: int, towerId: int, syncBytes: int,
    t4ns: int, frameCounter: int, seconds: int, days: int, years: int,
    nDataSamples: int, fifoFull: int, charge: int, fragFlag: int, zipFlag: int)

  const HEADER_BYTES := 16

  /** Every field fits its bit width. */
  predicate FitsWidths(h: DataFrameHeader) {
    && 0 <= h.pmtId < 0x10 && 0 <= h.efcmId < 0x20 && 0 <= h.towerId < 0x80 && 0 <= h.syncBytes < 0x1_0000
    && 0 <= h.t4ns < 0x1_0000 && 0 <= h.frameCounter < 0x2000 && 0 <= h.seconds < 0x2_0000
    && 0 <= h.days < 0x400 && 0 <= h.years < 0x100
    && 0 <= h.nDataSamples < 0x80 && 0 <= h.fifoFull < 2 && 0 <= h.charge < 0x40_0000
    && 0 <= h.fragFlag < 2 && 0 <= h.zipFlag < 2
  }

  // Bit fields are allocated from the low end, so each is what remains modulo its width.

  function IdWord(h: DataFrameHeader): int {
    h.pmtId + 0x10 * (h.efcmId + 0x20 * (h.towerId + 0x80 * h.syncBytes))
  }

  function TimeWords(h: DataFrameHeader): int {
    h.t4ns + 0x1_0000 * (h.frameCounter + 0x2000 * (h.seconds + 0x2_0000 * (h.days + 0x400 * h.years)))
  }

  function HitWord(h: DataFrameHeader): int {
    h.nDataSamples + 0x80 * (h.fifoFull + 2 * (h.charge + 0x40_0000 * (h.fragFlag + 2 * h.zipFlag)))
  }

  function FromWords(id: nat, time: nat, hit: nat): (h: DataFrameHeader) {
    var id1 := id / 0x10;
    var id2 := id1 / 0x20;
    var t1 := time / 0x1_0000;
    var t2 := t1 / 0x2000;
    var t3 := t2 / 0x2_0000;
    var h1 := hit / 0x80;
    var h2 := h1 / 2;
    var h3 := h2 / 0x40_0000;
    DataFrameHeader(
      id % 0x10, id1 % 0x20, id2 % 0x80, (id2 / 0x80) % 0x1_0000,
      time % 0x1_0000, t1 % 0x2000, t2 % 0x2_0000, t3 % 0x400, (t3 / 0x400) % 0x100,
      hit % 0x80, h1 % 2, h2 % 0x40_0000, h3 % 2, (h3 / 2) % 2)
  }

  /** Reading the words of a header that fits its widths gives the header back. */
  lemma WordsRoundTrip(h: DataFrameHeader)
    requires FitsWidths(h)
    ensures 0 <= IdWord(h) < Pow256(4) && 0 <= TimeWords(h) < Pow256(8) && 0 <= HitWord(h) < Pow256(4)
    ensures FromWords(IdWord(h), TimeWords(h), HitWord(h)) == h
  {
    assert Pow256(4) == 0x1_0000_0000 by { assert Pow256(2) == 0x1_0000; }
    assert Pow256(8) == 0x1_0000_0000_0000_0000 by {
      assert Pow256(2) == 0x1_0000;
      assert Pow256(6) == 0x1_0000_0000_0000;
    }
    IdRoundTrip(h);
    TimeRoundTrip(h);
    HitRoundTrip(h);
  }

  lemma IdRoundTrip(h: DataFrameHeader)
    requires FitsWidths(h)
    ensures 0 <= IdWord(h) < 0x1_0000_0000
    ensures var id := IdWord(h);
            && id % 0x10 == h.pmtId && id / 0x10 % 0x20 == h.efcmId && id / 0x10 / 0x20 % 0x80 == h.towerId
            && id / 0x10 / 0x20 / 0x80 % 0x1_0000 == h.syncBytes
  {
    var id1 := h.efcmId + 0x20 * (h.towerId + 0x80 * h.syncBytes);
    var id2 := h.towerId + 0x80 * h.syncBytes;
    assert IdWord(h) / 0x10 == id1;
    assert id1 / 0x20 == id2;
    assert id2 / 0x80 == h.syncBytes;
  }

  lemma TimeRoundTrip(h: DataFrameHeader)
    requires FitsWidths(h)
    ensures 0 <= TimeWords(h) < 0x1_0000_0000_0000_0000
    ensures var t := TimeWords(h);
            && t % 0x1_0000 == h.t4ns && t / 0x1_0000 % 0x2000 == h.frameCounter
            && t / 0x1_0000 / 0x2000 % 0x2_0000 == h.seconds && t / 0x1_0000 / 0x2000 / 0x2_0000 % 0x400 == h.days
            && t / 0x1_0000 / 0x2000 / 0x2_0000 / 0x400 % 0x100 == h.years
  {
    var t1 := h.frameCounter + 0x2000 * (h.seconds + 0x2_0000 * (h.days + 0x400 * h.years));
    var t2 := h.seconds + 0x2_0000 * (h.days + 0x400 * h.years);
    var t3 := h.days + 0x400 * h.years;
    assert TimeWords(h) / 0x1_0000 == t1;
    assert t1 / 0x2000 == t2;
    assert t2 / 0x2_0000 == t3;
    assert t3 / 0x400 == h.years;
  }

  lemma HitRoundTrip(h: DataFrameHeader)
    requires FitsWidths(h)
    ensures 0 <= HitWord(h) < 0x1_0000_0000
    ensures var w := HitWord(h);
            && w % 0x80 == h.nDataSamples && w / 0x80 % 2 == h.fifoFull && w / 0x80 / 2 % 0x40_0000 == h.charge
            && w / 0x80 / 2 / 0x40_0000 % 2 == h.fragFlag && w / 0x80 / 2 / 0x40_0000 / 2 % 2 == h.zipFlag
  {
    var w1 := h.fifoFull + 2 * (h.charge + 0x40_0000 * (h.fragFlag + 2 * h.zipFlag));
    var w2 := h.charge + 0x40_0000 * (h.fragFlag + 2 * h.zipFlag);
    var w3 := h.fragFlag + 2 * h.zipFlag;
    assert HitWord(h) / 0x80 == w1;
    assert w1 / 2 == w2;
    assert w2 / 0x40_0000 == w3;
    assert w3 / 2 == h.zipFlag;
  }

  /** The 16 bytes of a header in a file, and the header 16 bytes are read as. */
  function HeaderBytes(h: DataFrameHeader): (bs: seq<Byte>)
    requires FitsWidths(h)
    ensures |bs| == HEADER_BYTES
  {
    WordsRoundTrip(h);
    ToLE(IdWord(h), 4) + ToLE(TimeWords(h), 8) + ToLE(HitWord(h), 4)
  }

  function HeaderOf(bs: seq<Byte>): (h: DataFrameHeader)
    requires |bs| == HEADER_BYTES
    ensures FitsWidths(h)
  {
    FromWords(FromLE(bs[..4]), FromLE(bs[4..12]), FromLE(bs[12..]))
  }

  lemma HeaderRoundTrip(h: DataFrameHeader)
    requires FitsWidths(h)
    ensures HeaderOf(HeaderBytes(h)) == h
  {
    hide Pow256, FromWords, IdWord, TimeWords, HitWord, FromLE, ToLE;
    WordsRoundTrip(h);
    FromToLE(IdWord(h), 4);
    FromToLE(TimeWords(h), 8);
    FromToLE(HitWord(h), 4);
    var bs := HeaderBytes(h);
    assert bs[..4] == ToLE(IdWord(h), 4);
    assert bs[4..12] == ToLE(TimeWords(h), 8);
    assert bs[12..] == ToLE(HitWord(h), 4);
  }

  /** Where some fields lie among the bytes: the year, the number of samples, the two flags. */
  lemma FieldsInBytes(bs: seq<Byte>)
    requires |bs| == HEADER_BYTES
    ensures var h := HeaderOf(bs);
            && h.years == bs[11] && h.nDataSamples == bs[12] % 0x80
            && h.fragFlag == bs[15] / 0x40 % 2 && h.zipFlag == bs[15] / 0x80
  {
    hide FromLE, Pow256, FromWords;
    var id, time, hit := bs[..4], bs[4..12], bs[12..];
    Powers();
    LastByte(time);
    LastByte(hit);
    FirstByte(hit);
    FieldsOfWords(FromLE(id), FromLE(time), FromLE(hit), FromLE(time[..7]), bs[11], FromLE(hit[..3]), bs[15],
                  bs[12], FromLE(hit[1..]));
  }

  lemma Powers()
    ensures Pow256(3) == 0x100_0000 && Pow256(7) == 0x100_0000_0000_0000
  {
    assert Pow256(2) == 0x1_0000;
    assert Pow256(5) == 0x100_0000_0000;
  }

  lemma FirstByte(bs: seq<Byte>)
    requires bs != []
    ensures FromLE(bs) == bs[0] + 0x100 * FromLE(bs[1..])
  {
  }

  lemma {:induction false} LastByte(bs: seq<Byte>)
    requires bs != []
    ensures var n := |bs| - 1;
            FromLE(bs) == FromLE(bs[..n]) + Pow256(n) * bs[n] && FromLE(bs[..n]) < Pow256(n)
  {
    hide FromLE, Pow256;
    var n := |bs| - 1;
    ToFromLE(bs[..n]);
    FirstByte(bs);
    if n == 0 {
      OneByte(bs);
    } else {
      LastByte(bs[1..]);
      FirstByte(bs[..n]);
      assert bs[1..][..n - 1] == bs[..n][1..];
      NextPower(n, bs[n]);
    }
  }

  lemma OneByte(bs: seq<Byte>)
    requires |bs| == 1
    ensures FromLE(bs[1..]) == 0 && FromLE(bs[..0]) == 0 && Pow256(0) == 1
  {
  }

  lemma NextPower(n: nat, b: Byte)
    requires n > 0
    ensures 0x100 * (Pow256(n - 1) * b) == Pow256(n) * b
  {
    var p := Pow256(n - 1);
    assert Pow256(n) == 0x100 * p;
    assert 0x100 * (p * b) == (0x100 * p) * b;
  }

  lemma FieldsOfWords(id: nat, time: nat, hit: nat, timeLow: nat, year: Byte, hitLow: nat, flags: Byte, first: Byte,
                      rest: nat)
    requires time == timeLow + 0x100_0000_0000_0000 * year && timeLow < 0x100_0000_0000_0000
    requires hit == hitLow + 0x100_0000 * flags && hitLow < 0x100_0000 && hit == first + 0x100 * rest
    ensures var h := FromWords(id, time, hit);
            && h.years == year && h.nDataSamples == first % 0x80
            && h.fragFlag == flags / 0x40 % 2 && h.zipFlag == flags / 0x80
  {
    TopOfTime(time, timeLow, year);
    TopOfHit(hit, hitLow, flags);
    LowOfHit(hit, first, rest);
  }

  lemma TopOfTime(time: nat, low: nat, year: Byte)
    requires time == low + 0x100_0000_0000_0000 * year && low < 0x100_0000_0000_0000
    ensures time / 0x1_0000 / 0x2000 / 0x2_0000 / 0x400 % 0x100 == year
  {
    var l1 := low / 0x1_0000;
    assert time / 0x1_0000 == l1 + 0x100_0000_0000 * year;
    var l2 := l1 / 0x2000;
    assert time / 0x1_0000 / 0x2000 == l2 + 0x800_0000 * year;
    assert time / 0x1_0000 / 0x2000 / 0x2_0000 == l2 / 0x2_0000 + 0x400 * year;
  }

  lemma TopOfHit(hit: nat, low: nat, flags: Byte)
    requires hit == low + 0x100_0000 * flags && low < 0x100_0000
    ensures hit / 0x80 / 2 / 0x40_0000 == flags / 0x40
    ensures hit / 0x80 / 2 / 0x40_0000 % 2 == flags / 0x40 % 2 && hit / 0x80 / 2 / 0x40_0000 / 2 % 2 == flags / 0x80
  {
    assert hit / 0x80 / 2 == low / 0x100 + 0x1_0000 * flags;
    assert hit / 0x80 / 2 / 0x1_0000 == flags;
    assert hit / 0x80 / 2 / 0x40_0000 == hit / 0x80 / 2 / 0x1_0000 / 0x40;
  }

  lemma LowOfHit(hit: nat, first: Byte, rest: nat)
    requires hit == first + 0x100 * rest
    ensures hit % 0x80 == first % 0x80
  {
    assert hit == 0x80 * (first / 0x80 + 2 * rest) + first % 0x80;
  }

  predicate Compressed(h: DataFrameHeader) { h.zipFlag != 0 }

  predicate Subsequent(h: DataFrameHeader) { h.fragFlag != 0 }

  /** Bytes between a frame's header and the next frame: two per sample, in whole 32-bit words. */
  function PayloadSize(h: DataFrameHeader): (n: int)
    ensures h.nDataSamples >= 0 ==> n % 4 == 0 && 2 * h.nDataSamples <= n <= 2 * h.nDataSamples + 2
  {
    h.nDataSamples * 2 + (if h.nDataSamples % 2 == 0 then 0 else 2)
  }
}
