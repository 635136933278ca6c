/**
 The composite ADC decoder: a byte parser over blocks of channels that skips implausible block
 headers and leaves a block at the first channel whose samples would not fit the buffer.
 */
module CompositeDecoder {
  import opened MachineInts
  import opened Slices

  const BLOCK_HEADER := 17
  const CHANNEL_HEADER := 5

  /** The bytes the decoder can read: the buffer's, and whatever lies beyond its end. */
  datatype Memory = Memory(data: seq<Byte>, beyond: nat -> Byte)

  function ByteAt(m: Memory, i: nat): Byte {
    if i < |m.data| then m.data[i] else m.beyond(i)
  }

  /** The little-endian value of `n` bytes. */
  function Load(m: Memory, at: nat, n: nat): nat
    decreases n
  {
    if n == 0 then 0 else ByteAt(m, at) + 0x100 * Load(m, at + 1, n - 1)
  }

  const TWO24: int := 0x100_0000

  /** The two 24-bit halves of the low 48 bits, exchanged. */
  function HalfSwap(raw: nat): (t: nat)
    ensures t < TWO24 * TWO24
  {
    raw / TWO24 % TWO24 + (raw % TWO24) * TWO24
  }

  /** The low and the high 24 bits change places; what lies above 48 bits is dropped. */
  lemma HalfSwapExchanges(low: nat, high: nat, rest: nat)
    requires low < TWO24 && high < TWO24
    ensures HalfSwap(low + TWO24 * high + TWO24 * TWO24 * rest) == high + TWO24 * low
  {
    var raw := low + TWO24 * high + TWO24 * TWO24 * rest;
    assert raw % TWO24 == low && raw / TWO24 == high + TWO24 * rest;
    assert (high + TWO24 * rest) % TWO24 == high;
  }

  /** On 48 bits the swap undoes itself. */
  lemma HalfSwapInvolution(t: nat)
    requires t < TWO24 * TWO24
    ensures HalfSwap(HalfSwap(t)) == t
  {
    var hi, lo := t / TWO24, t % TWO24;
    assert HalfSwap(t) == hi + lo * TWO24;
    assert (hi + lo * TWO24) / TWO24 == lo && (hi + lo * TWO24) % TWO24 == hi;
  }

  datatype Adc = Adc(slot: int, trigger: int, time: int, channel: int, samples: seq<int>)

  /** A channel that was emitted, and where its samples lie. */
  datatype Found = Found(at: nat, adc: Adc)

  /** What a stretch of decoding did: channels emitted, block and channel headers read, offset reached. */
  datatype Run = Run(found: seq<Found>, blocks: nat, heads: nat, end: nat)

  function Join(a: Run, b: Run): Run {
    Run(a.found + b.found, a.blocks + b.blocks, a.heads + b.heads, b.end)
  }

  datatype BlockHeader = BlockHeader(slot: int, trigger: int, time: int, channels: int)

  function ReadBlockHeader(m: Memory, at: nat): BlockHeader {
    BlockHeader(ByteAt(m, at), ToInt32(Load(m, at + 1, 4)), HalfSwap(Load(m, at + 5, 8)), ToInt32(Load(m, at + 13, 4)))
  }

  predicate Plausible(h: BlockHeader) {
    0 < h.channels <= 16 && 0 < h.slot <= 21
  }

  function Samples(m: Memory, at: nat, n: nat): (s: seq<int>)
    ensures |s| == n
    ensures forall j :: 0 <= j < n ==> s[j] == ToInt16(Load(m, at + 2 * j, 2))
    decreases n
  {
    if n == 0 then [] else Samples(m, at, n - 1) + [ToInt16(Load(m, at + 2 * (n - 1), 2))]
  }

  /** The channel loop of a block, with `n` channels already emitted. */
  function Channels(m: Memory, offset: nat, h: BlockHeader, n: nat): (r: Run)
    ensures r.end >= offset
    decreases h.channels - n
  {
    if n >= h.channels then Run([], 0, 0, offset)
    else
      var samples := Load(m, offset + 1, 4);
      var at := offset + CHANNEL_HEADER;
      if at + 2 * samples > |m.data| then Run([], 0, 1, at)
      else
        var adc := Adc(h.slot, h.trigger, h.time, ByteAt(m, offset), Samples(m, at, samples));
        Join(Run([Found(at, adc)], 0, 1, at + 2 * samples), Channels(m, at + 2 * samples, h, n + 1))
  }

  /** The decoder's outer loop. */
  function Decode(m: Memory, offset: nat): (r: Run)
    ensures r.end >= offset
    decreases if offset < |m.data| then |m.data| - offset else 0
  {
    if offset >= |m.data| then Run([], 0, 0, offset)
    else
      var h := ReadBlockHeader(m, offset);
      var start := Run([], 1, 0, offset + BLOCK_HEADER);
      if !Plausible(h) then Join(start, Decode(m, offset + BLOCK_HEADER))
      else
        var block := Channels(m, offset + BLOCK_HEADER, h, 0);
        Join(start, Join(block, Decode(m, block.end)))
  }

  function Adcs(found: seq<Found>): (r: seq<Adc>)
    ensures |r| == |found| && forall i :: 0 <= i < |found| ==> r[i] == found[i].adc
  {
    seq(|found|, i requires 0 <= i < |found| => found[i].adc)
  }

  // ---- Any bytes ----------------------------------------------------------------------------

  function SampleCount(found: seq<Found>): nat {
    if found == [] then 0 else |found[0].adc.samples| + SampleCount(found[1..])
  }

  lemma {:induction false} SampleCountConcat(a: seq<Found>, b: seq<Found>)
    ensures SampleCount(a + b) == SampleCount(a) + SampleCount(b)
    decreases |a|
  {
    if a == [] {
      assert a + b == b;
    } else {
      SampleCountConcat(a[1..], b);
      assert (a + b)[1..] == a[1..] + b;
    }
  }

  /**
   The channels' sample ranges lie inside the buffer and follow one another without overlap between
   `lo` and `hi`; each channel's samples are the 16-bit values there, under the slot of a plausible block.
   */
  predicate Ranges(m: Memory, found: seq<Found>, lo: nat, hi: nat)
    decreases |found|
  {
    if found == [] then lo <= hi
    else
      var f := found[0];
      var past := f.at + 2 * |f.adc.samples|;
      && lo <= f.at && past <= |m.data|
      && f.adc.samples == Samples(m, f.at, |f.adc.samples|) && 0 < f.adc.slot <= 21
      && Ranges(m, found[1..], past, hi)
  }

  lemma {:induction false} RangesConcat(m: Memory, a: seq<Found>, b: seq<Found>, lo: nat, mid: nat, hi: nat)
    requires Ranges(m, a, lo, mid) && Ranges(m, b, mid, hi)
    ensures Ranges(m, a + b, lo, hi)
    decreases |a|
  {
    hide Samples;
    if a == [] {
      assert a + b == b;
    } else {
      assert (a + b)[1..] == a[1..] + b;
      RangesConcat(m, a[1..], b, a[0].at + 2 * |a[0].adc.samples|, mid, hi);
    }
  }

  /** Two channels emitted one after the other draw their samples from disjoint, increasing byte ranges. */
  lemma {:induction false} RangesAreDisjoint(m: Memory, found: seq<Found>, lo: nat, hi: nat, i: nat, j: nat)
    requires Ranges(m, found, lo, hi) && i < j < |found|
    ensures lo <= found[i].at && found[i].at + 2 * |found[i].adc.samples| <= found[j].at
    ensures found[j].at + 2 * |found[j].adc.samples| <= |m.data|
    decreases |found|
  {
    hide Samples;
    var past := found[0].at + 2 * |found[0].adc.samples|;
    if i > 0 {
      RangesAreDisjoint(m, found[1..], past, hi, i - 1, j - 1);
    } else if j > 1 {
      RangesAreDisjoint(m, found[1..], past, hi, 0, j - 1);
    }
  }

  lemma NoRanges(m: Memory)
    ensures forall lo: nat, hi: nat :: lo <= hi ==> Ranges(m, [], lo, hi)
  {
  }

  lemma NoSamples()
    ensures SampleCount([]) == 0
  {
  }

  lemma FirstFound(m: Memory, f: Found, rest: seq<Found>, lo: nat, hi: nat)
    requires var past := f.at + 2 * |f.adc.samples|;
             lo <= f.at && past <= |m.data| && 0 < f.adc.slot <= 21 && Ranges(m, rest, past, hi)
    requires f.adc.samples == Samples(m, f.at, |f.adc.samples|)
    ensures Ranges(m, [f] + rest, lo, hi)
    ensures SampleCount([f] + rest) == |f.adc.samples| + SampleCount(rest)
  {
    hide Samples;
    assert ([f] + rest)[1..] == rest;
  }

  lemma {:induction false} ChannelsAccount(m: Memory, offset: nat, h: BlockHeader, n: nat)
    requires Plausible(h) && n <= h.channels
    ensures var r := Channels(m, offset, h, n);
            && r.blocks == 0 && |r.found| <= r.heads <= |r.found| + 1 && r.heads <= h.channels - n
            && r.end == offset + CHANNEL_HEADER * r.heads + 2 * SampleCount(r.found)
            && Ranges(m, r.found, offset, r.end)
            && (r.end <= |m.data| || r.end <= offset + CHANNEL_HEADER || r.end <= |m.data| + CHANNEL_HEADER)
    decreases h.channels - n
  {
    hide Samples, Load, ByteAt, SampleCount, Ranges;
    NoSamples();
    NoRanges(m);
    if n >= h.channels {
    } else {
      var samples := Load(m, offset + 1, 4);
      var at := offset + CHANNEL_HEADER;
      if at + 2 * samples <= |m.data| {
        ChannelsAccount(m, at + 2 * samples, h, n + 1);
        var adc := Adc(h.slot, h.trigger, h.time, ByteAt(m, offset), Samples(m, at, samples));
        var rest := Channels(m, at + 2 * samples, h, n + 1);
        FirstFound(m, Found(at, adc), rest.found, offset, rest.end);
      }
    }
  }

  /**
   On any bytes, and whatever lies beyond the buffer, decoding stops at an offset made of 17 bytes per
   block header read, 5 per channel header and 2 per sample emitted; at most one channel header per block
   emits no channel; and the channels' samples come from disjoint, increasing ranges inside the buffer.
   */
  lemma {:induction false} DecodeAccount(m: Memory, offset: nat)
    ensures var r := Decode(m, offset);
            && |r.found| <= r.heads <= |r.found| + r.blocks && |r.found| <= 16 * r.blocks
            && r.end == offset + BLOCK_HEADER * r.blocks + CHANNEL_HEADER * r.heads + 2 * SampleCount(r.found)
            && (r.end <= offset || r.end < |m.data| + BLOCK_HEADER + CHANNEL_HEADER)
            && r.end >= |m.data|
            && Ranges(m, r.found, offset, r.end)
    decreases if offset < |m.data| then |m.data| - offset else 0
  {
    hide ReadBlockHeader, Channels, Samples, SampleCount, Ranges;
    NoSamples();
    NoRanges(m);
    if offset >= |m.data| {
    } else {
      var h := ReadBlockHeader(m, offset);
      var start := offset + BLOCK_HEADER;
      if !Plausible(h) {
        DecodeAccount(m, start);
        var rest := Decode(m, start);
        assert [] + rest.found == rest.found;
        RangesConcat(m, [], rest.found, offset, start, rest.end);
      } else {
        var block := Channels(m, start, h, 0);
        ChannelsAccount(m, start, h, 0);
        DecodeAccount(m, block.end);
        var rest := Decode(m, block.end);
        SampleCountConcat(block.found, rest.found);
        RangesConcat(m, block.found, rest.found, start, block.end, rest.end);
        assert [] + (block.found + rest.found) == block.found + rest.found;
        RangesConcat(m, [], block.found + rest.found, offset, start, rest.end);
      }
    }
  }

  // ---- The limits in numbers ------------------------------------------------------------------------

  /**
   A block header is passed over, with its 17 bytes and nothing else, exactly when it announces no channel
   or more than 16, or a slot that is not from 1 to 21; otherwise its channels are read from there on.
   */
  lemma SkippedHeaders(m: Memory, at: nat)
    requires at < |m.data|
    ensures var slot, channels := ByteAt(m, at), ToInt32(Load(m, at + 13, 4));
            if channels <= 0 || channels > 16 || slot == 0 || slot > 21
            then Decode(m, at).found == Decode(m, at + 17).found && Decode(m, at).end == Decode(m, at + 17).end
            else
              var block := Channels(m, at + 17, ReadBlockHeader(m, at), 0);
              && Decode(m, at).found == block.found + Decode(m, block.end).found
              && Decode(m, at).end == Decode(m, block.end).end
  {
    hide Load, HalfSwap, Channels;
    var h := ReadBlockHeader(m, at);
    if Plausible(h) {
      var block := Channels(m, at + 17, h, 0);
      assert [] + (block.found + Decode(m, block.end).found) == block.found + Decode(m, block.end).found;
    } else {
      assert [] + Decode(m, at + 17).found == Decode(m, at + 17).found;
    }
  }

  /**
   A channel is emitted exactly when its samples, two bytes each behind its five header bytes, end inside
   the buffer; otherwise the block is left, and the next block header is read right behind those five.
   */
  lemma LeftChannels(m: Memory, at: nat, h: BlockHeader, n: nat)
    requires n < h.channels
    ensures var count := Load(m, at + 1, 4);
            var r := Channels(m, at, h, n);
            if at + 5 + 2 * count > |m.data| then r.found == [] && r.end == at + 5
            else
              && r.found != [] && r.found[0].at == at + 5 && |r.found[0].adc.samples| == count
              && r.found[0].adc.channel == ByteAt(m, at) && r.found[0].adc.slot == h.slot
              && r.end == Channels(m, at + 5 + 2 * count, h, n + 1).end
  {
    hide Load, Samples;
  }

  // ---- Encoding -----------------------------------------------------------------------------

  datatype ChannelData = ChannelData(channel: int, samples: seq<int>)

  datatype Block = Block(slot: int, trigger: int, time: nat, channels: seq<ChannelData>)

  predicate ValidChannel(c: ChannelData) {
    0 <= c.channel < 0x100 && |c.samples| < TWO32 &&
    forall i :: 0 <= i < |c.samples| ==> -0x8000 <= c.samples[i] < 0x8000
  }

  predicate ValidChannels(cs: seq<ChannelData>) {
    forall i :: 0 <= i < |cs| ==> ValidChannel(cs[i])
  }

  predicate ValidBlock(b: Block) {
    && 1 <= b.slot <= 21 && -0x8000_0000 <= b.trigger <= INT_MAX && b.time < TWO24 * TWO24
    && 1 <= |b.channels| <= 16 && ValidChannels(b.channels)
  }

  predicate ValidBlocks(bs: seq<Block>) {
    forall i :: 0 <= i < |bs| ==> ValidBlock(bs[i])
  }

  function SampleBytes(samples: seq<int>): (bs: seq<Byte>)
    ensures |bs| == 2 * |samples|
  {
    if samples == [] then []
    else SampleBytes(samples[..|samples| - 1]) + ToLE(samples[|samples| - 1] % 0x1_0000, 2)
  }

  function ChannelBytes(c: ChannelData): (bs: seq<Byte>)
    requires ValidChannel(c)
    ensures |bs| == CHANNEL_HEADER + 2 * |c.samples|
  {
    [c.channel] + ToLE(|c.samples|, 4) + SampleBytes(c.samples)
  }

  function ChannelsBytes(cs: seq<ChannelData>): seq<Byte>
    requires ValidChannels(cs)
  {
    if cs == [] then [] else ChannelBytes(cs[0]) + ChannelsBytes(cs[1..])
  }

  /** A time as it is written: the three bytes of its high half, the three of its low half, two zero bytes. */
  function TimeBytes(time: nat): (bs: seq<Byte>)
    ensures |bs| == 8
  {
    ToLE(time / TWO24, 3) + ToLE(time % TWO24, 3) + [0, 0]
  }

  function BlockHeaderBytes(b: Block): (bs: seq<Byte>)
    requires ValidBlock(b)
    ensures |bs| == BLOCK_HEADER
  {
    [b.slot] + ToLE(ToUInt32(b.trigger), 4) + TimeBytes(b.time) + ToLE(|b.channels|, 4)
  }

  function BlocksBytes(bs: seq<Block>): seq<Byte>
    requires ValidBlocks(bs)
  {
    if bs == [] then []
    else
      assert ValidBlock(bs[0]);
      BlockHeaderBytes(bs[0]) + (ChannelsBytes(bs[0].channels) + BlocksBytes(bs[1..]))
  }

  /** The channels of blocks, flattened, each with its block's slot, trigger and time. */
  function BlockAdcs(b: Block, cs: seq<ChannelData>): seq<Adc> {
    if cs == [] then []
    else [Adc(b.slot, b.trigger, b.time, cs[0].channel, cs[0].samples)] + BlockAdcs(b, cs[1..])
  }

  function AllAdcs(bs: seq<Block>): seq<Adc> {
    if bs == [] then [] else BlockAdcs(bs[0], bs[0].channels) + AllAdcs(bs[1..])
  }

  lemma {:induction false} LoadIsFromLE(m: Memory, at: nat, bs: seq<Byte>)
    requires Holds(m.data, at, bs)
    ensures Load(m, at, |bs|) == FromLE(bs)
    decreases |bs|
  {
    if bs == [] {
    } else {
      assert bs == [bs[0]] + bs[1..];
      HoldsSplit(m.data, at, [bs[0]], bs[1..]);
      LoadIsFromLE(m, at + 1, bs[1..]);
      assert m.data[at..at + |bs|][0] == bs[0];
    }
  }

  lemma Powers()
    ensures Pow256(2) == 0x1_0000 && Pow256(3) == TWO24 && Pow256(4) == TWO32 && Pow256(8) == TWO32 * TWO32
  {
    assert Pow256(2) == 0x1_0000;
    assert Pow256(6) == 0x1_0000_0000_0000;
  }

  lemma LoadsBack(m: Memory, at: nat, n: nat, k: nat)
    requires n < Pow256(k) && Holds(m.data, at, ToLE(n, k))
    ensures Load(m, at, k) == n
  {
    hide Load, FromLE, ToLE, Holds, Pow256;
    LoadIsFromLE(m, at, ToLE(n, k));
    FromToLE(n, k);
  }

  lemma Signed16(x: int)
    requires -0x8000 <= x < 0x8000
    ensures ToInt16(x % 0x1_0000) == x
  {
  }

  lemma {:induction false} SamplesLoadBack(m: Memory, at: nat, samples: seq<int>)
    requires forall i :: 0 <= i < |samples| ==> -0x8000 <= samples[i] < 0x8000
    requires Holds(m.data, at, SampleBytes(samples))
    ensures Samples(m, at, |samples|) == samples
    decreases |samples|
  {
    hide Load, ToLE, Holds, Pow256, ToInt16, Samples;
    SamplesGrow(m, at, 0);
    if samples == [] {
    } else {
      var n := |samples| - 1;
      var last := samples[n];
      HoldsSplit(m.data, at, SampleBytes(samples[..n]), ToLE(last % 0x1_0000, 2));
      SamplesLoadBack(m, at, samples[..n]);
      Powers();
      LoadsBack(m, at + 2 * n, last % 0x1_0000, 2);
      Signed16(last);
      SamplesGrow(m, at, n);
      assert samples == samples[..n] + [last];
    }
  }

  lemma ChannelLoadsBack(m: Memory, at: nat, c: ChannelData)
    requires ValidChannel(c) && Holds(m.data, at, ChannelBytes(c))
    ensures ByteAt(m, at) == c.channel && Load(m, at + 1, 4) == |c.samples|
    ensures at + CHANNEL_HEADER + 2 * |c.samples| <= |m.data|
    ensures Samples(m, at + CHANNEL_HEADER, |c.samples|) == c.samples
  {
    hide Load, ToLE, Holds, Samples, SampleBytes, Pow256;
    var chan: seq<Byte> := [c.channel];
    HoldsFits(m.data, at, ChannelBytes(c));
    HoldsSplit(m.data, at, chan + ToLE(|c.samples|, 4), SampleBytes(c.samples));
    HoldsSplit(m.data, at, chan, ToLE(|c.samples|, 4));
    HoldsFits(m.data, at, chan);
    assert m.data[at..at + 1][0] == c.channel;
    Powers();
    LoadsBack(m, at + 1, |c.samples|, 4);
    SamplesLoadBack(m, at + CHANNEL_HEADER, c.samples);
  }

  lemma LoadThree(m: Memory, at: nat, k: nat)
    ensures Load(m, at, 3 + k) == Load(m, at, 3) + TWO24 * Load(m, at + 3, k)
  {
    hide ByteAt;
    assert Load(m, at + 1, 2 + k) == ByteAt(m, at + 1) + 0x100 * Load(m, at + 2, 1 + k);
    assert Load(m, at + 1, 2) == ByteAt(m, at + 1) + 0x100 * Load(m, at + 2, 1);
  }

  lemma TimeLoadsBack(m: Memory, at: nat, time: nat)
    requires time < TWO24 * TWO24 && Holds(m.data, at, TimeBytes(time))
    ensures HalfSwap(Load(m, at, 8)) == time
  {
    hide Load, ToLE, Holds, Pow256, HalfSwap;
    var high, low, zeros: seq<Byte> := ToLE(time / TWO24, 3), ToLE(time % TWO24, 3), [0, 0];
    HoldsSplit(m.data, at, high + low, zeros);
    HoldsSplit(m.data, at, high, low);
    Powers();
    LoadsBack(m, at, time / TWO24, 3);
    LoadsBack(m, at + 3, time % TWO24, 3);
    LoadThree(m, at, 5);
    LoadThree(m, at + 3, 2);
    LoadIsFromLE(m, at + 6, zeros);
    TwoZeros();
    HalfSwapExchanges(time / TWO24, time % TWO24, 0);
  }

  lemma TwoZeros()
    ensures FromLE([0, 0]) == 0
  {
    assert FromLE([0, 0][1..]) == 0;
  }

  lemma BlockLoadsBack(m: Memory, at: nat, b: Block)
    requires ValidBlock(b) && Holds(m.data, at, BlockHeaderBytes(b))
    ensures ReadBlockHeader(m, at) == BlockHeader(b.slot, b.trigger, b.time, |b.channels|)
  {
    hide Load, ToLE, Holds, Pow256, HalfSwap, TimeBytes;
    var trigger := ToUInt32(b.trigger);
    var slot: seq<Byte> := [b.slot];
    HoldsSplit(m.data, at, slot + ToLE(trigger, 4) + TimeBytes(b.time), ToLE(|b.channels|, 4));
    HoldsSplit(m.data, at, slot + ToLE(trigger, 4), TimeBytes(b.time));
    HoldsSplit(m.data, at, slot, ToLE(trigger, 4));
    HoldsFits(m.data, at, slot);
    assert m.data[at..at + 1][0] == b.slot;
    Powers();
    LoadsBack(m, at + 1, trigger, 4);
    TimeLoadsBack(m, at + 5, b.time);
    LoadsBack(m, at + 13, |b.channels|, 4);
    assert ToInt32(ToUInt32(b.trigger)) == b.trigger;
  }

  lemma {:induction false} ChannelsDecode(m: Memory, at: nat, b: Block, n: nat)
    requires ValidBlock(b) && n <= |b.channels|
    requires ValidChannels(b.channels[n..]) && Holds(m.data, at, ChannelsBytes(b.channels[n..]))
    ensures var r := Channels(m, at, BlockHeader(b.slot, b.trigger, b.time, |b.channels|), n);
            Adcs(r.found) == BlockAdcs(b, b.channels[n..]) && r.end == at + |ChannelsBytes(b.channels[n..])|
    decreases |b.channels| - n
  {
    hide Load, ByteAt, Samples, ChannelBytes, Holds, ValidChannel;
    if n >= |b.channels| {
    } else {
      var cs := b.channels[n..];
      var c := cs[0];
      assert cs[1..] == b.channels[n + 1..];
      assert ValidChannel(c);
      HoldsSplit(m.data, at, ChannelBytes(c), ChannelsBytes(cs[1..]));
      ChannelLoadsBack(m, at, c);
      ChannelsDecode(m, at + |ChannelBytes(c)|, b, n + 1);
    }
  }

  /** Zero bytes decode to nothing: a block header whose slot is 0 is skipped whatever follows it. */
  lemma {:induction false} ZerosDecode(m: Memory, at: nat)
    requires forall i :: at <= i < |m.data| ==> m.data[i] == 0
    ensures Decode(m, at).found == []
    decreases if at < |m.data| then |m.data| - at else 0
  {
    hide Load, HalfSwap, Channels;
    if at >= |m.data| {
    } else {
      assert ReadBlockHeader(m, at).slot == 0;
      ZerosDecode(m, at + BLOCK_HEADER);
    }
  }

  lemma {:induction false} BlocksDecode(m: Memory, at: nat, bs: seq<Block>)
    requires ValidBlocks(bs) && Holds(m.data, at, BlocksBytes(bs))
    requires forall i :: at + |BlocksBytes(bs)| <= i < |m.data| ==> m.data[i] == 0
    ensures Adcs(Decode(m, at).found) == AllAdcs(bs)
    decreases |bs|
  {
    hide ReadBlockHeader, Channels, ChannelsBytes, BlockHeaderBytes, Holds, ValidBlock, Decode, Adcs;
    if bs == [] {
      NoAdcs();
      ZerosDecode(m, at);
    } else {
      var b := bs[0];
      assert ValidBlock(b);
      BlockIsPlausible(b);
      HoldsFits(m.data, at, BlocksBytes(bs));
      HoldsSplit(m.data, at, BlockHeaderBytes(b), ChannelsBytes(b.channels) + BlocksBytes(bs[1..]));
      HoldsSplit(m.data, at + BLOCK_HEADER, ChannelsBytes(b.channels), BlocksBytes(bs[1..]));
      BlockLoadsBack(m, at, b);
      assert b.channels[0..] == b.channels;
      ChannelsDecode(m, at + BLOCK_HEADER, b, 0);
      var next := at + BLOCK_HEADER + |ChannelsBytes(b.channels)|;
      BlocksDecode(m, next, bs[1..]);
      DecodeUnfolds(m, at);
      var block := Channels(m, at + BLOCK_HEADER, BlockHeader(b.slot, b.trigger, b.time, |b.channels|), 0);
      AdcsConcat(block.found, Decode(m, next).found);
    }
  }

  /** One round of the outer loop on a plausible block header. */
  lemma DecodeUnfolds(m: Memory, at: nat)
    requires at < |m.data| && Plausible(ReadBlockHeader(m, at))
    ensures var block := Channels(m, at + BLOCK_HEADER, ReadBlockHeader(m, at), 0);
            Decode(m, at).found == block.found + Decode(m, block.end).found
  {
    hide ReadBlockHeader, Channels;
    var block := Channels(m, at + BLOCK_HEADER, ReadBlockHeader(m, at), 0);
    assert [] + (block.found + Decode(m, block.end).found) == block.found + Decode(m, block.end).found;
  }

  lemma NoAdcs()
    ensures Adcs([]) == []
  {
  }

  lemma BlockIsPlausible(b: Block)
    requires ValidBlock(b)
    ensures Plausible(BlockHeader(b.slot, b.trigger, b.time, |b.channels|))
    ensures ValidChannels(b.channels)
  {
  }

  lemma AdcsConcat(a: seq<Found>, b: seq<Found>)
    ensures Adcs(a + b) == Adcs(a) + Adcs(b)
  {
  }

  /**
   The round trip: blocks written one after the other and filled up with any number of zero bytes decode
   to their channels in order, each with its block's slot, trigger and time, whatever lies beyond the buffer.
   */
  lemma DecodeRoundTrip(bs: seq<Block>, padding: nat, beyond: nat -> Byte)
    requires ValidBlocks(bs)
    ensures Adcs(Decode(Memory(BlocksBytes(bs) + seq(padding, _ => 0), beyond), 0).found) == AllAdcs(bs)
  {
    hide Decode, BlocksBytes, AllAdcs, Adcs;
    var m := Memory(BlocksBytes(bs) + seq(padding, _ => 0), beyond);
    assert Holds(m.data, 0, BlocksBytes(bs));
    BlocksDecode(m, 0, bs);
  }

  // ---- The decoder --------------------------------------------------------------------------

  /** What is decoded, given what has been and what a run from here on does. */
  ghost predicate Completes(adcSamples: seq<Adc>, done: Run, rest: Run, all: Run) {
    adcSamples == Adcs(done.found) && Join(done, rest) == all
  }

  lemma BlockStep(m: Memory, offset: nat, adcSamples: seq<Adc>, done: Run, all: Run)
    requires offset < |m.data| && Completes(adcSamples, done, Decode(m, offset), all)
    ensures var h := ReadBlockHeader(m, offset);
            var done' := Join(done, Run([], 1, 0, offset + BLOCK_HEADER));
            if !Plausible(h) then Completes(adcSamples, done', Decode(m, offset + BLOCK_HEADER), all)
            else Completes(adcSamples, done', InBlock(m, offset + BLOCK_HEADER, h, 0), all)
  {
    hide ReadBlockHeader, Channels;
    var start := Run([], 1, 0, offset + BLOCK_HEADER);
    var h := ReadBlockHeader(m, offset);
    assert done.found + [] == done.found;
    if Plausible(h) {
      JoinAssociative(done, start, InBlock(m, offset + BLOCK_HEADER, h, 0));
    } else {
      JoinAssociative(done, start, Decode(m, offset + BLOCK_HEADER));
    }
  }

  /** The rest of a block from its channel `n` on, and everything after it. */
  function InBlock(m: Memory, offset: nat, h: BlockHeader, n: nat): Run {
    var block := Channels(m, offset, h, n);
    Join(block, Decode(m, block.end))
  }

  lemma JoinAssociative(a: Run, b: Run, c: Run)
    ensures Join(a, Join(b, c)) == Join(Join(a, b), c)
  {
    assert a.found + (b.found + c.found) == a.found + b.found + c.found;
  }

  lemma ChannelStep(m: Memory, offset: nat, h: BlockHeader, n: nat, adcSamples: seq<Adc>, done: Run, all: Run)
    requires n < h.channels && Completes(adcSamples, done, InBlock(m, offset, h, n), all)
    ensures var samples := Load(m, offset + 1, 4);
            var at := offset + CHANNEL_HEADER;
            if at + 2 * samples > |m.data| then Completes(adcSamples, Join(done, Run([], 0, 1, at)), Decode(m, at), all)
            else
              var adc := Adc(h.slot, h.trigger, h.time, ByteAt(m, offset), Samples(m, at, samples));
              Completes(adcSamples + [adc], Join(done, Run([Found(at, adc)], 0, 1, at + 2 * samples)),
                        InBlock(m, at + 2 * samples, h, n + 1), all)
  {
    hide Load, Samples, ByteAt, Decode;
    var samples := Load(m, offset + 1, 4);
    var at := offset + CHANNEL_HEADER;
    if at + 2 * samples > |m.data| {
      JoinAssociative(done, Run([], 0, 1, at), Decode(m, at));
      assert done.found + [] == done.found;
    } else {
      var adc := Adc(h.slot, h.trigger, h.time, ByteAt(m, offset), Samples(m, at, samples));
      var one := Run([Found(at, adc)], 0, 1, at + 2 * samples);
      var rest := Channels(m, at + 2 * samples, h, n + 1);
      JoinAssociative(one, rest, Decode(m, rest.end));
      JoinAssociative(done, one, InBlock(m, at + 2 * samples, h, n + 1));
      AdcsConcat(done.found, [Found(at, adc)]);
    }
  }

  lemma BlockEnds(m: Memory, offset: nat, h: BlockHeader, n: nat)
    requires n >= h.channels
    ensures InBlock(m, offset, h, n) == Decode(m, offset)
  {
    hide Decode;
    assert [] + Decode(m, offset).found == Decode(m, offset).found;
  }

  lemma Decoded(m: Memory, offset: nat, adcSamples: seq<Adc>, done: Run, all: Run)
    requires offset >= |m.data| && Completes(adcSamples, done, Decode(m, offset), all)
    ensures adcSamples == Adcs(all.found) && offset == all.end
  {
    assert done.found + [] == done.found;
  }

  class EvioCompositeDecoder {
    var adcSamples: seq<Adc>

    constructor ()
      ensures adcSamples == []
    {
      adcSamples := [];
    }

    /** Decode a buffer; returns the offset at which it stopped. */
    method DecodeBuffer(m: Memory) returns (offset: nat)
      modifies this
      ensures adcSamples == Adcs(Decode(m, 0).found) && offset == Decode(m, 0).end
    {
      hide Decode, Channels, ReadBlockHeader, Completes, InBlock, Join, Load, ByteAt, Samples, Adcs;
      offset := 0;
      adcSamples := [];
      ghost var all := Decode(m, 0);
      ghost var done := Run([], 0, 0, 0);
      DecodeStarts(all);
      while offset < |m.data|
        invariant Completes(adcSamples, done, Decode(m, offset), all)
        decreases if offset < |m.data| then |m.data| - offset else 0
      {
        ghost var start := offset;
        BlockStep(m, offset, adcSamples, done, all);
        var h := ReadBlockHeader(m, offset);
        done := Join(done, Run([], 1, 0, offset + BLOCK_HEADER));
        offset := offset + BLOCK_HEADER;
        if h.channels <= 0 {
          continue;
        }
        if h.channels > 16 {
          continue;
        }
        if h.slot <= 0 || h.slot > 21 {
          continue;
        }
        var nchannels := 0;
        ghost var left := false;
        while nchannels < h.channels
          invariant offset > start && nchannels <= h.channels && !left
          invariant Completes(adcSamples, done, InBlock(m, offset, h, nchannels), all)
        {
          ChannelStep(m, offset, h, nchannels, adcSamples, done, all);
          var chan := ByteAt(m, offset);
          var count := Load(m, offset + 1, 4);
          offset := offset + CHANNEL_HEADER;
          if offset + 2 * count > |m.data| {
            done := Join(done, Run([], 0, 1, offset));
            left := true;
            break;
          }
          ghost var at, before := offset, adcSamples;
          var samples := [];
          SamplesGrow(m, at, 0);
          for loop := 0 to count
            invariant samples == Samples(m, at, loop) && offset == at + 2 * loop && adcSamples == before
          {
            SamplesGrow(m, at, loop);
            samples := samples + [ToInt16(Load(m, offset, 2))];
            offset := offset + 2;
          }
          var adc := Adc(h.slot, h.trigger, h.time, chan, samples);
          done := Join(done, Run([Found(at, adc)], 0, 1, offset));
          adcSamples := adcSamples + [adc];
          nchannels := nchannels + 1;
        }
        if !left {
          BlockEnds(m, offset, h, nchannels);
        }
      }
      Decoded(m, offset, adcSamples, done, all);
    }
  }

  lemma DecodeStarts(all: Run)
    ensures Completes([], Run([], 0, 0, 0), all, all)
  {
    assert [] + all.found == all.found;
  }

  lemma SamplesGrow(m: Memory, at: nat, n: nat)
    ensures Samples(m, at, 0) == []
    ensures Samples(m, at, n + 1) == Samples(m, at, n) + [ToInt16(Load(m, at + 2 * n, 2))]
  {
    hide Load;
  }
}
