/**
 The trigger words of a BDXmini event: pairs of a trigger mask and a time up to a magic pair, then
 four-word blocks of a 64-bit channel mask and a time.
 */
module TriggerWords {
  import opened MachineInts
  import opened Bits

  const MAGIC: Word := 0xabcd_abcd
  const N_TRIGGERS := 32
  const N_CHANNELS := 64

  // ---- What the words say -------------------------------------------------------------------

  /** The pair at which the trigger part stops: the magic pair, or past the last complete pair. */
  function PairsEnd(words: seq<Word>, ii: nat): (end: nat)
    requires ii <= |words| / 2
    ensures ii <= end <= |words| / 2
    ensures end == |words| / 2 || (words[2 * end] == 0xabcd_abcd && words[2 * end + 1] == 0xabcd_abcd)
    ensures forall k :: ii <= k < end ==> words[2 * k] != 0xabcd_abcd || words[2 * k + 1] != 0xabcd_abcd
    decreases |words| / 2 - ii
  {
    if ii == |words| / 2 || (words[2 * ii] == MAGIC && words[2 * ii + 1] == MAGIC) then ii
    else PairsEnd(words, ii + 1)
  }

  /** Where the blocks start, and how many complete ones there are. */
  function BlocksStart(words: seq<Word>): nat { 2 * (PairsEnd(words, 0) + 1) }

  function BlockCount(words: seq<Word>): (n: nat)
    ensures BlocksStart(words) <= |words| ==> BlocksStart(words) + 4 * n <= |words| < BlocksStart(words) + 4 * n + 4
    ensures BlocksStart(words) > |words| ==> n == 0
  {
    if BlocksStart(words) > |words| then 0 else (|words| - BlocksStart(words)) / 4
  }

  function MaskOf(words: seq<Word>, at: nat): nat
    requires at + 4 <= |words|
  {
    words[at + 1] * TWO32 + words[at]
  }

  function TimeOf(words: seq<Word>, at: nat): int
    requires at + 4 <= |words|
  {
    ToInt64(words[at + 3] * TWO32 + words[at + 2])
  }

  predicate InWindow(time: int, min: int, max: int) { min <= time <= max }

  /** The OR of the masks of the first `n` blocks, and of those among them inside the time window. */
  function OrOfMasks(words: seq<Word>, start: nat, n: nat): nat
    requires start + 4 * n <= |words| || n == 0
  {
    if n == 0 then 0 else Or(OrOfMasks(words, start, n - 1), MaskOf(words, start + 4 * (n - 1)))
  }

  function OrOfMasksInWindow(words: seq<Word>, start: nat, n: nat, min: int, max: int): nat
    requires start + 4 * n <= |words| || n == 0
  {
    if n == 0 then 0
    else
      var at := start + 4 * (n - 1);
      var before := OrOfMasksInWindow(words, start, n - 1, min, max);
      if InWindow(TimeOf(words, at), min, max) then Or(before, MaskOf(words, at)) else before
  }

  /** Times of the first `n` pairs whose mask has bit `k`, in order. */
  function TimesOf(words: seq<Word>, n: nat, k: nat): seq<int>
    requires 2 * n <= |words|
  {
    if n == 0 then []
    else TimesOf(words, n - 1, k) + (if Bit(words[2 * n - 2], k) then [ToInt32(words[2 * n - 1])] else [])
  }

  /** The windowed OR has no bit that the full one lacks. */
  lemma {:induction false} WindowIsSubset(words: seq<Word>, start: nat, n: nat, min: int, max: int, k: nat)
    requires start + 4 * n <= |words| || n == 0
    ensures Bit(OrOfMasksInWindow(words, start, n, min, max), k) ==> Bit(OrOfMasks(words, start, n), k)
  {
    hide Bit, Or;
    if n == 0 {
    } else {
      WindowIsSubset(words, start, n - 1, min, max, k);
      var mask := MaskOf(words, start + 4 * (n - 1));
      BitOfOr(OrOfMasks(words, start, n - 1), mask, k);
      BitOfOr(OrOfMasksInWindow(words, start, n - 1, min, max), mask, k);
    }
  }

  /** A mask has no bit past 63, so neither has an OR of masks. */
  lemma {:induction false} NoHighBits(x: nat, n: nat, k: nat)
    requires x < Pow2(n) && k >= n
    ensures !Bit(x, k)
  {
    if n == 0 {
      ZeroHasNoBit(k);
    } else {
      NoHighBits(x / 2, n - 1, k - 1);
    }
  }

  lemma Pow32()
    ensures Pow2(32) == TWO32
  {
    assert Pow2(8) == 256;
    Pow2Add(8, 8);
    Pow2Add(16, 16);
  }

  lemma Pow64()
    ensures Pow2(64) == TWO32 * TWO32
  {
    Pow32();
    Pow2Add(32, 32);
  }

  lemma {:induction false} Pow2Add(a: nat, b: nat)
    ensures Pow2(a + b) == Pow2(a) * Pow2(b)
  {
    if a == 0 {
    } else {
      Pow2Add(a - 1, b);
      assert Pow2(a + b) == 2 * Pow2(a - 1 + b);
    }
  }

  lemma {:induction false} OrHasNoHighBits(words: seq<Word>, start: nat, n: nat, min: int, max: int, k: nat)
    requires (start + 4 * n <= |words| || n == 0) && k >= 64
    ensures !Bit(OrOfMasks(words, start, n), k)
    ensures !Bit(OrOfMasksInWindow(words, start, n, min, max), k)
  {
    hide Bit, Or, Pow2;
    if n == 0 {
      ZeroHasNoBit(k);
    } else {
      OrHasNoHighBits(words, start, n - 1, min, max, k);
      var mask := MaskOf(words, start + 4 * (n - 1));
      Pow64();
      NoHighBits(mask, 64, k);
      BitOfOr(OrOfMasks(words, start, n - 1), mask, k);
      BitOfOr(OrOfMasksInWindow(words, start, n - 1, min, max), mask, k);
    }
  }

  // ---- The channels, from the words -----------------------------------------------------------------

  /** A channel's bit in the block at `at`: channels 0 to 31 in its first word, 32 to 63 in its second. */
  predicate HasChannel(words: seq<Word>, at: nat, k: nat)
    requires at + 4 <= |words|
  {
    if k < 32 then Bit(words[at], k) else k < 64 && Bit(words[at + 1], k - 32)
  }

  /** The block's time: the low half in its third word, the high half, with the sign, in its fourth. */
  function SignedTime(words: seq<Word>, at: nat): int
    requires at + 4 <= |words|
  {
    var high := if words[at + 3] < 0x8000_0000 then words[at + 3] as int else words[at + 3] as int - 0x1_0000_0000;
    words[at + 2] as int + 0x1_0000_0000 * high
  }

  /** Channel `k` is in some of the `n` blocks from `start` on. */
  ghost predicate InSomeBlock(words: seq<Word>, start: nat, n: nat, k: nat)
    requires start + 4 * n <= |words| || n == 0
  {
    exists b :: 0 <= b < n && HasChannel(words, start + 4 * b, k)
  }

  /** Channel `k` is in some of those blocks whose time is in the window. */
  ghost predicate InSomeBlockInTime(words: seq<Word>, start: nat, n: nat, min: int, max: int, k: nat)
    requires start + 4 * n <= |words| || n == 0
  {
    exists b :: 0 <= b < n && HasChannel(words, start + 4 * b, k) && min <= SignedTime(words, start + 4 * b) <= max
  }

  lemma {:induction false} BitsJoined(x: nat, y: nat, n: nat, k: nat)
    requires x < Pow2(n)
    ensures Bit(x + y * Pow2(n), k) <==> if k < n then Bit(x, k) else Bit(y, k - n)
    decreases n
  {
    if n == 0 {
    } else {
      var p, z := Pow2(n - 1), x + y * Pow2(n);
      assert z == x + 2 * (y * p);
      assert z / 2 == x / 2 + y * p && z % 2 == x % 2;
      if k > 0 {
        BitsJoined(x / 2, y, n - 1, k - 1);
      }
    }
  }

  lemma MaskHasChannels(words: seq<Word>, at: nat, k: nat)
    requires at + 4 <= |words|
    ensures Bit(MaskOf(words, at), k) <==> HasChannel(words, at, k)
  {
    hide Bit, Pow2;
    Pow32();
    BitsJoined(words[at], words[at + 1], 32, k);
    if k >= 64 {
      NoHighBits(words[at + 1], 32, k - 32);
    }
  }

  lemma TimeIsSigned(words: seq<Word>, at: nat)
    requires at + 4 <= |words|
    ensures TimeOf(words, at) == SignedTime(words, at)
  {
    hide ToInt64;
    var time, signed := TimeOf(words, at), SignedTime(words, at);
    var turn := if words[at + 3] < 0x8000_0000 then 0 else 1;
    assert (words[at + 3] * TWO32 + words[at + 2]) - signed == turn * 0x1_0000_0000_0000_0000;
  }

  /** The channels decoded are those of the blocks' words, and the triggered ones those of blocks in time. */
  lemma {:induction false} ChannelsOfWords(words: seq<Word>, start: nat, n: nat, min: int, max: int, k: nat)
    requires start + 4 * n <= |words| || n == 0
    ensures Bit(OrOfMasks(words, start, n), k) <==> InSomeBlock(words, start, n, k)
    ensures Bit(OrOfMasksInWindow(words, start, n, min, max), k) <==> InSomeBlockInTime(words, start, n, min, max, k)
    decreases n
  {
    hide Bit, Or, HasChannel, SignedTime, MaskOf, TimeOf;
    if n == 0 {
      ZeroHasNoBit(k);
    } else {
      var at := start + 4 * (n - 1);
      ChannelsOfWords(words, start, n - 1, min, max, k);
      MaskHasChannels(words, at, k);
      TimeIsSigned(words, at);
      BitOfOr(OrOfMasks(words, start, n - 1), MaskOf(words, at), k);
      BitOfOr(OrOfMasksInWindow(words, start, n - 1, min, max), MaskOf(words, at), k);
    }
  }

  // ---- Channel flags as a word ----------------------------------------------------------------

  /** The word getLongWordChannels builds from the first `n` flags. */
  function WordOfFlags(flags: seq<bool>, n: nat): nat
    requires n <= |flags|
  {
    if n == 0 then 0
    else if flags[n - 1] then Or(WordOfFlags(flags, n - 1), Pow2(n - 1)) else WordOfFlags(flags, n - 1)
  }

  lemma {:induction false} BitsOfFlags(flags: seq<bool>, n: nat, k: nat)
    requires n <= |flags|
    ensures Bit(WordOfFlags(flags, n), k) <==> k < n && flags[k]
  {
    hide Bit, Or, Pow2;
    if n == 0 {
      ZeroHasNoBit(k);
    } else {
      BitsOfFlags(flags, n - 1, k);
      BitOfOr(WordOfFlags(flags, n - 1), Pow2(n - 1), k);
      BitOfPow2(n - 1, k);
    }
  }

  /** Flags that are the bits of a 64-bit word make up that word. */
  lemma FlagsMakeWord(flags: seq<bool>, word: nat)
    requires |flags| == 64
    requires forall k :: 0 <= k < 64 ==> flags[k] == Bit(word, k)
    requires forall k: nat :: k >= 64 ==> !Bit(word, k)
    ensures WordOfFlags(flags, 64) == word
  {
    hide Bit, WordOfFlags;
    forall k: nat
      ensures Bit(WordOfFlags(flags, 64), k) <==> Bit(word, k)
    {
      BitsOfFlags(flags, 64, k);
    }
    SameBits(WordOfFlags(flags, 64), word);
  }

  // ---- The event's trigger data ---------------------------------------------------------------

  class TriggerData {
    const channels: array<bool>
    const channelsTrg: array<bool>
    var trgTimes: seq<seq<int>>
    var nTriggers: nat

    ghost predicate Valid()
      reads this
    {
      channels.Length == channelsTrg.Length == N_CHANNELS && |trgTimes| == N_TRIGGERS && channels != channelsTrg
    }

    constructor ()
      ensures Valid() && fresh(channels) && fresh(channelsTrg)
      ensures forall k :: 0 <= k < N_CHANNELS ==> !channels[k] && !channelsTrg[k]
      ensures nTriggers == 0 && forall k :: 0 <= k < N_TRIGGERS ==> trgTimes[k] == []
    {
      channels := new bool[N_CHANNELS](_ => false);
      channelsTrg := new bool[N_CHANNELS](_ => false);
      trgTimes := seq(N_TRIGGERS, _ => []);
      nTriggers := 0;
    }

    method AddTriggerTime(itrg: int, data: int)
      requires Valid()
      modifies this`trgTimes
      ensures Valid()
      ensures trgTimes ==
                if 0 <= itrg < N_TRIGGERS then old(trgTimes)[itrg := old(trgTimes)[itrg] + [data]] else old(trgTimes)
    {
      if itrg < 0 || itrg >= N_TRIGGERS {
        return;
      }
      trgTimes := trgTimes[itrg := trgTimes[itrg] + [data]];
    }

    /** The channel flags as a 64-bit word. */
    method GetLongWordChannels() returns (ret: nat)
      requires Valid()
      ensures ret == WordOfFlags(channels[..], N_CHANNELS)
    {
      ret := LongWord(channels);
    }

    method GetLongWordChannelsTrg() returns (ret: nat)
      requires Valid()
      ensures ret == WordOfFlags(channelsTrg[..], N_CHANNELS)
    {
      ret := LongWord(channelsTrg);
    }
  }

  method LongWord(flags: array<bool>) returns (ret: nat)
    ensures ret == WordOfFlags(flags[..], flags.Length)
  {
    ret := 0;
    for ii := 0 to flags.Length
      invariant ret == WordOfFlags(flags[..], ii)
    {
      if flags[ii] {
        ret := Or(ret, Pow2(ii));
      }
    }
  }

  // ---- Decoding -------------------------------------------------------------------------------

  /** The number of times recorded, over all triggers. */
  function TotalTimes(times: seq<seq<int>>): nat {
    if times == [] then 0 else TotalTimes(times[..|times| - 1]) + |times[|times| - 1]|
  }

  /** The loop over the trigger pairs: all triggers counted, and the times of each trigger. */
  method DecodeTriggers(words: seq<Word>) returns (nTriggers: nat, times: seq<seq<int>>, ii: nat)
    ensures ii == PairsEnd(words, 0)
    ensures |times| == N_TRIGGERS && forall k :: 0 <= k < N_TRIGGERS ==> times[k] == TimesOf(words, ii, k)
    ensures nTriggers == TotalTimes(times)
  {
    hide Bit, PairsEnd, TotalTimes, TimesOf;
    nTriggers := 0;
    times := seq(N_TRIGGERS, _ => []);
    NothingCounted(times);
    NoTimes(words);
    ii := 0;
    while ii < |words| / 2
      invariant ii <= |words| / 2 && PairsEnd(words, ii) == PairsEnd(words, 0)
      invariant |times| == N_TRIGGERS && forall k :: 0 <= k < N_TRIGGERS ==> times[k] == TimesOf(words, ii, k)
      invariant nTriggers == TotalTimes(times)
    {
      PairsEndStep(words, ii);
      var word1, word2 := words[2 * ii], words[2 * ii + 1];
      if word1 == MAGIC && word2 == MAGIC {
        break;
      }
      for kk := 0 to N_TRIGGERS
        invariant |times| == N_TRIGGERS
        invariant forall k :: 0 <= k < N_TRIGGERS ==> times[k] == TimesOf(words, if k < kk then ii + 1 else ii, k)
        invariant nTriggers == TotalTimes(times)
      {
        TimesStep(words, ii, kk);
        if Bit(word1, kk) {
          OneMore(times, kk, ToInt32(word2));
          nTriggers := nTriggers + 1;
          times := times[kk := times[kk] + [ToInt32(word2)]];
        }
      }
      ii := ii + 1;
    }
    PairsEndStep(words, ii);
  }

  lemma NoTimes(words: seq<Word>)
    ensures forall k: nat :: TimesOf(words, 0, k) == []
  {
  }

  lemma TimesStep(words: seq<Word>, ii: nat, k: nat)
    requires 2 * ii + 2 <= |words|
    ensures TimesOf(words, ii + 1, k) == TimesOf(words, ii, k) +
             (if Bit(words[2 * ii], k) then [ToInt32(words[2 * ii + 1])] else [])
  {
    hide Bit;
  }

  lemma PairsEndStep(words: seq<Word>, ii: nat)
    requires ii <= |words| / 2
    ensures PairsEnd(words, ii) ==
             if ii == |words| / 2 || (words[2 * ii] == MAGIC && words[2 * ii + 1] == MAGIC) then ii
                                   else PairsEnd(words, ii + 1)
  {
  }

  lemma {:induction false} NothingCounted(times: seq<seq<int>>)
    requires forall k :: 0 <= k < |times| ==> times[k] == []
    ensures TotalTimes(times) == 0
  {
    if times == [] {
    } else {
      NothingCounted(times[..|times| - 1]);
    }
  }

  lemma {:induction false} OneMore(times: seq<seq<int>>, k: nat, t: int)
    requires k < |times|
    ensures TotalTimes(times[k := times[k] + [t]]) == TotalTimes(times) + 1
    decreases |times|
  {
    var n := |times| - 1;
    var times' := times[k := times[k] + [t]];
    if k == n {
      assert times'[..n] == times[..n];
    } else {
      OneMore(times[..n], k, t);
      assert times'[..n] == times[..n][k := times[k] + [t]];
    }
  }

  /** The factory's event method: the trigger data of an event's words. */
  method DecodeEvent(words: seq<Word>, min: int, max: int) returns (data: TriggerData)
    ensures fresh(data) && data.Valid()
    ensures data.nTriggers == TotalTimes(data.trgTimes) && |data.trgTimes| == 32
    ensures data.channels.Length == data.channelsTrg.Length == 64
    ensures forall k :: 0 <= k < 32 ==> data.trgTimes[k] == TimesOf(words, PairsEnd(words, 0), k)
    ensures var start, n := BlocksStart(words), BlockCount(words);
            forall k :: 0 <= k < 64 ==>
              && (data.channels[k] <==> InSomeBlock(words, start, n, k))
              && (data.channelsTrg[k] <==> InSomeBlockInTime(words, start, n, min, max, k))
              && data.channels[k] == Bit(OrOfMasks(words, start, n), k)
              && data.channelsTrg[k] == Bit(OrOfMasksInWindow(words, start, n, min, max), k)
  {
    hide Bit, Or, Pow2, And, PairsEnd, TimesOf, TotalTimes, InSomeBlock, InSomeBlockInTime, OrOfMasks,
         OrOfMasksInWindow;
    var nTriggers, times, ii := DecodeTriggers(words);
    data := new TriggerData();
    ii := ii + 1;
    var nwords := TruncDiv(|words| - ii * 2, 4);
    DecodeBlocks(words, ii * 2, if nwords > 0 then nwords else 0, min, max, data.channels, data.channelsTrg);
    data.nTriggers := nTriggers;
    for k := 0 to N_TRIGGERS
      invariant data.Valid() && data.nTriggers == nTriggers
      invariant forall j :: 0 <= j < k ==> data.trgTimes[j] == times[j]
      invariant forall j :: k <= j < N_TRIGGERS ==> data.trgTimes[j] == []
      invariant forall j :: 0 <= j < N_CHANNELS ==>
                  && data.channels[j] == Bit(OrOfMasks(words, BlocksStart(words), BlockCount(words)), j)
                  && data.channelsTrg[j] ==
                       Bit(OrOfMasksInWindow(words, BlocksStart(words), BlockCount(words), min, max), j)
    {
      CopyTimes(data, k, times[k]);
    }
    assert data.trgTimes == times;
    forall k | 0 <= k < 64
      ensures data.channels[k] <==> InSomeBlock(words, BlocksStart(words), BlockCount(words), k)
      ensures data.channelsTrg[k] <==> InSomeBlockInTime(words, BlocksStart(words), BlockCount(words), min, max, k)
    {
      ChannelsOfWords(words, BlocksStart(words), BlockCount(words), min, max, k);
    }
  }

  method CopyTimes(data: TriggerData, k: nat, times: seq<int>)
    requires data.Valid() && k < N_TRIGGERS && data.trgTimes[k] == []
    modifies data`trgTimes
    ensures data.Valid() && data.trgTimes == old(data.trgTimes)[k := times]
  {
    for n := 0 to |times|
      invariant data.Valid() && data.trgTimes == old(data.trgTimes)[k := times[..n]]
    {
      assert times[..n + 1] == times[..n] + [times[n]];
      data.AddTriggerTime(k, times[n]);
    }
    assert times[..|times|] == times;
  }

  /** The loop over the four-word blocks. */
  method DecodeBlocks(words: seq<Word>, start: nat, n: nat, min: int, max: int,
                      channels: array<bool>, channelsTrg: array<bool>)
    requires start + 4 * n <= |words| || n == 0
    requires channels != channelsTrg && channels.Length == channelsTrg.Length == N_CHANNELS
    requires forall k :: 0 <= k < N_CHANNELS ==> !channels[k] && !channelsTrg[k]
    modifies channels, channelsTrg
    ensures forall k :: 0 <= k < N_CHANNELS ==>
              && channels[k] == Bit(OrOfMasks(words, start, n), k)
              && channelsTrg[k] == Bit(OrOfMasksInWindow(words, start, n, min, max), k)
  {
    hide Bit, Or, Pow2, And;
    forall k | 0 <= k < N_CHANNELS
      ensures !Bit(0, k)
    {
      ZeroHasNoBit(k);
    }
    for jj := 0 to n
      invariant forall k :: 0 <= k < N_CHANNELS ==>
                  && channels[k] == Bit(OrOfMasks(words, start, jj), k)
                  && channelsTrg[k] == Bit(OrOfMasksInWindow(words, start, jj, min, max), k)
    {
      var chanMask, chanTime := MaskOf(words, start + 4 * jj), TimeOf(words, start + 4 * jj);
      for kk := 0 to N_CHANNELS
        invariant forall k :: 0 <= k < N_CHANNELS ==>
                    && channels[k] == Bit(OrOfMasks(words, start, if k < kk then jj + 1 else jj), k)
                    && channelsTrg[k] ==
                         Bit(OrOfMasksInWindow(words, start, if k < kk then jj + 1 else jj, min, max), k)
      {
        MaskTestsBit(chanMask, kk);
        BitOfOr(OrOfMasks(words, start, jj), chanMask, kk);
        BitOfOr(OrOfMasksInWindow(words, start, jj, min, max), chanMask, kk);
        if And(chanMask, Pow2(kk)) != 0 {
          channels[kk] := true;
          if chanTime >= min && chanTime <= max {
            channelsTrg[kk] := true;
          }
        }
      }
    }
  }

  /**
   For any word list: the channel word of the decoded event is the OR of the masks of all complete
   blocks, and the triggered-channel word the OR of those inside the time window.
   */
  method ChannelWords(words: seq<Word>, min: int, max: int) returns (all: nat, triggered: nat)
    ensures all == OrOfMasks(words, BlocksStart(words), BlockCount(words))
    ensures triggered == OrOfMasksInWindow(words, BlocksStart(words), BlockCount(words), min, max)
    ensures Or(all, triggered) == all
    ensures forall k: nat ::
              && (Bit(all, k) <==> InSomeBlock(words, BlocksStart(words), BlockCount(words), k))
              && (Bit(triggered, k) <==> InSomeBlockInTime(words, BlocksStart(words), BlockCount(words), min, max, k))
  {
    hide Bit, Or, InSomeBlock, InSomeBlockInTime, OrOfMasks, OrOfMasksInWindow, PairsEnd, TimesOf;
    var data := DecodeEvent(words, min, max);
    all := data.GetLongWordChannels();
    triggered := data.GetLongWordChannelsTrg();
    var start, n := BlocksStart(words), BlockCount(words);
    forall k: nat | k >= 64
      ensures !Bit(OrOfMasks(words, start, n), k) && !Bit(OrOfMasksInWindow(words, start, n, min, max), k)
    {
      OrHasNoHighBits(words, start, n, min, max, k);
    }
    FlagsMakeWord(data.channels[..], OrOfMasks(words, start, n));
    FlagsMakeWord(data.channelsTrg[..], OrOfMasksInWindow(words, start, n, min, max));
    SubsetWord(words, start, n, min, max);
    forall k: nat
      ensures Bit(all, k) <==> InSomeBlock(words, start, n, k)
      ensures Bit(triggered, k) <==> InSomeBlockInTime(words, start, n, min, max, k)
    {
      ChannelsOfWords(words, start, n, min, max, k);
    }
  }

  /** The words of triggered channels add nothing to those of all channels. */
  lemma SubsetWord(words: seq<Word>, start: nat, n: nat, min: int, max: int)
    requires start + 4 * n <= |words| || n == 0
    ensures Or(OrOfMasks(words, start, n), OrOfMasksInWindow(words, start, n, min, max)) == OrOfMasks(words, start, n)
  {
    hide Bit, Or, OrOfMasks, OrOfMasksInWindow;
    var all, triggered := OrOfMasks(words, start, n), OrOfMasksInWindow(words, start, n, min, max);
    forall k: nat
      ensures Bit(Or(all, triggered), k) <==> Bit(all, k)
    {
      BitOfOr(all, triggered, k);
      WindowIsSubset(words, start, n, min, max, k);
    }
    SameBits(Or(all, triggered), all);
  }
}
