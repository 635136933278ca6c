/**
 What parse_event makes of well-formed frames: the frames of an event, wherever they lie in a file,
 come back grouped by their fragmentation flags, and exactly their bytes are consumed.
 */
module PtGrouping {
  import opened MachineInts
  import opened Slices
  import opened ByteStream
  import opened DataFormat
  import opened PtEvents

  // ---- Frames and their bytes ---------------------------------------------------------------

  datatype Frame = Frame(head: DataFrameHeader, payload: seq<Byte>)

  predicate ValidFrame(f: Frame) {
    FitsWidths(f.head) && |f.payload| == PayloadSize(f.head)
  }

  predicate ValidFrames(fs: seq<Frame>) {
    forall i :: 0 <= i < |fs| ==> ValidFrame(fs[i])
  }

  function FrameBytes(f: Frame): (bs: seq<Byte>)
    requires ValidFrame(f)
    ensures |bs| == HEADER_BYTES + PayloadSize(f.head)
  {
    HeaderBytes(f.head) + f.payload
  }

  function FramesBytes(fs: seq<Frame>): (bs: seq<Byte>)
    requires ValidFrames(fs)
  {
    if fs == [] then [] else FrameBytes(fs[0]) + FramesBytes(fs[1..])
  }

  /** The little-endian values of `n` consecutive groups of `width` bytes. */
  function Values(bs: seq<Byte>, n: nat, width: nat): (vs: seq<nat>)
    requires n * width <= |bs|
    ensures |vs| == n
    decreases n
  {
    if n == 0 then [] else
      OneFewer(n, width);
      [FromLE(bs[..width])] + Values(bs[width..], n - 1, width)
  }

  lemma OneFewer(n: nat, width: nat)
    requires n > 0
    ensures width <= n * width && (n - 1) * width == n * width - width
  {
  }

  lemma ValuesFit(n: nat, width: nat, h: DataFrameHeader)
    requires n == h.nDataSamples && 0 <= width <= 2
    ensures n * width <= PayloadSize(h)
  {
    if width == 1 {
    } else if width == 2 {
    }
  }

  /** The samples an overload keeps of a frame. */
  function SamplesOf(f: Frame, mode: Mode): seq<nat>
    requires ValidFrame(f)
  {
    ValuesFit(f.head.nDataSamples, SampleWidth(f.head, mode), f.head);
    if mode.NoSamples? then [] else Values(f.payload, f.head.nDataSamples, SampleWidth(f.head, mode))
  }

  lemma {:induction false} ReadsValues(data: seq<Byte>, pos: nat, bs: seq<Byte>, n: nat, width: nat)
    requires n * width <= |bs| && Holds(data, pos, bs) && width > 0
    ensures ReadSamples(data, At(pos), n, width) == (Values(bs, n, width), n * width, At(pos + n * width))
    decreases n
  {
    hide FromLE, Read, Holds;
    if n == 0 {
    } else {
      OneFewer(n, width);
      assert bs == bs[..width] + bs[width..];
      HoldsSplit(data, pos, bs[..width], bs[width..]);
      ReadsBytes(data, pos, bs[..width]);
      ReadsValues(data, pos + width, bs[width..], n - 1, width);
    }
  }

  lemma ReadsBytes(data: seq<Byte>, pos: nat, bs: seq<Byte>)
    requires Holds(data, pos, bs)
    ensures Read(data, At(pos), |bs|) == (At(pos + |bs|), |bs|)
    ensures pos + |bs| <= |data| && data[pos..pos + |bs|] == bs
  {
  }

  /** Reading the payload of a frame keeps its samples, counts off and consumes exactly its bytes. */
  lemma ReadsPayload(data: seq<Byte>, pos: nat, f: Frame, mode: Mode)
    requires ValidFrame(f) && Holds(data, pos, f.payload)
    ensures ReadPayload(data, At(pos), f.head, mode)
         == (SamplesOf(f, mode), PayloadSize(f.head), At(pos + PayloadSize(f.head)))
  {
    if !mode.NoSamples? {
      var width := SampleWidth(f.head, mode);
      ValuesFit(f.head.nDataSamples, width, f.head);
      ReadsValues(data, pos, f.payload, f.head.nDataSamples, width);
    }
  }

  lemma {:induction false} ValuesAt(bs: seq<Byte>, n: nat, width: nat, i: nat)
    requires n * width <= |bs| && i < n
    ensures 0 <= i * width && i * width + width <= |bs|
    ensures Values(bs, n, width)[i] == FromLE(bs[i * width..i * width + width])
    decreases n
  {
    hide FromLE;
    OneFewer(n, width);
    if i == 0 {
    } else {
      OneFewer(i, width);
      ValuesAt(bs[width..], n - 1, width, i - 1);
      var at := (i - 1) * width;
      assert bs[width..][at..at + width] == bs[width + at..width + at + width];
    }
  }

  lemma LittleEndian(bs: seq<Byte>)
    ensures |bs| == 1 ==> FromLE(bs) == bs[0]
    ensures |bs| == 2 ==> FromLE(bs) == bs[0] as int + 0x100 * bs[1] as int
  {
    if |bs| == 2 {
      assert FromLE(bs[1..]) == bs[1] as int + 0x100 * FromLE(bs[1..][1..]);
    } else if |bs| == 1 {
      assert bs[1..] == [];
    }
  }

  /**
   The samples kept of a frame, from its payload: by the overload for uncompressed samples two bytes each,
   the low one first, or one byte each where the frame's zip flag is set; one byte each by the overload for
   compressed samples; none by the third.
   */
  lemma SampleValues(f: Frame, mode: Mode)
    requires ValidFrame(f)
    ensures mode.NoSamples? ==> SamplesOf(f, mode) == []
    ensures !mode.NoSamples? ==> |SamplesOf(f, mode)| == f.head.nDataSamples && 2 * f.head.nDataSamples <= |f.payload|
    ensures mode.UncompressedSamples? && f.head.zipFlag == 0 ==>
              forall i :: 0 <= i < f.head.nDataSamples ==>
                SamplesOf(f, mode)[i] == f.payload[2 * i] as int + 0x100 * f.payload[2 * i + 1] as int
    ensures mode.CompressedSamples? || (mode.UncompressedSamples? && f.head.zipFlag != 0) ==>
              forall i :: 0 <= i < f.head.nDataSamples ==> SamplesOf(f, mode)[i] == f.payload[i]
  {
    hide FromLE, Values;
    if !mode.NoSamples? {
      ValuesFit(f.head.nDataSamples, SampleWidth(f.head, mode), f.head);
      forall i | 0 <= i < f.head.nDataSamples
        ensures SamplesOf(f, mode)[i] == SampleAt(f, mode, i)
      {
        SampleIsAt(f, mode, i);
      }
    }
  }

  function SampleAt(f: Frame, mode: Mode, i: nat): int
    requires ValidFrame(f) && i < f.head.nDataSamples
  {
    if mode.UncompressedSamples? && f.head.zipFlag == 0 then
      f.payload[2 * i] as int + 0x100 * f.payload[2 * i + 1] as int
    else f.payload[i]
  }

  lemma SampleIsAt(f: Frame, mode: Mode, i: nat)
    requires ValidFrame(f) && !mode.NoSamples? && i < f.head.nDataSamples
    ensures |SamplesOf(f, mode)| == f.head.nDataSamples && SamplesOf(f, mode)[i] == SampleAt(f, mode, i)
  {
    hide FromLE, Values;
    var n, width := f.head.nDataSamples, SampleWidth(f.head, mode);
    ValuesFit(n, width, f.head);
    ValuesAt(f.payload, n, width, i);
    LittleEndian(f.payload[i * width..i * width + width]);
  }

  // ---- Delivery: the loop on frames instead of bytes -----------------------------------------

  function DeliverAll(hits: seq<Hit>, current: nat, fs: seq<Frame>, mode: Mode): Result<seq<Hit>>
    requires ValidFrames(fs)
    decreases |fs|
  {
    if fs == [] then Ok(hits)
    else
      var h := fs[0].head;
      var to := NextHit(hits, current, h);
      if mode.CompressedSamples? && !Compressed(h) then Err(NotCompressed)
      else if to >= |hits| then Err(PastLastHit)
      else DeliverAll(Deliver(hits, to, h, SamplesOf(fs[0], mode)), to, fs[1..], mode)
  }

  /**
   Parsing the bytes of frames delivers the frames; on success exactly their bytes are consumed. The bytes
   to count off are held in an `int`, and those after the first frame fit one.
   */
  lemma {:induction false} ParseDelivers(data: seq<Byte>, pos: nat, hits: seq<Hit>, current: nat, fs: seq<Frame>,
                                         mode: Mode)
    requires fs != [] && ValidFrames(fs) && Holds(data, pos, FramesBytes(fs)) && |FramesBytes(fs[1..])| <= INT_MAX
    ensures var r := ParseFrames(data, At(pos), hits, current, ToInt32(|FramesBytes(fs)|), mode);
            && r.0 == DeliverAll(hits, current, fs, mode)
            && (r.0.Ok? ==> r.1 == At(pos + |FramesBytes(fs)|))
            && !r.1.fail
    decreases |fs|
  {
    hide HeaderOf, HeaderBytes, ReadPayload, ParseFrames, SamplesOf, Deliver, NextHit, FitsWidths, Holds, FromWords,
         ToInt32;
    var f, rest := fs[0], fs[1..];
    assert ValidFrame(f);
    FirstFrame(data, pos, fs);
    var h, size := f.head, ToInt32(|FramesBytes(fs)|);
    ParseRound(data, At(pos), hits, current, size, mode);
    var to := NextHit(hits, current, h);
    if !(mode.CompressedSamples? && !Compressed(h)) && to < |hits| {
      var next := pos + HEADER_BYTES + PayloadSize(h);
      ReadsPayload(data, pos + HEADER_BYTES, f, mode);
      LeftAfter(|FramesBytes(fs)|, HEADER_BYTES + PayloadSize(h));
      if rest == [] {
      } else {
        FramesNotEmpty(rest);
        RestFits(rest);
        ParseDelivers(data, next, Deliver(hits, to, h, SamplesOf(f, mode)), to, rest, mode);
      }
    }
  }

  /** Counting off from a wrapped total leaves the wrapped remainder. */
  lemma LeftAfter(total: int, n: int)
    ensures ToInt32(ToInt32(total) - n) == ToInt32(total - n)
  {
    hide ToInt32;
    var held := ToInt32(total);
    var a, b := ToInt32(held - n), ToInt32(total - n);
    var turns := (held - total) / TWO32 + (a - (held - n)) / TWO32 - (b - (total - n)) / TWO32;
    assert a - b == turns * TWO32;
    assert -TWO32 < a - b < TWO32;
  }

  lemma RestFits(fs: seq<Frame>)
    requires fs != [] && ValidFrames(fs)
    ensures ValidFrames(fs[1..]) && |FramesBytes(fs[1..])| <= |FramesBytes(fs)|
  {
  }

  /** Where the bytes after the first frame do not fit an `int`, the counter is negative after it. */
  lemma ParseOverflows(data: seq<Byte>, pos: nat, hits: seq<Hit>, current: nat, fs: seq<Frame>, mode: Mode)
    requires fs != [] && ValidFrames(fs) && Holds(data, pos, FramesBytes(fs)) && Acceptable(fs, mode)
    requires |FramesBytes(fs)| < TWO32 && INT_MAX < |FramesBytes(fs[1..])|
             && NextHit(hits, current, fs[0].head) < |hits|
    ensures ParseFrames(data, At(pos), hits, current, ToInt32(|FramesBytes(fs)|), mode).0 == Err(Incomplete)
  {
    hide HeaderOf, HeaderBytes, ReadPayload, ParseFrames, SamplesOf, Deliver, NextHit, FitsWidths, Holds, FromWords;
    var f := fs[0];
    assert ValidFrame(f);
    FirstFrame(data, pos, fs);
    ParseRound(data, At(pos), hits, current, ToInt32(|FramesBytes(fs)|), mode);
    ReadsPayload(data, pos + HEADER_BYTES, f, mode);
    LeftAfter(|FramesBytes(fs)|, HEADER_BYTES + PayloadSize(f.head));
  }

  lemma FramesNotEmpty(fs: seq<Frame>)
    requires fs != [] && ValidFrames(fs)
    ensures |FramesBytes(fs)| >= HEADER_BYTES
  {
  }

  lemma FirstFrame(data: seq<Byte>, pos: nat, fs: seq<Frame>)
    requires fs != [] && ValidFrames(fs) && Holds(data, pos, FramesBytes(fs))
    ensures pos + HEADER_BYTES <= |data|
    ensures HeaderOf(data[pos..pos + HEADER_BYTES]) == fs[0].head
    ensures Read(data, At(pos), HEADER_BYTES) == (At(pos + HEADER_BYTES), HEADER_BYTES)
    ensures ValidFrame(fs[0]) && ValidFrames(fs[1..])
    ensures |FramesBytes(fs)| == HEADER_BYTES + PayloadSize(fs[0].head) + |FramesBytes(fs[1..])|
    ensures Holds(data, pos + HEADER_BYTES, fs[0].payload)
    ensures Holds(data, pos + HEADER_BYTES + PayloadSize(fs[0].head), FramesBytes(fs[1..]))
  {
    hide HeaderOf, HeaderBytes, FitsWidths, Read, Holds;
    var f := fs[0];
    assert ValidFrame(f);
    HoldsSplit(data, pos, FrameBytes(f), FramesBytes(fs[1..]));
    HoldsSplit(data, pos, HeaderBytes(f.head), f.payload);
    ReadsBytes(data, pos, HeaderBytes(f.head));
    HeaderRoundTrip(f.head);
  }

  // ---- Grouping by the fragmentation flag -----------------------------------------------------

  /** Frames split before every frame whose fragmentation flag is clear; the first frame always starts a group. */
  function Groups(fs: seq<Frame>): (gs: seq<seq<Frame>>)
    ensures fs != [] ==> gs != [] && gs[0] != [] && gs[0][0] == fs[0]
    ensures |gs| <= |fs|
  {
    if fs == [] then []
    else if |fs| == 1 || !Subsequent(fs[1].head) then [[fs[0]]] + Groups(fs[1..])
    else
      var rest := Groups(fs[1..]);
      [[fs[0]] + rest[0]] + rest[1..]
  }

  function Flatten<T>(xss: seq<seq<T>>): seq<T> {
    if xss == [] then [] else xss[0] + Flatten(xss[1..])
  }

  /** One hit's frames: at least one, and every frame but the first is flagged as subsequent. */
  predicate IsGroup(g: seq<Frame>) {
    g != [] && forall i :: 1 <= i < |g| ==> g[i].head.fragFlag != 0
  }

  /** The frames of an event as they are written: each hit starts with a frame whose flag is clear. */
  predicate IsGrouping(gs: seq<seq<Frame>>) {
    && (forall i :: 0 <= i < |gs| ==> IsGroup(gs[i]))
    && (forall i :: 1 <= i < |gs| ==> gs[i][0].head.fragFlag == 0)
  }

  /** Groups is the only way to cut frames into hits. */
  lemma {:induction false} GroupsOfFlatten(gs: seq<seq<Frame>>)
    requires IsGrouping(gs)
    ensures Groups(Flatten(gs)) == gs
    decreases |gs|
  {
    if gs == [] {
    } else {
      var rest := gs[1..];
      assert forall i :: 0 <= i < |rest| ==> rest[i] == gs[i + 1];
      GroupsOfFlatten(rest);
      if rest == [] {
        assert gs[0] + Flatten(rest) == gs[0] + [];
      } else {
        FlattenFirst(rest);
      }
      GroupsChunk(gs[0], Flatten(rest));
      assert gs == [gs[0]] + rest;
    }
  }

  lemma FlattenFirst(gs: seq<seq<Frame>>)
    requires gs != [] && gs[0] != []
    ensures Flatten(gs) != [] && Flatten(gs)[0] == gs[0][0]
  {
  }

  lemma {:induction false} GroupsChunk(g: seq<Frame>, fs: seq<Frame>)
    requires IsGroup(g) && (fs == [] || !Subsequent(fs[0].head))
    ensures Groups(g + fs) == [g] + Groups(fs)
    decreases |g|
  {
    var all := g + fs;
    assert all[1..] == g[1..] + fs;
    if |g| == 1 {
      assert g == [g[0]] && all[1..] == fs;
    } else {
      assert all[1] == g[1];
      GroupsChunk(g[1..], fs);
      assert g == [g[0]] + g[1..];
    }
  }

  /** Cutting loses nothing, and what it makes is a grouping. */
  lemma {:induction false} FlattenOfGroups(fs: seq<Frame>)
    ensures Flatten(Groups(fs)) == fs && IsGrouping(Groups(fs))
    decreases |fs|
  {
    if fs == [] {
    } else {
      var rest, gs := Groups(fs[1..]), Groups(fs);
      FlattenOfGroups(fs[1..]);
      assert fs == [fs[0]] + fs[1..];
      if |fs| == 1 || !Subsequent(fs[1].head) {
        PrependGroup([fs[0]], rest);
        assert gs == [[fs[0]]] + rest;
      } else {
        ExtendGroup(fs[0], rest);
        assert gs == [[fs[0]] + rest[0]] + rest[1..];
      }
    }
  }

  lemma PrependGroup(g: seq<Frame>, gs: seq<seq<Frame>>)
    requires IsGroup(g) && IsGrouping(gs) && (gs != [] ==> !Subsequent(gs[0][0].head))
    ensures IsGrouping([g] + gs) && Flatten([g] + gs) == g + Flatten(gs)
  {
    var all := [g] + gs;
    assert all[1..] == gs;
    assert forall i :: 1 <= i < |all| ==> all[i] == gs[i - 1];
  }

  lemma ExtendGroup(f: Frame, gs: seq<seq<Frame>>)
    requires gs != [] && IsGrouping(gs) && Subsequent(gs[0][0].head)
    ensures IsGrouping([[f] + gs[0]] + gs[1..]) && Flatten([[f] + gs[0]] + gs[1..]) == [f] + Flatten(gs)
  {
    hide IsGroup, Flatten;
    var all := [[f] + gs[0]] + gs[1..];
    assert forall i :: 1 <= i < |all| ==> all[i] == gs[i];
    assert IsGroup(gs[0]);
    ExtendedGroup(f, gs[0]);
    ExtendedFlatten(f, gs);
  }

  lemma ExtendedGroup(f: Frame, g: seq<Frame>)
    requires IsGroup(g) && Subsequent(g[0].head)
    ensures IsGroup([f] + g)
  {
    assert forall i :: 1 <= i < |[f] + g| ==> ([f] + g)[i] == g[i - 1];
  }

  lemma ExtendedFlatten(f: Frame, gs: seq<seq<Frame>>)
    requires gs != []
    ensures Flatten([[f] + gs[0]] + gs[1..]) == [f] + Flatten(gs)
  {
    var all := [[f] + gs[0]] + gs[1..];
    assert all[1..] == gs[1..];
    assert [f] + gs[0] + Flatten(gs[1..]) == [f] + (gs[0] + Flatten(gs[1..]));
  }

  /** The hit made of a group: its headers, and its samples one frame after the other. */
  function HitOf(g: seq<Frame>, mode: Mode): Hit
    requires ValidFrames(g)
  {
    if g == [] then EMPTY_HIT
    else
      var before := HitOf(g[..|g| - 1], mode);
      var f := g[|g| - 1];
      assert ValidFrame(f);
      Hit(before.heads + [f.head], before.samples + SamplesOf(f, mode))
  }

  function HitsOf(gs: seq<seq<Frame>>, mode: Mode): (hits: seq<Hit>)
    requires forall i :: 0 <= i < |gs| ==> ValidFrames(gs[i])
    ensures |hits| == |gs| && forall i :: 0 <= i < |gs| ==> hits[i] == HitOf(gs[i], mode)
  {
    if gs == [] then [] else [HitOf(gs[0], mode)] + HitsOf(gs[1..], mode)
  }

  lemma {:induction false} GroupsValid(fs: seq<Frame>)
    requires ValidFrames(fs)
    ensures forall i :: 0 <= i < |Groups(fs)| ==> ValidFrames(Groups(fs)[i])
    decreases |fs|
  {
    if fs == [] {
    } else {
      GroupsValid(fs[1..]);
    }
  }

  /** Groups stored in consecutive hits from `current` on, if there are hits enough. */
  function Stored(hits: seq<Hit>, current: nat, gs: seq<seq<Frame>>, mode: Mode): Result<seq<Hit>>
    requires forall i :: 0 <= i < |gs| ==> ValidFrames(gs[i])
  {
    if current + |gs| > |hits| then Err(PastLastHit)
    else Ok(hits[..current] + HitsOf(gs, mode) + hits[current + |gs|..])
  }

  /** What the hit at `current` holds does not matter when a group is stored there. */
  lemma StoredOverwrites(hits: seq<Hit>, hits': seq<Hit>, current: nat, gs: seq<seq<Frame>>, mode: Mode)
    requires forall i :: 0 <= i < |gs| ==> ValidFrames(gs[i])
    requires gs != [] && current < |hits| == |hits'| && hits' == hits[current := hits'[current]]
    ensures Stored(hits', current, gs, mode) == Stored(hits, current, gs, mode)
  {
    if current + |gs| <= |hits| {
      assert hits'[..current] == hits[..current];
      assert hits'[current + |gs|..] == hits[current + |gs|..];
    }
  }

  /** A group already in place can be left out. */
  lemma StoredShift(hits: seq<Hit>, current: nat, g: seq<Frame>, gs: seq<seq<Frame>>, mode: Mode)
    requires ValidFrames(g) && forall i :: 0 <= i < |gs| ==> ValidFrames(gs[i])
    requires current < |hits| && hits[current] == HitOf(g, mode)
    ensures Stored(hits, current + 1, gs, mode) == Stored(hits, current, [g] + gs, mode)
  {
    hide HitOf;
    assert ([g] + gs)[1..] == gs;
    var more := HitsOf(gs, mode);
    assert HitsOf([g] + gs, mode) == [HitOf(g, mode)] + more;
    if current + 1 + |gs| <= |hits| {
      var rest := hits[current + 1 + |gs|..];
      assert hits[..current + 1] + more + rest == hits[..current] + ([HitOf(g, mode)] + more) + rest;
    }
  }

  predicate Acceptable(fs: seq<Frame>, mode: Mode) {
    mode.CompressedSamples? ==> forall i :: 0 <= i < |fs| ==> fs[i].head.zipFlag != 0
  }

  /**
   Delivering frames to a row of hits of which the one at `current` holds the frames `g` so far and
   all later ones are empty.
   */
  lemma {:induction false} DeliversGroups(hits: seq<Hit>, current: nat, g: seq<Frame>, fs: seq<Frame>, mode: Mode)
    requires ValidFrames(g) && ValidFrames(fs) && IsGroup(g) && Acceptable(fs, mode)
    requires current < |hits| && hits[current] == HitOf(g, mode)
    requires forall i :: current < i < |hits| ==> hits[i] == EMPTY_HIT
    ensures ValidFrames(g + fs) && forall i :: 0 <= i < |Groups(g + fs)| ==> ValidFrames(Groups(g + fs)[i])
    ensures DeliverAll(hits, current, fs, mode) == Stored(hits, current, Groups(g + fs), mode)
    decreases |fs|
  {
    hide SamplesOf, Groups, HitOf, Stored;
    GroupsValid(g + fs);
    HitGrows(g, mode);
    if fs == [] {
      GroupsChunk(g, []);
      NoGroups();
      assert g + [] == g && [g] + [] == [g];
      StoredShift(hits, current, g, [], mode);
      NothingStored(hits, current + 1, mode);
    } else {
      var f := fs[0];
      assert ValidFrame(f);
      assert fs == [f] + fs[1..];
      if Subsequent(f.head) {
        assert g + [f] + fs[1..] == g + fs;
        GrowHit(g, f, mode);
        var hits' := Deliver(hits, current, f.head, SamplesOf(f, mode));
        DeliversGroups(hits', current, g + [f], fs[1..], mode);
        SomeGroup(g + fs);
        StoredOverwrites(hits, hits', current, Groups(g + fs), mode);
      } else {
        GroupsChunk(g, fs);
        GroupsValid(fs);
        SomeGroup(fs);
        StoredShift(hits, current, g, Groups(fs), mode);
        if current + 1 < |hits| {
          assert [] + [f] == [f];
          GrowHit([], f, mode);
          var hits' := Deliver(hits, current + 1, f.head, SamplesOf(f, mode));
          DeliversGroups(hits', current + 1, [f], fs[1..], mode);
          StoredOverwrites(hits, hits', current + 1, Groups(fs), mode);
        } else {
          NotStored(hits, current + 1, Groups(fs), mode);
        }
      }
    }
  }

  lemma NoGroups()
    ensures Groups([]) == []
  {
  }

  lemma SomeGroup(fs: seq<Frame>)
    requires fs != []
    ensures Groups(fs) != []
  {
  }

  lemma NothingStored(hits: seq<Hit>, current: nat, mode: Mode)
    requires current <= |hits|
    ensures Stored(hits, current, [], mode) == Ok(hits)
  {
    assert hits[..current] + [] + hits[current..] == hits;
  }

  lemma NotStored(hits: seq<Hit>, current: nat, gs: seq<seq<Frame>>, mode: Mode)
    requires forall i :: 0 <= i < |gs| ==> ValidFrames(gs[i])
    requires gs != [] && current >= |hits|
    ensures Stored(hits, current, gs, mode) == Err(PastLastHit)
  {
  }

  lemma HitGrows(g: seq<Frame>, mode: Mode)
    requires ValidFrames(g)
    ensures g != [] ==> HitOf(g, mode).heads != []
    ensures g == [] ==> HitOf(g, mode) == EMPTY_HIT
  {
    hide SamplesOf;
  }

  lemma GrowHit(g: seq<Frame>, f: Frame, mode: Mode)
    requires ValidFrames(g) && ValidFrame(f)
    ensures ValidFrames(g + [f]) && HitOf([], mode) == EMPTY_HIT
    ensures HitOf(g + [f], mode) == Hit(HitOf(g, mode).heads + [f.head], HitOf(g, mode).samples + SamplesOf(f, mode))
  {
    hide SamplesOf;
    assert (g + [f])[..|g|] == g;
  }

  // ---- A whole call ---------------------------------------------------------------------------

  /** The hits an event's frames make: one per group, and empty ones up to the count announced. */
  function ExpectedHits(gs: seq<seq<Frame>>, nHits: nat, mode: Mode): seq<Hit>
    requires |gs| <= nHits && forall i :: 0 <= i < |gs| ==> ValidFrames(gs[i])
  {
    HitsOf(gs, mode) + EmptyHits(nHits - |gs|)
  }

  /** Frames delivered to fresh hits: the grouping, if the announced count leaves room for it. */
  lemma DeliversToFresh(fs: seq<Frame>, nHits: nat, mode: Mode)
    requires fs != [] && ValidFrames(fs) && Acceptable(fs, mode)
    ensures forall i :: 0 <= i < |Groups(fs)| ==> ValidFrames(Groups(fs)[i])
    ensures DeliverAll(EmptyHits(nHits), 0, fs, mode)
         == if |Groups(fs)| <= nHits then Ok(ExpectedHits(Groups(fs), nHits, mode)) else Err(PastLastHit)
  {
    hide SamplesOf, Groups, HitOf, Stored, ExpectedHits;
    GroupsValid(fs);
    SomeGroup(fs);
    if nHits > 0 {
      var f, hits := fs[0], EmptyHits(nHits);
      assert ValidFrame(f);
      assert [] + [f] == [f] && [f] + fs[1..] == fs;
      GrowHit([], f, mode);
      var hits' := Deliver(hits, 0, f.head, SamplesOf(f, mode));
      DeliversGroups(hits', 0, [f], fs[1..], mode);
      StoredFromStart(hits', Groups(fs), mode);
    }
  }

  lemma StoredFromStart(hits: seq<Hit>, gs: seq<seq<Frame>>, mode: Mode)
    requires gs != [] && forall i :: 0 <= i < |gs| ==> ValidFrames(gs[i])
    requires forall i :: 1 <= i < |hits| ==> hits[i] == EMPTY_HIT
    ensures Stored(hits, 0, gs, mode)
         == if |gs| <= |hits| then Ok(ExpectedHits(gs, |hits|, mode)) else Err(PastLastHit)
  {
    hide HitsOf;
    var n := |gs|;
    if n <= |hits| {
      assert hits[..0] + HitsOf(gs, mode) == HitsOf(gs, mode);
      assert hits[n..] == EmptyHits(|hits| - n);
    }
  }

  /** The bytes after the first frame fit the counter, an `int`; then the counter is never wrongly negative. */
  predicate CounterFits(fs: seq<Frame>)
    requires fs != [] && ValidFrames(fs)
  {
    |FramesBytes(fs[1..])| <= INT_MAX
  }

  /**
   Parsing an event whose frames lie in the file, with the size of those frames, any 32-bit number, put in
   an `int`: it succeeds exactly when the counter fits and the announced hit count leaves room for the
   groups of the frames; then the hits are the groups in order, the stream stands right after the frames,
   and no byte is left to count off.
   */
  lemma ParseEventGroups(data: seq<Byte>, pos: nat, fs: seq<Frame>, nHits: nat, mode: Mode)
    requires fs != [] && ValidFrames(fs) && Acceptable(fs, mode) && Holds(data, pos, FramesBytes(fs))
    requires |FramesBytes(fs)| < TWO32
    ensures forall i :: 0 <= i < |Groups(fs)| ==> ValidFrames(Groups(fs)[i])
    ensures var r := ParseEvent(data, At(pos), nHits, ToInt32(|FramesBytes(fs)|), mode);
            if nHits > 0 && !CounterFits(fs) then r.0 == Err(Incomplete)
            else if |Groups(fs)| <= nHits
            then r == (Ok(ExpectedHits(Groups(fs), nHits, mode)), At(pos + |FramesBytes(fs)|))
            else r.0 == Err(PastLastHit)
  {
    hide ParseFrames, DeliverAll, Groups, FramesBytes, Holds, ExpectedHits, HitsOf, ToInt32;
    GroupsValid(fs);
    if nHits == 0 {
      SomeGroup(fs);
      NoRoom(data, pos, fs, mode);
    } else if CounterFits(fs) {
      ParseDelivers(data, pos, EmptyHits(nHits), 0, fs, mode);
      DeliversToFresh(fs, nHits, mode);
    } else {
      ParseOverflows(data, pos, EmptyHits(nHits), 0, fs, mode);
    }
  }

  lemma NoRoom(data: seq<Byte>, pos: nat, fs: seq<Frame>, mode: Mode)
    requires fs != [] && ValidFrames(fs) && Acceptable(fs, mode) && Holds(data, pos, FramesBytes(fs))
    ensures ParseEvent(data, At(pos), 0, ToInt32(|FramesBytes(fs)|), mode).0 == Err(PastLastHit)
  {
    hide HeaderOf, ParseFrames, ReadPayload, FramesBytes, Holds, ToInt32, Deliver;
    FirstFrame(data, pos, fs);
    ParseRound(data, At(pos), EmptyHits(0), 0, ToInt32(|FramesBytes(fs)|), mode);
  }

  /** A frame without samples, flagged as compressed, so that every overload accepts it. */
  const BARE_FRAME := Frame(DataFrameHeader(0, 0, 0, 0, 0, 0, 0, 0, 0, 0, 0, 0, 0, 1), [])

  lemma BareFrameValid(fs: seq<Frame>, mode: Mode)
    requires forall i :: 0 <= i < |fs| ==> fs[i] == BARE_FRAME
    ensures ValidFrames(fs) && Acceptable(fs, mode)
  {
  }

  /** Two hits of one frame each, in an event announced with one hit: the second has nowhere to go. */
  lemma HitCountExample(mode: Mode)
    ensures ValidFrames([BARE_FRAME, BARE_FRAME]) && |FramesBytes([BARE_FRAME, BARE_FRAME])| == 32
    ensures ParseEvent(FramesBytes([BARE_FRAME, BARE_FRAME]), At(0), 1, 32, mode).0 == Err(PastLastHit)
  {
    hide ParseEvent, Groups, HeaderBytes;
    var fs := [BARE_FRAME, BARE_FRAME];
    BareFrameValid(fs, mode);
    var last := fs[1..];
    assert last == [BARE_FRAME] && last[1..] == [];
    assert FramesBytes(last) == FrameBytes(BARE_FRAME) + FramesBytes([]);
    HoldsWhole(FramesBytes(fs));
    var gs := [[BARE_FRAME], [BARE_FRAME]];
    assert gs[1..] == [last] && [last][1..] == [];
    assert Flatten([last]) == last + Flatten([]) == last;
    assert Flatten(gs) == [BARE_FRAME] + Flatten(gs[1..]) == fs;
    GroupsOfFlatten(gs);
    assert CounterFits(fs) && ToInt32(32) == 32;
    ParseEventGroups(FramesBytes(fs), 0, fs, 1, mode);
  }

  function BareFrames(n: nat): (fs: seq<Frame>)
    ensures |fs| == n
  {
    seq(n, _ => BARE_FRAME)
  }

  lemma {:induction false} BareBytes(n: nat, mode: Mode)
    ensures ValidFrames(BareFrames(n)) && Acceptable(BareFrames(n), mode) && |FramesBytes(BareFrames(n))| == 16 * n
  {
    hide FrameBytes, ValidFrame, Acceptable;
    BareFrameValid(BareFrames(n), mode);
    if n == 0 {
    } else {
      BareBytes(n - 1, mode);
      assert BareFrames(n)[1..] == BareFrames(n - 1);
    }
  }

  const TOO_MANY := 0x800_0002

  /** An event of 2 GiB and two frames more, announced correctly: the counter turns negative at once. */
  lemma LongEventExample(mode: Mode)
    ensures ValidFrames(BareFrames(TOO_MANY)) && |FramesBytes(BareFrames(TOO_MANY))| == 0x8000_0020
    ensures ParseEvent(FramesBytes(BareFrames(TOO_MANY)), At(0), TOO_MANY, ToInt32(0x8000_0020), mode).0
         == Err(Incomplete)
  {
    hide ParseEvent, Groups, FramesBytes, BareFrames, ToInt32;
    var fs := BareFrames(TOO_MANY);
    BareBytes(TOO_MANY, mode);
    HoldsWhole(FramesBytes(fs));
    BareBytes(TOO_MANY - 1, mode);
    BareRest(TOO_MANY);
    ParseEventGroups(FramesBytes(fs), 0, fs, TOO_MANY, mode);
  }

  lemma BareRest(n: nat)
    requires n > 0
    ensures BareFrames(n)[1..] == BareFrames(n - 1)
  {
  }

  /**
   The round trip: hits written one after the other are the hits read, if and only if the bytes after the
   first frame fit the counter.
   */
  lemma ParseEventRoundTrip(data: seq<Byte>, pos: nat, gs: seq<seq<Frame>>, mode: Mode)
    requires gs != [] && IsGrouping(gs) && ValidFrames(Flatten(gs)) && Acceptable(Flatten(gs), mode)
    requires Holds(data, pos, FramesBytes(Flatten(gs))) && |FramesBytes(Flatten(gs))| < TWO32
    ensures Flatten(gs) != [] && forall i :: 0 <= i < |gs| ==> ValidFrames(gs[i])
    ensures var r := ParseEvent(data, At(pos), |gs|, ToInt32(|FramesBytes(Flatten(gs))|), mode);
            if CounterFits(Flatten(gs)) then r == (Ok(HitsOf(gs, mode)), At(pos + |FramesBytes(Flatten(gs))|))
            else r.0 == Err(Incomplete)
  {
    hide ParseEvent, Groups, FramesBytes, Holds, HitsOf, CounterFits, ToInt32;
    GroupsOfFlatten(gs);
    assert IsGroup(gs[0]);
    FlattenFirst(gs);
    ParseEventGroups(data, pos, Flatten(gs), |gs|, mode);
    assert HitsOf(gs, mode) + EmptyHits(0) == HitsOf(gs, mode);
  }

  // ---- Events written from samples ----------------------------------------------------------------

  /** A frame as an event is made of: its header and its samples. */
  datatype SampledFrame = SampledFrame(head: DataFrameHeader, samples: seq<nat>)

  /** The samples fit two bytes each, or one byte where the zip flag is set. */
  predicate ValidSampled(s: SampledFrame) {
    && FitsWidths(s.head) && |s.samples| == s.head.nDataSamples
    && forall i :: 0 <= i < |s.samples| ==> s.samples[i] < if s.head.zipFlag == 0 then 0x1_0000 else 0x100
  }

  /** The frame written for it: the samples' bytes, filled up with zeros to whole words. */
  function Packed(s: SampledFrame): (f: Frame)
    requires ValidSampled(s)
    ensures ValidFrame(f) && f.head == s.head
  {
    Frame(s.head, seq(PayloadSize(s.head), i requires 0 <= i < PayloadSize(s.head) => PackedByte(s, i)))
  }

  function PackedByte(s: SampledFrame, i: nat): Byte
    requires ValidSampled(s)
  {
    if s.head.zipFlag != 0 then (if i < |s.samples| then s.samples[i] else 0)
    else if i / 2 >= |s.samples| then 0
    else if i % 2 == 0 then s.samples[i / 2] % 0x100
    else s.samples[i / 2] / 0x100
  }

  lemma PackedSamples(s: SampledFrame)
    requires ValidSampled(s)
    ensures SamplesOf(Packed(s), UncompressedSamples) == s.samples
  {
    hide SamplesOf;
    var f := Packed(s);
    SampleValues(f, UncompressedSamples);
    var samples := SamplesOf(f, UncompressedSamples);
    forall i | 0 <= i < |s.samples|
      ensures samples[i] == s.samples[i]
    {
      if s.head.zipFlag == 0 {
        assert f.payload[2 * i] == s.samples[i] % 0x100 && f.payload[2 * i + 1] == s.samples[i] / 0x100;
      } else {
        assert f.payload[i] == s.samples[i];
      }
    }
  }

  predicate AllSampled(g: seq<SampledFrame>) {
    forall i :: 0 <= i < |g| ==> ValidSampled(g[i])
  }

  function PackedAll(g: seq<SampledFrame>): (fs: seq<Frame>)
    requires AllSampled(g)
    ensures |fs| == |g| && ValidFrames(fs) && forall i :: 0 <= i < |g| ==> fs[i] == Packed(g[i])
  {
    seq(|g|, i requires 0 <= i < |g| => Packed(g[i]))
  }

  /** A hit as it is written: its frames' headers, and all their samples one after the other. */
  function WrittenHit(g: seq<SampledFrame>): Hit {
    if g == [] then Hit([], [])
    else
      var before, last := WrittenHit(g[..|g| - 1]), g[|g| - 1];
      Hit(before.heads + [last.head], before.samples + last.samples)
  }

  lemma {:induction false} HitIsWritten(g: seq<SampledFrame>)
    requires AllSampled(g)
    ensures HitOf(PackedAll(g), UncompressedSamples) == WrittenHit(g)
  {
    hide SamplesOf, Packed;
    if g == [] {
    } else {
      HitIsWritten(g[..|g| - 1]);
      PackedSamples(g[|g| - 1]);
      assert PackedAll(g)[..|g| - 1] == PackedAll(g[..|g| - 1]);
    }
  }

  /** Hits of one or more frames, the first of each hit with its fragmentation flag clear. */
  predicate AreHits(hits: seq<seq<SampledFrame>>) {
    forall k :: 0 <= k < |hits| ==>
      && AllSampled(hits[k]) && hits[k] != [] && hits[k][0].head.fragFlag == 0
      && forall i :: 1 <= i < |hits[k]| ==> hits[k][i].head.fragFlag != 0
  }

  function PackedHits(hits: seq<seq<SampledFrame>>): (gs: seq<seq<Frame>>)
    requires AreHits(hits)
    ensures |gs| == |hits| && forall k :: 0 <= k < |hits| ==> AllSampled(hits[k]) && gs[k] == PackedAll(hits[k])
  {
    seq(|hits|, k requires 0 <= k < |hits| => PackedAll(hits[k]))
  }

  lemma {:induction false} FlattenValid(gs: seq<seq<Frame>>)
    requires forall k :: 0 <= k < |gs| ==> ValidFrames(gs[k])
    ensures ValidFrames(Flatten(gs))
  {
    hide ValidFrame;
    if gs == [] {
    } else {
      FlattenValid(gs[1..]);
    }
  }

  lemma PackedGrouping(hits: seq<seq<SampledFrame>>)
    requires AreHits(hits)
    ensures IsGrouping(PackedHits(hits)) && ValidFrames(Flatten(PackedHits(hits)))
  {
    hide ValidSampled, ValidFrame;
    var gs := PackedHits(hits);
    FlattenValid(gs);
    forall k | 0 <= k < |gs|
      ensures IsGroup(gs[k]) && gs[k][0].head.fragFlag == 0
    {
    }
  }

  /**
   Hits of samples written one after the other are read back, whatever their frames' zip flags, with the
   samples of all frames of a hit one after the other, and exactly their bytes are consumed.
   */
  lemma SamplesRoundTrip(data: seq<Byte>, pos: nat, hits: seq<seq<SampledFrame>>)
    requires hits != [] && AreHits(hits)
    requires IsGrouping(PackedHits(hits)) && ValidFrames(Flatten(PackedHits(hits)))
    requires Holds(data, pos, FramesBytes(Flatten(PackedHits(hits))))
    requires |FramesBytes(Flatten(PackedHits(hits)))| <= INT_MAX
    ensures var size := |FramesBytes(Flatten(PackedHits(hits)))|;
            var (r, st) := ParseEvent(data, At(pos), |hits|, size, UncompressedSamples);
            && st == At(pos + size) && r.Ok? && |r.value| == |hits|
            && forall k :: 0 <= k < |hits| ==> r.value[k] == WrittenHit(hits[k])
  {
    hide ParseEvent, FramesBytes, Holds, HitsOf, HitOf, WrittenHit, IsGrouping, AllSampled, PackedAll, Flatten;
    var gs := PackedHits(hits);
    ParseEventRoundTrip(data, pos, gs, UncompressedSamples);
    RestFits(Flatten(gs));
    forall k | 0 <= k < |hits|
      ensures HitsOf(gs, UncompressedSamples)[k] == WrittenHit(hits[k])
    {
      HitIsWritten(hits[k]);
    }
  }

  /** An event announced with no hits is never parsed successfully, whatever its bytes are. */
  lemma NoHitsNeverOk(data: seq<Byte>, st: Stream, size: int, mode: Mode)
    ensures !ParseEvent(data, st, 0, size, mode).0.Ok?
  {
    hide ReadPayload, HeaderOf;
    assert |EmptyHits(0)| == 0;
  }

  // ---- Byte accounting on any bytes -----------------------------------------------------------

  lemma {:induction false} SamplesAccount(data: seq<Byte>, st: Stream, n: nat, width: nat)
    ensures var (_, got, st') := ReadSamples(data, st, n, width);
            st'.Good() ==> st.Good() && st'.pos == st.pos + got && (st.pos <= |data| ==> st'.pos <= |data|)
    decreases n
  {
    hide FromLE;
    if n == 0 {
    } else {
      SamplesAccount(data, Read(data, st, width).0, n - 1, width);
    }
  }

  lemma PayloadAccount(data: seq<Byte>, st: Stream, h: DataFrameHeader, mode: Mode)
    requires h.nDataSamples >= 0
    ensures var (_, counted, st') := ReadPayload(data, st, h, mode);
            st'.Good() ==> st.Good() && st'.pos == st.pos + counted && (st.pos <= |data| ==> st'.pos <= |data|)
  {
    if !mode.NoSamples? {
      SamplesAccount(data, st, h.nDataSamples, SampleWidth(h, mode));
      ValuesFit(h.nDataSamples, SampleWidth(h, mode), h);
    }
  }

  /**
   On any bytes: parsing that succeeds and leaves the stream good has consumed the size it was given, up to
   multiples of 2^32; so exactly that size wherever fewer than 2^31 bytes follow.
   */
  lemma SuccessConsumesSize(data: seq<Byte>, st: Stream, hits: seq<Hit>, current: nat, size: int, mode: Mode)
    requires st.Good() && -0x8000_0000 <= size <= INT_MAX
    ensures var r := ParseFrames(data, st, hits, current, size, mode);
            r.0.Ok? && r.1.Good() ==>
              var consumed := r.1.pos - st.pos;
              && (consumed - size) % TWO32 == 0 && 0 < consumed <= |data| - st.pos
              && (|data| - st.pos <= INT_MAX ==> consumed == size)
  {
    hide ParseFrames;
    SuccessConsumes(data, st, hits, current, size, mode);
    var r := ParseFrames(data, st, hits, current, size, mode);
    if r.0.Ok? && r.1.Good() && |data| - st.pos <= INT_MAX {
      var consumed := r.1.pos - st.pos;
      assert -TWO32 < consumed - size < TWO32;
    }
  }

  lemma {:induction false} SuccessConsumes(data: seq<Byte>, st: Stream, hits: seq<Hit>, current: nat,
                                           size: int, mode: Mode)
    requires st.Good()
    ensures var r := ParseFrames(data, st, hits, current, size, mode);
            r.0.Ok? && r.1.Good() ==> st.pos < r.1.pos <= |data| && (r.1.pos - st.pos - size) % TWO32 == 0
    decreases if st.pos < |data| then |data| - st.pos else 0
  {
    hide ParseFrames, HeaderOf, ReadPayload, NextHit, PayloadSize, ToInt32;
    ParseRound(data, st, hits, current, size, mode);
    var (st1, got) := Read(data, st, HEADER_BYTES);
    if got < HEADER_BYTES {
    } else {
      var h := HeaderOf(data[st.pos..st.pos + HEADER_BYTES]);
      var to := NextHit(hits, current, h);
      if to < |hits| {
        var (samples, counted, st2) := ReadPayload(data, st1, h, mode);
        PayloadAccount(data, st1, h, mode);
        var left := ToInt32(size - HEADER_BYTES - counted);
        if !st2.fail && left > 0 {
          if st2.eof {
            EndOfFileThrows(data, st2, Deliver(hits, to, h, samples), to, left, mode);
          } else {
            SuccessConsumes(data, st2, Deliver(hits, to, h, samples), to, left, mode);
            var end := ParseFrames(data, st2, Deliver(hits, to, h, samples), to, left, mode).1;
            Congruent(end.pos - st2.pos, left, size - HEADER_BYTES - counted);
          }
        }
      }
    }
  }

  lemma Congruent(consumed: int, left: int, rest: int)
    requires (left - rest) % TWO32 == 0
    ensures (consumed - left) % TWO32 == 0 ==> (consumed - rest) % TWO32 == 0
  {
  }

  lemma EndOfFileThrows(data: seq<Byte>, st: Stream, hits: seq<Hit>, current: nat, size: int, mode: Mode)
    requires !st.Good()
    ensures ParseFrames(data, st, hits, current, size, mode).0 == Err(ShortHeader)
  {
    hide HeaderOf, ReadPayload;
  }

  // ---- The three overloads compared -----------------------------------------------------------

  /**
   On any bytes at all, the overload for compressed samples either meets an uncompressed frame and
   refuses, or behaves exactly as the one for uncompressed samples.
   */
  lemma {:induction false} CompressedAgrees(data: seq<Byte>, st: Stream, hits: seq<Hit>, current: nat, size: int)
    ensures ParseFrames(data, st, hits, current, size, CompressedSamples).0 == Err(NotCompressed)
         || ParseFrames(data, st, hits, current, size, CompressedSamples)
         == ParseFrames(data, st, hits, current, size, UncompressedSamples)
    decreases if st.pos < |data| then |data| - st.pos else 0
  {
    hide ParseFrames, Read, HeaderOf, ReadSamples, PayloadSize, Deliver, NextHit, ToInt32;
    ParseRound(data, st, hits, current, size, CompressedSamples);
    ParseRound(data, st, hits, current, size, UncompressedSamples);
    var (st1, got) := Read(data, st, HEADER_BYTES);
    if got < HEADER_BYTES {
    } else {
      var h := HeaderOf(data[st.pos..st.pos + HEADER_BYTES]);
      var to := NextHit(hits, current, h);
      if Compressed(h) && to < |hits| {
        var (samples, counted, st2) := ReadPayload(data, st1, h, CompressedSamples);
        assert ReadPayload(data, st1, h, UncompressedSamples) == (samples, counted, st2);
        var left := ToInt32(size - HEADER_BYTES - counted);
        if !st2.fail && left > 0 {
          CompressedAgrees(data, st2, Deliver(hits, to, h, samples), to, left);
        }
      }
    }
  }

  /**
   On the frames of a well-formed event, all compressed, the three overloads succeed together, end at
   the same place, and give hits with the same headers; the two that keep samples give equal hits.
   */
  lemma OverloadsAgree(data: seq<Byte>, pos: nat, fs: seq<Frame>, nHits: nat)
    requires fs != [] && ValidFrames(fs) && Acceptable(fs, CompressedSamples) && Holds(data, pos, FramesBytes(fs))
    requires |FramesBytes(fs)| < TWO32
    ensures var size := ToInt32(|FramesBytes(fs)|);
            var none := ParseEvent(data, At(pos), nHits, size, NoSamples);
            var packed := ParseEvent(data, At(pos), nHits, size, CompressedSamples);
            var wide := ParseEvent(data, At(pos), nHits, size, UncompressedSamples);
            && packed == wide && (none.0.Ok? <==> packed.0.Ok?)
            && (none.0.Ok? ==>
                  && none.1 == packed.1 && |none.0.value| == |packed.0.value| == nHits
                  && forall i :: 0 <= i < nHits ==> none.0.value[i] == Hit(packed.0.value[i].heads, []))
  {
    hide ParseFrames, Groups, FramesBytes, Holds, ExpectedHits, CounterFits, ToInt32;
    ParseEventGroups(data, pos, fs, nHits, NoSamples);
    ParseEventGroups(data, pos, fs, nHits, CompressedSamples);
    CompressedAgrees(data, At(pos), EmptyHits(nHits), 0, ToInt32(|FramesBytes(fs)|));
    if |Groups(fs)| <= nHits {
      ExpectedHeads(Groups(fs), nHits);
    }
  }

  lemma ExpectedHeads(gs: seq<seq<Frame>>, nHits: nat)
    requires |gs| <= nHits && forall i :: 0 <= i < |gs| ==> ValidFrames(gs[i])
    ensures |ExpectedHits(gs, nHits, NoSamples)| == |ExpectedHits(gs, nHits, CompressedSamples)| == nHits
    ensures forall i :: 0 <= i < nHits ==>
              ExpectedHits(gs, nHits, NoSamples)[i] == Hit(ExpectedHits(gs, nHits, CompressedSamples)[i].heads, [])
  {
    hide HitOf;
    forall i | 0 <= i < |gs|
      ensures HitOf(gs[i], NoSamples) == Hit(HitOf(gs[i], CompressedSamples).heads, [])
    {
      HeadsDoNotDependOnMode(gs[i]);
    }
  }

  lemma {:induction false} HeadsDoNotDependOnMode(g: seq<Frame>)
    requires ValidFrames(g)
    ensures HitOf(g, NoSamples) == Hit(HitOf(g, CompressedSamples).heads, [])
  {
    if g == [] {
    } else {
      HeadsDoNotDependOnMode(g[..|g| - 1]);
    }
  }
}
