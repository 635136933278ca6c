/**
 The post-trigger file reader: an index of slice positions built by skipping the declared slice
 sizes, and random access to slices through it.
 */
module PtReader {
  import opened MachineInts
  import opened Slices
  import opened ByteStream
  import opened DataFormat
  import opened PtEvents
  import opened PtFile

  // ---- Specification ------------------------------------------------------------------------

  /** The constructor's do-while loop, with `index` filled so far. */
  function IndexFrom(data: seq<Byte>, st: Stream, index: seq<nat>, nTs: int): (r: (Result<seq<nat>>, Stream))
    ensures r.0.Ok? ==> !r.1.fail && index + [st.pos] <= r.0.value
    decreases if st.pos < |data| then |data| - st.pos else 0
  {
    var (st1, got) := Read(data, st, SLICE_HEADER_BYTES);
    if got < SLICE_HEADER_BYTES then (Err(ShortHeader), st1)
    else
      var head := SliceHeaderOf(data[st.pos..st.pos + SLICE_HEADER_BYTES]);
      var st2 := Ignore(data, st1, head.tsSize - SLICE_HEADER_BYTES);
      var index' := index + [st.pos];
      if !st2.fail && |index'| < nTs then IndexFrom(data, st2, index', nTs) else (Ok(index'), st2)
  }

  /** Opening a file: its header and the positions of its slices. */
  function OpenFile(data: seq<Byte>): Result<(PtHeader, seq<nat>)> {
    if |data| < PT_HEADER_BYTES then Err(ShortHeader)
    else
      var head := PtHeaderOf(data[..PT_HEADER_BYTES]);
      match IndexFrom(data, At(PT_HEADER_BYTES + DatacardBytes(head)), [], head.numberOfTimeslices).0
      case Err(e) => Err(e)
      case Ok(index) => Ok((head, index))
  }

  function DatacardBytes(head: PtHeader): nat {
    if head.datacardSize < 0 then 0 else head.datacardSize
  }

  /** `operator[]`: seek, clear the flags, read a slice. */
  function Access(data: seq<Byte>, st: Stream, pos: nat, mode: Mode): (Result<TimeSlice>, Stream) {
    ReadSlice(data, Clear(Seek(st, pos)), mode)
  }

  /** A run of accesses, one after the other, to the slices numbered `ks`. */
  function Accesses(data: seq<Byte>, st: Stream, index: seq<nat>, ks: seq<nat>, mode: Mode): seq<Result<TimeSlice>>
    requires forall i :: 0 <= i < |ks| ==> ks[i] < |index|
    decreases |ks|
  {
    if ks == [] then []
    else
      var (slice, st') := Access(data, st, index[ks[0]], mode);
      [slice] + Accesses(data, st', index, ks[1..], mode)
  }

  /** The positions at which `n` slices start when they are parsed one after the other. */
  function Sequential(data: seq<Byte>, st: Stream, n: nat, mode: Mode): Result<seq<nat>>
    decreases n
  {
    if n == 0 then Ok([])
    else
      match ReadSlice(data, st, mode)
      case (Err(e), _) => Err(e)
      case (Ok(_), st') =>
        match Sequential(data, st', n - 1, mode)
        case Err(e) => Err(e)
        case Ok(rest) => Ok([st.pos] + rest)
  }

  // ---- Well-formed files --------------------------------------------------------------------

  /** The bytes a slice takes; well-formed slices have a positive size. */
  function SliceLength(s: SliceRecord): nat {
    if s.head.tsSize >= 0 then s.head.tsSize else 0
  }

  /** Where each slice of a file starts, the first one at `pos`. */
  function Offsets(ss: seq<SliceRecord>, pos: nat): (r: seq<nat>)
    ensures |r| == |ss|
  {
    if ss == [] then [] else [pos] + Offsets(ss[1..], pos + SliceLength(ss[0]))
  }

  /** The constructor's index of a well-formed file is where its slices start. */
  lemma {:induction false} IndexIsOffsets(data: seq<Byte>, pos: nat, index: seq<nat>, ss: seq<SliceRecord>, mode: Mode)
    requires ss != [] && ValidSlices(ss, mode) && Holds(data, pos, SlicesBytes(ss, mode))
    ensures IndexFrom(data, At(pos), index, |index| + |ss|).0 == Ok(index + Offsets(ss, pos))
    decreases |ss|
  {
    hide SliceBytes, SliceHeaderOf, Holds, ValidSlice, ReadSlice, IndexFrom;
    SizesPositive(ss, mode);
    var head := ss[0].head;
    FirstSlice(data, pos, ss, mode);
    IndexRound(data, pos, index, |index| + |ss|);
    var index' := index + [pos];
    if |ss| == 1 {
      assert Offsets(ss[1..], pos + SliceLength(ss[0])) == [];
      assert index + ([pos] + []) == index';
    } else {
      IndexIsOffsets(data, pos + head.tsSize, index', ss[1..], mode);
      assert index' + Offsets(ss[1..], pos + SliceLength(ss[0]))
          == index + ([pos] + Offsets(ss[1..], pos + SliceLength(ss[0])));
    }
  }

  lemma IndexRound(data: seq<Byte>, pos: nat, index: seq<nat>, nTs: int)
    requires pos + SLICE_HEADER_BYTES <= |data|
    requires var size := SliceHeaderOf(data[pos..pos + SLICE_HEADER_BYTES]).tsSize;
             SLICE_HEADER_BYTES <= size && pos + size <= |data|
    ensures var size := SliceHeaderOf(data[pos..pos + SLICE_HEADER_BYTES]).tsSize;
            var rest :=
                if |index| + 1 < nTs then IndexFrom(data, At(pos + size), index + [pos], nTs).0 else Ok(index + [pos]);
            IndexFrom(data, At(pos), index, nTs).0 == rest
  {
    hide SliceHeaderOf;
  }

  lemma IndexStep(data: seq<Byte>, st: Stream, index: seq<nat>, nTs: int)
    ensures var (st1, got) := Read(data, st, SLICE_HEADER_BYTES);
            if got < SLICE_HEADER_BYTES then IndexFrom(data, st, index, nTs) == (Err(ShortHeader), st1)
            else
              var head := SliceHeaderOf(data[st.pos..st.pos + SLICE_HEADER_BYTES]);
              var st2 := Ignore(data, st1, head.tsSize - SLICE_HEADER_BYTES);
              var index' := index + [st.pos];
              && !st2.fail && st2.pos > st.pos && st.pos < |data|
              && IndexFrom(data, st, index, nTs)
              == if |index'| < nTs then IndexFrom(data, st2, index', nTs) else (Ok(index'), st2)
  {
    hide SliceHeaderOf;
  }

  lemma SizesPositive(ss: seq<SliceRecord>, mode: Mode)
    requires ValidSlices(ss, mode)
    ensures forall i :: 0 <= i < |ss| ==> ss[i].head.tsSize >= SLICE_HEADER_BYTES
  {
    forall i | 0 <= i < |ss|
      ensures ss[i].head.tsSize >= SLICE_HEADER_BYTES
    {
      assert ValidSlice(ss[i], mode);
    }
  }

  lemma FirstSlice(data: seq<Byte>, pos: nat, ss: seq<SliceRecord>, mode: Mode)
    requires ss != [] && ValidSlices(ss, mode) && Holds(data, pos, SlicesBytes(ss, mode))
    ensures var head := ss[0].head;
            && ValidSlice(ss[0], mode) && ValidSlices(ss[1..], mode)
            && head.tsSize >= SLICE_HEADER_BYTES && pos + head.tsSize <= |data|
            && SliceHeaderOf(data[pos..pos + SLICE_HEADER_BYTES]) == head
            && Holds(data, pos, SliceBytes(ss[0], mode))
            && Holds(data, pos + head.tsSize, SlicesBytes(ss[1..], mode))
  {
    hide SliceHeaderOf, SliceBytes, ValidSlice, Holds;
    var s := ss[0];
    assert ValidSlice(s, mode);
    HoldsSplit(data, pos, SliceBytes(s, mode), SlicesBytes(ss[1..], mode));
    HoldsFits(data, pos, SliceBytes(s, mode));
    SliceHeaderAt(data, pos, s, mode);
  }

  lemma SliceHeaderAt(data: seq<Byte>, pos: nat, s: SliceRecord, mode: Mode)
    requires ValidSlice(s, mode) && Holds(data, pos, SliceBytes(s, mode))
    ensures pos + SLICE_HEADER_BYTES <= |data| && SliceHeaderOf(data[pos..pos + SLICE_HEADER_BYTES]) == s.head
  {
    hide SliceHeaderOf, SliceHeaderBytes, EventsBytes, ValidEvents, ValidSliceHeader, Holds;
    HoldsSplit(data, pos, SliceHeaderBytes(s.head), EventsBytes(s.events, mode));
    HoldsFits(data, pos, SliceHeaderBytes(s.head));
    SliceHeaderRead(s.head);
  }

  /** Parsing the slices of a well-formed file one after the other starts each at its offset. */
  lemma {:induction false} SequentialIsOffsets(data: seq<Byte>, pos: nat, ss: seq<SliceRecord>, mode: Mode)
    requires ValidSlices(ss, mode) && Holds(data, pos, SlicesBytes(ss, mode))
    ensures Sequential(data, At(pos), |ss|, mode) == Ok(Offsets(ss, pos))
    decreases |ss|
  {
    hide SliceBytes, SliceHeaderOf, Holds, ValidSlice, ReadSlice;
    SizesPositive(ss, mode);
    if ss == [] {
    } else {
      FirstSlice(data, pos, ss, mode);
      ReadsSlice(data, pos, ss[0], mode);
      SequentialIsOffsets(data, pos + ss[0].head.tsSize, ss[1..], mode);
    }
  }

  function SlicesStart(f: FileRecord): nat {
    PT_HEADER_BYTES + |f.datacard|
  }

  /**
   Opening a well-formed file reads its header, and the index built by skipping declared sizes equals
   the positions reached by parsing its slices in sequence.
   */
  lemma OpensWellFormed(f: FileRecord, mode: Mode)
    requires ValidFile(f, mode)
    ensures OpenFile(FileBytes(f, mode)) == Ok((f.head, Offsets(f.slices, SlicesStart(f))))
    ensures Sequential(FileBytes(f, mode), At(SlicesStart(f)), |f.slices|, mode)
         == Ok(Offsets(f.slices, SlicesStart(f)))
  {
    hide PtHeaderOf, PtHeaderBytes, SlicesBytes, IndexFrom, Sequential, ValidPtHeader, ValidSlices;
    var data := FileBytes(f, mode);
    assert data[..PT_HEADER_BYTES] == PtHeaderBytes(f.head);
    assert data[SlicesStart(f)..] == SlicesBytes(f.slices, mode);
    assert Holds(data, SlicesStart(f), SlicesBytes(f.slices, mode));
    PtHeaderRead(f.head);
    IndexIsOffsets(data, SlicesStart(f), [], f.slices, mode);
    SequentialIsOffsets(data, SlicesStart(f), f.slices, mode);
    assert [] + Offsets(f.slices, SlicesStart(f)) == Offsets(f.slices, SlicesStart(f));
  }

  lemma {:induction false} SliceAtOffset(data: seq<Byte>, pos: nat, ss: seq<SliceRecord>, k: nat, mode: Mode)
    requires ValidSlices(ss, mode) && Holds(data, pos, SlicesBytes(ss, mode)) && k < |ss|
    ensures ValidSlice(ss[k], mode) && Holds(data, Offsets(ss, pos)[k], SliceBytes(ss[k], mode))
    decreases k
  {
    hide SliceBytes, SliceHeaderOf, Holds, ValidSlice;
    SizesPositive(ss, mode);
    FirstSlice(data, pos, ss, mode);
    if k == 0 {
    } else {
      SliceAtOffset(data, pos + ss[0].head.tsSize, ss[1..], k - 1, mode);
    }
  }

  /** On a well-formed file, as long as no read has failed, accessing slice `k` returns it and no read fails. */
  lemma AccessReturnsSlice(f: FileRecord, st: Stream, k: nat, mode: Mode)
    requires ValidFile(f, mode) && k < |f.slices| && !st.fail
    ensures ValidSlice(f.slices[k], mode)
    ensures var (slice, st') := Access(FileBytes(f, mode), st, Offsets(f.slices, SlicesStart(f))[k], mode);
            slice == Ok(SliceOf(f.slices[k], mode)) && !st'.fail
  {
    hide PtHeaderBytes, SlicesBytes, ValidPtHeader, ReadSlice, SliceOf, SliceBytes, ValidSlice, Offsets;
    var data := FileBytes(f, mode);
    assert data[SlicesStart(f)..] == SlicesBytes(f.slices, mode);
    assert Holds(data, SlicesStart(f), SlicesBytes(f.slices, mode));
    SizesPositive(f.slices, mode);
    SliceAtOffset(data, SlicesStart(f), f.slices, k, mode);
    ReadsSlice(data, Offsets(f.slices, SlicesStart(f))[k], f.slices[k], mode);
  }

  /** Any run of accesses to a well-formed file, in any order and with repetitions, returns the slices asked for. */
  lemma {:induction false} AccessInAnyOrder(f: FileRecord, st: Stream, ks: seq<nat>, mode: Mode)
    requires ValidFile(f, mode) && !st.fail && forall i :: 0 <= i < |ks| ==> ks[i] < |f.slices|
    ensures forall i :: 0 <= i < |f.slices| ==> ValidSlice(f.slices[i], mode)
    ensures var found := Accesses(FileBytes(f, mode), st, Offsets(f.slices, SlicesStart(f)), ks, mode);
            |found| == |ks| && forall i :: 0 <= i < |ks| ==> found[i] == Ok(SliceOf(f.slices[ks[i]], mode))
    decreases |ks|
  {
    hide FileBytes, Access, SliceOf, ValidSlice, Offsets, SlicesStart;
    SizesPositive(f.slices, mode);
    AllSlicesValid(f, mode);
    if ks == [] {
    } else {
      AccessReturnsSlice(f, st, ks[0], mode);
      var (slice, st') := Access(FileBytes(f, mode), st, Offsets(f.slices, SlicesStart(f))[ks[0]], mode);
      AccessInAnyOrder(f, st', ks[1..], mode);
    }
  }

  lemma AllSlicesValid(f: FileRecord, mode: Mode)
    requires ValidFile(f, mode)
    ensures forall i :: 0 <= i < |f.slices| ==> ValidSlice(f.slices[i], mode)
  {
  }

  // ---- What a failed read does to later accesses ----------------------------------------------

  /** Every stream state a reader can be in: a flag is set only at or past the end of the file. */
  predicate Reachable(data: seq<Byte>, st: Stream) {
    st.eof || st.fail ==> st.pos >= |data|
  }

  lemma {:induction false} SamplesKeepReachable(data: seq<Byte>, st: Stream, n: nat, width: nat)
    requires Reachable(data, st)
    ensures Reachable(data, ReadSamples(data, st, n, width).2)
    decreases n
  {
    hide FromLE;
    if n == 0 {
    } else {
      SamplesKeepReachable(data, Read(data, st, width).0, n - 1, width);
    }
  }

  lemma {:induction false} FramesKeepReachable(data: seq<Byte>, st: Stream, hits: seq<Hit>, current: nat,
                                               size: int, mode: Mode)
    requires Reachable(data, st)
    ensures Reachable(data, ParseFrames(data, st, hits, current, size, mode).1)
    decreases if st.pos < |data| then |data| - st.pos else 0
  {
    hide ParseFrames, HeaderOf, NextHit, PayloadSize, SampleWidth;
    ParseRound(data, st, hits, current, size, mode);
    var (st1, got) := Read(data, st, HEADER_BYTES);
    if got < HEADER_BYTES {
    } else {
      var h := HeaderOf(data[st.pos..st.pos + HEADER_BYTES]);
      var to := NextHit(hits, current, h);
      if to < |hits| {
        SamplesKeepReachable(data, st1, h.nDataSamples, SampleWidth(h, mode));
        var (samples, counted, st2) := ReadPayload(data, st1, h, mode);
        var left := ToInt32(size - HEADER_BYTES - counted);
        if !st2.fail && left > 0 {
          FramesKeepReachable(data, st2, Deliver(hits, to, h, samples), to, left, mode);
        }
      }
    }
  }

  lemma {:induction false} EventsKeepReachable(data: seq<Byte>, st: Stream, n: nat, mode: Mode)
    requires Reachable(data, st)
    ensures Reachable(data, ReadEvents(data, st, n, mode).1)
    decreases n
  {
    hide ParseFrames, EventHeaderOf, ReadEvent;
    if n == 0 {
    } else {
      EventKeepsReachable(data, st, mode);
      EventsKeepReachable(data, ReadEvent(data, st, mode).1, n - 1, mode);
    }
  }

  lemma EventKeepsReachable(data: seq<Byte>, st: Stream, mode: Mode)
    requires Reachable(data, st)
    ensures Reachable(data, ReadEvent(data, st, mode).1)
  {
    hide ParseFrames, EventHeaderOf;
    var (st1, got) := Read(data, st, EVENT_HEADER_BYTES);
    if got == EVENT_HEADER_BYTES {
      var head := EventHeaderOf(data[st.pos..st.pos + EVENT_HEADER_BYTES]);
      if ToInt32(head.nHit) >= 0 {
        FramesKeepReachable(data, st1, EmptyHits(ToInt32(head.nHit)), 0,
                            ToInt32(head.eventL - EVENT_HEADER_BYTES), mode);
      }
    }
  }

  /** On any bytes, an access leads from reachable states to reachable states. */
  lemma AccessKeepsReachable(data: seq<Byte>, st: Stream, pos: nat, mode: Mode)
    requires Reachable(data, st)
    ensures Reachable(data, Access(data, st, pos, mode).1)
  {
    hide SliceHeaderOf, ReadEvents;
    var st0 := Clear(Seek(st, pos));
    var (st1, got) := Read(data, st0, SLICE_HEADER_BYTES);
    if got == SLICE_HEADER_BYTES {
      var n := ToInt32(SliceHeaderOf(data[st0.pos..st0.pos + SLICE_HEADER_BYTES]).nEvents);
      if n >= 0 {
        EventsKeepReachable(data, st1, n, mode);
      }
    }
  }

  /** A slice whose first event header is cut off by the end of the file makes the stream fail. */
  lemma TruncatedSliceFails(data: seq<Byte>, st: Stream, pos: nat, mode: Mode)
    requires !st.fail && pos + SLICE_HEADER_BYTES <= |data| < pos + SLICE_HEADER_BYTES + EVENT_HEADER_BYTES
    requires ToInt32(SliceHeaderOf(data[pos..pos + SLICE_HEADER_BYTES]).nEvents) >= 1
    ensures Access(data, st, pos, mode) == (Err(ShortHeader), Stream(|data|, true, true))
  {
    hide SliceHeaderOf, EventHeaderOf;
  }

  /**
   Where the bytes of a slice lie at a position, an access to it returns the slice if and only if no
   earlier read has failed: `operator[]` seeks before it clears the flags, and a failed stream does
   not move.
   */
  lemma AccessNeedsNoFailure(data: seq<Byte>, st: Stream, pos: nat, s: SliceRecord, mode: Mode)
    requires Reachable(data, st) && ValidSlice(s, mode) && Holds(data, pos, SliceBytes(s, mode))
    ensures Access(data, st, pos, mode).0 == Ok(SliceOf(s, mode)) <==> !st.fail
  {
    hide SliceBytes, SliceHeaderOf, SliceOf, ValidSlice, Holds, ReadSlice;
    if st.fail {
      FailedAccess(data, st, pos, mode);
    } else {
      ReadsSlice(data, pos, s, mode);
    }
  }

  lemma FailedAccess(data: seq<Byte>, st: Stream, pos: nat, mode: Mode)
    requires Reachable(data, st) && st.fail
    ensures var (slice, st') := Access(data, st, pos, mode);
            slice == Err(ShortHeader) && st'.fail && Reachable(data, st')
  {
    hide SliceHeaderOf, ReadEvents;
  }

  /** So one failed read is never recovered from: every later access, to any slice, throws. */
  lemma {:induction false} FailureIsPermanent(data: seq<Byte>, st: Stream, index: seq<nat>, ks: seq<nat>, mode: Mode)
    requires Reachable(data, st) && st.fail && forall i :: 0 <= i < |ks| ==> ks[i] < |index|
    ensures var found := Accesses(data, st, index, ks, mode);
            |found| == |ks| && forall i :: 0 <= i < |ks| ==> found[i] == Err(ShortHeader)
    decreases |ks|
  {
    hide Access;
    if ks == [] {
    } else {
      FailedAccess(data, st, index[ks[0]], mode);
      FailureIsPermanent(data, Access(data, st, index[ks[0]], mode).1, index, ks[1..], mode);
    }
  }

  const CUT_HEAD := PtHeader(0, 0, 0, 0, 0, 2, 0)

  /** A file of two slices, cut off after the header of the second. */
  function CutFile(s: SliceRecord, mode: Mode): seq<Byte>
    requires ValidSlice(s, mode)
  {
    PtHeaderBytes(CUT_HEAD) + SliceBytes(s, mode)
    + SliceHeaderBytes(SliceHeader(0, 1, SLICE_HEADER_BYTES + EVENT_HEADER_BYTES))
  }

  /** What a run of accesses to a file just opened returns. */
  predicate RunGives(data: seq<Byte>, index: seq<nat>, ks: seq<nat>, mode: Mode, found: seq<Result<TimeSlice>>) {
    (forall i :: 0 <= i < |ks| ==> ks[i] < |index|) && Accesses(data, At(0), index, ks, mode) == found
  }

  function CutIndex(s: SliceRecord): (index: seq<nat>)
    ensures |index| == 2
  {
    [PT_HEADER_BYTES, PT_HEADER_BYTES + SliceLength(s)]
  }

  /**
   For every intact slice: the file made of it and a slice that is cut off opens, and its first slice can
   be read; but not any more after the second has been asked for.
   */
  lemma FailedReadExample(s: SliceRecord, mode: Mode)
    requires ValidSlice(s, mode)
    ensures OpenFile(CutFile(s, mode)) == Ok((CUT_HEAD, CutIndex(s)))
    ensures RunGives(CutFile(s, mode), CutIndex(s), [0], mode, [Ok(SliceOf(s, mode))])
    ensures RunGives(CutFile(s, mode), CutIndex(s), [1, 0], mode, [Err(ShortHeader), Err(ShortHeader)])
  {
    hide PtHeaderOf, PtHeaderBytes, SliceHeaderOf, SliceHeaderBytes, SliceBytes, SliceOf, IndexFrom, Access, ValidSlice,
         OpenFile;
    var data := CutFile(s, mode);
    var first, second := PT_HEADER_BYTES, PT_HEADER_BYTES + s.head.tsSize;
    CutFileLayout(s, mode);
    CutFileIndex(data, s, mode);
    AccessNeedsNoFailure(data, At(0), first, s, mode);
    TruncatedSliceFails(data, At(0), second, mode);
    var failed := Access(data, At(0), second, mode).1;
    FailedAccess(data, failed, first, mode);
    var index := [first, second];
    var ks: seq<nat> := [1, 0];
    assert ks[1..] == [0];
    AccessesOne(data, At(0), index, 0, mode);
    AccessesOne(data, failed, index, 0, mode);
    assert Accesses(data, At(0), index, ks, mode)
        == [Access(data, At(0), second, mode).0] + Accesses(data, failed, index, ks[1..], mode);
  }

  lemma AccessesOne(data: seq<Byte>, st: Stream, index: seq<nat>, k: nat, mode: Mode)
    requires k < |index|
    ensures Accesses(data, st, index, [k], mode) == [Access(data, st, index[k], mode).0]
  {
    hide Access;
    var ks := [k];
    assert ks[1..] == [];
    assert Accesses(data, st, index, ks, mode)
        == [Access(data, st, index[k], mode).0] +
           Accesses(data, Access(data, st, index[k], mode).1, index, ks[1..], mode);
  }

  lemma CutFileLayout(s: SliceRecord, mode: Mode)
    requires ValidSlice(s, mode)
    ensures var data := CutFile(s, mode);
            var second := PT_HEADER_BYTES + s.head.tsSize;
            && s.head.tsSize >= SLICE_HEADER_BYTES && |data| == second + SLICE_HEADER_BYTES
            && PtHeaderOf(data[..PT_HEADER_BYTES]) == CUT_HEAD
            && SliceHeaderOf(data[PT_HEADER_BYTES..PT_HEADER_BYTES + SLICE_HEADER_BYTES]) == s.head
            && Holds(data, PT_HEADER_BYTES, SliceBytes(s, mode))
            && SliceHeaderOf(data[second..second + SLICE_HEADER_BYTES])
            == SliceHeader(0, 1, SLICE_HEADER_BYTES + EVENT_HEADER_BYTES)
  {
    hide PtHeaderOf, PtHeaderBytes, SliceHeaderOf, SliceHeaderBytes, SliceBytes, ValidSlice;
    var data := CutFile(s, mode);
    var cut := SliceHeader(0, 1, SLICE_HEADER_BYTES + EVENT_HEADER_BYTES);
    var second := PT_HEADER_BYTES + s.head.tsSize;
    SizesPositive([s], mode);
    PtHeaderRead(CUT_HEAD);
    SliceHeaderRead(cut);
    assert |SliceBytes(s, mode)| == s.head.tsSize;
    assert data[..PT_HEADER_BYTES] == PtHeaderBytes(CUT_HEAD);
    assert data[PT_HEADER_BYTES..second] == SliceBytes(s, mode);
    assert data[second..second + SLICE_HEADER_BYTES] == SliceHeaderBytes(cut);
    SliceHeaderAt(data, PT_HEADER_BYTES, s, mode);
  }

  lemma CutFileIndex(data: seq<Byte>, s: SliceRecord, mode: Mode)
    requires ValidSlice(s, mode) && data == CutFile(s, mode)
    ensures OpenFile(data) == Ok((CUT_HEAD, [PT_HEADER_BYTES, PT_HEADER_BYTES + s.head.tsSize]))
  {
    hide PtHeaderOf, PtHeaderBytes, SliceHeaderOf, SliceHeaderBytes, SliceBytes, ValidSlice, IndexFrom, CutFile;
    CutFileLayout(s, mode);
    IndexRound(data, PT_HEADER_BYTES, [], 2);
    assert [] + [PT_HEADER_BYTES] == [PT_HEADER_BYTES];
    IndexStep(data, At(PT_HEADER_BYTES + s.head.tsSize), [PT_HEADER_BYTES], 2);
    var index: seq<nat> := [PT_HEADER_BYTES] + [PT_HEADER_BYTES + s.head.tsSize];
    assert index == [PT_HEADER_BYTES, PT_HEADER_BYTES + s.head.tsSize];
    assert IndexFrom(data, At(PT_HEADER_BYTES), [], 2).0 == Ok(index);
  }

  // ---- Which accesses leave the stream failed -------------------------------------------------

  /** Bytes of a payload that are skipped after the samples kept of it. */
  function Skipped(h: DataFrameHeader, mode: Mode): int {
    if mode.NoSamples? then PayloadSize(h) else PayloadSize(h) - h.nDataSamples * SampleWidth(h, mode)
  }

  /**
   How reading goes on from a place of a file, told from the bytes alone. `CutOff`: a header or a sample
   that is read lies past the end of the file. `Stops`: something is refused. `Ends`: where it ends.
   */
  datatype Course = CutOff | Stops | Ends(end: nat)

  /**
   The frames of an event, with `size` bytes left to count off, `room` hits from the current one on, and
   `vacant` telling whether that is still empty.
   */
  function FramesCourse(data: seq<Byte>, pos: nat, room: int, vacant: bool, size: int, mode: Mode): Course
    decreases if pos < |data| then |data| - pos else 0
  {
    if pos + HEADER_BYTES > |data| then CutOff
    else
      var h := HeaderOf(data[pos..pos + HEADER_BYTES]);
      var room' := if Subsequent(h) || vacant then room else room - 1;
      var next := pos + HEADER_BYTES + PayloadSize(h);
      var left := ToInt32(size - HEADER_BYTES - PayloadSize(h));
      if mode.CompressedSamples? && !Compressed(h) then Stops
      else if room' <= 0 then Stops
      else if next - Skipped(h, mode) > |data| then CutOff
      else if left > 0 then FramesCourse(data, next, room', false, left, mode)
      else if left < 0 then Stops
      else Ends(next)
  }

  function EventCourse(data: seq<Byte>, pos: nat, mode: Mode): Course {
    if pos + EVENT_HEADER_BYTES > |data| then CutOff
    else
      var head := EventHeaderOf(data[pos..pos + EVENT_HEADER_BYTES]);
      if ToInt32(head.nHit) < 0 then Stops
      else
        FramesCourse(data, pos + EVENT_HEADER_BYTES, ToInt32(head.nHit), true,
                     ToInt32(head.eventL - EVENT_HEADER_BYTES), mode)
  }

  function EventsCourse(data: seq<Byte>, pos: nat, n: nat, mode: Mode): Course
    decreases n
  {
    if n == 0 then Ends(pos)
    else
      match EventCourse(data, pos, mode)
      case Ends(end) => EventsCourse(data, end, n - 1, mode)
      case c => c
  }

  function SliceCourse(data: seq<Byte>, pos: nat, mode: Mode): Course {
    if pos + SLICE_HEADER_BYTES > |data| then CutOff
    else
      var n := ToInt32(SliceHeaderOf(data[pos..pos + SLICE_HEADER_BYTES]).nEvents);
      if n < 0 then Stops else EventsCourse(data, pos + SLICE_HEADER_BYTES, n, mode)
  }

  /** What a course says about reading: whether it fails, whether it succeeds, and where it leaves the stream. */
  predicate Follows(data: seq<Byte>, ok: bool, st: Stream, course: Course) {
    match course
    case CutOff => st.fail
    case Stops => !ok && !st.fail
    case Ends(end) => ok && !st.fail && (if st.Good() then st.pos == end <= |data| else end > |data|)
  }

  lemma {:induction false} SamplesFail(data: seq<Byte>, pos: nat, n: nat, width: nat)
    requires pos <= |data| && width > 0
    ensures var (_, got, st) := ReadSamples(data, At(pos), n, width);
            if pos + n * width <= |data| then st == At(pos + n * width) && got == n * width else st.fail
    decreases n
  {
    hide FromLE;
    if n == 0 {
    } else {
      OneSampleFewer(n, width);
      if pos + width <= |data| {
        SamplesFail(data, pos + width, n - 1, width);
      } else {
        StaysFailed(data, Read(data, At(pos), width).0, n - 1, width);
      }
    }
  }

  lemma OneSampleFewer(n: nat, width: nat)
    requires n > 0
    ensures n * width == width + (n - 1) * width && (n - 1) * width >= 0
  {
  }

  lemma {:induction false} StaysFailed(data: seq<Byte>, st: Stream, n: nat, width: nat)
    requires st.fail
    ensures ReadSamples(data, st, n, width).2.fail
    decreases n
  {
    hide FromLE;
    if n == 0 {
    } else {
      StaysFailed(data, Read(data, st, width).0, n - 1, width);
    }
  }

  lemma PayloadFails(data: seq<Byte>, pos: nat, h: DataFrameHeader, mode: Mode)
    requires pos <= |data| && h.nDataSamples >= 0
    ensures var (_, counted, st) := ReadPayload(data, At(pos), h, mode);
            && (!st.fail ==> counted == PayloadSize(h))
            && (st.fail <==> pos + PayloadSize(h) - Skipped(h, mode) > |data|)
            && (!st.fail ==>
                 if st.Good() then st.pos == pos + PayloadSize(h) <= |data| else pos + PayloadSize(h) > |data|)
  {
    hide ReadSamples;
    if !mode.NoSamples? {
      SamplesFail(data, pos, h.nDataSamples, SampleWidth(h, mode));
      ValuesFitIn(h, SampleWidth(h, mode));
    }
  }

  lemma ValuesFitIn(h: DataFrameHeader, width: nat)
    requires 1 <= width <= 2 && h.nDataSamples >= 0
    ensures 0 <= h.nDataSamples * width <= PayloadSize(h)
  {
    if width == 1 {
    } else {
    }
  }

  lemma {:induction false} FramesFollow(data: seq<Byte>, pos: nat, hits: seq<Hit>, current: nat, size: int, mode: Mode)
    ensures var (r, st) := ParseFrames(data, At(pos), hits, current, size, mode);
            var vacant := current < |hits| ==> hits[current].heads == [];
            Follows(data, r.Ok?, st, FramesCourse(data, pos, |hits| - current, vacant, size, mode))
    decreases if pos < |data| then |data| - pos else 0
  {
    hide ParseFrames, HeaderOf, ReadPayload, PayloadSize, Skipped, ToInt32;
    ParseRound(data, At(pos), hits, current, size, mode);
    var (st1, got) := Read(data, At(pos), HEADER_BYTES);
    if got < HEADER_BYTES {
    } else {
      var h := HeaderOf(data[pos..pos + HEADER_BYTES]);
      var to := NextHit(hits, current, h);
      if to < |hits| {
        var (samples, counted, st2) := ReadPayload(data, st1, h, mode);
        PayloadFails(data, pos + HEADER_BYTES, h, mode);
        var left := ToInt32(size - HEADER_BYTES - counted);
        var hits' := Deliver(hits, to, h, samples);
        assert hits'[to].heads == hits[to].heads + [h] != [];
        if st2.Good() && left > 0 {
          FramesFollow(data, st2.pos, hits', to, left, mode);
        } else if !st2.fail && left > 0 {
          NotGood(data, st2, hits', to, left, mode);
          PastTheEnd(data, pos + HEADER_BYTES + PayloadSize(h), |hits| - to, left, mode);
        }
      }
    }
  }

  lemma PastTheEnd(data: seq<Byte>, pos: nat, room: int, size: int, mode: Mode)
    requires pos > |data|
    ensures FramesCourse(data, pos, room, false, size, mode) == CutOff
  {
  }

  lemma NotGood(data: seq<Byte>, st: Stream, hits: seq<Hit>, current: nat, size: int, mode: Mode)
    requires !st.Good()
    ensures var (r, st') := ParseFrames(data, st, hits, current, size, mode);
            r == Err(ShortHeader) && st'.fail
  {
    hide HeaderOf, ReadPayload;
  }

  lemma EventFollows(data: seq<Byte>, pos: nat, mode: Mode)
    ensures var (r, st) := ReadEvent(data, At(pos), mode);
            Follows(data, r.Ok?, st, EventCourse(data, pos, mode))
  {
    hide ParseFrames, FramesCourse, EventHeaderOf;
    var (st1, got) := Read(data, At(pos), EVENT_HEADER_BYTES);
    if got < EVENT_HEADER_BYTES {
    } else {
      var head := EventHeaderOf(data[pos..pos + EVENT_HEADER_BYTES]);
      var n, size := ToInt32(head.nHit), ToInt32(head.eventL - EVENT_HEADER_BYTES);
      if n >= 0 {
        FramesFollow(data, pos + EVENT_HEADER_BYTES, EmptyHits(n), 0, size, mode);
        var (hits, st) := ParseFrames(data, st1, EmptyHits(n), 0, size, mode);
        assert ReadEvent(data, At(pos), mode)
            == (if hits.Ok? then Ok(Event(head, hits.value)) else Err(hits.error), st);
      } else {
        assert ReadEvent(data, At(pos), mode) == (Err(BadCount), st1);
      }
    }
  }

  lemma {:induction false} EventsFollow(data: seq<Byte>, pos: nat, n: nat, mode: Mode)
    requires pos <= |data|
    ensures var (r, st) := ReadEvents(data, At(pos), n, mode);
            Follows(data, r.Ok?, st, EventsCourse(data, pos, n, mode))
    decreases n
  {
    hide ReadEvent, ReadEvents, EventCourse, Read;
    ReadEventsUnfolds(data, At(pos), n, mode);
    if n == 0 {
    } else {
      EventFollows(data, pos, mode);
      var (first, st) := ReadEvent(data, At(pos), mode);
      if first.Ok? {
        if st.Good() {
          EventsFollow(data, st.pos, n - 1, mode);
          var (rest, st2) := ReadEvents(data, At(st.pos), n - 1, mode);
          assert st == At(st.pos);
          assert ReadEvents(data, At(pos), n, mode).1 == st2 && ReadEvents(data, At(pos), n, mode).0.Ok? == rest.Ok?;
          assert Follows(data, rest.Ok?, st2, EventsCourse(data, st.pos, n - 1, mode));
        } else if n > 1 {
          EventNotGood(data, st, n - 1, mode);
          EventPastTheEnd(data, n - 1, mode);
        } else {
          ReadEventsUnfolds(data, st, 0, mode);
        }
      }
    }
  }

  lemma EventPastTheEnd(data: seq<Byte>, n: nat, mode: Mode)
    requires n > 0
    ensures forall pos: nat :: pos > |data| ==> EventsCourse(data, pos, n, mode) == CutOff
  {
    hide FramesCourse;
  }

  lemma ReadEventsUnfolds(data: seq<Byte>, st: Stream, n: nat, mode: Mode)
    ensures n == 0 ==> ReadEvents(data, st, n, mode) == (Ok([]), st)
    ensures n > 0 ==>
              var (first, st1) := ReadEvent(data, st, mode);
              var all := ReadEvents(data, st, n, mode);
              if first.Err? then all == (Err(first.error), st1)
              else
                var (rest, st2) := ReadEvents(data, st1, n - 1, mode);
                all == (if rest.Err? then (Err(rest.error), st2) else (Ok([first.value] + rest.value), st2))
  {
    hide ReadEvent;
  }

  lemma EventNotGood(data: seq<Byte>, st: Stream, n: nat, mode: Mode)
    requires !st.Good() && n > 0
    ensures var (r, st') := ReadEvents(data, st, n, mode);
            r == Err(ShortHeader) && st'.fail
  {
    hide EventHeaderOf, ParseEvent;
  }

  /**
   On any bytes, which accesses leave the stream failed, and so spoil all later ones: exactly those for
   which a header or a sample that is read lies past the end of the file. An access succeeds and leaves the
   stream unfailed exactly when its course comes to an end.
   */
  lemma AccessLeavesFailed(data: seq<Byte>, st: Stream, pos: nat, mode: Mode)
    requires !st.fail
    ensures var (r, st') := Access(data, st, pos, mode);
            && (st'.fail <==> SliceCourse(data, pos, mode) == CutOff)
            && (r.Ok? && !st'.fail <==> SliceCourse(data, pos, mode).Ends?)
  {
    hide SliceHeaderOf, ReadEvents, EventsCourse;
    var (st1, got) := Read(data, At(pos), SLICE_HEADER_BYTES);
    if got < SLICE_HEADER_BYTES {
    } else {
      var n := ToInt32(SliceHeaderOf(data[pos..pos + SLICE_HEADER_BYTES]).nEvents);
      if n >= 0 {
        EventsFollow(data, pos + SLICE_HEADER_BYTES, n, mode);
      }
    }
  }

  /** The stream after a run of accesses. */
  function AfterAccesses(data: seq<Byte>, st: Stream, index: seq<nat>, ks: seq<nat>, mode: Mode): Stream
    requires forall i :: 0 <= i < |ks| ==> ks[i] < |index|
    decreases |ks|
  {
    if ks == [] then st else AfterAccesses(data, Access(data, st, index[ks[0]], mode).1, index, ks[1..], mode)
  }

  /** A slice asked for in a run is cut off by the end of the file. */
  predicate SomeCutOff(data: seq<Byte>, index: seq<nat>, ks: seq<nat>, mode: Mode)
    requires forall i :: 0 <= i < |ks| ==> ks[i] < |index|
  {
    exists i :: 0 <= i < |ks| && SliceCourse(data, index[ks[i]], mode) == CutOff
  }

  /** A run of accesses leaves the stream failed exactly when it was, or some slice asked for is cut off. */
  lemma {:induction false} RunLeavesFailed(data: seq<Byte>, st: Stream, index: seq<nat>, ks: seq<nat>, mode: Mode)
    requires Reachable(data, st) && forall i :: 0 <= i < |ks| ==> ks[i] < |index|
    ensures Reachable(data, AfterAccesses(data, st, index, ks, mode))
    ensures AfterAccesses(data, st, index, ks, mode).fail <==> st.fail || SomeCutOff(data, index, ks, mode)
    decreases |ks|
  {
    hide Access, SliceCourse, Reachable;
    if ks == [] {
    } else {
      var pos, rest := index[ks[0]], ks[1..];
      AccessKeepsReachable(data, st, pos, mode);
      RunLeavesFailed(data, Access(data, st, pos, mode).1, index, rest, mode);
      if st.fail {
        FailedAccess(data, st, pos, mode);
      } else {
        AccessLeavesFailed(data, st, pos, mode);
      }
      assert SomeCutOff(data, index, ks, mode)
         <==> SliceCourse(data, pos, mode) == CutOff || SomeCutOff(data, index, rest, mode) by {
        CutOffFirst(data, index, ks, mode);
      }
    }
  }

  lemma CutOffFirst(data: seq<Byte>, index: seq<nat>, ks: seq<nat>, mode: Mode)
    requires ks != [] && forall i :: 0 <= i < |ks| ==> ks[i] < |index|
    ensures SomeCutOff(data, index, ks, mode)
       <==> SliceCourse(data, index[ks[0]], mode) == CutOff || SomeCutOff(data, index, ks[1..], mode)
  {
    hide SliceCourse;
    if SomeCutOff(data, index, ks[1..], mode) {
      var i :| 0 <= i < |ks[1..]| && SliceCourse(data, index[ks[1..][i]], mode) == CutOff;
      assert ks[i + 1] == ks[1..][i];
    }
    if SomeCutOff(data, index, ks, mode) && SliceCourse(data, index[ks[0]], mode) != CutOff {
      var i :| 0 <= i < |ks| && SliceCourse(data, index[ks[i]], mode) == CutOff;
      assert ks[1..][i - 1] == ks[i];
    }
  }

  /**
   After any run of accesses to a file on any bytes, an access to an intact slice returns it if and only if
   none of the slices asked for before is cut off by the end of the file.
   */
  lemma AccessAfterRun(data: seq<Byte>, index: seq<nat>, ks: seq<nat>, pos: nat, s: SliceRecord, mode: Mode)
    requires (forall i :: 0 <= i < |ks| ==> ks[i] < |index|) && ValidSlice(s, mode)
             && Holds(data, pos, SliceBytes(s, mode))
    ensures Access(data, AfterAccesses(data, At(0), index, ks, mode), pos, mode).0 == Ok(SliceOf(s, mode))
       <==> !SomeCutOff(data, index, ks, mode)
  {
    hide AfterAccesses, SomeCutOff, Access, ValidSlice, SliceBytes, SliceOf, Holds;
    RunLeavesFailed(data, At(0), index, ks, mode);
    AccessNeedsNoFailure(data, AfterAccesses(data, At(0), index, ks, mode), pos, s, mode);
  }

  const CUT_FRAME := DataFrameHeader(0, 0, 0, 0, 0, 0, 0, 0, 0, 1, 0, 0, 0, 1)
  const CUT_EVENT := EventHeader(0, 0, 131, 1, 0, 0, seq(COUNTERS, _ => 0))
  const CUT_SLICE := SliceHeader(0, 1, 147)

  /**
   A slice returned without complaint by an access that leaves the stream failed: the file ends before the
   only sample, and the event's size, three bytes more than its frame header, is counted off all the same.
   */
  lemma QuietFailureExample()
    ensures var data := SliceHeaderBytes(CUT_SLICE) + EventHeaderBytes(CUT_EVENT) + HeaderBytes(CUT_FRAME);
            var (r, st) := Access(data, At(0), 0, UncompressedSamples);
            r == Ok(TimeSlice(CUT_SLICE, [Event(CUT_EVENT, [Hit([CUT_FRAME], [0])])]))
            && st == Stream(|data|, true, true)
  {
    hide SliceHeaderOf, SliceHeaderBytes, EventHeaderOf, EventHeaderBytes, HeaderOf, HeaderBytes,
         FromLE, ParseFrames, ReadEvents;
    var data := SliceHeaderBytes(CUT_SLICE) + EventHeaderBytes(CUT_EVENT) + HeaderBytes(CUT_FRAME);
    SliceHeaderRead(CUT_SLICE);
    EventHeaderRead(CUT_EVENT);
    HeaderRoundTrip(CUT_FRAME);
    assert data[..16] == SliceHeaderBytes(CUT_SLICE);
    assert data[16..128] == EventHeaderBytes(CUT_EVENT);
    assert data[128..144] == HeaderBytes(CUT_FRAME);
    ParseRound(data, At(128), EmptyHits(1), 0, 19, UncompressedSamples);
    assert ReadSamples(data, At(144), 1, 1) == ([0] + [], 0, Stream(144, true, true)) && [0] + [] == [0];
    assert ReadPayload(data, At(144), CUT_FRAME, UncompressedSamples) == ([0], 3, Stream(144, true, true));
    assert Deliver(EmptyHits(1), 0, CUT_FRAME, [0]) == [Hit([CUT_FRAME], [0])] by {
      assert [] + [CUT_FRAME] == [CUT_FRAME] && [] + [0] == [0];
    }
    assert ParseFrames(data, At(128), EmptyHits(1), 0, 19, UncompressedSamples)
        == (Ok([Hit([CUT_FRAME], [0])]), Stream(144, true, true));
    ReadEventsUnfolds(data, At(16), 1, UncompressedSamples);
    ReadEventsUnfolds(data, Stream(144, true, true), 0, UncompressedSamples);
    var event := Event(CUT_EVENT, [Hit([CUT_FRAME], [0])]);
    assert [event] + [] == [event];
  }

  // ---- The reader -----------------------------------------------------------------------------

  method ReadEventFrom(file: InputFile, mode: Mode) returns (r: Result<Event>)
    modifies file
    ensures (r, file.state) == ReadEvent(file.data, old(file.state), mode)
  {
    hide EventHeaderOf, ParseEvent;
    var bytes := file.Get(EVENT_HEADER_BYTES);
    if |bytes| < EVENT_HEADER_BYTES {
      return Err(ShortHeader);
    }
    var head := EventHeaderOf(bytes);
    var hits := ParseEventFrom(file, ToInt32(head.nHit), ToInt32(head.eventL - EVENT_HEADER_BYTES), mode);
    match hits
    case Ok(hs) => r := Ok(Event(head, hs));
    case Err(e) => r := Err(e);
  }

  /** Events read so far, then the rest. */
  function Prepend(events: seq<Event>, rest: (Result<seq<Event>>, Stream)): (Result<seq<Event>>, Stream) {
    match rest.0
    case Ok(more) => (Ok(events + more), rest.1)
    case Err(e) => rest
  }

  lemma EventRound(data: seq<Byte>, st: Stream, n: nat, mode: Mode, events: seq<Event>)
    requires n > 0
    ensures match ReadEvent(data, st, mode)
            case (Ok(event), st') =>
              Prepend(events, ReadEvents(data, st, n, mode))
              == Prepend(events + [event], ReadEvents(data, st', n - 1, mode))
            case (Err(e), st') => Prepend(events, ReadEvents(data, st, n, mode)) == (Err(e), st')
  {
    hide ReadEvent;
    match ReadEvent(data, st, mode)
    case (Ok(event), st') =>
      match ReadEvents(data, st', n - 1, mode) {
        case (Ok(more), _) => assert events + ([event] + more) == events + [event] + more;
        case (Err(_), _) =>
      }
    case (Err(_), _) =>
  }

  method ReadSliceFrom(file: InputFile, mode: Mode) returns (r: Result<TimeSlice>)
    modifies file
    ensures (r, file.state) == ReadSlice(file.data, old(file.state), mode)
  {
    hide SliceHeaderOf, ReadEvent, ReadEvents;
    var bytes := file.Get(SLICE_HEADER_BYTES);
    if |bytes| < SLICE_HEADER_BYTES {
      return Err(ShortHeader);
    }
    var head := SliceHeaderOf(bytes);
    var n := ToInt32(head.nEvents);
    if n < 0 {
      return Err(BadCount);
    }
    var events: seq<Event> := [];
    ghost var all := ReadEvents(file.data, file.state, n, mode);
    PrependNothing(all);
    for i := 0 to n
      invariant Prepend(events, ReadEvents(file.data, file.state, n - i, mode)) == all
    {
      EventRound(file.data, file.state, n - i, mode, events);
      var event := ReadEventFrom(file, mode);
      match event
      case Err(e) => return Err(e);
      case Ok(ev) => events := events + [ev];
    }
    AllEventsRead(file.data, file.state, mode, events);
    r := Ok(TimeSlice(head, events));
  }

  lemma PrependNothing(all: (Result<seq<Event>>, Stream))
    ensures Prepend([], all) == all
  {
    match all.0
    case Ok(more) => assert [] + more == more;
    case Err(_) =>
  }

  lemma AllEventsRead(data: seq<Byte>, st: Stream, mode: Mode, events: seq<Event>)
    ensures Prepend(events, ReadEvents(data, st, 0, mode)) == (Ok(events), st)
  {
    assert events + [] == events;
  }

  datatype Opened = Opened(reader: PtFileReader) | OpenFailed(error: Error)

  class PtFileReader {
    const file: InputFile
    const head: PtHeader
    const tsPos: seq<nat>
    const mode: Mode

    constructor (file: InputFile, head: PtHeader, tsPos: seq<nat>, mode: Mode)
      ensures this.file == file && this.head == head && this.tsPos == tsPos && this.mode == mode
    {
      this.file := file;
      this.head := head;
      this.tsPos := tsPos;
      this.mode := mode;
    }

    /** Open a file whose stream is at its first byte: read the header, skip the datacard, index the slices. */
    static method Open(file: InputFile, mode: Mode) returns (r: Opened)
      requires file.state == At(0)
      modifies file
      ensures match OpenFile(file.data)
              case Err(e) => r == OpenFailed(e)
              case Ok((head, index)) =>
                && r.Opened? && r.reader.file == file && r.reader.head == head && r.reader.tsPos == index
                && r.reader.mode == mode && file.state == At(0)
    {
      hide PtHeaderOf, SliceHeaderOf, IndexFrom;
      var bytes := file.Get(PT_HEADER_BYTES);
      if |bytes| < PT_HEADER_BYTES {
        return OpenFailed(ShortHeader);
      }
      var head := PtHeaderOf(bytes);
      file.SeekTo(file.state.pos + DatacardBytes(head));
      var index: seq<nat> := [];
      ghost var all := IndexFrom(file.data, file.state, [], head.numberOfTimeslices);
      while true
        invariant IndexFrom(file.data, file.state, index, head.numberOfTimeslices) == all
        decreases if file.state.pos < |file.data| then |file.data| - file.state.pos else 0
      {
        IndexStep(file.data, file.state, index, head.numberOfTimeslices);
        index := index + [file.state.pos];
        var bs := file.Get(SLICE_HEADER_BYTES);
        if |bs| < SLICE_HEADER_BYTES {
          return OpenFailed(ShortHeader);
        }
        file.Skip(SliceHeaderOf(bs).tsSize - SLICE_HEADER_BYTES);
        if file.state.fail || |index| >= head.numberOfTimeslices {
          break;
        }
      }
      file.SeekTo(0);
      file.ClearFlags();
      var reader := new PtFileReader(file, head, index, mode);
      r := Opened(reader);
    }

    /** `operator[]`. */
    method Slice(k: nat) returns (r: Result<TimeSlice>)
      requires k < |tsPos|
      modifies file
      ensures (r, file.state) == Access(file.data, old(file.state), tsPos[k], mode)
    {
      hide ReadSlice;
      file.SeekTo(tsPos[k]);
      file.ClearFlags();
      r := ReadSliceFrom(file, mode);
    }
  }
}
