/** Post-trigger files: their headers byte by byte, and what a well-formed file contains. */
module PtFile {
  import opened MachineInts
  import opened Slices
  import opened ByteStream
  import opened PtEvents
  import opened PtGrouping

  // ---- Headers ------------------------------------------------------------------------------

  datatype PtHeader = PtHeader(runNumber: int, fileNumber: int, runStartTime: int, datacardSize: int,
                               numberOfEvents: int, numberOfTimeslices: int, effectiveFileSize: int)

  datatype SliceHeader = SliceHeader(tsId: int, nEvents: int, tsSize: int)

  /** `counters`: seeds per trigger, then trigger type and seeds per plugin. */
  datatype EventHeader = EventHeader(eventTag: int, eventId: int, eventL: int, nHit: int, startTime: int,
                                     tsCompleted: int, counters: seq<Word>)

  const PT_HEADER_BYTES := 32
  const SLICE_HEADER_BYTES := 16
  const EVENT_HEADER_BYTES := 112
  const COUNTERS := 21

  /** The unsigned value of the `n` bytes at `at`. */
  function Field(bs: seq<Byte>, at: nat, n: nat): nat
    requires at + n <= |bs|
  {
    FromLE(bs[at..at + n])
  }

  function WordsOf(bs: seq<Byte>, n: nat): (ws: seq<Word>)
    requires |bs| == 4 * n
    ensures |ws| == n
  {
    if n == 0 then []
    else
      ToFromLE(bs[..4]);
      FourBytes();
      [Field(bs, 0, 4)] + WordsOf(bs[4..], n - 1)
  }

  lemma FourBytes()
    ensures Pow256(4) == TWO32
  {
    assert Pow256(2) == 0x1_0000;
  }

  lemma EightBytes()
    ensures Pow256(8) == TWO32 * TWO32
  {
    assert Pow256(2) == 0x1_0000;
    assert Pow256(6) == 0x1_0000_0000_0000;
  }

  function WordsBytes(ws: seq<Word>): (bs: seq<Byte>)
    ensures |bs| == 4 * |ws|
  {
    if ws == [] then [] else ToLE(ws[0], 4) + WordsBytes(ws[1..])
  }

  lemma {:induction false} WordsRead(ws: seq<Word>)
    ensures WordsOf(WordsBytes(ws), |ws|) == ws
  {
    hide ToLE, FromLE, Pow256;
    if ws == [] {
    } else {
      FourBytes();
      FromToLE(ws[0], 4);
      WordsRead(ws[1..]);
      var bs := WordsBytes(ws);
      assert bs[0..4] == ToLE(ws[0], 4) && bs[4..] == WordsBytes(ws[1..]);
      assert ws == [ws[0]] + ws[1..];
    }
  }

  function PtHeaderOf(bs: seq<Byte>): PtHeader
    requires |bs| == PT_HEADER_BYTES
  {
    PtHeader(Field(bs, 0, 4), Field(bs, 4, 4), Field(bs, 8, 8), Field(bs, 16, 4), Field(bs, 20, 4), Field(bs, 24, 4),
             Field(bs, 28, 4))
  }

  function SliceHeaderOf(bs: seq<Byte>): SliceHeader
    requires |bs| == SLICE_HEADER_BYTES
  {
    SliceHeader(Field(bs, 0, 8), Field(bs, 8, 4), Field(bs, 12, 4))
  }

  function EventHeaderOf(bs: seq<Byte>): EventHeader
    requires |bs| == EVENT_HEADER_BYTES
  {
    EventHeader(Field(bs, 0, 4), Field(bs, 4, 4), Field(bs, 8, 4), Field(bs, 12, 4), Field(bs, 16, 8), Field(bs, 24, 4),
                WordsOf(bs[28..], COUNTERS))
  }

  predicate IsWord(n: int) { 0 <= n < TWO32 }

  predicate IsLong(n: int) { 0 <= n < TWO32 * TWO32 }

  predicate ValidPtHeader(h: PtHeader) {
    && IsWord(h.runNumber) && IsWord(h.fileNumber) && IsLong(h.runStartTime) && IsWord(h.datacardSize)
    && IsWord(h.numberOfEvents) && IsWord(h.numberOfTimeslices) && IsWord(h.effectiveFileSize)
  }

  predicate ValidSliceHeader(h: SliceHeader) {
    IsLong(h.tsId) && IsWord(h.nEvents) && IsWord(h.tsSize)
  }

  predicate ValidEventHeader(h: EventHeader) {
    && IsWord(h.eventTag) && IsWord(h.eventId) && IsWord(h.eventL) && IsWord(h.nHit) && IsLong(h.startTime)
    && IsWord(h.tsCompleted) && |h.counters| == COUNTERS
  }

  function PtHeaderBytes(h: PtHeader): (bs: seq<Byte>)
    requires ValidPtHeader(h)
    ensures |bs| == PT_HEADER_BYTES
  {
    ToLE(h.runNumber, 4) + ToLE(h.fileNumber, 4) + ToLE(h.runStartTime, 8) + ToLE(h.datacardSize, 4)
    + ToLE(h.numberOfEvents, 4) + ToLE(h.numberOfTimeslices, 4) + ToLE(h.effectiveFileSize, 4)
  }

  function SliceHeaderBytes(h: SliceHeader): (bs: seq<Byte>)
    requires ValidSliceHeader(h)
    ensures |bs| == SLICE_HEADER_BYTES
  {
    ToLE(h.tsId, 8) + ToLE(h.nEvents, 4) + ToLE(h.tsSize, 4)
  }

  function EventHeaderBytes(h: EventHeader): (bs: seq<Byte>)
    requires ValidEventHeader(h)
    ensures |bs| == EVENT_HEADER_BYTES
  {
    ToLE(h.eventTag, 4) + ToLE(h.eventId, 4) + ToLE(h.eventL, 4) + ToLE(h.nHit, 4) + ToLE(h.startTime, 8)
    + ToLE(h.tsCompleted, 4) + WordsBytes(h.counters)
  }

  lemma WordRead(n: int)
    requires IsWord(n)
    ensures FromLE(ToLE(n, 4)) == n
  {
    FourBytes();
    FromToLE(n, 4);
  }

  lemma LongRead(n: int)
    requires IsLong(n)
    ensures FromLE(ToLE(n, 8)) == n
  {
    EightBytes();
    FromToLE(n, 8);
  }

  lemma PtHeaderRead(h: PtHeader)
    requires ValidPtHeader(h)
    ensures PtHeaderOf(PtHeaderBytes(h)) == h
  {
    hide FromLE, ToLE;
    WordRead(h.runNumber);
    WordRead(h.fileNumber);
    LongRead(h.runStartTime);
    WordRead(h.datacardSize);
    WordRead(h.numberOfEvents);
    WordRead(h.numberOfTimeslices);
    WordRead(h.effectiveFileSize);
    var bs := PtHeaderBytes(h);
    assert bs[0..4] == ToLE(h.runNumber, 4);
    assert bs[4..8] == ToLE(h.fileNumber, 4);
    assert bs[8..16] == ToLE(h.runStartTime, 8);
    assert bs[16..20] == ToLE(h.datacardSize, 4);
    assert bs[20..24] == ToLE(h.numberOfEvents, 4);
    assert bs[24..28] == ToLE(h.numberOfTimeslices, 4);
    assert bs[28..32] == ToLE(h.effectiveFileSize, 4);
  }

  lemma SliceHeaderRead(h: SliceHeader)
    requires ValidSliceHeader(h)
    ensures SliceHeaderOf(SliceHeaderBytes(h)) == h
  {
    hide FromLE, ToLE;
    LongRead(h.tsId);
    WordRead(h.nEvents);
    WordRead(h.tsSize);
    var bs := SliceHeaderBytes(h);
    assert bs[0..8] == ToLE(h.tsId, 8);
    assert bs[8..12] == ToLE(h.nEvents, 4);
    assert bs[12..16] == ToLE(h.tsSize, 4);
  }

  lemma EventHeaderRead(h: EventHeader)
    requires ValidEventHeader(h)
    ensures EventHeaderOf(EventHeaderBytes(h)) == h
  {
    hide FromLE, ToLE, WordsOf, WordsBytes;
    WordRead(h.eventTag);
    WordRead(h.eventId);
    WordRead(h.eventL);
    WordRead(h.nHit);
    LongRead(h.startTime);
    WordRead(h.tsCompleted);
    WordsRead(h.counters);
    var bs := EventHeaderBytes(h);
    assert bs[0..4] == ToLE(h.eventTag, 4);
    assert bs[4..8] == ToLE(h.eventId, 4);
    assert bs[8..12] == ToLE(h.eventL, 4);
    assert bs[12..16] == ToLE(h.nHit, 4);
    assert bs[16..24] == ToLE(h.startTime, 8);
    assert bs[24..28] == ToLE(h.tsCompleted, 4);
    assert bs[28..] == WordsBytes(h.counters);
  }

  // ---- What the reader reads, on any bytes ----------------------------------------------------

  datatype Event = Event(head: EventHeader, hits: seq<Hit>)

  datatype TimeSlice = TimeSlice(head: SliceHeader, events: seq<Event>)

  /** The Event constructor: the header, then as many bytes of frames as it announces. */
  function ReadEvent(data: seq<Byte>, st: Stream, mode: Mode): (Result<Event>, Stream) {
    var (st1, got) := Read(data, st, EVENT_HEADER_BYTES);
    if got < EVENT_HEADER_BYTES then (Err(ShortHeader), st1)
    else
      var head := EventHeaderOf(data[st.pos..st.pos + EVENT_HEADER_BYTES]);
      var (hits, st2) := ParseEvent(data, st1, ToInt32(head.nHit), ToInt32(head.eventL - EVENT_HEADER_BYTES), mode);
      match hits
      case Ok(hs) => (Ok(Event(head, hs)), st2)
      case Err(e) => (Err(e), st2)
  }

  function ReadEvents(data: seq<Byte>, st: Stream, n: nat, mode: Mode): (Result<seq<Event>>, Stream)
    decreases n
  {
    if n == 0 then (Ok([]), st)
    else
      match ReadEvent(data, st, mode)
      case (Err(e), st1) => (Err(e), st1)
      case (Ok(event), st1) =>
        match ReadEvents(data, st1, n - 1, mode)
        case (Err(e), st2) => (Err(e), st2)
        case (Ok(events), st2) => (Ok([event] + events), st2)
  }

  /** The TimeSlice constructor; room for a negative number of events cannot be reserved. */
  function ReadSlice(data: seq<Byte>, st: Stream, mode: Mode): (Result<TimeSlice>, Stream) {
    var (st1, got) := Read(data, st, SLICE_HEADER_BYTES);
    if got < SLICE_HEADER_BYTES then (Err(ShortHeader), st1)
    else
      var head := SliceHeaderOf(data[st.pos..st.pos + SLICE_HEADER_BYTES]);
      var n := ToInt32(head.nEvents);
      if n < 0 then (Err(BadCount), st1)
      else
        match ReadEvents(data, st1, n, mode)
        case (Err(e), st2) => (Err(e), st2)
        case (Ok(events), st2) => (Ok(TimeSlice(head, events)), st2)
  }

  // ---- Well-formed files ----------------------------------------------------------------------

  /** An event as written: its hits are groups of frames. */
  datatype EventRecord = EventRecord(head: EventHeader, hits: seq<seq<Frame>>)

  datatype SliceRecord = SliceRecord(head: SliceHeader, events: seq<EventRecord>)

  datatype FileRecord = FileRecord(head: PtHeader, datacard: seq<Byte>, slices: seq<SliceRecord>)

  predicate ValidEvent(e: EventRecord, mode: Mode) {
    && ValidEventHeader(e.head)
    && e.hits != [] && IsGrouping(e.hits) && ValidFrames(Flatten(e.hits)) && Acceptable(Flatten(e.hits), mode)
    && e.head.nHit == |e.hits| <= INT_MAX
    && e.head.eventL == EVENT_HEADER_BYTES + |FramesBytes(Flatten(e.hits))|
    && Flatten(e.hits) != [] && CounterFits(Flatten(e.hits))
  }

  predicate ValidEvents(es: seq<EventRecord>, mode: Mode) {
    forall i :: 0 <= i < |es| ==> ValidEvent(es[i], mode)
  }

  function EventBytes(e: EventRecord, mode: Mode): (bs: seq<Byte>)
    requires ValidEvent(e, mode)
    ensures |bs| == e.head.eventL
  {
    EventHeaderBytes(e.head) + FramesBytes(Flatten(e.hits))
  }

  function EventsBytes(es: seq<EventRecord>, mode: Mode): seq<Byte>
    requires ValidEvents(es, mode)
  {
    if es == [] then [] else EventBytes(es[0], mode) + EventsBytes(es[1..], mode)
  }

  predicate ValidSlice(s: SliceRecord, mode: Mode) {
    && ValidSliceHeader(s.head) && ValidEvents(s.events, mode)
    && s.head.nEvents == |s.events| <= INT_MAX
    && s.head.tsSize == SLICE_HEADER_BYTES + |EventsBytes(s.events, mode)|
  }

  function SliceBytes(s: SliceRecord, mode: Mode): (bs: seq<Byte>)
    requires ValidSlice(s, mode)
    ensures |bs| == s.head.tsSize >= SLICE_HEADER_BYTES
  {
    SliceHeaderBytes(s.head) + EventsBytes(s.events, mode)
  }

  predicate ValidSlices(ss: seq<SliceRecord>, mode: Mode) {
    forall i :: 0 <= i < |ss| ==> ValidSlice(ss[i], mode)
  }

  function SlicesBytes(ss: seq<SliceRecord>, mode: Mode): seq<Byte>
    requires ValidSlices(ss, mode)
  {
    if ss == [] then [] else SliceBytes(ss[0], mode) + SlicesBytes(ss[1..], mode)
  }

  predicate ValidFile(f: FileRecord, mode: Mode) {
    && ValidPtHeader(f.head) && ValidSlices(f.slices, mode)
    && f.slices != [] && f.head.numberOfTimeslices == |f.slices|
    && f.head.datacardSize == |f.datacard|
  }

  function FileBytes(f: FileRecord, mode: Mode): seq<Byte>
    requires ValidFile(f, mode)
  {
    PtHeaderBytes(f.head) + f.datacard + SlicesBytes(f.slices, mode)
  }

  // ---- What a well-formed file is read as -----------------------------------------------------

  function EventOf(e: EventRecord, mode: Mode): Event
    requires ValidEvent(e, mode)
  {
    GroupsOfFlatten(e.hits);
    GroupsValid(Flatten(e.hits));
    Event(e.head, HitsOf(e.hits, mode))
  }

  function EventsOf(es: seq<EventRecord>, mode: Mode): (r: seq<Event>)
    requires ValidEvents(es, mode)
    ensures |r| == |es| && forall i :: 0 <= i < |es| ==> ValidEvent(es[i], mode) && r[i] == EventOf(es[i], mode)
  {
    seq(|es|, i requires 0 <= i < |es| && ValidEvent(es[i], mode) => EventOf(es[i], mode))
  }

  function SliceOf(s: SliceRecord, mode: Mode): TimeSlice
    requires ValidSlice(s, mode)
  {
    TimeSlice(s.head, EventsOf(s.events, mode))
  }

  lemma ReadsEvent(data: seq<Byte>, pos: nat, e: EventRecord, mode: Mode)
    requires ValidEvent(e, mode) && Holds(data, pos, EventBytes(e, mode))
    ensures ReadEvent(data, At(pos), mode) == (Ok(EventOf(e, mode)), At(pos + e.head.eventL))
  {
    hide EventHeaderBytes, EventHeaderOf, FramesBytes, Flatten, IsGrouping, ValidFrames, Acceptable, ParseEvent, HitsOf,
         Groups, CounterFits;
    HoldsSplit(data, pos, EventHeaderBytes(e.head), FramesBytes(Flatten(e.hits)));
    EventHeaderRead(e.head);
    ParseEventRoundTrip(data, pos + EVENT_HEADER_BYTES, e.hits, mode);
  }

  lemma {:induction false} ReadsEvents(data: seq<Byte>, pos: nat, es: seq<EventRecord>, mode: Mode)
    requires ValidEvents(es, mode) && Holds(data, pos, EventsBytes(es, mode))
    ensures ReadEvents(data, At(pos), |es|, mode) == (Ok(EventsOf(es, mode)), At(pos + |EventsBytes(es, mode)|))
    decreases |es|
  {
    hide ValidEvent, EventBytes, EventOf, ReadEvent, Holds;
    if es == [] {
    } else {
      HoldsSplit(data, pos, EventBytes(es[0], mode), EventsBytes(es[1..], mode));
      ReadsEvent(data, pos, es[0], mode);
      ReadsEvents(data, pos + |EventBytes(es[0], mode)|, es[1..], mode);
      assert EventsOf(es, mode) == [EventOf(es[0], mode)] + EventsOf(es[1..], mode);
    }
  }

  /** Reading a slice at its first byte gives the slice, and leaves the stream right after it. */
  lemma ReadsSlice(data: seq<Byte>, pos: nat, s: SliceRecord, mode: Mode)
    requires ValidSlice(s, mode) && Holds(data, pos, SliceBytes(s, mode))
    ensures ReadSlice(data, At(pos), mode) == (Ok(SliceOf(s, mode)), At(pos + s.head.tsSize))
  {
    hide ValidSliceHeader, SliceHeaderBytes, SliceHeaderOf, EventsBytes, EventsOf, ReadEvents, ValidEvents;
    HoldsSplit(data, pos, SliceHeaderBytes(s.head), EventsBytes(s.events, mode));
    SliceHeaderRead(s.head);
    ReadsEvents(data, pos + SLICE_HEADER_BYTES, s.events, mode);
  }

  // ---- An event in a file, concretely -----------------------------------------------------------

  /** One hit of one frame without samples. */
  const ONE_HIT := EventRecord(EventHeader(0, 0, 128, 1, 0, 0, seq(COUNTERS, _ => 0)), [[BARE_FRAME]])

  lemma OneHitIsValid(mode: Mode)
    ensures ValidEvent(ONE_HIT, mode)
  {
    hide FrameBytes, ValidFrame, Acceptable;
    var fs := [BARE_FRAME];
    BareFrameValid(fs, mode);
    assert ONE_HIT.hits[1..] == [] && fs + [] == fs;
    assert Flatten(ONE_HIT.hits) == fs;
    assert fs[1..] == [];
    assert |FramesBytes(fs)| == 16;
  }
}
