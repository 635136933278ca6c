/**
 The TRIDAS event source: a cursor over the slices of a file that hands out events one by one, and
 the alignment of an event's waveforms to a common start.
 */
module TridasSource {
  import opened MachineInts
  import opened ByteStream
  import opened FrameTime
  import opened PtEvents
  import opened PtFile
  import opened PtReader

  // ---- The cursor ---------------------------------------------------------------------------

  /** The slice iterator's position, the slice held, and the event iterator's position in it. */
  datatype Cursor = Cursor(k: nat, slice: TimeSlice, i: nat)

  /**
   What one call of GetEvent does. `PastEnd`: an event iterator at its end is dereferenced.
   `Threw`: reading the next slice throws.
   */
  datatype Delivery =
    | Delivered(event: Event, tsId: int)
    | NoMoreEvents
    | PastEnd
    | Threw(error: Error)

  /** One call on a source of `n` slices; `fetched` is what reading slice `c.k + 1` gives. */
  function Next(c: Cursor, n: nat, fetched: Result<TimeSlice>): (Delivery, Cursor) {
    if c.i < |c.slice.events| then (Delivered(c.slice.events[c.i], c.slice.head.tsId), c.(i := c.i + 1))
    else if c.k + 1 >= n then (NoMoreEvents, c.(k := c.k + 1))
    else
      match fetched
      case Err(e) => (Threw(e), c.(k := c.k + 1))
      case Ok(slice) =>
        if slice.events == [] then (PastEnd, Cursor(c.k + 1, slice, 0))
        else (Delivered(slice.events[0], slice.head.tsId), Cursor(c.k + 1, slice, 1))
  }

  /** The next slice is read twice: once for its event count, once to keep it. */
  function Fetch(data: seq<Byte>, st: Stream, pos: nat, mode: Mode): (Result<TimeSlice>, Stream) {
    match Access(data, st, pos, mode)
    case (Err(e), st') => (Err(e), st')
    case (Ok(_), st') => Access(data, st', pos, mode)
  }

  /** The events of a slice, each with the slice's id, from event `i` on. */
  function Tagged(slice: TimeSlice, i: nat): seq<(Event, int)>
    decreases |slice.events| - i
  {
    if i >= |slice.events| then [] else [(slice.events[i], slice.head.tsId)] + Tagged(slice, i + 1)
  }

  /** All events of the slices, in order, each with its slice's id. */
  function AllTagged(slices: seq<TimeSlice>): seq<(Event, int)> {
    if slices == [] then [] else Tagged(slices[0], 0) + AllTagged(slices[1..])
  }

  /** Calling GetEvent until it delivers no event: what was delivered, and the last answer. */
  function Drain(slices: seq<TimeSlice>, c: Cursor): (seq<(Event, int)>, Delivery)
    decreases if c.k < |slices| then |slices| - c.k else 0, if c.i < |c.slice.events| then |c.slice.events| - c.i else 0
  {
    var fetched := if c.k + 1 < |slices| then Ok(slices[c.k + 1]) else Err(Incomplete);
    var (d, c') := Next(c, |slices|, fetched);
    match d
    case Delivered(event, tsId) =>
      var (rest, last) := Drain(slices, c');
      ([(event, tsId)] + rest, last)
    case _ => ([], d)
  }

  /** The number of slices before the first empty one, not counting the slice at 0. */
  function Usable(slices: seq<TimeSlice>, from: nat): (m: nat)
    requires 1 <= from <= |slices|
    ensures from <= m <= |slices|
    ensures forall j :: from <= j < m ==> slices[j].events != []
    ensures m < |slices| ==> slices[m].events == []
    decreases |slices| - from
  {
    if from == |slices| || slices[from].events == [] then from else Usable(slices, from + 1)
  }

  lemma {:induction false} DrainsFrom(slices: seq<TimeSlice>, k: nat, i: nat)
    requires k < |slices| && i <= |slices[k].events|
    ensures var m := Usable(slices, k + 1);
            var last := if m == |slices| then NoMoreEvents else PastEnd;
            Drain(slices, Cursor(k, slices[k], i)) == (Tagged(slices[k], i) + AllTagged(slices[k + 1..m]), last)
    decreases |slices| - k, |slices[k].events| - i
  {
    hide Drain, AllTagged;
    var m := Usable(slices, k + 1);
    DrainRound(slices, Cursor(k, slices[k], i));
    if i < |slices[k].events| {
      DrainsFrom(slices, k, i + 1);
      var e := [(slices[k].events[i], slices[k].head.tsId)];
      var after := AllTagged(slices[k + 1..m]);
      assert e + (Tagged(slices[k], i + 1) + after) == e + Tagged(slices[k], i + 1) + after;
    } else if k + 1 < |slices| && slices[k + 1].events != [] {
      var s := slices[k + 1];
      DrainsFrom(slices, k + 1, 1);
      NextSlice(slices[k + 1..m]);
      assert slices[k + 1..m][1..] == slices[k + 2..m];
      var e, after := [(s.events[0], s.head.tsId)], AllTagged(slices[k + 2..m]);
      assert e + (Tagged(s, 1) + after) == Tagged(slices[k], i) + (e + Tagged(s, 1) + after);
    } else {
      assert m == k + 1 && slices[k + 1..m] == [];
      NoSlices();
      assert Tagged(slices[k], i) + AllTagged(slices[k + 1..m]) == [];
    }
  }

  lemma NextSlice(slices: seq<TimeSlice>)
    requires slices != []
    ensures AllTagged(slices) == Tagged(slices[0], 0) + AllTagged(slices[1..])
  {
  }

  lemma NoSlices()
    ensures AllTagged([]) == []
  {
  }

  /**
   Calling GetEvent repeatedly delivers the events of the slices in order, each with its slice's id,
   up to the first slice after the first that is empty; there the next call goes wrong.
   */
  lemma DrainStopsAtEmptySlice(slices: seq<TimeSlice>)
    requires slices != []
    ensures var m := Usable(slices, 1);
            var last := if m == |slices| then NoMoreEvents else PastEnd;
            Drain(slices, Cursor(0, slices[0], 0)) == (AllTagged(slices[..m]), last)
  {
    var m := Usable(slices, 1);
    DrainsFrom(slices, 0, 0);
    assert slices[..m][1..] == slices[1..m];
  }

  /** A source is delivered completely and ends cleanly exactly when every slice after the first has an event. */
  lemma DrainDeliversAll(slices: seq<TimeSlice>)
    requires slices != []
    ensures Drain(slices, Cursor(0, slices[0], 0)) == (AllTagged(slices), NoMoreEvents)
       <==> forall j :: 1 <= j < |slices| ==> slices[j].events != []
  {
    DrainStopsAtEmptySlice(slices);
    assert slices[..|slices|] == slices;
  }

  // ---- The source on a file -------------------------------------------------------------------

  function SlicesOf(ss: seq<SliceRecord>, mode: Mode): (r: seq<TimeSlice>)
    requires ValidSlices(ss, mode)
    ensures |r| == |ss| && forall i :: 0 <= i < |ss| ==> ValidSlice(ss[i], mode) && r[i] == SliceOf(ss[i], mode)
  {
    seq(|ss|, i requires 0 <= i < |ss| && ValidSlice(ss[i], mode) => SliceOf(ss[i], mode))
  }

  lemma FetchReturnsSlice(f: FileRecord, st: Stream, k: nat, mode: Mode)
    requires ValidFile(f, mode) && k < |f.slices| && !st.fail
    ensures var (slice, st') := Fetch(FileBytes(f, mode), st, Offsets(f.slices, SlicesStart(f))[k], mode);
            slice == Ok(SlicesOf(f.slices, mode)[k]) && !st'.fail
  {
    hide FileBytes, Access, SliceOf, ValidSlice, Offsets, SlicesStart, SlicesOf;
    AccessReturnsSlice(f, st, k, mode);
    AccessReturnsSlice(f, Access(FileBytes(f, mode), st, Offsets(f.slices, SlicesStart(f))[k], mode).1, k, mode);
  }

  /** Three slices with one event, none, and one event. */
  const GAP := FileRecord(PtHeader(0, 0, 0, 0, 2, 3, 0), [],
                          [SliceRecord(SliceHeader(0, 1, 144), [ONE_HIT]), SliceRecord(SliceHeader(1, 0, 16), []),
                           SliceRecord(SliceHeader(2, 1, 144), [ONE_HIT])])

  /** A well-formed file with an empty second slice: the event of its third slice is never delivered. */
  lemma EmptySliceExample(mode: Mode)
    ensures ValidFile(GAP, mode) && ValidEvent(ONE_HIT, mode)
    ensures var slices := SlicesOf(GAP.slices, mode);
            var event := EventOf(ONE_HIT, mode);
            && AllTagged(slices) == [(event, 0), (event, 2)]
            && Drain(slices, Cursor(0, slices[0], 0)) == ([(event, 0)], PastEnd)
  {
    hide EventOf, EventBytes, ValidEvent, Drain, Usable, AllTagged;
    OneHitIsValid(mode);
    assert [ONE_HIT][1..] == [] && EventBytes(ONE_HIT, mode) + [] == EventBytes(ONE_HIT, mode);
    assert EventsBytes([ONE_HIT], mode) == EventBytes(ONE_HIT, mode);
    var slices := SlicesOf(GAP.slices, mode);
    var event := EventOf(ONE_HIT, mode);
    assert slices[0].events == [event] && slices[1].events == [] && slices[2].events == [event];
    GapDelivers(slices, event);
  }

  lemma GapDelivers(slices: seq<TimeSlice>, event: Event)
    requires |slices| == 3 && slices[0].events == [event] && slices[1].events == [] && slices[2].events == [event]
    requires slices[0].head.tsId == 0 && slices[2].head.tsId == 2
    ensures AllTagged(slices) == [(event, 0), (event, 2)]
    ensures Drain(slices, Cursor(0, slices[0], 0)) == ([(event, 0)], PastEnd)
  {
    hide Drain;
    DrainStopsAtEmptySlice(slices);
    assert Tagged(slices[0], 0) == [(event, 0)] + Tagged(slices[0], 1) == [(event, 0)];
    assert Tagged(slices[1], 0) == [];
    assert Tagged(slices[2], 0) == [(event, 2)] + Tagged(slices[2], 1) == [(event, 2)];
    NextSlice(slices);
    NextSlice(slices[1..]);
    NextSlice(slices[1..][1..]);
    NextSlice(slices[..1]);
  }

  datatype SourceOpened = SourceOpened(source: TridasDaqSource) | SourceFailed(error: Error)

  class TridasDaqSource {
    const reader: PtFileReader
    var cursor: Cursor
    /** False once the source has ended: the slice it held is deleted. */
    var live: bool

    constructor (reader: PtFileReader, first: TimeSlice)
      ensures this.reader == reader && cursor == Cursor(0, first, 0) && live
    {
      this.reader := reader;
      cursor := Cursor(0, first, 0);
      live := true;
    }

    static method Open(file: InputFile) returns (r: SourceOpened)
      requires file.state == At(0)
      modifies file
      ensures match OpenFile(file.data)
              case Err(e) => r == SourceFailed(e)
              case Ok((head, index)) =>
                index != [] &&
                var (first, st) := Fetch(file.data, At(0), index[0], UncompressedSamples);
                match first
                case Err(e) => r == SourceFailed(e)
                case Ok(slice) =>
                  && r.SourceOpened? && fresh(r.source)
                  && r.source.reader.file == file && r.source.reader.tsPos == index
                  && r.source.reader.mode == UncompressedSamples
                  && r.source.cursor == Cursor(0, slice, 0) && r.source.live && file.state == st
    {
      hide IndexFrom, Access, PtHeaderOf;
      var attempt := PtFileReader.Open(file, UncompressedSamples);
      match attempt
      case OpenFailed(e) => return SourceFailed(e);
      case Opened(reader) =>
        IndexNotEmpty(file.data);
        var counted := reader.Slice(0);
        if counted.Err? {
          return SourceFailed(counted.error);
        }
        var slice := reader.Slice(0);
        if slice.Err? {
          return SourceFailed(slice.error);
        }
        var source := new TridasDaqSource(reader, slice.value);
        return SourceOpened(source);
    }

    method GetEvent() returns (d: Delivery)
      requires live
      modifies this, reader.file
      ensures var c := old(cursor);
              var moves := c.i >= |c.slice.events| && c.k + 1 < |reader.tsPos|;
              var (fetched, st) := if moves then
                                  Fetch(reader.file.data, old(reader.file.state), reader.tsPos[c.k + 1], reader.mode)
                                   else (Err(Incomplete), old(reader.file.state));
              && (d, cursor) == Next(c, |reader.tsPos|, fetched)
              && reader.file.state == st
      ensures live <==> !d.NoMoreEvents? && !d.Threw?
    {
      hide Access;
      if cursor.i >= |cursor.slice.events| {
        cursor := cursor.(k := cursor.k + 1);
        if cursor.k >= |reader.tsPos| {
          live := false;
          return NoMoreEvents;
        }
        var counted := reader.Slice(cursor.k);
        if counted.Err? {
          live := false;
          return Threw(counted.error);
        }
        var slice := reader.Slice(cursor.k);
        if slice.Err? {
          live := false;
          return Threw(slice.error);
        }
        cursor := Cursor(cursor.k, slice.value, 0);
      }
      if cursor.i >= |cursor.slice.events| {
        return PastEnd;
      }
      d := Delivered(cursor.slice.events[cursor.i], cursor.slice.head.tsId);
      cursor := cursor.(i := cursor.i + 1);
    }

    /** Open a well-formed file and read it to its end. */
    static method ReadFile(file: InputFile, ghost f: FileRecord) returns (events: seq<(Event, int)>, last: Delivery)
      requires ValidFile(f, UncompressedSamples) && file.data == FileBytes(f, UncompressedSamples)
               && file.state == At(0)
      modifies file
      ensures var slices := SlicesOf(f.slices, UncompressedSamples);
              (events, last) == (AllTagged(slices), NoMoreEvents)
              <==> forall j :: 1 <= j < |slices| ==> slices[j].events != []
    {
      hide FileBytes, Fetch, SliceOf, ValidSlice, Offsets, SlicesStart, SlicesOf, Drain, AllTagged, ValidFile, OpenFile;
      FileHasSlices(f, UncompressedSamples);
      OpensWellFormed(f, UncompressedSamples);
      FetchReturnsSlice(f, At(0), 0, UncompressedSamples);
      var attempt := Open(file);
      events, last := attempt.source.ReadAll(f);
    }

    /**
     Read a source to its end. On a well-formed file in which every slice after the first has an
     event, this gives all events of the file, in order, each with its own slice's id.
     */
    method ReadAll(ghost f: FileRecord) returns (events: seq<(Event, int)>, last: Delivery)
      requires ValidFile(f, UncompressedSamples) && live && reader.mode == UncompressedSamples
      requires reader.file.data == FileBytes(f, UncompressedSamples) && !reader.file.state.fail
      requires reader.tsPos == Offsets(f.slices, SlicesStart(f))
      requires cursor == Cursor(0, SlicesOf(f.slices, UncompressedSamples)[0], 0)
      modifies this, reader.file
      ensures var slices := SlicesOf(f.slices, UncompressedSamples);
              (events, last) == (AllTagged(slices), NoMoreEvents)
              <==> forall j :: 1 <= j < |slices| ==> slices[j].events != []
    {
      hide FileBytes, Fetch, SliceOf, ValidSlice, Offsets, SlicesStart, SlicesOf, Drain, AllTagged, Usable, ValidFile;
      FileHasSlices(f, UncompressedSamples);
      ghost var slices := SlicesOf(f.slices, UncompressedSamples);
      events := [];
      DrainDeliversAll(slices);
      ghost var all := Drain(slices, cursor);
      assert [] + all.0 == all.0;
      while true
        invariant live && !reader.file.state.fail
        invariant cursor.k < |slices| && cursor.slice == slices[cursor.k]
        invariant all == (events + Drain(slices, cursor).0, Drain(slices, cursor).1)
        decreases |slices| - cursor.k, if cursor.i < |cursor.slice.events| then |cursor.slice.events| - cursor.i else 0
      {
        DrainRound(slices, cursor);
        if cursor.i >= |cursor.slice.events| && cursor.k + 1 < |slices| {
          FetchReturnsSlice(f, reader.file.state, cursor.k + 1, UncompressedSamples);
        }
        ghost var before := cursor;
        last := GetEvent();
        if !last.Delivered? {
          assert events + [] == events;
          break;
        }
        assert events + ([(last.event, last.tsId)] + Drain(slices, cursor).0)
            == events + [(last.event, last.tsId)] + Drain(slices, cursor).0;
        events := events + [(last.event, last.tsId)];
      }
    }
  }

  lemma FileHasSlices(f: FileRecord, mode: Mode)
    requires ValidFile(f, mode)
    ensures f.slices != [] && ValidSlices(f.slices, mode)
  {
  }

  lemma IndexNotEmpty(data: seq<Byte>)
    ensures OpenFile(data).Ok? ==> OpenFile(data).value.1 != []
  {
    hide PtHeaderOf, IndexFrom;
    if |data| >= PT_HEADER_BYTES {
      var head := PtHeaderOf(data[..PT_HEADER_BYTES]);
      var st := At(PT_HEADER_BYTES + DatacardBytes(head));
      assert IndexFrom(data, st, [], head.numberOfTimeslices).0.Ok?
        ==> [] + [st.pos] <= IndexFrom(data, st, [], head.numberOfTimeslices).0.value;
    }
  }

  /** One call of GetEvent, as the first step of a drain. */
  lemma DrainRound(slices: seq<TimeSlice>, c: Cursor)
    ensures var fetched := if c.k + 1 < |slices| then Ok(slices[c.k + 1]) else Err(Incomplete);
            var (d, c') := Next(c, |slices|, fetched);
            if d.Delivered? then Drain(slices, c) == ([(d.event, d.tsId)] + Drain(slices, c').0, Drain(slices, c').1)
            else Drain(slices, c) == ([], d)
  {
  }

  // ---- Waveform alignment ---------------------------------------------------------------------

  function Repeat(v: nat, n: int): (r: seq<nat>)
    ensures |r| == if n > 0 then n else 0
    ensures forall i :: 0 <= i < |r| ==> r[i] == v
  {
    if n <= 0 then [] else Repeat(v, n - 1) + [v]
  }

  predicate HasSamples(hits: seq<Hit>) {
    forall i :: 0 <= i < |hits| ==> hits[i].heads != [] && hits[i].samples != []
  }

  /** The earliest start among an event's hits. */
  ghost predicate IsEarliest(hits: seq<Hit>, t: int)
    requires HasSamples(hits)
  {
    && (forall i :: 0 <= i < |hits| ==> t <= GetFullTime(hits[i].heads[0]))
    && exists i :: 0 <= i < |hits| && t == GetFullTime(hits[i].heads[0])
  }

  method MinTime(hits: seq<Hit>) returns (minTime: int)
    requires hits != [] && HasSamples(hits)
    ensures IsEarliest(hits, minTime)
  {
    hide GetFullTime;
    minTime := GetFullTime(hits[0].heads[0]);
    for i := 0 to |hits|
      invariant forall j :: 0 <= j < i ==> minTime <= GetFullTime(hits[j].heads[0])
      invariant exists j :: 0 <= j < |hits| && minTime == GetFullTime(hits[j].heads[0])
    {
      var absTime := GetFullTime(hits[i].heads[0]);
      if absTime < minTime {
        minTime := absTime;
      }
    }
  }

  /** One output waveform: a hit's samples behind as many copies of the first one as its delay. */
  predicate IsDelayed(hit: Hit, delay: int, out: seq<nat>)
    requires hit.samples != []
  {
    delay >= 0 && out == Repeat(hit.samples[0], delay) + hit.samples
  }

  /** Every output is its hit's waveform behind a delay that is never negative; one delay is zero. */
  ghost predicate AreAligned(hits: seq<Hit>, minTime: int, out: seq<seq<nat>>)
    requires HasSamples(hits)
  {
    && |out| == |hits|
    && (forall i :: 0 <= i < |hits| ==> IsDelayed(hits[i], GetFullTime(hits[i].heads[0]) - minTime, out[i]))
    && (exists i :: 0 <= i < |hits| && GetFullTime(hits[i].heads[0]) - minTime == 0)
  }

  /** The event's waveforms, each delayed by fake samples, copies of its first, to the earliest start. */
  method AlignedWaveforms(hits: seq<Hit>) returns (out: seq<seq<nat>>, minTime: int)
    requires hits != [] && HasSamples(hits)
    ensures AreAligned(hits, minTime, out)
  {
    hide GetFullTime, Repeat;
    minTime := MinTime(hits);
    out := [];
    for h := 0 to |hits|
      invariant |out| == h
      invariant forall i :: 0 <= i < h ==> IsDelayed(hits[i], GetFullTime(hits[i].heads[0]) - minTime, out[i])
    {
      var samples := Delayed(hits[h], GetFullTime(hits[h].heads[0]) - minTime);
      out := out + [samples];
    }
  }

  /** A hit's waveform behind `nDelay` copies of its first sample. */
  method Delayed(hit: Hit, nDelay: int) returns (samples: seq<nat>)
    requires hit.samples != []
    ensures samples == Repeat(hit.samples[0], nDelay) + hit.samples
  {
    var firstSample := hit.samples[0];
    samples := [];
    var ii := 0;
    while ii < nDelay
      invariant 0 <= ii && (nDelay >= 0 ==> ii <= nDelay) && samples == Repeat(firstSample, ii)
      invariant nDelay < 0 ==> ii == 0
    {
      samples := samples + [firstSample];
      ii := ii + 1;
    }
    ghost var padding := samples;
    for s := 0 to |hit.samples|
      invariant samples == padding + hit.samples[..s]
    {
      assert hit.samples[..s + 1] == hit.samples[..s] + [hit.samples[s]];
      samples := samples + [hit.samples[s]];
    }
    assert hit.samples[..|hit.samples|] == hit.samples;
  }

  lemma DelayedLength(hit: Hit, delay: int, out: seq<nat>)
    requires hit.samples != [] && IsDelayed(hit, delay, out)
    ensures delay >= 0 && |out| == delay + |hit.samples|
  {
  }

  /** Before its delay an output repeats the hit's first sample; from there on it is the hit's waveform. */
  lemma OutputAt(hit: Hit, delay: int, out: seq<nat>, index: nat)
    requires hit.samples != [] && IsDelayed(hit, delay, out) && index < |out|
    ensures out[index] == hit.samples[if index < delay then 0 else index - delay]
  {
  }

  /**
   In aligned waveforms an index means the same time in all of them. At an index at or past the delays
   of two hits, both outputs hold real samples, taken at the same time.
   */
  lemma SameIndexSameTime(hits: seq<Hit>, minTime: int, out: seq<seq<nat>>, i: nat, j: nat, index: nat)
    requires HasSamples(hits) && AreAligned(hits, minTime, out) && i < |hits| && j < |hits|
    requires GetFullTime(hits[i].heads[0]) - minTime <= index < |out[i]|
    requires GetFullTime(hits[j].heads[0]) - minTime <= index < |out[j]|
    ensures exists mI: nat, mJ: nat ::
              && mI < |hits[i].samples| && out[i][index] == hits[i].samples[mI]
              && mJ < |hits[j].samples| && out[j][index] == hits[j].samples[mJ]
              && GetFullTime(hits[i].heads[0]) + mI == GetFullTime(hits[j].heads[0]) + mJ
  {
    hide GetFullTime, Repeat, IsDelayed;
    var delayI, delayJ := GetFullTime(hits[i].heads[0]) - minTime, GetFullTime(hits[j].heads[0]) - minTime;
    DelayedLength(hits[i], delayI, out[i]);
    DelayedLength(hits[j], delayJ, out[j]);
    OutputAt(hits[i], delayI, out[i], index);
    OutputAt(hits[j], delayJ, out[j], index);
    var mI: nat, mJ: nat := index - delayI, index - delayJ;
    assert mI < |hits[i].samples| && mJ < |hits[j].samples|;
  }

  /**
   Conversely, every sample of a hit is in its output, and two samples taken at the same time stand at
   the same index.
   */
  lemma SameTimeSameIndex(hits: seq<Hit>, minTime: int, out: seq<seq<nat>>, i: nat, j: nat, mI: nat, mJ: nat)
    requires HasSamples(hits) && AreAligned(hits, minTime, out) && i < |hits| && j < |hits|
    requires mI < |hits[i].samples| && mJ < |hits[j].samples|
    requires GetFullTime(hits[i].heads[0]) + mI == GetFullTime(hits[j].heads[0]) + mJ
    ensures exists index: nat ::
              && index < |out[i]| && out[i][index] == hits[i].samples[mI]
              && index < |out[j]| && out[j][index] == hits[j].samples[mJ]
  {
    hide GetFullTime, Repeat, IsDelayed;
    var delayI, delayJ := GetFullTime(hits[i].heads[0]) - minTime, GetFullTime(hits[j].heads[0]) - minTime;
    DelayedLength(hits[i], delayI, out[i]);
    DelayedLength(hits[j], delayJ, out[j]);
    var index: nat := delayI + mI;
    OutputAt(hits[i], delayI, out[i], index);
    OutputAt(hits[j], delayJ, out[j], index);
  }

}
