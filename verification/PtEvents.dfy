/**
 Parsing the frames of one event of a post-trigger file: frames are grouped into hits by their
 fragmentation flag, while a byte counter runs down from the size the event's header declares.
 */
module PtEvents {
  import opened MachineInts
  import opened ByteStream
  import opened DataFormat

  /** The sample type of the three parse_event overloads. */
  datatype Mode = NoSamples | CompressedSamples | UncompressedSamples

  datatype Hit = Hit(heads: seq<DataFrameHeader>, samples: seq<nat>)

  const EMPTY_HIT := Hit([], [])

  /** The errors thrown; `PastLastHit`: a frame would be stored in a hit that does not exist. */
  datatype Error = ShortHeader | NotCompressed | Incomplete | PastLastHit | BadCount

  datatype Result<T> = Ok(value: T) | Err(error: Error)

  /** `n` samples of `width` bytes: their values, the bytes got for them, the stream afterwards. */
  function ReadSamples(data: seq<Byte>, st: Stream, n: nat, width: nat): (r: (seq<nat>, nat, Stream))
    ensures r.2.pos >= st.pos
    decreases n
  {
    if n == 0 then ([], 0, st)
    else
      var (st', got) := Read(data, st, width);
      var s := if got == 0 then 0 else FromLE(data[st.pos..st.pos + got]);
      var (rest, gotRest, end) := ReadSamples(data, st', n - 1, width);
      ([s] + rest, got + gotRest, end)
  }

  function SampleWidth(h: DataFrameHeader, mode: Mode): nat {
    if mode.CompressedSamples? || Compressed(h) then 1 else 2
  }

  /** The part of a round after the header: the samples kept, the bytes counted off, the stream afterwards. */
  function ReadPayload(data: seq<Byte>, st: Stream, h: DataFrameHeader, mode: Mode): (r: (seq<nat>, int, Stream))
    requires h.nDataSamples >= 0
    ensures r.2.pos >= st.pos
  {
    if mode.NoSamples? then ([], PayloadSize(h), Ignore(data, st, PayloadSize(h)))
    else
      var (samples, got, st') := ReadSamples(data, st, h.nDataSamples, SampleWidth(h, mode));
      var diff := PayloadSize(h) - h.nDataSamples * SampleWidth(h, mode);
      (samples, got + diff, Ignore(data, st', diff))
  }

  /** The hit a frame goes to. */
  function NextHit(hits: seq<Hit>, current: nat, h: DataFrameHeader): nat {
    if !Subsequent(h) && current < |hits| && hits[current].heads != [] then current + 1 else current
  }

  function Deliver(hits: seq<Hit>, to: nat, h: DataFrameHeader, samples: seq<nat>): (r: seq<Hit>)
    requires to < |hits|
    ensures |r| == |hits|
  {
    hits[to := Hit(hits[to].heads + [h], hits[to].samples + samples)]
  }

  /** The do-while loop of parse_event, entered with `size` bytes still to count off, in an `int`. */
  function ParseFrames(data: seq<Byte>, st: Stream, hits: seq<Hit>, current: nat, size: int, mode: Mode)
    : (r: (Result<seq<Hit>>, Stream))
    decreases if st.pos < |data| then |data| - st.pos else 0
  {
    var (st1, got) := Read(data, st, HEADER_BYTES);
    if got < HEADER_BYTES then (Err(ShortHeader), st1)
    else
      var h := HeaderOf(data[st.pos..st.pos + HEADER_BYTES]);
      if mode.CompressedSamples? && !Compressed(h) then (Err(NotCompressed), st1)
      else
        var to := NextHit(hits, current, h);
        if to >= |hits| then (Err(PastLastHit), st1)
        else
          var (samples, counted, st2) := ReadPayload(data, st1, h, mode);
          var hits' := Deliver(hits, to, h, samples);
          var left := ToInt32(size - HEADER_BYTES - counted);
          if !st2.fail && left > 0 then ParseFrames(data, st2, hits', to, left, mode)
          else if left != 0 then (Err(Incomplete), st2)
          else (Ok(hits'), st2)
  }

  function EmptyHits(n: nat): seq<Hit> {
    seq(n, _ => EMPTY_HIT)
  }

  /** A whole call of parse_event; a negative hit count cannot be allocated. */
  function ParseEvent(data: seq<Byte>, st: Stream, nHits: int, size: int, mode: Mode): (Result<seq<Hit>>, Stream) {
    if nHits < 0 then (Err(BadCount), st) else ParseFrames(data, st, EmptyHits(nHits), 0, size, mode)
  }

  /** One round of the loop. */
  lemma ParseRound(data: seq<Byte>, st: Stream, hits: seq<Hit>, current: nat, size: int, mode: Mode)
    ensures var all := ParseFrames(data, st, hits, current, size, mode);
            var (st1, got) := Read(data, st, HEADER_BYTES);
            if got < HEADER_BYTES then all == (Err(ShortHeader), st1)
            else
              var h := HeaderOf(data[st.pos..st.pos + HEADER_BYTES]);
              var to := NextHit(hits, current, h);
              if mode.CompressedSamples? && !Compressed(h) then all == (Err(NotCompressed), st1)
              else if to >= |hits| then all == (Err(PastLastHit), st1)
              else
                var (samples, counted, st2) := ReadPayload(data, st1, h, mode);
                var hits' := Deliver(hits, to, h, samples);
                var left := ToInt32(size - HEADER_BYTES - counted);
                && st2.pos > st.pos && st.pos < |data|
                && all == if !st2.fail && left > 0 then ParseFrames(data, st2, hits', to, left, mode)
                          else if left != 0 then (Err(Incomplete), st2)
                          else (Ok(hits'), st2)
  {
    hide HeaderOf, ReadPayload;
  }

  /** What is read so far, followed by what is still to be read. */
  predicate SamplesLeft(all: (seq<nat>, nat, Stream), samples: seq<nat>, readSize: nat, rest: (seq<nat>, nat, Stream)) {
    all == (samples + rest.0, readSize + rest.1, rest.2)
  }

  lemma SampleRound(data: seq<Byte>, st: Stream, n: nat, width: nat,
                    all: (seq<nat>, nat, Stream), samples: seq<nat>, readSize: nat)
    requires n > 0 && SamplesLeft(all, samples, readSize, ReadSamples(data, st, n, width))
    ensures var (st', got) := Read(data, st, width);
            var s := if got == 0 then FromLE([]) else FromLE(data[st.pos..st.pos + got]);
            SamplesLeft(all, samples + [s], readSize + got, ReadSamples(data, st', n - 1, width))
  {
    hide Read;
    var (st', got) := Read(data, st, width);
    assert FromLE([]) == 0;
    var s := if got == 0 then 0 else FromLE(data[st.pos..st.pos + got]);
    var rest := ReadSamples(data, st', n - 1, width);
    assert samples + ([s] + rest.0) == samples + [s] + rest.0;
  }

  // ---- The method ---------------------------------------------------------------------------

  method ReadSamplesInto(file: InputFile, n: nat, width: nat) returns (samples: seq<nat>, readSize: nat)
    modifies file
    ensures (samples, readSize, file.state) == ReadSamples(file.data, old(file.state), n, width)
  {
    hide Read, FromLE;
    samples, readSize := [], 0;
    ghost var all := ReadSamples(file.data, file.state, n, width);
    assert [] + all.0 == all.0;
    for i := 0 to n
      invariant SamplesLeft(all, samples, readSize, ReadSamples(file.data, file.state, n - i, width))
    {
      SampleRound(file.data, file.state, n - i, width, all, samples, readSize);
      var bytes := file.Get(width);
      samples := samples + [FromLE(bytes)];
      readSize := readSize + |bytes|;
    }
    assert samples + [] == samples;
  }

  method ReadPayloadInto(file: InputFile, h: DataFrameHeader, mode: Mode) returns (samples: seq<nat>, counted: int)
    requires h.nDataSamples >= 0
    modifies file
    ensures (samples, counted, file.state) == ReadPayload(file.data, old(file.state), h, mode)
  {
    var payloadSize := PayloadSize(h);
    if mode.NoSamples? {
      file.Skip(payloadSize);
      return [], payloadSize;
    }
    var width := SampleWidth(h, mode);
    var got;
    samples, got := ReadSamplesInto(file, h.nDataSamples, width);
    var diff := payloadSize - h.nDataSamples * width;
    file.Skip(diff);
    counted := got + diff;
  }

  method ParseEventFrom(file: InputFile, nHits: int, eventSize: int, mode: Mode) returns (r: Result<seq<Hit>>)
    modifies file
    ensures (r, file.state) == ParseEvent(file.data, old(file.state), nHits, eventSize, mode)
  {
    hide HeaderOf, ReadPayload, Read, ParseFrames, Deliver, NextHit;
    if nHits < 0 {
      return Err(BadCount);
    }
    var hits := EmptyHits(nHits);
    var current: nat, size := 0, eventSize;
    while true
      invariant ParseFrames(file.data, file.state, hits, current, size, mode)
             == ParseEvent(file.data, old(file.state), nHits, eventSize, mode)
      decreases if file.state.pos < |file.data| then |file.data| - file.state.pos else 0
    {
      ParseRound(file.data, file.state, hits, current, size, mode);
      var bytes := file.Get(HEADER_BYTES);
      if |bytes| < HEADER_BYTES {
        return Err(ShortHeader);
      }
      var head := HeaderOf(bytes);
      if mode.CompressedSamples? && !Compressed(head) {
        return Err(NotCompressed);
      }
      current := NextHit(hits, current, head);
      if current >= |hits| {
        return Err(PastLastHit);
      }
      var samples, counted := ReadPayloadInto(file, head, mode);
      hits := Deliver(hits, current, head, samples);
      size := ToInt32(size - HEADER_BYTES - counted);
      if file.state.fail || size <= 0 {
        break;
      }
    }
    r := if size != 0 then Err(Incomplete) else Ok(hits);
  }
}
