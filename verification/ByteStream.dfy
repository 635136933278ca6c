/** An input file stream: a cursor over the bytes of a file, with its end-of-file and failure flags. */
module ByteStream {
  import opened MachineInts

  datatype Stream = Stream(pos: nat, eof: bool, fail: bool) {
    /** Neither flag is set. */
    predicate Good() { !eof && !fail }
  }

  function At(pos: nat): Stream { Stream(pos, false, false) }

  /** `read(n)`: the stream afterwards and the number of bytes got. A short read sets both flags. */
  function Read(data: seq<Byte>, st: Stream, n: nat): (r: (Stream, nat))
    ensures r.1 <= n && r.0.pos >= st.pos
    ensures r.1 > 0 ==> st.pos + r.1 <= |data| && r.0.pos == st.pos + r.1
  {
    if !st.Good() then (st.(fail := true), 0)
    else if st.pos + n <= |data| then (At(st.pos + n), n)
    else if st.pos <= |data| then (Stream(|data|, true, true), |data| - st.pos)
    else (Stream(st.pos, true, true), 0)
  }

  /** `ignore(n)`: a count that is not positive skips nothing; reaching the end sets end-of-file only. */
  function Ignore(data: seq<Byte>, st: Stream, n: int): (r: Stream)
    ensures r.pos >= st.pos
  {
    if !st.Good() then st.(fail := true)
    else if n <= 0 then st
    else if st.pos + n <= |data| then At(st.pos + n)
    else Stream(if st.pos <= |data| then |data| else st.pos, true, false)
  }

  /** `seekg`: clears end-of-file, and moves only when the stream has not failed. */
  function Seek(st: Stream, pos: nat): Stream {
    if st.fail then Stream(st.pos, false, true) else At(pos)
  }

  /** `clear`: both flags off, the cursor where it is. */
  function Clear(st: Stream): Stream {
    At(st.pos)
  }

  class InputFile {
    const data: seq<Byte>
    var state: Stream

    constructor (data: seq<Byte>)
      ensures this.data == data && state == At(0)
    {
      this.data := data;
      state := At(0);
    }

    method Get(n: nat) returns (bytes: seq<Byte>)
      modifies this
      ensures state == Read(data, old(state), n).0 && |bytes| == Read(data, old(state), n).1
      ensures bytes == if |bytes| == 0 then [] else data[old(state).pos..old(state).pos + |bytes|]
    {
      var (st, got) := Read(data, state, n);
      bytes := if got == 0 then [] else data[state.pos..state.pos + got];
      state := st;
    }

    method Skip(n: int)
      modifies this
      ensures state == Ignore(data, old(state), n)
    {
      state := Ignore(data, state, n);
    }

    method SeekTo(pos: nat)
      modifies this
      ensures state == Seek(old(state), pos)
    {
      state := Seek(state, pos);
    }

    method ClearFlags()
      modifies this
      ensures state == Clear(old(state))
    {
      state := Clear(state);
    }
  }
}
