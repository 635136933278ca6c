/**
 Calibration handlers: constants of one table by channel index, filled from database rows, with a memo
 list of earlier answers in front of the map.
 */
module CalibrationHandlers {
  import opened MachineInts

  type Rows = seq<seq<real>>
  type Key = seq<int>

  /** Handlers keyed by a detector index of `nIds` signed bytes, by crate/slot/channel, and run-wide ones. */
  datatype Kind = Indexed(nIds: nat) | Daq | RunWide

  datatype HandlerState = HandlerState(kind: Kind, loaded: bool, raw: Rows, calib: map<Key, seq<real>>,
                                       memoIndex: seq<Key>, memo: seq<seq<real>>)

  /** A real converted to an integer type: cut toward zero, then wrapped to a byte. */
  function Truncated(x: real): (n: int)
    ensures x >= 0.0 ==> n as real <= x < n as real + 1.0
    ensures x < 0.0 ==> n as real - 1.0 < x <= n as real
  {
    if x >= 0.0 then x.Floor else -((-x).Floor)
  }

  function IdCount(kind: Kind): nat {
    match kind
    case Indexed(n) => n
    case Daq => 3
    case RunWide => 0
  }

  function KeyOf(kind: Kind, row: seq<real>): (key: Key)
    requires |row| >= IdCount(kind)
    ensures |key| == IdCount(kind)
    ensures forall i :: 0 <= i < |key| ==>
              && (if kind.Daq? then 0 <= key[i] < 256 else -128 <= key[i] < 128)
              && (key[i] - Truncated(row[i])) % 256 == 0
  {
    seq(IdCount(kind), i requires 0 <= i < IdCount(kind) =>
      if kind.Daq? then Truncated(row[i]) % 0x100 else ToInt8(Truncated(row[i])))
  }

  function DataOf(kind: Kind, row: seq<real>): seq<real>
    requires |row| >= IdCount(kind)
  {
    row[IdCount(kind)..]
  }

  /** Every row has data, and all have the same number. */
  predicate RowsFit(kind: Kind, rows: Rows) {
    forall i :: 0 <= i < |rows| ==> |rows[i]| > IdCount(kind) && |rows[i]| == |rows[0]|
  }

  /** The map of the first `n` rows; of rows with equal keys the first is kept. */
  function MapOfRows(kind: Kind, rows: Rows, n: nat): map<Key, seq<real>>
    requires n <= |rows| && forall i :: 0 <= i < n ==> |rows[i]| >= IdCount(kind)
  {
    if n == 0 then map[]
    else
      var m := MapOfRows(kind, rows, n - 1);
      var key := KeyOf(kind, rows[n - 1]);
      if key in m then m else m[key := DataOf(kind, rows[n - 1])]
  }

  /** What the parsed constants are after filling from `rows`: none when a row does not fit. */
  function Parsed(kind: Kind, rows: Rows): map<Key, seq<real>> {
    if RowsFit(kind, rows) then MapOfRows(kind, rows, |rows|) else map[]
  }

  /** The map holds exactly the keys of the rows, each with the data of the first row that has it. */
  lemma {:induction false} FirstRowWins(kind: Kind, rows: Rows, n: nat, key: Key)
    requires n <= |rows| && forall i :: 0 <= i < n ==> |rows[i]| >= IdCount(kind)
    ensures key in MapOfRows(kind, rows, n) <==> exists i :: 0 <= i < n && KeyOf(kind, rows[i]) == key
    ensures key in MapOfRows(kind, rows, n) ==>
              exists i :: 0 <= i < n && KeyOf(kind, rows[i]) == key
                       && MapOfRows(kind, rows, n)[key] == DataOf(kind, rows[i])
                       && forall j :: 0 <= j < i ==> KeyOf(kind, rows[j]) != key
  {
    hide KeyOf, DataOf;
    if n == 0 {
    } else {
      FirstRowWins(kind, rows, n - 1, key);
    }
  }

  /** A run-wide handler accepts only a single row, and otherwise keeps what it had. */
  predicate Accepts(kind: Kind, rows: Rows) {
    kind.RunWide? ==> |rows| == 1
  }

  function Filled(h: HandlerState, rows: Rows): HandlerState {
    if !Accepts(h.kind, rows) then h
    else if h.kind.RunWide? then h.(raw := rows, calib := map[[] := rows[0]])
    else h.(raw := rows, calib := Parsed(h.kind, rows))
  }

  function Find(index: seq<Key>, key: Key): (r: Option<nat>)
    ensures r == None ==> key !in index
    ensures r.Some? ==> r.value < |index| && index[r.value] == key
  {
    if index == [] then None
    else if index[0] == key then Some(0)
    else match Find(index[1..], key) case None => None case Some(i) => Some(i + 1)
  }

  predicate Aligned(h: HandlerState) {
    && |h.memo| == |h.memoIndex|
    && forall i, j :: 0 <= i < j < |h.memoIndex| ==> h.memoIndex[i] != h.memoIndex[j]
  }

  /** A lookup: the answer, and the handler afterwards. A missing key is answered with no data. */
  function Looked(h: HandlerState, key: Key): (seq<real>, HandlerState)
    requires Aligned(h)
  {
    if h.kind.RunWide? then (if [] in h.calib then h.calib[[]] else [], h)
    else
      match Find(h.memoIndex, key)
      case Some(pos) => (h.memo[pos], h)
      case None =>
        if key !in h.calib then ([], h)
        else (h.calib[key], h.(memoIndex := h.memoIndex + [key], memo := h.memo + [h.calib[key]]))
  }

  // ---- Histories ----------------------------------------------------------------------------

  datatype Op = FillOp(rows: Rows) | GetOp(key: Key)

  function Applied(h: HandlerState, op: Op): (h': HandlerState)
    requires Aligned(h)
    ensures Aligned(h') && h'.kind == h.kind
  {
    match op
    case FillOp(rows) => Filled(h, rows)
    case GetOp(key) => Looked(h, key).1
  }

  function RunOps(h: HandlerState, ops: seq<Op>): (h': HandlerState)
    requires Aligned(h)
    ensures Aligned(h') && h'.kind == h.kind
    decreases |ops|
  {
    if ops == [] then h else RunOps(Applied(h, ops[0]), ops[1..])
  }

  function Fresh(kind: Kind): HandlerState {
    HandlerState(kind, false, [], map[], [], [])
  }

  /** The value the map held at the first successful lookup of `key`, starting from the map `calib`. */
  function FirstHit(kind: Kind, calib: map<Key, seq<real>>, ops: seq<Op>, key: Key): Option<seq<real>>
    decreases |ops|
  {
    if ops == [] then None
    else
      match ops[0]
      case FillOp(rows) => FirstHit(kind, Parsed(kind, rows), ops[1..], key)
      case GetOp(k) =>
        if k == key && key in calib then Some(calib[key]) else FirstHit(kind, calib, ops[1..], key)
  }

  function InMap(calib: map<Key, seq<real>>, key: Key): seq<real> {
    if key in calib then calib[key] else []
  }

  /** The map after a history: that of its last fill. */
  function LastMap(kind: Kind, calib: map<Key, seq<real>>, ops: seq<Op>): map<Key, seq<real>>
    decreases |ops|
  {
    if ops == [] then calib
    else LastMap(kind, if ops[0].FillOp? then Parsed(kind, ops[0].rows) else calib, ops[1..])
  }

  lemma {:induction false} LookupAfter(h: HandlerState, ops: seq<Op>, key: Key)
    requires Aligned(h) && !h.kind.RunWide?
    ensures RunOps(h, ops).calib == LastMap(h.kind, h.calib, ops)
    ensures Looked(RunOps(h, ops), key).0
         == if key in h.memoIndex then Looked(h, key).0
            else match FirstHit(h.kind, h.calib, ops, key)
                 case Some(v) => v
                 case None => InMap(LastMap(h.kind, h.calib, ops), key)
    decreases |ops|
  {
    hide Parsed;
    if ops == [] {
    } else {
      var h' := Applied(h, ops[0]);
      LookupAfter(h', ops[1..], key);
      MemoAfter(h, ops[0], key);
    }
  }

  /** One operation leaves a memoised answer alone, and memoises only a successful lookup. */
  lemma MemoAfter(h: HandlerState, op: Op, key: Key)
    requires Aligned(h) && !h.kind.RunWide?
    ensures var h' := Applied(h, op);
            && (key in h.memoIndex ==> key in h'.memoIndex && Looked(h', key).0 == Looked(h, key).0)
            && (key !in h.memoIndex ==>
                  if op.GetOp? && op.key == key && key in h.calib
                  then key in h'.memoIndex && Looked(h', key).0 == h.calib[key]
                  else key !in h'.memoIndex)
  {
    hide Parsed;
    FindIsUnique(h.memoIndex, key);
    FindIsUnique(Applied(h, op).memoIndex, key);
  }

  lemma {:induction false} FindIsUnique(index: seq<Key>, key: Key)
    ensures key in index ==> Find(index, key).Some?
  {
    hide Find;
  }

  /**
   After any history of fills and lookups the memo lists are aligned and free of duplicates, and a
   lookup returns the value the map held at the first successful lookup of that key, or, when there was
   none, what the last fill gives it.
   */
  lemma LookupIsFirstHit(kind: Kind, ops: seq<Op>, key: Key)
    requires !kind.RunWide?
    ensures var h := RunOps(Fresh(kind), ops);
            && Aligned(h) && |h.memo| == |h.memoIndex|
            && forall i, j :: 0 <= i < j < |h.memoIndex| ==> h.memoIndex[i] != h.memoIndex[j]
    ensures Looked(RunOps(Fresh(kind), ops), key).0
         == match FirstHit(kind, map[], ops, key)
            case Some(v) => v
            case None => InMap(LastMap(kind, map[], ops), key)
  {
    LookupAfter(Fresh(kind), ops, key);
  }

  predicate OnlyLookups(ops: seq<Op>) {
    forall i :: 0 <= i < |ops| ==> ops[i].GetOp?
  }

  lemma {:induction false} FirstHitConcat(kind: Kind, calib: map<Key, seq<real>>, a: seq<Op>, b: seq<Op>, key: Key)
    ensures FirstHit(kind, calib, a + b, key)
         == (match FirstHit(kind, calib, a, key)
             case Some(v) => Some(v)
             case None => FirstHit(kind, LastMap(kind, calib, a), b, key))
    ensures LastMap(kind, calib, a + b) == LastMap(kind, LastMap(kind, calib, a), b)
    decreases |a|
  {
    hide Parsed;
    if a == [] {
      assert a + b == b;
    } else {
      assert (a + b)[1..] == a[1..] + b;
      FirstHitConcat(kind, if a[0].FillOp? then Parsed(kind, a[0].rows) else calib, a[1..], b, key);
    }
  }

  lemma {:induction false} LookupsHit(kind: Kind, calib: map<Key, seq<real>>, gets: seq<Op>, key: Key)
    requires OnlyLookups(gets)
    ensures LastMap(kind, calib, gets) == calib
    ensures FirstHit(kind, calib, gets, key).Some? ==>
              key in calib && FirstHit(kind, calib, gets, key).value == calib[key]
    decreases |gets|
  {
    if gets == [] {
    } else {
      LookupsHit(kind, calib, gets[1..], key);
    }
  }

  /**
   After a history whose last fill is by `rows`, a lookup agrees with the map of those rows if and only
   if the key had not been looked up successfully before that fill, or its value then is its value now:
   the memo is not flushed by a fill.
   */
  lemma LookupAgreesWithLastFill(kind: Kind, before: seq<Op>, rows: Rows, gets: seq<Op>, key: Key)
    requires !kind.RunWide? && OnlyLookups(gets)
    ensures var ops := before + [FillOp(rows)] + gets;
            var now := InMap(Parsed(kind, rows), key);
            var earlier := FirstHit(kind, map[], before, key);
            Looked(RunOps(Fresh(kind), ops), key).0 == now <==> earlier == None || earlier.value == now
  {
    hide Parsed, RunOps, Looked;
    var ops := before + [FillOp(rows)] + gets;
    var last := [FillOp(rows)] + gets;
    assert ops == before + last && last[1..] == gets;
    LookupIsFirstHit(kind, ops, key);
    FirstHitConcat(kind, map[], before, last, key);
    LookupsHit(kind, Parsed(kind, rows), gets, key);
    assert LastMap(kind, LastMap(kind, map[], before), last) == LastMap(kind, Parsed(kind, rows), gets);
    assert FirstHit(kind, LastMap(kind, map[], before), last, key) == FirstHit(kind, Parsed(kind, rows), gets, key);
  }

  /** A stale answer, concretely: filled with 1.0, looked up, refilled with 2.0, and still answered with 1.0. */
  lemma StaleExample()
    ensures var ops := [FillOp([[7.0, 1.0]]), GetOp([7]), FillOp([[7.0, 2.0]])];
            && Looked(RunOps(Fresh(Indexed(1)), ops), [7]).0 == [1.0]
            && InMap(Parsed(Indexed(1), [[7.0, 2.0]]), [7]) == [2.0]
  {
    var kind := Indexed(1);
    OneRow(7.0, 1.0);
    OneRow(7.0, 2.0);
    var before := [FillOp([[7.0, 1.0]]), GetOp([7])];
    var ops := [FillOp([[7.0, 1.0]]), GetOp([7]), FillOp([[7.0, 2.0]])];
    hide Parsed;
    assert ops[1..] == [GetOp([7]), FillOp([[7.0, 2.0]])];
    LookupIsFirstHit(kind, ops, [7]);
  }

  lemma OneRow(id: real, v: real)
    requires id == 7.0
    ensures Parsed(Indexed(1), [[id, v]]) == map[[7] := [v]]
  {
    var rows := [[id, v]];
    assert KeyOf(Indexed(1), rows[0]) == [7];
    assert DataOf(Indexed(1), rows[0]) == [v];
    assert MapOfRows(Indexed(1), rows, 0) == map[];
    assert MapOfRows(Indexed(1), rows, 1) == map[[7] := [v]];
  }

  // ---- Tables as they are written ---------------------------------------------------------------

  /** A row of a table: whole identifiers, and the constants they stand for. */
  datatype Record = Record(ids: Key, data: seq<real>)

  /** As many identifiers as the kind has, each in the range of its byte; crate, slot and channel are three. */
  predicate IdsFit(kind: Kind, ids: Key) {
    match kind
    case Indexed(n) => |ids| == n && forall i :: 0 <= i < |ids| ==> -128 <= ids[i] <= 127
    case Daq => |ids| == 3 && forall i :: 0 <= i < |ids| ==> 0 <= ids[i] <= 255
    case RunWide => false
  }

  /** The identifiers of every record fit, and all have the same number of constants, at least one. */
  predicate IsTable(kind: Kind, records: seq<Record>) {
    forall i :: 0 <= i < |records| ==>
      IdsFit(kind, records[i].ids) && |records[i].data| == |records[0].data| > 0
  }

  /** The row the database holds for a record: the identifiers in order, then the constants. */
  function RowOf(r: Record): (row: seq<real>)
    ensures |row| == |r.ids| + |r.data|
  {
    seq(|r.ids|, i requires 0 <= i < |r.ids| => r.ids[i] as real) + r.data
  }

  function RowsOf(records: seq<Record>): (rows: Rows)
    ensures |rows| == |records| && forall i :: 0 <= i < |records| ==> rows[i] == RowOf(records[i])
  {
    seq(|records|, i requires 0 <= i < |records| => RowOf(records[i]))
  }

  lemma RowReadsBack(kind: Kind, r: Record)
    requires IdsFit(kind, r.ids)
    ensures |RowOf(r)| >= IdCount(kind) && KeyOf(kind, RowOf(r)) == r.ids && DataOf(kind, RowOf(r)) == r.data
  {
    var row := RowOf(r);
    forall i | 0 <= i < |r.ids|
      ensures Truncated(row[i]) == r.ids[i]
    {
      assert row[i] == r.ids[i] as real;
    }
    assert row[|r.ids|..] == r.data;
  }

  /**
   A table is looked up as it is written: after a fill, the first lookup of identifiers answers with the
   constants of the first record that has exactly these, in order, and with nothing if none has them.
   */
  lemma TableIsLookedUp(h: HandlerState, records: seq<Record>, ids: Key)
    requires IsTable(h.kind, records) && !h.kind.RunWide? && Aligned(h) && ids !in h.memoIndex
    ensures Aligned(Filled(h, RowsOf(records)))
    ensures forall k :: 0 <= k < |records| && records[k].ids == ids
                        && (forall j :: 0 <= j < k ==> records[j].ids != ids)
              ==> Looked(Filled(h, RowsOf(records)), ids).0 == records[k].data
    ensures (forall k :: 0 <= k < |records| ==> records[k].ids != ids)
              ==> Looked(Filled(h, RowsOf(records)), ids).0 == []
  {
    hide KeyOf, DataOf, IdsFit, MapOfRows, RowOf, Looked, Filled;
    var rows, kind := RowsOf(records), h.kind;
    RecordRows(kind, records);
    FreshLookup(h, rows, ids);
    FirstRowWins(kind, rows, |rows|, ids);
    var m := MapOfRows(kind, rows, |rows|);
    forall k | 0 <= k < |records| && records[k].ids == ids && forall j :: 0 <= j < k ==> records[j].ids != ids
      ensures ids in m && m[ids] == records[k].data
    {
      assert KeyOf(kind, rows[k]) == ids;
      var i :| 0 <= i < |rows| && KeyOf(kind, rows[i]) == ids && m[ids] == DataOf(kind, rows[i])
               && forall j :: 0 <= j < i ==> KeyOf(kind, rows[j]) != ids;
      assert i == k;
    }
  }

  lemma FreshLookup(h: HandlerState, rows: Rows, key: Key)
    requires !h.kind.RunWide? && Aligned(h) && key !in h.memoIndex && RowsFit(h.kind, rows)
    ensures Aligned(Filled(h, rows))
    ensures Looked(Filled(h, rows), key).0 == InMap(MapOfRows(h.kind, rows, |rows|), key)
  {
    hide MapOfRows;
    assert Find(h.memoIndex, key) == None;
  }

  lemma RecordRows(kind: Kind, records: seq<Record>)
    requires IsTable(kind, records)
    ensures var rows := RowsOf(records);
            && RowsFit(kind, rows)
            && forall i :: 0 <= i < |rows| ==>
                 KeyOf(kind, rows[i]) == records[i].ids && DataOf(kind, rows[i]) == records[i].data
  {
    hide KeyOf, DataOf, RowOf;
    forall i | 0 <= i < |records|
      ensures |RowOf(records[i])| >= IdCount(kind) && KeyOf(kind, RowOf(records[i])) == records[i].ids
      ensures DataOf(kind, RowOf(records[i])) == records[i].data
    {
      RowReadsBack(kind, records[i]);
    }
  }

  /** A run-wide handler filled with a single row answers every lookup with it. */
  lemma RunWideLookup(h: HandlerState, row: seq<real>, key: Key)
    requires h.kind.RunWide? && Aligned(h)
    ensures Filled(h, [row]).raw == [row] && Looked(Filled(h, [row]), key).0 == row
  {
  }

  // ---- The handler --------------------------------------------------------------------------

  class CalibrationHandler {
    const table: string
    const kind: Kind
    var loaded: bool
    var raw: Rows
    var calib: map<Key, seq<real>>
    var actualCalibIndex: seq<Key>
    var actualCalib: seq<seq<real>>

    ghost function State(): HandlerState
      reads this
    {
      HandlerState(kind, loaded, raw, calib, actualCalibIndex, actualCalib)
    }

    ghost predicate Valid()
      reads this
    {
      Aligned(State())
    }

    constructor (table: string, kind: Kind)
      ensures this.table == table && this.kind == kind && State() == Fresh(kind) && Valid()
    {
      this.table := table;
      this.kind := kind;
      loaded := false;
      raw := [];
      calib := map[];
      actualCalibIndex := [];
      actualCalib := [];
    }

    /** Fill from database rows; `ok` is false for the error return. */
    method FillCalib(rows: Rows) returns (ok: bool)
      modifies this
      ensures State() == Filled(old(State()), rows)
      ensures ok <==> if kind.RunWide? then |rows| == 1 else RowsFit(kind, rows)
    {
      if kind.RunWide? {
        if |rows| != 1 {
          return false;
        }
        raw := rows;
        calib := map[[] := rows[0]];
        return true;
      }
      calib := map[];
      raw := rows;
      var nIds := IdCount(kind);
      var nData, prevNdata := 0, 0;
      for irow := 0 to |rows|
        invariant forall i :: 0 <= i < irow ==> |rows[i]| > nIds && |rows[i]| == |rows[0]|
        invariant irow > 0 ==> nData == |rows[0]| - nIds
        invariant calib == MapOfRows(kind, rows, irow)
        invariant loaded == old(loaded) && raw == rows
        invariant actualCalibIndex == old(actualCalibIndex) && actualCalib == old(actualCalib)
      {
        if irow > 0 {
          prevNdata := nData;
        }
        nData := |rows[irow]| - nIds;
        if nData <= 0 {
          calib := map[];
          return false;
        }
        if nData != prevNdata && irow != 0 {
          calib := map[];
          return false;
        }
        var index := KeyOf(kind, rows[irow]);
        var data := DataOf(kind, rows[irow]);
        if index !in calib {
          calib := calib[index := data];
        }
      }
      return true;
    }

    method GetCalib(key: Key) returns (data: seq<real>)
      requires Valid()
      modifies this
      ensures Valid() && (data, State()) == Looked(old(State()), key)
    {
      if kind.RunWide? {
        return if [] in calib then calib[[]] else [];
      }
      var pos := Find(actualCalibIndex, key);
      if pos.Some? {
        return actualCalib[pos.value];
      }
      if key !in calib {
        return [];
      }
      data := calib[key];
      actualCalibIndex := actualCalibIndex + [key];
      actualCalib := actualCalib + [data];
    }

    method SetLoaded(value: bool)
      modifies this
      ensures State() == old(State()).(loaded := value)
    {
      loaded := value;
    }
  }
}
