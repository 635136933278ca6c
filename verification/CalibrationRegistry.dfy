/**
 The registry of calibration handlers, table by table: a table's constants are read from the database
 by the first handler that asks, and copied from an already loaded handler for the others. Every call
 runs under one lock, so every interleaving of threads is a sequence of whole calls.
 */
module CalibrationRegistry {
  import opened MachineInts
  import opened CalibrationHandlers

  type Table = seq<HandlerState>

  // ---- One table, on values -----------------------------------------------------------------

  function Loaded(h: HandlerState, rows: Rows): HandlerState {
    Filled(h, rows).(loaded := true)
  }

  function LoadedAll(t: Table, rows: Rows): (r: Table)
    ensures |r| == |t| && forall i :: 0 <= i < |t| ==> r[i] == Loaded(t[i], rows)
  {
    seq(|t|, i requires 0 <= i < |t| => Loaded(t[i], rows))
  }

  /** The handlers that are not loaded yet, filled from `rows`. */
  function LoadedRest(t: Table, rows: Rows): (r: Table)
    ensures |r| == |t| && forall i :: 0 <= i < |t| ==> r[i] == if t[i].loaded then t[i] else Loaded(t[i], rows)
  {
    seq(|t|, i requires 0 <= i < |t| => if t[i].loaded then t[i] else Loaded(t[i], rows))
  }

  predicate AllLoaded(t: Table) {
    forall i :: 0 <= i < |t| ==> t[i].loaded
  }

  predicate NoneLoaded(t: Table) {
    forall i :: 0 <= i < |t| ==> !t[i].loaded
  }

  /** The last loaded handler of a table. */
  function Donor(t: Table): (d: Option<nat>)
    ensures d == None <==> NoneLoaded(t)
    ensures d.Some? ==> d.value < |t| && t[d.value].loaded && forall i :: d.value < i < |t| ==> !t[i].loaded
  {
    if t == [] then None
    else if t[|t| - 1].loaded then Some(|t| - 1)
    else Donor(t[..|t| - 1])
  }

  /** An update: the table afterwards, and whether the database was read for it. */
  function Updated(t: Table, database: Rows): (Table, bool) {
    if AllLoaded(t) then (t, false)
    else
      match Donor(t)
      case Some(d) => (LoadedRest(t, t[d].raw), false)
      case None => (LoadedAll(t, database), true)
  }

  function Cleared(t: Table): (r: Table)
    ensures |r| == |t| && forall i :: 0 <= i < |t| ==> r[i] == t[i].(loaded := false)
  {
    seq(|t|, i requires 0 <= i < |t| => t[i].(loaded := false))
  }

  /** Filled from exactly these rows. */
  predicate HoldsRows(h: HandlerState, rows: Rows) {
    h.raw == rows && h.calib == Filled(Fresh(h.kind), rows).calib
  }

  /** All loaded handlers were filled from the same rows, so those of one kind hold equal parsed maps. */
  ghost predicate Consistent(t: Table) {
    exists rows :: AllFrom(t, rows)
  }

  predicate AllFrom(t: Table, rows: Rows) {
    forall i :: 0 <= i < |t| && t[i].loaded ==> HoldsRows(t[i], rows)
  }

  lemma ConsistentMeansEqual(t: Table, i: nat, j: nat)
    requires Consistent(t) && i < |t| && j < |t| && t[i].loaded && t[j].loaded
    ensures t[i].raw == t[j].raw
    ensures t[i].kind == t[j].kind ==> t[i].calib == t[j].calib
  {
    hide Filled;
    var rows :| AllFrom(t, rows);
    assert HoldsRows(t[i], rows) && HoldsRows(t[j], rows);
  }

  /** A handler takes rows over exactly when its kind accepts them, or when it already held them. */
  lemma LoadedHoldsRows(h: HandlerState, rows: Rows)
    ensures Accepts(h.kind, rows) ==> HoldsRows(Loaded(h, rows), rows)
    ensures !Accepts(h.kind, rows) ==> Loaded(h, rows) == h.(loaded := true)
    ensures Loaded(h, rows).raw == rows <==> Accepts(h.kind, rows) || h.raw == rows
    ensures Loaded(h, rows).kind == h.kind
  {
  }

  /** The rows an update of a table that is not fully loaded fills from: a loaded handler's, or the database's. */
  function SourceRows(t: Table, database: Rows): Rows {
    match Donor(t)
    case Some(d) => t[d].raw
    case None => database
  }

  /** A handler holds the rows already, or is yet to be filled from them and accepts them. */
  predicate Takes(h: HandlerState, rows: Rows) {
    h.raw == rows || (!h.loaded && Accepts(h.kind, rows))
  }

  predicate AllTake(t: Table, rows: Rows) {
    forall i :: 0 <= i < |t| ==> Takes(t[i], rows)
  }

  /**
   An update leaves every handler of the table loaded, and reads the database exactly when none was. All of
   them end with the rows of the update, read or copied, if and only if each takes them: a run-wide handler
   refuses other than one row but is marked loaded all the same.
   */
  lemma UpdateLoadsRows(t: Table, database: Rows)
    ensures AllLoaded(Updated(t, database).0)
    ensures Updated(t, database).1 <==> t != [] && NoneLoaded(t)
    ensures !AllLoaded(t) ==>
              ((forall i :: 0 <= i < |t| ==> Updated(t, database).0[i].raw == SourceRows(t, database))
               <==> AllTake(t, SourceRows(t, database)))
  {
    hide Filled, Loaded, Accepts;
    var rows, t' := SourceRows(t, database), Updated(t, database).0;
    assert t != [] && AllLoaded(t) ==> t[0].loaded;
    forall i | 0 <= i < |t|
      ensures t'[i].loaded && (!AllLoaded(t) ==> (t'[i].raw == rows <==> Takes(t[i], rows)))
    {
      LoadedHoldsRows(t[i], rows);
      LoadedIsLoaded(t[i], rows);
    }
  }

  lemma LoadedIsLoaded(h: HandlerState, rows: Rows)
    ensures Loaded(h, rows).loaded
  {
  }

  // ---- What every handler keeps -----------------------------------------------------------------

  /** From its creation on a handler's memo is aligned and its constants are those parsed from its raw rows. */
  predicate Proper(h: HandlerState) {
    Aligned(h) && HoldsRows(h, h.raw)
  }

  predicate ProperTable(t: Table) {
    forall i :: 0 <= i < |t| ==> Proper(t[i])
  }

  lemma ProperLoaded(h: HandlerState, rows: Rows)
    requires Proper(h)
    ensures Proper(Loaded(h, rows)) && Proper(h.(loaded := false))
  {
  }

  lemma ProperLooked(h: HandlerState, key: Key)
    requires Proper(h)
    ensures Proper(Looked(h, key).1) && Looked(h, key).1.raw == h.raw && Looked(h, key).1.calib == h.calib
    ensures Looked(h, key).1.loaded == h.loaded && Looked(h, key).1.kind == h.kind
  {
  }

  lemma ProperFresh(kind: Kind)
    ensures Proper(Fresh(kind))
  {
  }

  lemma UpdateKeepsProper(t: Table, database: Rows)
    requires ProperTable(t)
    ensures ProperTable(Updated(t, database).0)
  {
    hide Proper, Loaded;
    forall i | 0 <= i < |t|
      ensures Proper(Updated(t, database).0[i])
    {
      ProperLoaded(t[i], SourceRows(t, database));
    }
  }

  /** A handler apart from its loaded flag. */
  function Unmarked(h: HandlerState): HandlerState { h.(loaded := false) }

  lemma AlignedAt(t: Table, i: nat)
    requires ProperTable(t) && i < |t|
    ensures Proper(t[i]) && Aligned(t[i]) && Aligned(Unmarked(t[i]))
  {
  }

  /** The loaded handlers of a table all hold the same raw rows. */
  predicate SameRaw(t: Table) {
    forall i, j :: 0 <= i < |t| && 0 <= j < |t| && t[i].loaded && t[j].loaded ==> t[i].raw == t[j].raw
  }

  lemma ConsistentIsSameRaw(t: Table)
    requires ProperTable(t)
    ensures Consistent(t) <==> SameRaw(t)
  {
    hide HoldsRows, Aligned;
    if SameRaw(t) {
      if NoneLoaded(t) {
        assert AllFrom(t, []);
      } else {
        var d :| 0 <= d < |t| && t[d].loaded;
        forall i | 0 <= i < |t| && t[i].loaded
          ensures HoldsRows(t[i], t[d].raw)
        {
          assert Proper(t[i]);
        }
        assert AllFrom(t, t[d].raw);
      }
    }
    if Consistent(t) {
      forall i, j | 0 <= i < |t| && 0 <= j < |t| && t[i].loaded && t[j].loaded
        ensures t[i].raw == t[j].raw
      {
        ConsistentMeansEqual(t, i, j);
      }
    }
  }

  /**
   When an update keeps a table consistent: nothing is left to load, or every handler takes the rows, or
   none is loaded and all of them refuse and hold the same rows before.
   */
  predicate UpdateKeeps(t: Table, database: Rows) {
    || AllLoaded(t)
    || AllTake(t, SourceRows(t, database))
    || (NoneLoaded(t) && forall i :: 0 <= i < |t| ==> !Accepts(t[i].kind, database) && t[i].raw == t[0].raw)
  }

  lemma UpdateKeepsConsistent(t: Table, database: Rows)
    requires ProperTable(t) && Consistent(t)
    ensures Consistent(Updated(t, database).0) <==> UpdateKeeps(t, database)
  {
    hide Consistent, ProperTable, Updated, Accepts, Takes;
    var rows, t' := SourceRows(t, database), Updated(t, database).0;
    ConsistentIsSameRaw(t);
    UpdateKeepsProper(t, database);
    ConsistentIsSameRaw(t');
    UpdateLoadsRows(t, database);
    UpdatedRaw(t, database);
    if !AllLoaded(t) {
      RefusedOrTaken(t, database);
    }
  }

  /** What an update makes of the raw rows of each handler. */
  lemma UpdatedRaw(t: Table, database: Rows)
    ensures |Updated(t, database).0| == |t|
    ensures AllLoaded(t) ==> Updated(t, database).0 == t
    ensures !AllLoaded(t) ==> forall i :: 0 <= i < |t| ==>
              Updated(t, database).0[i].raw ==
                if Takes(t[i], SourceRows(t, database)) then SourceRows(t, database) else t[i].raw
  {
    hide Filled, Loaded, Accepts;
    forall i | 0 <= i < |t| && !AllLoaded(t)
      ensures var rows := SourceRows(t, database);
              Updated(t, database).0[i].raw == if Takes(t[i], rows) then rows else t[i].raw
    {
      LoadedHoldsRows(t[i], SourceRows(t, database));
    }
  }

  lemma RefusedOrTaken(t: Table, database: Rows)
    requires SameRaw(t) && !AllLoaded(t) && AllLoaded(Updated(t, database).0)
    requires |Updated(t, database).0| == |t|
    requires forall i :: 0 <= i < |t| ==>
               Updated(t, database).0[i].raw ==
                 if Takes(t[i], SourceRows(t, database)) then SourceRows(t, database) else t[i].raw
    ensures SameRaw(Updated(t, database).0) <==> UpdateKeeps(t, database)
  {
    hide Updated, Accepts;
    var rows, t' := SourceRows(t, database), Updated(t, database).0;
    if SameRaw(t') && !AllTake(t, rows) {
      var k :| 0 <= k < |t| && !Takes(t[k], rows);
      forall i | 0 <= i < |t|
        ensures !Takes(t[i], rows) && t'[i].raw == t[i].raw
      {
        assert t'[i].raw == t'[k].raw;
      }
      assert forall i :: 0 <= i < |t| ==> t[i].raw == t'[i].raw == t'[0].raw == t[0].raw;
    }
  }

  // ---- Runs over a table ----------------------------------------------------------------------

  /**
   What the threads do to one table. An update that reads the database finds `database` there; a lookup
   asks the handler at a place of the table for a key.
   */
  datatype TableOp = AddOp(kind: Kind) | UpdateOp(database: Rows) | ClearOp | LookOp(at: nat, key: Key)

  function Step(t: Table, op: TableOp): (r: (Table, bool))
    requires ProperTable(t)
    ensures ProperTable(r.0) && |t| <= |r.0|
  {
    match op
    case AddOp(kind) =>
      ProperFresh(kind);
      (t + [Fresh(kind)], false)
    case UpdateOp(database) =>
      UpdateKeepsProper(t, database);
      Updated(t, database)
    case ClearOp => (Cleared(t), false)
    case LookOp(at, key) =>
      if at < |t| then
        assert Proper(t[at]);
        ProperLooked(t[at], key);
        (t[at := Looked(t[at], key).1], false)
      else (t, false)
  }

  /** A whole run: the table afterwards and the number of database reads. */
  function RunTable(t: Table, ops: seq<TableOp>): (r: (Table, nat))
    requires ProperTable(t)
    ensures ProperTable(r.0) && |t| <= |r.0|
    decreases |ops|
  {
    if ops == [] then (t, 0)
    else
      var (t', fromDatabase) := Step(t, ops[0]);
      var (end, count) := RunTable(t', ops[1..]);
      (end, count + if fromDatabase then 1 else 0)
  }

  /** How often a run clears the table. */
  function Clears(ops: seq<TableOp>): (n: nat)
    ensures n == multiset(ops)[ClearOp]
  {
    if ops == [] then 0
    else
      assert ops == [ops[0]] + ops[1..];
      Clears(ops[1..]) + if ops[0].ClearOp? then 1 else 0
  }

  /** The table is consistent at every moment of a run. */
  ghost predicate AlwaysConsistent(t: Table, ops: seq<TableOp>)
    requires ProperTable(t)
    decreases |ops|
  {
    Consistent(t) && (ops != [] ==> AlwaysConsistent(Step(t, ops[0]).0, ops[1..]))
  }

  /** Every update of a run finds a table that it keeps consistent. */
  predicate UpdatesKeep(t: Table, ops: seq<TableOp>)
    requires ProperTable(t)
    decreases |ops|
  {
    ops != [] ==>
      && (ops[0].UpdateOp? ==> UpdateKeeps(t, ops[0].database))
      && UpdatesKeep(Step(t, ops[0]).0, ops[1..])
  }

  /**
   Over every run of add, update, clear and lookup calls, from any consistent table: it is consistent
   throughout if and only if every update keeps it so; and the database is read at most once more than
   the table is cleared, never while a handler is loaded.
   */
  lemma {:induction false} RunKeepsConsistent(t: Table, ops: seq<TableOp>)
    requires ProperTable(t) && Consistent(t)
    ensures AlwaysConsistent(t, ops) <==> UpdatesKeep(t, ops)
    ensures RunTable(t, ops).1 + (if NoneLoaded(t) then 0 else 1) <= Clears(ops) + 1
    decreases |ops|
  {
    hide Consistent, Step, UpdateKeeps, ProperTable;
    RunReads(t, ops);
    if ops == [] {
    } else {
      StepKeeps(t, ops[0]);
      if Consistent(Step(t, ops[0]).0) {
        RunKeepsConsistent(Step(t, ops[0]).0, ops[1..]);
      } else {
        NotConsistent(Step(t, ops[0]).0, ops[1..]);
      }
    }
  }

  lemma NotConsistent(t: Table, ops: seq<TableOp>)
    requires ProperTable(t) && !Consistent(t)
    ensures !AlwaysConsistent(t, ops)
  {
  }

  lemma StepKeeps(t: Table, op: TableOp)
    requires ProperTable(t) && Consistent(t)
    ensures Consistent(Step(t, op).0) <==> (op.UpdateOp? ==> UpdateKeeps(t, op.database))
  {
    hide Filled, UpdateKeeps, Consistent, Proper;
    ConsistentIsSameRaw(t);
    ConsistentIsSameRaw(Step(t, op).0);
    match op
    case AddOp(kind) =>
    case ClearOp =>
    case UpdateOp(database) => UpdateKeepsConsistent(t, database);
    case LookOp(at, key) =>
      if at < |t| {
        assert Proper(t[at]);
        ProperLooked(t[at], key);
      }
  }

  lemma {:induction false} RunReads(t: Table, ops: seq<TableOp>)
    requires ProperTable(t)
    ensures RunTable(t, ops).1 + (if NoneLoaded(t) then 0 else 1) <= Clears(ops) + 1
    decreases |ops|
  {
    hide Step, NoneLoaded, ProperTable;
    if ops == [] {
    } else {
      RunReads(Step(t, ops[0]).0, ops[1..]);
      StepLoads(t, ops[0]);
    }
  }

  lemma StepLoads(t: Table, op: TableOp)
    requires ProperTable(t)
    ensures Step(t, op).1 ==> op.UpdateOp? && NoneLoaded(t) && !NoneLoaded(Step(t, op).0)
    ensures !NoneLoaded(t) && NoneLoaded(Step(t, op).0) ==> op.ClearOp?
  {
    hide Filled, Proper, Updated, Looked;
    if op.UpdateOp? {
      UpdateLoadsRows(t, op.database);
      UpdatedRaw(t, op.database);
      assert t != [] ==> Updated(t, op.database).0[0].loaded;
    } else if !NoneLoaded(t) {
      var i :| 0 <= i < |t| && t[i].loaded;
      assert op.AddOp? ==> (t + [Fresh(op.kind)])[i].loaded;
      if op.LookOp? && op.at < |t| {
        AlignedAt(t, op.at);
        ProperLooked(t[op.at], op.key);
        assert t[op.at := Looked(t[op.at], op.key).1][i].loaded;
      }
    }
  }

  /** No handler of a run is run-wide, or only single rows are loaded. */
  predicate Suitable(t: Table, ops: seq<TableOp>) {
    || ((forall i :: 0 <= i < |t| ==> !t[i].kind.RunWide?)
        && (forall i :: 0 <= i < |ops| && ops[i].AddOp? ==> !ops[i].kind.RunWide?))
    || ((forall i :: 0 <= i < |ops| && ops[i].UpdateOp? ==> |ops[i].database| == 1)
        && (forall i :: 0 <= i < |t| && t[i].loaded ==> |t[i].raw| == 1))
  }

  /** Without run-wide handlers, or with single rows only, every update keeps the table consistent. */
  lemma {:induction false} SuitableRun(t: Table, ops: seq<TableOp>)
    requires ProperTable(t) && Consistent(t) && Suitable(t, ops)
    ensures UpdatesKeep(t, ops) && AlwaysConsistent(t, ops)
    decreases |ops|
  {
    hide Consistent, Step, UpdateKeeps, ProperTable, Suitable;
    if ops == [] {
    } else {
      SuitableStep(t, ops);
      StepKeeps(t, ops[0]);
      SuitableRun(Step(t, ops[0]).0, ops[1..]);
    }
  }

  lemma SuitableStep(t: Table, ops: seq<TableOp>)
    requires ops != [] && ProperTable(t) && Consistent(t) && Suitable(t, ops)
    ensures ops[0].UpdateOp? ==> UpdateKeeps(t, ops[0].database)
    ensures Suitable(Step(t, ops[0]).0, ops[1..])
  {
    hide Filled, Consistent, Proper, Updated, Loaded;
    ConsistentIsSameRaw(t);
    match ops[0]
    case UpdateOp(database) =>
      UpdatedRaw(t, database);
      UpdatedKinds(t, database);
      assert AllLoaded(t) || AllTake(t, SourceRows(t, database));
    case LookOp(at, key) =>
      if at < |t| {
        assert Proper(t[at]);
        ProperLooked(t[at], key);
      }
    case _ =>
  }

  lemma UpdatedKinds(t: Table, database: Rows)
    ensures |Updated(t, database).0| == |t|
    ensures forall i :: 0 <= i < |t| ==> Updated(t, database).0[i].kind == t[i].kind
  {
    hide Loaded;
    forall i | 0 <= i < |t|
      ensures Updated(t, database).0[i].kind == t[i].kind
    {
      LoadedHoldsRows(t[i], SourceRows(t, database));
    }
  }

  // ---- Lookups over a run -----------------------------------------------------------------------

  /** What one call on the table does to the handler at place `i`, as calls on that handler. */
  function CallsOn(t: Table, op: TableOp, i: nat): seq<Op> {
    if i >= |t| then []
    else
      match op
      case UpdateOp(database) =>
        if t[i].loaded || AllLoaded(t) then [] else [FillOp(SourceRows(t, database))]
      case LookOp(at, key) => if at == i then [GetOp(key)] else []
      case _ => []
  }

  /** The history of the handler at place `i` over a run. */
  function History(t: Table, ops: seq<TableOp>, i: nat): seq<Op>
    requires ProperTable(t)
    decreases |ops|
  {
    if ops == [] then [] else CallsOn(t, ops[0], i) + History(Step(t, ops[0]).0, ops[1..], i)
  }

  /** A run does to each handler exactly what its own history does. */
  lemma {:induction false} RunIsHistory(t: Table, ops: seq<TableOp>, i: nat)
    requires ProperTable(t) && i < |t|
    ensures Aligned(Unmarked(t[i]))
    ensures Unmarked(RunTable(t, ops).0[i]) == RunOps(Unmarked(t[i]), History(t, ops, i))
    decreases |ops|
  {
    hide Step, CallsOn, ProperTable, Unmarked;
    AlignedAt(t, i);
    if ops == [] {
    } else {
      var t' := Step(t, ops[0]).0;
      StepIsCalls(t, ops[0], i);
      RunIsHistory(t', ops[1..], i);
      RunOpsConcat(Unmarked(t[i]), CallsOn(t, ops[0], i), History(t', ops[1..], i));
    }
  }

  lemma StepIsCalls(t: Table, op: TableOp, i: nat)
    requires ProperTable(t) && i < |t| && Aligned(Unmarked(t[i]))
    ensures Unmarked(Step(t, op).0[i]) == RunOps(Unmarked(t[i]), CallsOn(t, op, i))
  {
    hide Filled, Parsed, Looked, Aligned, HoldsRows;
    AlignedAt(t, i);
    match op
    case UpdateOp(database) =>
      FilledUnmarked(t[i], SourceRows(t, database));
    case LookOp(at, key) =>
      LookedUnmarked(t[i], key);
    case _ =>
  }

  lemma FilledUnmarked(h: HandlerState, rows: Rows)
    requires Aligned(h) && Aligned(Unmarked(h))
    ensures Unmarked(Loaded(h, rows)) == Filled(Unmarked(h), rows)
    ensures RunOps(Unmarked(h), [FillOp(rows)]) == Filled(Unmarked(h), rows)
  {
    assert [FillOp(rows)][1..] == [];
  }

  lemma LookedUnmarked(h: HandlerState, key: Key)
    requires Aligned(h) && Aligned(Unmarked(h))
    ensures Unmarked(Looked(h, key).1) == Looked(Unmarked(h), key).1
    ensures Looked(h, key).0 == Looked(Unmarked(h), key).0
    ensures RunOps(Unmarked(h), [GetOp(key)]) == Looked(Unmarked(h), key).1
  {
    assert [GetOp(key)][1..] == [];
  }

  lemma {:induction false} RunOpsConcat(h: HandlerState, a: seq<Op>, b: seq<Op>)
    requires Aligned(h)
    ensures RunOps(h, a + b) == RunOps(RunOps(h, a), b)
    decreases |a|
  {
    hide Applied, Aligned;
    if a == [] {
      assert a + b == b;
    } else {
      assert (a + b)[1..] == a[1..] + b;
      RunOpsConcat(Applied(h, a[0]), a[1..], b);
    }
  }

  /** A handler added during the run starts its history fresh. */
  lemma {:induction false} AddedIsHistory(t: Table, ops: seq<TableOp>, i: nat)
    requires ProperTable(t) && |t| <= i < |RunTable(t, ops).0|
    ensures var h := RunTable(t, ops).0[i];
            Unmarked(h) == RunOps(Fresh(h.kind), History(t, ops, i))
    decreases |ops|
  {
    hide Filled, Looked, HoldsRows, ProperTable, Updated, Aligned;
    var t' := Step(t, ops[0]).0;
    assert CallsOn(t, ops[0], i) + History(t', ops[1..], i) == History(t', ops[1..], i);
    if i < |t'| {
      StepAdds(t, ops[0], i);
      RunIsHistory(t', ops[1..], i);
    } else {
      AddedIsHistory(t', ops[1..], i);
    }
  }

  lemma StepAdds(t: Table, op: TableOp, i: nat)
    requires ProperTable(t) && |t| <= i < |Step(t, op).0|
    ensures op.AddOp? && Step(t, op).0[i] == Unmarked(Step(t, op).0[i]) == Fresh(op.kind)
  {
    hide Filled, Looked, HoldsRows, Updated;
    if op.UpdateOp? {
      UpdatedRaw(t, op.database);
    }
  }

  /**
   Over every run on a table that starts empty, lookups included: a handler answers a key with what the
   map held at its own first successful lookup of that key, whatever is loaded by now; so with the
   constants loaded now exactly when there was none or it gave the same. Two handlers of one kind, loaded
   and consistent, answer alike exactly when these are equal.
   */
  lemma AnswersOverRun(ops: seq<TableOp>, i: nat, j: nat, key: Key)
    requires var t := RunTable([], ops).0;
             && i < |t| && j < |t| && t[i].kind == t[j].kind && !t[i].kind.RunWide?
             && Consistent(t) && t[i].loaded && t[j].loaded
    ensures var t := RunTable([], ops).0;
            var now := InMap(t[i].calib, key);
            var firstI := FirstHit(t[i].kind, map[], History([], ops, i), key);
            var firstJ := FirstHit(t[j].kind, map[], History([], ops, j), key);
            && Aligned(t[i]) && Aligned(t[j])
            && (Looked(t[i], key).0 == now <==> firstI == None || firstI.value == now)
            && (Looked(t[i], key).0 == Looked(t[j], key).0 <==> OrElse(firstI, now) == OrElse(firstJ, now))
  {
    hide RunTable, History, Looked, FirstHit, Consistent, Proper;
    var t := RunTable([], ops).0;
    AnswerOverRun(ops, i, key);
    AnswerOverRun(ops, j, key);
    ConsistentMeansEqual(t, i, j);
  }

  function OrElse(first: Option<seq<real>>, now: seq<real>): seq<real> {
    match first
    case Some(v) => v
    case None => now
  }

  lemma AnswerOverRun(ops: seq<TableOp>, i: nat, key: Key)
    requires i < |RunTable([], ops).0| && !RunTable([], ops).0[i].kind.RunWide?
    ensures var h := RunTable([], ops).0[i];
            && Aligned(h)
            && Looked(h, key).0 == OrElse(FirstHit(h.kind, map[], History([], ops, i), key), InMap(h.calib, key))
  {
    hide RunTable, History, Looked, FirstHit, RunOps, Filled, LastMap, Proper;
    var h := RunTable([], ops).0[i];
    AlignedAt(RunTable([], ops).0, i);
    AddedIsHistory([], ops, i);
    LookedUnmarked(h, key);
    LookupIsFirstHit(h.kind, History([], ops, i), key);
    LookupAfter(Fresh(h.kind), History([], ops, i), key);
  }

  // ---- Examples ---------------------------------------------------------------------------------

  /** A refusal, concretely: two rows leave a run-wide handler marked as loaded and empty. */
  lemma RefusalExample()
    ensures var t := [Fresh(RunWide), Fresh(Daq)];
            var rows := [[1.0], [2.0]];
            var t' := Updated(t, rows).0;
            AllLoaded(t') && t'[0].raw == [] && t'[1].raw == rows && !Consistent(t')
  {
    var t := [Fresh(RunWide), Fresh(Daq)];
    var rows := [[1.0], [2.0]];
    var t' := Updated(t, rows).0;
    assert !t[0].loaded && !t[1].loaded;
    assert t' == LoadedAll(t, rows);
    if Consistent(t') {
      ConsistentMeansEqual(t', 0, 1);
    }
  }

  /** The same when the rows are copied from a loaded handler: the database is not even read. */
  lemma CopyRefusalExample()
    ensures var rows := [[1.0, 2.0], [2.0, 2.0]];
            var t := [Loaded(Fresh(Indexed(1)), rows), Fresh(RunWide)];
            var t' := Updated(t, []).0;
            Consistent(t) && AllLoaded(t') && t'[0].raw == rows && t'[1].raw == [] && !Consistent(t')
  {
    hide Parsed;
    var rows := [[1.0, 2.0], [2.0, 2.0]];
    var t := [Loaded(Fresh(Indexed(1)), rows), Fresh(RunWide)];
    var t' := Updated(t, []).0;
    assert AllFrom(t, rows);
    assert t[0].loaded && !t[1].loaded;
    assert t' == LoadedRest(t, rows);
    if Consistent(t') {
      ConsistentMeansEqual(t', 0, 1);
    }
  }

  const OLD_ROWS: Rows := [[7.0, 1.0]]
  const NEW_ROWS: Rows := [[7.0, 2.0]]

  /** Two handlers of one kind; one is asked for a key, and the table is cleared and loaded again. */
  const RELOAD := [AddOp(Indexed(1)), AddOp(Indexed(1)), UpdateOp(OLD_ROWS),
                   LookOp(0, [7]), ClearOp, UpdateOp(NEW_ROWS)]

  /** Both handlers are loaded with equal constants at the end, but they answer that key differently. */
  lemma DifferentAnswersExample()
    ensures var t := RunTable([], RELOAD).0;
            && |t| == 2 && t[0].loaded && t[1].loaded && t[0].kind == t[1].kind == Indexed(1) && Consistent(t)
            && t[0].calib == t[1].calib == map[[7] := [2.0]] && Aligned(t[0]) && Aligned(t[1])
            && Looked(t[0], [7]).0 == [1.0] && Looked(t[1], [7]).0 == [2.0]
  {
    hide Parsed, RunTable, OLD_ROWS, NEW_ROWS;
    var h1 := Loaded(Fresh(Indexed(1)), OLD_ROWS);
    var asked := h1.(memoIndex := [[7]], memo := [[1.0]]);
    ReloadRows();
    ReloadRun(h1, asked);
    var end := RunTable([], RELOAD).0;
    assert AllFrom(end, NEW_ROWS);
  }

  lemma ReloadRows()
    ensures RowsFit(Indexed(1), OLD_ROWS) && Parsed(Indexed(1), OLD_ROWS) == map[[7] := [1.0]]
    ensures RowsFit(Indexed(1), NEW_ROWS) && Parsed(Indexed(1), NEW_ROWS) == map[[7] := [2.0]]
  {
    hide Parsed;
    OneRow(7.0, 1.0);
    OneRow(7.0, 2.0);
  }

  lemma ReloadRun(h1: HandlerState, asked: HandlerState)
    requires h1 == Loaded(Fresh(Indexed(1)), OLD_ROWS) && Aligned(h1) && asked == Looked(h1, [7]).1 && asked.loaded
    ensures RunTable([], RELOAD).0 == [Loaded(Unmarked(asked), NEW_ROWS), Loaded(Unmarked(h1), NEW_ROWS)]
  {
    hide Loaded, Looked, Fresh, Proper, RunTable, Aligned;
    var h0 := Fresh(Indexed(1));
    ReloadStart(h0);
    var t2, t4 := [h0, h0], [asked, h1];
    UpdatedPair(t2, OLD_ROWS);
    var t3 := Step(t2, RELOAD[2]).0;
    assert t3 == [h1, h1];
    RunStep(t2, RELOAD[2..]);
    assert Step(t3, RELOAD[3]).0 == t4;
    RunStep(t3, RELOAD[3..]);
    var t5 := Step(t4, RELOAD[4]).0;
    assert t5 == [Unmarked(asked), Unmarked(h1)];
    RunStep(t4, RELOAD[4..]);
    UpdatedPair(t5, NEW_ROWS);
    RunStep(t5, RELOAD[5..]);
  }

  lemma ReloadStart(h0: HandlerState)
    requires h0 == Fresh(Indexed(1))
    ensures ProperTable([h0, h0]) && !h0.loaded && RunTable([], RELOAD).0 == RunTable([h0, h0], RELOAD[2..]).0
  {
    hide RunTable;
    assert [] + [h0] == [h0] && [h0] + [h0] == [h0, h0];
    RunStep([], RELOAD);
    RunStep([h0], RELOAD[1..]);
  }

  lemma RunStep(t: Table, ops: seq<TableOp>)
    requires ProperTable(t) && ops != []
    ensures RunTable(t, ops).0 == RunTable(Step(t, ops[0]).0, ops[1..]).0
    ensures |ops| == 1 ==> RunTable(t, ops).0 == Step(t, ops[0]).0
  {
    hide Step, ProperTable;
  }

  lemma UpdatedPair(t: Table, rows: Rows)
    requires |t| == 2 && !t[0].loaded && !t[1].loaded
    ensures Updated(t, rows).0 == [Loaded(t[0], rows), Loaded(t[1], rows)]
  {
    hide Loaded;
    assert Donor(t) == None;
  }

  // ---- The registry -------------------------------------------------------------------------

  ghost function States(hs: seq<CalibrationHandler>): (t: Table)
    reads hs
    ensures |t| == |hs| && forall i :: 0 <= i < |hs| ==> t[i] == hs[i].State()
  {
    seq(|hs|, i requires 0 <= i < |hs| reads hs => hs[i].State())
  }

  class BdxEventProcessor {
    var calibrations: map<string, seq<CalibrationHandler>>

    /** Every handler is filed under its own table's name. */
    ghost predicate Valid()
      reads this
    {
      forall name, i :: name in calibrations && 0 <= i < |calibrations[name]| ==> calibrations[name][i].table == name
    }

    constructor ()
      ensures calibrations == map[] && Valid()
    {
      calibrations := map[];
    }

    method AddCalibration(cal: CalibrationHandler)
      requires Valid()
      modifies this
      ensures Valid()
      ensures calibrations == old(calibrations)[cal.table :=
                (if cal.table in old(calibrations) then old(calibrations)[cal.table] else []) + [cal]]
    {
      var already := if cal.table in calibrations then calibrations[cal.table] else [];
      calibrations := calibrations[cal.table := already + [cal]];
    }

    /** The handlers filed with `cal`; none when `cal` itself is not filed. */
    function Filed(cal: CalibrationHandler): (hs: seq<CalibrationHandler>)
      reads this
    {
      if cal.table in calibrations && cal in calibrations[cal.table] then calibrations[cal.table] else []
    }

    /**
     Load the constants of `cal`'s table for the current run; `database` is what the database holds for
     it. A handler that was not registered is reported, and nothing happens.
     */
    method UpdateCalibration(cal: CalibrationHandler, database: Rows) returns (fromDatabase: bool)
      requires Valid()
      modifies Filed(cal)
      ensures Valid()
      ensures (States(Filed(cal)), fromDatabase) == Updated(old(States(Filed(cal))), database)
    {
      hide Filled, LoadedAll, LoadedRest, AllLoaded, NoneLoaded, Donor;
      var cals := Filed(cal);
      var flagAll, calibratedOne := ScanLoaded(cals);
      if flagAll {
        return false;
      }
      match calibratedOne
      case Some(donor) =>
        CopyFrom(cals, donor);
        return false;
      case None =>
        FillAll(cals, database);
        return true;
    }

    method ClearCalibration(cal: CalibrationHandler)
      requires Valid()
      modifies Filed(cal)
      ensures Valid()
      ensures States(Filed(cal)) == Cleared(old(States(Filed(cal))))
    {
      var cals := Filed(cal);
      for i := 0 to |cals|
        invariant forall j :: 0 <= j < |cals| ==>
                    cals[j].State() ==
                      if cals[j] in cals[..i] then old(cals[j].State()).(loaded := false) else old(cals[j].State())
      {
        cals[i].SetLoaded(false);
      }
    }
  }

  /** Whether all handlers are loaded, and the last one that is. */
  method ScanLoaded(cals: seq<CalibrationHandler>) returns (flagAll: bool, calibratedOne: Option<nat>)
    ensures flagAll <==> AllLoaded(States(cals))
    ensures calibratedOne == Donor(States(cals))
    ensures calibratedOne.Some? ==> calibratedOne.value < |cals|
  {
    hide Donor;
    flagAll, calibratedOne := true, None;
    for i := 0 to |cals|
      invariant flagAll <==> forall j :: 0 <= j < i ==> cals[j].loaded
      invariant match calibratedOne
                case None => forall j :: 0 <= j < i ==> !cals[j].loaded
                case Some(d) => d < i && cals[d].loaded && forall j :: d < j < i ==> !cals[j].loaded
    {
      if !cals[i].loaded {
        flagAll := false;
      } else {
        calibratedOne := Some(i);
      }
    }
    ghost var t := States(cals);
    assert forall j :: 0 <= j < |cals| ==> t[j].loaded == cals[j].loaded;
  }

  lemma LoadedTwice(h: HandlerState, rows: Rows)
    ensures Loaded(Loaded(h, rows), rows) == Loaded(h, rows)
  {
  }

  /** Fill every handler from the rows read. */
  method FillAll(cals: seq<CalibrationHandler>, rows: Rows)
    modifies cals
    ensures States(cals) == LoadedAll(old(States(cals)), rows)
  {
    hide Filled;
    for i := 0 to |cals|
      invariant forall j :: 0 <= j < |cals| ==>
                  cals[j].State() ==
                    if cals[j] in cals[..i] then Loaded(old(cals[j].State()), rows) else old(cals[j].State())
    {
      LoadedTwice(old(cals[i].State()), rows);
      var ok := cals[i].FillCalib(rows);
      cals[i].SetLoaded(true);
    }
  }

  /** Fill the handlers that are not loaded from the one at `donor`, which is. */
  method CopyFrom(cals: seq<CalibrationHandler>, donor: nat)
    requires donor < |cals| && cals[donor].loaded
    modifies cals
    ensures States(cals) == LoadedRest(old(States(cals)), old(cals[donor].raw))
  {
    hide Filled;
    ghost var before := States(cals);
    for i := 0 to |cals|
      invariant forall j :: 0 <= j < |cals| ==>
                  cals[j].State() ==
                    if !old(cals[j].loaded) && cals[j] in cals[..i] then Loaded(old(cals[j].State()), before[donor].raw)
                                     else old(cals[j].State())
    {
      if i == donor {
        continue;
      }
      if cals[i].loaded {
        continue;
      }
      var ok := cals[i].FillCalib(cals[donor].raw);
      cals[i].SetLoaded(true);
    }
  }
}
