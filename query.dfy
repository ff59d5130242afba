/** The query iterators of src/query.rs: a snapshot of one table walked by an
    index, behind any number of `filter` and `map` adapters, that can be
    drained into a list or written back over the table. */
module Query {
  import opened DbErrors
  import opened Seqs
  import opened Storable
  import opened Entity
  import opened Meta
  import opened Db

  /** One adapter: `DbFilter` with its predicate or `DbMap` with its
      transform. The closures are pure here. */
  datatype Stage = Filter(keep: Value -> bool) | Map(f: Value -> Value)

  /** `DbFilter` over a run of rows: the rows the predicate accepts, in order. */
  function FilterRows(keep: Value -> bool, rows: seq<Value>): (r: seq<Value>)
    ensures |r| <= |rows|
    ensures forall v :: v in r <==> v in rows && keep(v)
    decreases |rows|
  {
    if rows == [] then []
    else (if keep(rows[0]) then [rows[0]] else []) + FilterRows(keep, rows[1..])
  }

  /** `DbMap` over a run of rows: each row transformed, in order. */
  function MapRows(f: Value -> Value, rows: seq<Value>): (r: seq<Value>)
    ensures |r| == |rows|
    ensures forall i | 0 <= i < |rows| :: r[i] == f(rows[i])
    decreases |rows|
  {
    if rows == [] then [] else [f(rows[0])] + MapRows(f, rows[1..])
  }

  /** What a stack of adapters yields from a run of rows; the last stage is
      the outermost adapter. */
  function Run(stages: seq<Stage>, rows: seq<Value>): seq<Value>
    decreases |stages|
  {
    if stages == [] then rows
    else
      var inner := Run(stages[..|stages| - 1], rows);
      match stages[|stages| - 1]
      case Filter(keep) => FilterRows(keep, inner)
      case Map(f) => MapRows(f, inner)
  }

  lemma {:induction false} FilterRowsAppend(keep: Value -> bool, a: seq<Value>, b: seq<Value>)
    ensures FilterRows(keep, a + b) == FilterRows(keep, a) + FilterRows(keep, b)
    decreases |a|
  {
    if a != [] {
      assert (a + b)[1..] == a[1..] + b;
      FilterRowsAppend(keep, a[1..], b);
    } else {
      assert a + b == b;
    }
  }

  lemma {:induction false} MapRowsAppend(f: Value -> Value, a: seq<Value>, b: seq<Value>)
    ensures MapRows(f, a + b) == MapRows(f, a) + MapRows(f, b)
    decreases |a|
  {
    if a != [] {
      assert (a + b)[1..] == a[1..] + b;
      MapRowsAppend(f, a[1..], b);
    } else {
      assert a + b == b;
    }
  }

  /** Adapters work row by row: the rows of `a + b` yield what `a` yields
      followed by what `b` yields. */
  lemma {:induction false} RunAppend(stages: seq<Stage>, a: seq<Value>, b: seq<Value>)
    ensures Run(stages, a + b) == Run(stages, a) + Run(stages, b)
    decreases |stages|
  {
    if stages != [] {
      var init := stages[..|stages| - 1];
      RunAppend(init, a, b);
      match stages[|stages| - 1]
      case Filter(keep) => FilterRowsAppend(keep, Run(init, a), Run(init, b));
      case Map(f) => MapRowsAppend(f, Run(init, a), Run(init, b));
    }
  }

  /** No rows, nothing yielded. */
  lemma {:induction false} RunEmpty(stages: seq<Stage>)
    ensures Run(stages, []) == []
    decreases |stages|
  {
    if stages != [] {
      RunEmpty(stages[..|stages| - 1]);
    }
  }

  /** The last stage applied to what the others yield. */
  lemma RunStep(stages: seq<Stage>, k: nat, rows: seq<Value>)
    requires 0 < k <= |stages|
    ensures stages[..k][..k - 1] == stages[..k - 1]
    ensures Run(stages[..k], rows) == match stages[k - 1]
      case Filter(keep) => FilterRows(keep, Run(stages[..k - 1], rows))
      case Map(f) => MapRows(f, Run(stages[..k - 1], rows))
  {
    assert stages[..k][..k - 1] == stages[..k - 1];
  }

  /** A `filter` then a `map`, as in a query written back with
      `save_to_db`: the kept rows, transformed. */
  lemma FilterThenMap(keep: Value -> bool, f: Value -> Value, rows: seq<Value>)
    ensures Run([Filter(keep), Map(f)], rows) == MapRows(f, FilterRows(keep, rows))
  {
    var st := [Filter(keep), Map(f)];
    assert st[..1] == [Filter(keep)];
    assert [Filter(keep)][..0] == [];
    assert Run([Filter(keep)], rows) == FilterRows(keep, rows);
  }

  /** Exactly the images of the kept rows come out of a `filter` then a
      `map`: every filtered-out row is gone and every kept row is there in
      mapped form. */
  lemma FilterThenMapMembers(keep: Value -> bool, f: Value -> Value, rows: seq<Value>, v: Value)
    ensures v in MapRows(f, FilterRows(keep, rows)) <==> exists u | u in rows && keep(u) :: v == f(u)
  {
    var kept := FilterRows(keep, rows);
    var out := MapRows(f, kept);
    if v in out {
      var i :| 0 <= i < |out| && out[i] == v;
      assert kept[i] in kept;
    }
    if exists u | u in rows && keep(u) :: v == f(u) {
      var u :| u in rows && keep(u) && v == f(u);
      assert u in kept;
      var i :| 0 <= i < |kept| && kept[i] == u;
      assert out[i] == v;
    }
  }

  /** One step of an iterator: nothing pending gives `None` and leaves
      nothing; otherwise the first pending row comes out and the rest is left. */
  predicate Popped(before: seq<Value>, r: Option<Value>, after: seq<Value>) {
    if before == [] then r == None && after == [] else r == Some(before[0]) && after == before[1..]
  }

  /** Filtering a pop: a row the predicate keeps is popped from the filtered
      rows too, and a row it drops leaves the filtered rows as they were. */
  lemma FilterPopped(keep: Value -> bool, before: seq<Value>, r: Option<Value>, after: seq<Value>)
    requires Popped(before, r, after)
    ensures (r.None? || keep(r.value)) ==> Popped(FilterRows(keep, before), r, FilterRows(keep, after))
    ensures r.Some? && !keep(r.value) ==> FilterRows(keep, before) == FilterRows(keep, after)
  {
    if r.Some? {
      assert before[1..] == after;
      var fb := FilterRows(keep, before);
      if keep(r.value) {
        assert fb == [r.value] + FilterRows(keep, after);
        assert fb[1..] == FilterRows(keep, after);
      }
    }
  }

  /** What has been collected, then the row popped, then what is left: the
      rows that were pending before the pop, after what was collected. */
  lemma PoppedAppend(done: seq<Value>, before: seq<Value>, r: Option<Value>, after: seq<Value>)
    requires Popped(before, r, after)
    ensures r.None? ==> done == done + before && after == []
    ensures r.Some? ==> (done + [r.value]) + after == done + before
  {
    if r.Some? {
      assert before == [r.value] + after;
    }
  }

  // ---------------------------------------------------------------------
  // The read-only query

  /** `DbQuery`: a snapshot of the table and the position of the next row. */
  class DbQuery {
    const data: EntityMeta
    var index: nat

    /** The rows still to come. */
    function Remaining(): seq<Value>
      reads this
    {
      if index <= |data.entities| then data.entities[index..] else []
    }

    constructor (data: EntityMeta)
      ensures this.data == data && index == 0
      ensures Remaining() == data.entities
    {
      this.data := data;
      index := 0;
    }

    /** `next`: the row at `index`, once, in stored order. */
    method Next() returns (r: Option<Value>)
      modifies this
      ensures old(Remaining()) == [] ==> r == None && index == old(index)
      ensures old(Remaining()) != [] ==>
        r == Some(old(Remaining())[0]) && index == old(index) + 1 && Remaining() == old(Remaining())[1..]
    {
      if index >= |data.entities| {
        return None;
      }
      index := index + 1;
      return Some(data.entities[index - 1]);
    }
  }

  /** `Database::query` / `DbQuery::new`: one snapshot of the table, read
      without checking the registry (an unregistered type with no file is an
      I/O error, not `TypeNotFound`). */
  method NewQuery(db: Database, et: EntityType) returns (r: Result<DbQuery>)
    requires et.Valid()
    ensures match RawRead(db.version, et, db.State(), et.Hash(db.digest))
      case Ok(m) => r.Ok? && fresh(r.value) && r.value.data == m && r.value.index == 0
      case Err(e) => r == Err(e)
  {
    var data :- db.RawReadAll(et);
    var q := new DbQuery(data);
    return Ok(q);
  }

  // ---------------------------------------------------------------------
  // The query that writes back

  /** `DbQueryMut` with the `DbFilter`/`DbMap` adapters stacked on it: the
      database it writes back to, the snapshot, the position of the next row
      of the snapshot, and the adapters, innermost first. */
  class DbQueryMut {
    const db: Database
    const et: EntityType
    const data: EntityMeta
    var index: nat
    var stages: seq<Stage>

    predicate Valid()
      reads this
    {
      et.Valid() && index <= |data.entities|
    }

    /** What the first `k` adapters will still yield. */
    function PendingAt(k: nat): seq<Value>
      requires Valid() && k <= |stages|
      reads this
    {
      Run(stages[..k], data.entities[index..])
    }

    /** What the whole pipeline will still yield. */
    function Pending(): seq<Value>
      requires Valid()
      reads this
    {
      Run(stages, data.entities[index..])
    }

    constructor (db: Database, et: EntityType, data: EntityMeta)
      requires et.Valid()
      ensures this.db == db && this.et == et && this.data == data
      ensures index == 0 && stages == []
      ensures Valid() && Pending() == data.entities
    {
      this.db := db;
      this.et := et;
      this.data := data;
      index := 0;
      stages := [];
    }

    /** `next` of the pipeline made of the first `k` adapters: `DbQueryMut::next`
        for no adapter, else the `next` of the outermost of them. */
    method NextAt(k: nat) returns (r: Option<Value>)
      requires Valid() && k <= |stages|
      modifies this
      ensures Valid() && stages == old(stages) && old(index) <= index
      ensures r.None? ==> index == |data.entities|
      ensures r.Some? ==> old(index) < index
      ensures Popped(old(PendingAt(k)), r, PendingAt(k))
      decreases k, 1
    {
      if k == 0 {
        assert stages[..0] == [];
        if index >= |data.entities| {
          return None;
        }
        index := index + 1;
        return Some(data.entities[index - 1]);
      }
      match stages[k - 1]
      case Filter(keep) =>
        r := NextFiltered(k, keep);
      case Map(f) =>
        r := NextMapped(k, f);
    }

    /** `DbFilter::next`: pull from the inner pipeline until a row passes the
        predicate or the inner pipeline runs dry. */
    method NextFiltered(k: nat, keep: Value -> bool) returns (r: Option<Value>)
      requires Valid() && 0 < k <= |stages| && stages[k - 1] == Stage.Filter(keep)
      modifies this
      ensures Valid() && stages == old(stages) && old(index) <= index
      ensures r.None? ==> index == |data.entities|
      ensures r.Some? ==> old(index) < index
      ensures Popped(old(PendingAt(k)), r, PendingAt(k))
      decreases k, 0
    {
      while true
        invariant Valid() && stages == old(stages) && old(index) <= index
        invariant PendingAt(k) == old(PendingAt(k))
        decreases |data.entities| - index
      {
        ghost var before := PendingAt(k - 1);
        RunStep(stages, k, data.entities[index..]);
        assert PendingAt(k) == FilterRows(keep, before);
        var x := NextAt(k - 1);
        RunStep(stages, k, data.entities[index..]);
        assert PendingAt(k) == FilterRows(keep, PendingAt(k - 1));
        FilterPopped(keep, before, x, PendingAt(k - 1));
        if x.None? {
          return None;
        }
        if keep(x.value) {
          return x;
        }
      }
    }

    /** `DbMap::next`: the inner pipeline's next row, transformed. */
    method NextMapped(k: nat, f: Value -> Value) returns (r: Option<Value>)
      requires Valid() && 0 < k <= |stages| && stages[k - 1] == Stage.Map(f)
      modifies this
      ensures Valid() && stages == old(stages) && old(index) <= index
      ensures r.None? ==> index == |data.entities|
      ensures r.Some? ==> old(index) < index
      ensures Popped(old(PendingAt(k)), r, PendingAt(k))
      decreases k, 0
    {
      ghost var before := PendingAt(k - 1);
      RunStep(stages, k, data.entities[index..]);
      assert PendingAt(k) == MapRows(f, before);
      var x := NextAt(k - 1);
      RunStep(stages, k, data.entities[index..]);
      assert PendingAt(k) == MapRows(f, PendingAt(k - 1));
      if x.None? {
        return None;
      }
      HeadTail(before);
      return Some(f(x.value));
    }

    /** `next` of the whole pipeline: its next row, which leaves the pending
        rows. */
    method Next() returns (r: Option<Value>)
      requires Valid()
      modifies this
      ensures Valid() && stages == old(stages)
      ensures r.Some? ==> old(index) < index
      ensures Popped(old(Pending()), r, Pending())
    {
      assert stages[..|stages|] == stages;
      r := NextAt(|stages|);
    }

    /** `filter`: rows the predicate rejects no longer come out. */
    method Filter(keep: Value -> bool)
      requires Valid()
      modifies this
      ensures Valid() && stages == old(stages) + [Stage.Filter(keep)] && index == old(index)
      ensures Pending() == FilterRows(keep, old(Pending()))
    {
      stages := stages + [Stage.Filter(keep)];
      assert stages[..|stages| - 1] == old(stages);
    }

    /** `map`: rows come out transformed. */
    method Map(f: Value -> Value)
      requires Valid()
      modifies this
      ensures Valid() && stages == old(stages) + [Stage.Map(f)] && index == old(index)
      ensures Pending() == MapRows(f, old(Pending()))
    {
      stages := stages + [Stage.Map(f)];
      assert stages[..|stages| - 1] == old(stages);
    }

    /** `get_last_id`: the snapshot's `last_id`, whatever the adapters. */
    function GetLastId(): int
      reads this
    {
      data.lastId
    }

    /** `collect_vec`: everything still pending, in the order it comes out. */
    method CollectVec() returns (res: seq<Value>)
      requires Valid()
      modifies this
      ensures Valid() && stages == old(stages)
      ensures res == old(Pending()) && Pending() == []
    {
      res := [];
      while true
        invariant Valid() && stages == old(stages)
        invariant res + Pending() == old(Pending())
        decreases |data.entities| - index
      {
        ghost var before := Pending();
        var next := Next();
        PoppedAppend(res, before, next, Pending());
        if next.None? {
          return;
        }
        res := res + [next.value];
      }
    }

    /** `save_to_db`: the table is rewritten with the drained rows and the
        snapshot's `last_id`. */
    method SaveToDb() returns (r: Result<()>)
      requires Valid()
      modifies this, db
      ensures (r, db.State()) == RawWrite(db.version, et, old(db.State()), et.Hash(db.digest),
                                          EntityMeta(data.lastId, old(Pending())))
    {
      var entities := CollectVec();
      var lastId := GetLastId();
      r := db.RawWriteAll(et, EntityMeta(lastId, entities));
    }
  }

  /** `Database::query_mut` / `DbQueryMut::new`: one snapshot of the table and
      no adapters. */
  method NewQueryMut(db: Database, et: EntityType) returns (r: Result<DbQueryMut>)
    requires et.Valid()
    ensures match RawRead(db.version, et, db.State(), et.Hash(db.digest))
      case Ok(m) => r.Ok? && fresh(r.value) && r.value.db == db && r.value.data == m
        && r.value.index == 0 && r.value.stages == [] && r.value.Valid()
      case Err(e) => r == Err(e)
  {
    var data :- db.RawReadAll(et);
    var q := new DbQueryMut(db, et, data);
    return Ok(q);
  }
}
