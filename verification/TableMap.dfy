/**
 The table as a finite map from keys to data together with the order in which the keys came. The
 operations here are those of Dafny's own maps and sequences; nothing is shared with TableSpec.
 */
module TableMap {
  import opened Base
  import opened TableSpec
  import opened TableRuns

  datatype OrderedMap = OrderedMap(order: seq<Key>, data: map<Key, Ptr>)

  function Lookup(m: OrderedMap, key: Key): Ptr {
    if key in m.data then m.data[key] else NULL
  }

  /** The order with a key left out. */
  function Leave(order: seq<Key>, key: Key): seq<Key> {
    if order == [] then []
    else (if order[0] == key then [] else [order[0]]) + Leave(order[1..], key)
  }

  function MapOp(m: OrderedMap, op: Op): (OrderedMap, Out) {
    match op
    case OpInsert(rec) =>
      if rec.key in m.data then (m, OutInsert(Duplicate))
      else (OrderedMap(m.order + [rec.key], m.data[rec.key := rec.data]), OutInsert(Inserted(None)))
    case OpGet(key) => (m, OutPtr(Lookup(m, key)))
    case OpReplace(rec) =>
      (if rec.key in m.data then m.(data := m.data[rec.key := rec.data]) else m, OutPtr(Lookup(m, rec.key)))
    case OpRemove(key) => (OrderedMap(Leave(m.order, key), m.data - {key}), OutPtr(Lookup(m, key)))
    case OpRemoveFirst =>
      if m.order == [] then (m, OutPtr(NULL))
      else (OrderedMap(m.order[1..], m.data - {m.order[0]}), OutPtr(Lookup(m, m.order[0])))
    case OpRemoveAll => (OrderedMap([], map[]), OutNone)
    case _ => (m, OutNone)
  }

  function MapOps(m: OrderedMap, ops: seq<Op>): (OrderedMap, seq<Out>)
    decreases |ops|
  {
    if ops == [] then (m, []) else
      var (m', o) := MapOp(m, ops[0]);
      var (m'', os) := MapOps(m', ops[1..]);
      (m'', [o] + os)
  }

  /** The map and order that a list of records stands for. */
  function AsMap(recs: seq<Rec>): OrderedMap {
    if recs == [] then OrderedMap([], map[])
    else
      var n := |recs| - 1;
      var m := AsMap(recs[..n]);
      OrderedMap(m.order + [recs[n].key], m.data[recs[n].key := recs[n].data])
  }

  lemma {:induction false} AsMapOrder(recs: seq<Rec>)
    ensures AsMap(recs).order == Keys(recs)
    ensures forall k :: k in AsMap(recs).data <==> k in Keys(recs)
  {
    if recs != [] {
      var n := |recs| - 1;
      AsMapOrder(recs[..n]);
      assert Keys(recs) == Keys(recs[..n]) + [recs[n].key];
    }
  }

  lemma {:induction false} AsMapAt(recs: seq<Rec>, i: nat)
    requires NoDup(Keys(recs)) && i < |recs|
    ensures recs[i].key in AsMap(recs).data && AsMap(recs).data[recs[i].key] == recs[i].data
  {
    var n := |recs| - 1;
    assert Keys(recs) == Keys(recs[..n]) + [recs[n].key];
    if i < n {
      assert Keys(recs)[i] != Keys(recs)[n];
      NoDupPrefix(recs, n);
      AsMapAt(recs[..n], i);
    }
  }

  lemma LookupIs(recs: seq<Rec>, key: Key)
    requires NoDup(Keys(recs))
    ensures Lookup(AsMap(recs), key) == DataOf(recs, key)
  {
    AsMapOrder(recs);
    var i := Pos(Keys(recs), key);
    if i < |recs| { AsMapAt(recs, i); }
  }

  /** A map with these keys, in this order, and this data at each is what the records stand for. */
  lemma SameMap(recs: seq<Rec>, m: OrderedMap)
    requires NoDup(Keys(recs)) && m.order == Keys(recs)
    requires forall k :: k in m.data <==> k in m.order
    requires forall i :: 0 <= i < |recs| ==> recs[i].key in m.data && m.data[recs[i].key] == recs[i].data
    ensures AsMap(recs) == m
  {
    hide AsMap, NoDup, Pos;
    AsMapOrder(recs);
    var a := AsMap(recs);
    forall k | k in m.data ensures k in a.data && a.data[k] == m.data[k] {
      var i := Pos(Keys(recs), k);
      KeyAt(recs, k);
      AsMapAt(recs, i);
    }
    assert a.data == m.data;
  }

  lemma KeyAt(recs: seq<Rec>, key: Key)
    requires key in Keys(recs)
    ensures Pos(Keys(recs), key) < |recs| && recs[Pos(Keys(recs), key)].key == key
  {}

  lemma {:induction false} LeaveIs(order: seq<Key>, key: Key)
    requires NoDup(order)
    ensures Leave(order, key) == if key in order then Delete(order, Pos(order, key)) else order
  {
    if order != [] {
      TailDistinct(order);
      hide NoDup, Delete, Pos;
      LeaveIs(order[1..], key);
      DropBehind(order, key);
    }
  }

  lemma TailDistinct(order: seq<Key>)
    requires NoDup(order) && order != []
    ensures NoDup(order[1..]) && order[0] !in order[1..]
  {}

  lemma DropBehind(order: seq<Key>, key: Key)
    requires order != []
    ensures order == [order[0]] + order[1..]
    ensures order[0] == key ==> Pos(order, key) == 0 && Delete(order, 0) == order[1..]
    ensures order[0] != key ==> (key in order <==> key in order[1..])
    ensures order[0] != key && key in order ==>
              Delete(order, Pos(order, key)) == [order[0]] + Delete(order[1..], Pos(order[1..], key))
  {
    hide Pos, Delete;
    PosStep(order, key);
    DropFirst(order);
    assert order == [order[0]] + order[1..];
    if order[0] != key && key in order {
      DeleteStep(order, Pos(order[1..], key));
    }
  }

  lemma PosStep(order: seq<Key>, key: Key)
    requires order != []
    ensures Pos(order, key) == if order[0] == key then 0 else 1 + Pos(order[1..], key)
  {}

  lemma DeleteStep<T>(s: seq<T>, i: nat)
    requires i + 1 < |s|
    ensures Delete(s, 1 + i) == [s[0]] + Delete(s[1..], i)
  {}

  lemma InsertIsMap(recs: seq<Rec>, rec: Rec)
    requires NoDup(Keys(recs)) && rec.key !in Keys(recs)
    ensures AsMap(recs + [rec]) == MapOp(AsMap(recs), OpInsert(rec)).0
  {
    AsMapOrder(recs);
    assert (recs + [rec])[..|recs|] == recs;
  }

  lemma ReplaceIsMap(recs: seq<Rec>, rec: Rec)
    requires NoDup(Keys(recs))
    ensures AsMap(WithData(recs, rec.key, rec.data)) == MapOp(AsMap(recs), OpReplace(rec)).0
  {
    hide AsMap, NoDup, Pos, Keys;
    AsMapOrder(recs);
    ReplacedKeys(recs, rec);
    if rec.key in Keys(recs) {
      var r := WithData(recs, rec.key, rec.data);
      var m := MapOp(AsMap(recs), OpReplace(rec)).0;
      forall j | 0 <= j < |r| ensures r[j].key in m.data && m.data[r[j].key] == r[j].data {
        ReplacedAt(recs, rec, j);
      }
      hide WithData;
      SameMap(r, m);
    }
  }

  lemma ReplacedKeys(recs: seq<Rec>, rec: Rec)
    ensures |Keys(recs)| == |recs| && Keys(WithData(recs, rec.key, rec.data)) == Keys(recs)
    ensures rec.key !in Keys(recs) ==> WithData(recs, rec.key, rec.data) == recs
  {}

  lemma ReplacedAt(recs: seq<Rec>, rec: Rec, j: nat)
    requires NoDup(Keys(recs)) && rec.key in Keys(recs) && j < |recs|
    ensures var r, m := WithData(recs, rec.key, rec.data), AsMap(recs);
            && |r| == |recs| && r[j].key in m.data
            && r[j].data == if r[j].key == rec.key then rec.data else m.data[r[j].key]
  {
    hide AsMap;
    var i := Pos(Keys(recs), rec.key);
    AsMapAt(recs, j);
    assert j != i ==> Keys(recs)[j] != Keys(recs)[i];
  }

  lemma DropIsMap(recs: seq<Rec>, i: nat)
    requires NoDup(Keys(recs)) && i < |recs|
    ensures AsMap(Delete(recs, i)) == OrderedMap(Delete(Keys(recs), i), AsMap(recs).data - {recs[i].key})
  {
    hide AsMap, NoDup, Keys, Delete, Pos;
    AsMapOrder(recs);
    DropKeys(recs, i);
    var r := Delete(recs, i);
    var m := OrderedMap(Delete(Keys(recs), i), AsMap(recs).data - {recs[i].key});
    forall k ensures k in m.data <==> k in m.order { InDelete(Keys(recs), i, k); }
    forall j | 0 <= j < |r| ensures r[j].key in m.data && m.data[r[j].key] == r[j].data {
      DropAt(recs, i, j);
    }
    SameMap(r, m);
  }

  lemma DropKeys(recs: seq<Rec>, i: nat)
    requires NoDup(Keys(recs)) && i < |recs|
    ensures |Keys(recs)| == |recs| && Keys(recs)[i] == recs[i].key && |Delete(recs, i)| == |recs| - 1
    ensures Keys(Delete(recs, i)) == Delete(Keys(recs), i) && NoDup(Delete(Keys(recs), i))
  {
    DeleteInside(Keys(recs), i);
  }

  lemma DeleteAt<T>(s: seq<T>, i: nat, j: nat)
    requires i < |s| && j < |s| - 1
    ensures |Delete(s, i)| == |s| - 1 && Delete(s, i)[j] == s[if j < i then j else j + 1]
  {}

  lemma KeysApart(recs: seq<Rec>, i: nat, j: nat)
    requires NoDup(Keys(recs)) && i < |recs| && j < |recs| && i != j
    ensures recs[i].key != recs[j].key
  {
    assert Keys(recs)[i] == recs[i].key && Keys(recs)[j] == recs[j].key;
  }

  lemma DropAt(recs: seq<Rec>, i: nat, j: nat)
    requires NoDup(Keys(recs)) && i < |recs| && j < |recs| - 1
    ensures var rec := Delete(recs, i)[j];
            rec.key != recs[i].key && rec.key in AsMap(recs).data && AsMap(recs).data[rec.key] == rec.data
  {
    hide AsMap, Delete, NoDup, Keys;
    var j' := if j < i then j else j + 1;
    DeleteAt(recs, i, j);
    KeysApart(recs, i, j');
    AsMapAt(recs, j');
  }

  lemma RemoveIsMap(recs: seq<Rec>, key: Key)
    requires NoDup(Keys(recs))
    ensures AsMap(Without(recs, key)) == MapOp(AsMap(recs), OpRemove(key)).0
  {
    hide AsMap, NoDup, Keys, Delete, Leave, Pos;
    AsMapOrder(recs);
    LeaveIs(Keys(recs), key);
    SameCount(recs);
    var i := Pos(Keys(recs), key);
    if i < |recs| {
      KeyAt(recs, key);
      DropIsMap(recs, i);
    } else {
      assert AsMap(recs).data - {key} == AsMap(recs).data;
    }
  }

  lemma SameCount(recs: seq<Rec>)
    ensures |Keys(recs)| == |recs| && (recs != [] ==> Keys(recs)[0] == recs[0].key)
  {}

  lemma DropFirst<T>(s: seq<T>)
    ensures s != [] ==> Delete(s, 0) == s[1..]
  {}

  lemma RemoveFirstIsMap(recs: seq<Rec>)
    requires NoDup(Keys(recs)) && recs != []
    ensures AsMap(recs[1..]) == MapOp(AsMap(recs), OpRemoveFirst).0
    ensures Lookup(AsMap(recs), recs[0].key) == recs[0].data
  {
    hide AsMap, NoDup, Keys, Delete;
    DropFirst(recs);
    DropFirst(Keys(recs));
    SameCount(recs);
    AsMapOrder(recs);
    AsMapAt(recs, 0);
    DropIsMap(recs, 0);
  }

  /** Each step on a list of records is the step on the map it stands for. */
  lemma StepIsMap(recs: seq<Rec>, op: Op)
    requires NoDup(Keys(recs))
    ensures AsMap(MapStep(recs, op).0) == MapOp(AsMap(recs), op).0 && MapStep(recs, op).1 == MapOp(AsMap(recs), op).1
  {
    hide AsMap, Lookup, Leave, DataOf, WithData, Without, Pos;
    AsMapOrder(recs);
    match op
    case OpInsert(rec) => if rec.key !in Keys(recs) { InsertIsMap(recs, rec); }
    case OpGet(key) => LookupIs(recs, key);
    case OpReplace(rec) =>
      LookupIs(recs, rec.key);
      ReplaceIsMap(recs, rec);
    case OpRemove(key) =>
      LookupIs(recs, key);
      RemoveIsMap(recs, key);
    case OpRemoveFirst => if recs != [] { RemoveFirstIsMap(recs); }
    case OpRemoveAll => EmptyIsMap();
    case _ =>
  }

  lemma EmptyIsMap()
    ensures AsMap([]) == OrderedMap([], map[])
  {}

  /**
   Over every run without NULL data and bucket limits, whatever the heuristics and the resizing,
   the results are those of a finite map with insertion order, and the table stands for it.
   */
  lemma {:induction false} RunIsMap(h: Hash, t: Table, ops: seq<Op>)
    requires WF(h, t) && t.limit == 0 && NoNulls(t.age)
    requires forall i :: 0 <= i < |ops| ==> StoresNoNull(ops[i]) && SetsNoLimit(ops[i])
    ensures AsMap(Run(h, t, ops).0.age) == MapOps(AsMap(t.age), ops).0
    ensures Run(h, t, ops).1 == MapOps(AsMap(t.age), ops).1
    decreases |ops|
  {
    hide WF, Step, MapStep, MapOp, AsMap;
    if ops != [] {
      StepWF(h, t, ops[0]);
      StepRefines(h, t, ops[0]);
      DistinctKeys(h, t);
      StepIsMap(t.age, ops[0]);
      RunIsMap(h, Step(h, t, ops[0]).0, ops[1..]);
    }
  }

  lemma DistinctKeys(h: Hash, t: Table)
    requires WF(h, t)
    ensures NoDup(Keys(t.age))
  {}

  // ---------------------------------------------------------------------------
  // One operation on any table, whatever its data, limit and heuristic
  // ---------------------------------------------------------------------------

  /** What the operations that neither insert nor resize do to the map of any table. */
  lemma OperationIsMap(h: Hash, t: Table, op: Op)
    requires WF(h, t) && (op.OpGet? || op.OpReplace? || op.OpRemove? || op.OpRemoveFirst? || op.OpRemoveAll?)
    ensures AsMap(Step(h, t, op).0.age) == MapOp(AsMap(t.age), op).0 && Step(h, t, op).1 == MapOp(AsMap(t.age), op).1
  {
    hide Pow2, BitAnd, Pos, WF, Touch, AsMap, MapOp;
    DistinctKeys(h, t);
    StepIsMap(t.age, op);
    match op
    case OpGet(key) =>
      KeyInChain(h, t, key);
      TouchWF(h, t, key);
    case OpReplace(rec) =>
      KeyInChain(h, t, rec.key);
      ReplaceWF(h, t, rec);
    case OpRemove(key) =>
      KeyInChain(h, t, key);
      UnlinkedWF(h, t, key);
    case OpRemoveFirst =>
      if t.age != [] {
        KeyInChain(h, t, t.age[0].key);
        RemoveFirstIsRemoveOfOldest(h, t);
      }
    case OpRemoveAll =>
  }

  /** What a replace stores is what a later get finds, and other keys keep their data. */
  lemma GetAfterReplace(h: Hash, t: Table, rec: Rec, key: Key)
    requires WF(h, t) && rec.key in Keys(t.age)
    ensures WF(h, Replace(h, t, rec).0)
    ensures Get(h, Replace(h, t, rec).0, key).1 == if key == rec.key then rec.data else Get(h, t, key).1
  {
    hide Replace, Get, WF, AsMap;
    KeyInChain(h, t, rec.key);
    ReplaceWF(h, t, rec);
    var t' := Replace(h, t, rec).0;
    AsMapOrder(t.age);
    OperationIsMap(h, t, OpReplace(rec));
    OperationIsMap(h, t, OpGet(key));
    OperationIsMap(h, t', OpGet(key));
  }
}
