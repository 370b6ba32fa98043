/**
 The table with bounded buckets as an ordered map: a list of records, oldest first, in which an
 insertion into a full bucket drops the oldest record of that bucket. No data is excluded: a
 rehash drops what comes from the first NULL pointer on, here as in the table.
 */
module TableBounded {
  import opened Base
  import opened TableSpec
  import opened TableRuns

  /** The records, oldest first, and the settings that decide which of them a bucket has room for. */
  datatype Bounded = Bounded(recs: seq<Rec>, bits: nat, limit: nat, autoRehash: bool)

  /** How many of the records belong to bucket b. */
  function CountIn(h: Hash, recs: seq<Rec>, bits: nat, b: nat): nat {
    if recs == [] then 0
    else
      var n := |recs| - 1;
      (if Bucket(h, recs[n].key, bits) == b then 1 else 0) + CountIn(h, recs[..n], bits, b)
  }

  /** The place of the oldest record of bucket b, or |recs|. */
  function OldestIn(h: Hash, recs: seq<Rec>, bits: nat, b: nat): (i: nat)
    ensures i <= |recs|
  {
    if recs == [] then 0
    else if Bucket(h, recs[0].key, bits) == b then 0
    else 1 + OldestIn(h, recs[1..], bits, b)
  }

  /** A rehash to the size of a request. */
  function Resized(m: Bounded, request: nat): Bounded {
    m.(recs := UpToNull(m.recs), bits := Create(request).bits)
  }

  function Room(h: Hash, m: Bounded, rec: Rec): (Bounded, Out) {
    var b := Bucket(h, rec.key, m.bits);
    var i := OldestIn(h, m.recs, m.bits, b);
    if m.limit != 0 && CountIn(h, m.recs, m.bits, b) >= m.limit && i < |m.recs| then
      (m.(recs := Delete(m.recs, i) + [rec]), OutInsert(Inserted(Some(m.recs[i]))))
    else
      (m.(recs := m.recs + [rec]), OutInsert(Inserted(None)))
  }

  function BoundedStep(h: Hash, m: Bounded, op: Op): (Bounded, Out) {
    match op
    case OpInsert(rec) =>
      if rec.key in Keys(m.recs) then (m, OutInsert(Duplicate))
      else Room(h, if m.autoRehash && |m.recs| > 2 * Pow2(m.bits) then Resized(m, 2 * Pow2(m.bits)) else m, rec)
    case OpRehash(request) => (Resized(m, request), OutNone)
    case OpSetRehash(on) => (m.(autoRehash := on), OutNone)
    case OpSetLimit(limit) => (m.(limit := limit), OutNone)
    case _ => (m.(recs := MapStep(m.recs, op).0), MapStep(m.recs, op).1)
  }

  function BoundedRun(h: Hash, m: Bounded, ops: seq<Op>): (Bounded, seq<Out>)
    decreases |ops|
  {
    if ops == [] then (m, []) else
      var (m', o) := BoundedStep(h, m, ops[0]);
      var (m'', os) := BoundedRun(h, m', ops[1..]);
      (m'', [o] + os)
  }

  /** What of a table the map keeps. */
  function View(t: Table): Bounded {
    Bounded(t.age, t.bits, t.limit, t.autoRehash)
  }

  lemma {:induction false} ChainLength(h: Hash, recs: seq<Rec>, bits: nat, b: nat)
    ensures |NewestFirst(h, Keys(recs), bits, b)| == CountIn(h, recs, bits, b)
    decreases |recs|
  {
    hide Bucket;
    if recs != [] {
      var n := |recs| - 1;
      assert Keys(recs)[..n] == Keys(recs[..n]);
      ChainLength(h, recs[..n], bits, b);
    }
  }

  lemma {:induction false} OldestIs(h: Hash, recs: seq<Rec>, bits: nat, b: nat, i: nat)
    requires i < |recs| && Bucket(h, recs[i].key, bits) == b
    requires forall j :: 0 <= j < i ==> Bucket(h, recs[j].key, bits) != b
    ensures OldestIn(h, recs, bits, b) == i
    decreases |recs|
  {
    hide Bucket;
    if i > 0 {
      assert Bucket(h, recs[0].key, bits) != b;
      OldestIs(h, recs[1..], bits, b, i - 1);
    }
  }

  lemma PlaceRefines(h: Hash, t: Table, rec: Rec)
    requires WF(h, t) && ChainsNewestFirst(h, t) && rec.key !in Keys(t.age)
    ensures var (t', o) := LinkOrEvict(h, t, rec);
            View(t') == Room(h, View(t), rec).0 && OutInsert(o) == Room(h, View(t), rec).1
  {
    hide WF, Bucket, OldestIn, CountIn, NewestFirst;
    var b := Bucket(h, rec.key, t.bits);
    BucketInTable(h, t, rec.key);
    ChainLength(h, t.age, t.bits, b);
    if Overflows(h, t, rec.key) {
      EvictionTakesOldest(h, t, rec);
      EvictionSettings(h, t, rec);
      var i := Pos(Keys(t.age), Victim(h, t, rec.key));
      OldestIs(h, t.age, t.bits, b, i);
    }
  }

  lemma BucketInTable(h: Hash, t: Table, key: Key)
    requires WF(h, t)
    ensures Bucket(h, key, t.bits) < |t.chains|
  {}

  lemma EvictionSettings(h: Hash, t: Table, rec: Rec)
    requires |t.chains| == Pow2(t.bits)
    ensures var t' := LinkOrEvict(h, t, rec).0; t' == t.(age := t'.age, chains := t'.chains)
  {}

  lemma ResizeRefines(h: Hash, t: Table, request: nat)
    requires WF(h, t)
    ensures View(Rehash(h, t, request)) == Resized(View(t), request)
  {
    hide WF, Rehash;
    RehashKeeps(h, t, request);
  }

  lemma InsertRefinesBounded(h: Hash, t: Table, rec: Rec)
    requires WF(h, t) && ChainsNewestFirst(h, t)
    ensures var (t', o) := Insert(h, t, rec);
            View(t') == BoundedStep(h, View(t), OpInsert(rec)).0 && OutInsert(o) == BoundedStep(h, View(t), OpInsert(rec)).1
  {
    hide WF, ChainsNewestFirst, LinkOrEvict, Rehash, Room, Resized, Insert, Pow2;
    InsertCases(h, t, rec);
    if rec.key !in Keys(t.age) {
      if MustGrow(t) {
        var request := 2 * Pow2(t.bits);
        RehashKeeps(h, t, request);
        RehashNewestFirst(h, t, request);
        ResizeRefines(h, t, request);
        PlaceRefines(h, Rehash(h, t, request), rec);
      } else {
        PlaceRefines(h, t, rec);
      }
    }
  }

  /** The operations that neither insert nor resize. */
  lemma OtherStepRefines(h: Hash, t: Table, op: Op)
    requires WF(h, t) && !op.OpInsert? && !op.OpRehash?
    ensures View(Step(h, t, op).0) == BoundedStep(h, View(t), op).0 && Step(h, t, op).1 == BoundedStep(h, View(t), op).1
  {
    hide Pow2, BitAnd, Pos, WF, Touch;
    match op
    case OpGet(key) =>
      KeyInChain(h, t, key);
      TouchWF(h, t, key);
      TouchSettings(h, t, key);
    case OpReplace(rec) =>
      KeyInChain(h, t, rec.key);
      ReplaceWF(h, t, rec);
      TouchSettings(h, t, rec.key);
    case OpRemove(key) =>
      KeyInChain(h, t, key);
      UnlinkedWF(h, t, key);
    case OpRemoveFirst =>
      if t.age != [] {
        KeyInChain(h, t, t.age[0].key);
        RemoveFirstIsRemoveOfOldest(h, t);
      }
    case _ =>
  }

  lemma StepRefinesBounded(h: Hash, t: Table, op: Op)
    requires WF(h, t) && ChainsNewestFirst(h, t)
    ensures View(Step(h, t, op).0) == BoundedStep(h, View(t), op).0 && Step(h, t, op).1 == BoundedStep(h, View(t), op).1
  {
    if op.OpInsert? {
      hide WF, Insert;
      InsertRefinesBounded(h, t, op.rec);
    } else if op.OpRehash? {
      hide WF, Rehash, Resized;
      ResizeRefines(h, t, op.request);
    } else {
      OtherStepRefines(h, t, op);
    }
  }

  /**
   Over every run without search heuristics, whatever the bucket limit, the resizing and the data,
   contents, order, evictions and all results are those of the bounded ordered map.
   */
  lemma {:induction false} RunRefinesBoundedMap(h: Hash, t: Table, ops: seq<Op>)
    requires WF(h, t) && ChainsNewestFirst(h, t) && t.heuristic == NoHeuristic
    requires forall i :: 0 <= i < |ops| ==> SetsNoHeuristic(ops[i])
    ensures View(Run(h, t, ops).0) == BoundedRun(h, View(t), ops).0
    ensures Run(h, t, ops).1 == BoundedRun(h, View(t), ops).1
    decreases |ops|
  {
    hide WF, ChainsNewestFirst, Step, BoundedStep, SetsNoHeuristic;
    if ops != [] {
      StepWF(h, t, ops[0]);
      StepNewestFirst(h, t, ops[0]);
      StepRefinesBounded(h, t, ops[0]);
      RunRefinesBoundedMap(h, Step(h, t, ops[0]).0, ops[1..]);
    }
  }

  /** In particular from a new table of any size. */
  lemma NewTableRefinesBoundedMap(h: Hash, request: nat, ops: seq<Op>)
    requires forall i :: 0 <= i < |ops| ==> SetsNoHeuristic(ops[i])
    ensures WF(h, Create(request))
    ensures Run(h, Create(request), ops).0.age == BoundedRun(h, Bounded([], Create(request).bits, 0, false), ops).0.recs
    ensures Run(h, Create(request), ops).1 == BoundedRun(h, Bounded([], Create(request).bits, 0, false), ops).1
  {
    CreateWF(h, request);
    EmptyNewestFirst(h, request);
    hide Run, BoundedRun;
    RunRefinesBoundedMap(h, Create(request), ops);
  }
}
