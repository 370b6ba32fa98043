/** What holds over every run of operations on the table of src/hash_table.c. */
module TableRuns {
  import opened Base
  import opened TableSpec

  datatype Op =
    | OpInsert(rec: Rec)
    | OpGet(key: Key)
    | OpReplace(rec: Rec)
    | OpRemove(key: Key)
    | OpRemoveFirst
    | OpRemoveAll
    | OpRehash(request: nat)
    | OpSetHeuristic(heuristic: Heuristic)
    | OpSetRehash(on: bool)
    | OpSetLimit(limit: nat)

  datatype Out = OutInsert(outcome: InsertOutcome) | OutPtr(p: Ptr) | OutNone

  ghost function Step(h: Hash, t: Table, op: Op): (Table, Out)
    requires WF(h, t)
  {
    match op
    case OpInsert(rec) => var (t', o) := Insert(h, t, rec); (t', OutInsert(o))
    case OpGet(key) => var (t', p) := Get(h, t, key); (t', OutPtr(p))
    case OpReplace(rec) => var (t', p) := Replace(h, t, rec); (t', OutPtr(p))
    case OpRemove(key) => var (t', p) := Remove(h, t, key); (t', OutPtr(p))
    case OpRemoveFirst => var (t', p) := RemoveFirst(h, t); (t', OutPtr(p))
    case OpRemoveAll => (RemoveAll(t), OutNone)
    case OpRehash(request) => (Rehash(h, t, request), OutNone)
    case OpSetHeuristic(heuristic) => (t.(heuristic := heuristic), OutNone)
    case OpSetRehash(on) => (t.(autoRehash := on), OutNone)
    case OpSetLimit(limit) => (t.(limit := limit), OutNone)
  }

  /** Every operation keeps the two lists consistent and keys unique. */
  lemma StepWF(h: Hash, t: Table, op: Op)
    requires WF(h, t)
    ensures WF(h, Step(h, t, op).0)
  {
    match op
    case OpInsert(rec) => InsertWF(h, t, rec);
    case OpGet(key) => TouchWF(h, t, key);
    case OpReplace(rec) => ReplaceWF(h, t, rec);
    case OpRemove(key) => UnlinkedWF(h, t, key);
    case OpRemoveFirst => if t.age != [] { UnlinkedWF(h, t, t.age[0].key); }
    case OpRemoveAll =>
    case OpRehash(request) => RehashKeeps(h, t, request);
    case _ =>
  }

  ghost function Run(h: Hash, t: Table, ops: seq<Op>): (r: (Table, seq<Out>))
    requires WF(h, t)
    ensures WF(h, r.0)
    decreases |ops|
  {
    if ops == [] then (t, []) else
      StepWF(h, t, ops[0]);
      var (t', o) := Step(h, t, ops[0]);
      var (t'', os) := Run(h, t', ops[1..]);
      (t'', [o] + os)
  }

  // ---------------------------------------------------------------------------
  // Refinement: an insertion-ordered map
  // ---------------------------------------------------------------------------

  predicate NoNulls(age: seq<Rec>) {
    forall i :: 0 <= i < |age| ==> age[i].data != NULL
  }

  /** The same operation on a plain list of records, oldest first, with unique keys. */
  function MapStep(m: seq<Rec>, op: Op): (seq<Rec>, Out) {
    match op
    case OpInsert(rec) =>
      if rec.key in Keys(m) then (m, OutInsert(Duplicate)) else (m + [rec], OutInsert(Inserted(None)))
    case OpGet(key) => (m, OutPtr(DataOf(m, key)))
    case OpReplace(rec) => (WithData(m, rec.key, rec.data), OutPtr(DataOf(m, rec.key)))
    case OpRemove(key) => (Without(m, key), OutPtr(DataOf(m, key)))
    case OpRemoveFirst => if m == [] then (m, OutPtr(NULL)) else (m[1..], OutPtr(m[0].data))
    case OpRemoveAll => ([], OutNone)
    case _ => (m, OutNone)
  }

  function MapRun(m: seq<Rec>, ops: seq<Op>): (seq<Rec>, seq<Out>)
    decreases |ops|
  {
    if ops == [] then (m, []) else
      var (m', o) := MapStep(m, ops[0]);
      var (m'', os) := MapRun(m', ops[1..]);
      (m'', [o] + os)
  }

  predicate StoresNoNull(op: Op) {
    (op.OpInsert? || op.OpReplace?) ==> op.rec.data != NULL
  }

  predicate SetsNoLimit(op: Op) {
    op.OpSetLimit? ==> op.limit == 0
  }

  lemma NoNullsUpToNull(age: seq<Rec>)
    requires NoNulls(age)
    ensures UpToNull(age) == age
  {
    UpToNullPrefix(age);
  }

  lemma InsertRefines(h: Hash, t: Table, rec: Rec)
    requires WF(h, t) && t.limit == 0 && NoNulls(t.age)
    ensures Insert(h, t, rec).0.age == if rec.key in Keys(t.age) then t.age else t.age + [rec]
    ensures Insert(h, t, rec).1 == if rec.key in Keys(t.age) then Duplicate else Inserted(None)
  {
    InsertWF(h, t, rec);
    if MustGrow(t) {
      RehashKeeps(h, t, 2 * Pow2(t.bits));
      NoNullsUpToNull(t.age);
    }
  }

  lemma StepRefines(h: Hash, t: Table, op: Op)
    requires WF(h, t) && t.limit == 0 && NoNulls(t.age)
    requires StoresNoNull(op) && SetsNoLimit(op)
    ensures Step(h, t, op).0.age == MapStep(t.age, op).0
    ensures Step(h, t, op).1 == MapStep(t.age, op).1
    ensures Step(h, t, op).0.limit == 0 && NoNulls(Step(h, t, op).0.age)
  {
    hide Pow2, BitAnd, Pos, UpToNull;
    match op
    case OpInsert(rec) => InsertRefines(h, t, rec);
    case OpGet(key) => TouchWF(h, t, key);
    case OpReplace(rec) => ReplaceWF(h, t, rec); TouchWF(h, t, rec.key);
    case OpRemove(key) => UnlinkedWF(h, t, key);
    case OpRemoveFirst => if t.age != [] { RemoveFirstIsRemoveOfOldest(h, t); }
    case OpRehash(request) => RehashKeeps(h, t, request); NoNullsUpToNull(t.age);
    case _ =>
  }

  /**
   Whatever the bucket count, the heuristic and the rehashing, an unlimited table gives the
   results of an insertion-ordered map and keeps its records in the same order.
   */
  lemma {:induction false} RunRefinesOrderedMap(h: Hash, t: Table, ops: seq<Op>)
    requires WF(h, t) && t.limit == 0 && NoNulls(t.age)
    requires forall i :: 0 <= i < |ops| ==> StoresNoNull(ops[i]) && SetsNoLimit(ops[i])
    ensures Run(h, t, ops).0.age == MapRun(t.age, ops).0
    ensures Run(h, t, ops).1 == MapRun(t.age, ops).1
    decreases |ops|
  {
    hide WF, Step, MapStep;
    if ops != [] {
      StepWF(h, t, ops[0]);
      StepRefines(h, t, ops[0]);
      RunRefinesOrderedMap(h, Step(h, t, ops[0]).0, ops[1..]);
    }
  }

  // ---------------------------------------------------------------------------
  // The heuristics only permute chains
  // ---------------------------------------------------------------------------

  /** Two unlimited tables that differ only in the heuristic and the order inside chains. */
  ghost predicate SameButOrder(t: Table, u: Table) {
    && t.bits == u.bits && t.autoRehash == u.autoRehash && t.limit == 0 && u.limit == 0
    && t.age == u.age
    && |t.chains| == |u.chains|
    && forall b :: 0 <= b < |t.chains| ==> multiset(t.chains[b]) == multiset(u.chains[b])
  }

  lemma SameMembers(t: Table, u: Table, b: nat, key: Key)
    requires SameButOrder(t, u) && b < |t.chains|
    ensures key in t.chains[b] <==> key in u.chains[b]
    ensures |t.chains[b]| == |u.chains[b]|
  {
    PermutationFacts(t.chains[b], u.chains[b]);
  }

  lemma MultisetDelete<T>(s: seq<T>, i: nat)
    requires i < |s|
    ensures multiset(Delete(s, i)) == multiset(s) - multiset{s[i]}
  {
    assert s == s[..i] + [s[i]] + s[i + 1..];
  }

  lemma SameLinked(h: Hash, t: Table, u: Table, rec: Rec)
    requires |t.chains| == Pow2(t.bits) && SameButOrder(t, u)
    ensures SameButOrder(Linked(h, t, rec), Linked(h, u, rec))
  {}

  lemma SameUnlinked(h: Hash, t: Table, u: Table, key: Key)
    requires |t.chains| == Pow2(t.bits) && SameButOrder(t, u)
    ensures SameButOrder(Unlinked(h, t, key), Unlinked(h, u, key))
  {
    var b := Bucket(h, key, t.bits);
    SameMembers(t, u, b, key);
    if key in t.chains[b] {
      MultisetDelete(t.chains[b], Pos(t.chains[b], key));
      MultisetDelete(u.chains[b], Pos(u.chains[b], key));
    }
  }

  lemma SameTouch(h: Hash, t: Table, u: Table, key: Key)
    requires |t.chains| == Pow2(t.bits) && SameButOrder(t, u)
    ensures SameButOrder(Touch(h, t, key), Touch(h, u, key))
  {
    var b := Bucket(h, key, t.bits);
    SameMembers(t, u, b, key);
    if key in t.chains[b] {
      ReorderPermutes(t.heuristic, t.chains[b], Pos(t.chains[b], key));
      ReorderPermutes(u.heuristic, u.chains[b], Pos(u.chains[b], key));
    }
  }

  lemma SameStep(h: Hash, t: Table, u: Table, op: Op, uop: Op)
    requires WF(h, t) && WF(h, u) && SameButOrder(t, u) && SetsNoLimit(op)
    requires op == uop || (op.OpSetHeuristic? && uop.OpSetHeuristic?)
    ensures SameButOrder(Step(h, t, op).0, Step(h, u, uop).0)
    ensures Step(h, t, op).1 == Step(h, u, uop).1
  {
    match op
    case OpInsert(rec) =>
      SameMembers(t, u, Bucket(h, rec.key, t.bits), rec.key);
      if !MustGrow(t) { SameLinked(h, t, u, rec); }
    case OpGet(key) => SameTouch(h, t, u, key); SameMembers(t, u, Bucket(h, key, t.bits), key);
    case OpReplace(rec) => SameTouch(h, t, u, rec.key); SameMembers(t, u, Bucket(h, rec.key, t.bits), rec.key);
    case OpRemove(key) => SameUnlinked(h, t, u, key); SameMembers(t, u, Bucket(h, key, t.bits), key);
    case OpRemoveFirst => if t.age != [] { SameUnlinked(h, t, u, t.age[0].key); }
    case _ =>
  }

  /**
   On an unlimited table the choice of heuristics, and changing it at any time, is invisible:
   all results, the age list and every bucket count are those of a run with other choices.
   */
  lemma {:induction false} HeuristicsAreInvisible(h: Hash, t: Table, u: Table, ops: seq<Op>, uops: seq<Op>)
    requires WF(h, t) && WF(h, u) && SameButOrder(t, u)
    requires |ops| == |uops|
    requires forall i :: 0 <= i < |ops| ==> SetsNoLimit(ops[i])
    requires forall i :: 0 <= i < |ops| ==> ops[i] == uops[i] || (ops[i].OpSetHeuristic? && uops[i].OpSetHeuristic?)
    ensures Run(h, t, ops).1 == Run(h, u, uops).1
    ensures SameButOrder(Run(h, t, ops).0, Run(h, u, uops).0)
    ensures forall b :: 0 <= b < |Run(h, t, ops).0.chains| ==> |Run(h, t, ops).0.chains[b]| == |Run(h, u, uops).0.chains[b]|
    decreases |ops|
  {
    hide WF, Step;
    if ops == [] {
      forall b | 0 <= b < |t.chains|
        ensures |t.chains[b]| == |u.chains[b]|
      {
        PermutationFacts(t.chains[b], u.chains[b]);
      }
    } else {
      StepWF(h, t, ops[0]);
      StepWF(h, u, uops[0]);
      SameStep(h, t, u, ops[0], uops[0]);
      HeuristicsAreInvisible(h, Step(h, t, ops[0]).0, Step(h, u, uops[0]).0, ops[1..], uops[1..]);
    }
  }

  // ---------------------------------------------------------------------------
  // Chains are newest first; eviction takes the oldest
  // ---------------------------------------------------------------------------

  /** The keys of one bucket, newest first, from all keys, oldest first. */
  function NewestFirst(h: Hash, keys: seq<Key>, bits: nat, b: nat): seq<Key> {
    if keys == [] then [] else
      var last := keys[|keys| - 1];
      (if Bucket(h, last, bits) == b then [last] else []) + NewestFirst(h, keys[..|keys| - 1], bits, b)
  }

  ghost predicate ChainsNewestFirst(h: Hash, t: Table) {
    && |t.chains| == Pow2(t.bits)
    && forall b :: 0 <= b < |t.chains| ==> t.chains[b] == NewestFirst(h, Keys(t.age), t.bits, b)
  }

  lemma NewestFirstAppend(h: Hash, keys: seq<Key>, key: Key, bits: nat, b: nat)
    ensures var c := NewestFirst(h, keys, bits, b);
            NewestFirst(h, keys + [key], bits, b) == if Bucket(h, key, bits) == b then [key] + c else c
  {
    hide Bucket;
    assert (keys + [key])[..|keys|] == keys;
    var c := NewestFirst(h, keys, bits, b);
    assert [] + c == c;
  }

  lemma LinkedNewestFirst(h: Hash, t: Table, rec: Rec)
    requires ChainsNewestFirst(h, t)
    ensures ChainsNewestFirst(h, Linked(h, t, rec))
  {
    hide NewestFirst, Pow2;
    assert Keys(t.age + [rec]) == Keys(t.age) + [rec.key];
    forall b | 0 <= b < |t.chains|
      ensures Linked(h, t, rec).chains[b] == NewestFirst(h, Keys(t.age) + [rec.key], t.bits, b)
    {
      NewestFirstAppend(h, Keys(t.age), rec.key, t.bits, b);
    }
  }

  lemma {:induction false} NewestFirstMembers(h: Hash, keys: seq<Key>, bits: nat, b: nat, key: Key)
    ensures key in NewestFirst(h, keys, bits, b) <==> key in keys && Bucket(h, key, bits) == b
    decreases |keys|
  {
    hide Bucket;
    if keys != [] {
      var n := |keys| - 1;
      NewestFirstMembers(h, keys[..n], bits, b, key);
      assert keys == keys[..n] + [keys[n]];
    }
  }

  lemma PosAfter(x: Key, c: seq<Key>, key: Key)
    requires x != key && key in c
    ensures Delete([x] + c, Pos([x] + c, key)) == [x] + Delete(c, Pos(c, key))
  {
    hide Pos;
    var xc := [x] + c;
    var i := Pos(c, key);
    assert xc[..1 + i] == [x] + c[..i];
    FirstPos(xc, key, 1 + i);
    assert xc[i + 2..] == c[i + 1..];
  }

  lemma PosFirst(c: seq<Key>, key: Key)
    ensures Delete([key] + c, Pos([key] + c, key)) == c
  {}

  lemma DeleteFromAppend(rest: seq<Key>, last: Key, i: nat)
    requires i <= |rest|
    ensures Delete(rest + [last], i) == if i == |rest| then rest else Delete(rest, i) + [last]
  {}

  lemma {:induction false} NewestFirstDelete(h: Hash, keys: seq<Key>, bits: nat, b: nat, i: nat)
    requires NoDup(keys) && i < |keys|
    ensures Bucket(h, keys[i], bits) == b ==> keys[i] in NewestFirst(h, keys, bits, b)
    ensures var c := NewestFirst(h, keys, bits, b);
            NewestFirst(h, Delete(keys, i), bits, b) ==
            if Bucket(h, keys[i], bits) == b then Delete(c, Pos(c, keys[i])) else c
    decreases |keys|
  {
    hide Bucket, NewestFirst, Delete, Pos;
    var n := |keys| - 1;
    var rest := keys[..n];
    var c := NewestFirst(h, rest, bits, b);
    assert keys == rest + [keys[n]];
    NewestFirstAppend(h, rest, keys[n], bits, b);
    DeleteFromAppend(rest, keys[n], i);
    if i == n {
      PosFirst(c, keys[n]);
    } else {
      NewestFirstDelete(h, rest, bits, b, i);
      NewestFirstAppend(h, Delete(rest, i), keys[n], bits, b);
      NewestFirstMembers(h, rest, bits, b, keys[i]);
      if Bucket(h, keys[i], bits) == b {
        PosAfter(keys[n], c, keys[i]);
      }
    }
  }

  lemma UnlinkedNewestFirst(h: Hash, t: Table, key: Key)
    requires WF(h, t) && ChainsNewestFirst(h, t)
    ensures ChainsNewestFirst(h, Unlinked(h, t, key))
  {
    var b := Bucket(h, key, t.bits);
    if key in t.chains[b] {
      var i := Pos(Keys(t.age), key);
      KeysWithout(t.age, key);
      forall b' | 0 <= b' < |t.chains|
        ensures Unlinked(h, t, key).chains[b'] == NewestFirst(h, Delete(Keys(t.age), i), t.bits, b')
      {
        NewestFirstDelete(h, Keys(t.age), t.bits, b', i);
      }
    }
  }

  lemma {:induction false} InsertAllNewestFirst(h: Hash, t: Table, recs: seq<Rec>)
    requires WF(h, t) && ChainsNewestFirst(h, t) && t.limit == 0 && NoDup(Keys(t.age + recs))
    ensures ChainsNewestFirst(h, InsertAll(h, t, recs))
    decreases |recs|
  {
    if recs != [] {
      InsertFresh(h, t, recs);
      LinkedNewestFirst(h, t, recs[0]);
      hide WF, ChainsNewestFirst;
      InsertAllNewestFirst(h, Linked(h, t, recs[0]), recs[1..]);
    }
  }

  /** Rehashing leaves every chain newest first, whatever order it had. */
  lemma RehashNewestFirst(h: Hash, t: Table, request: nat)
    requires WF(h, t)
    ensures ChainsNewestFirst(h, Rehash(h, t, request))
  {
    var kept := UpToNull(t.age);
    UpToNullPrefix(t.age);
    NoDupPrefix(t.age, |kept|);
    assert kept == t.age[..|kept|] == [] + kept;
    CreateWF(h, request);
    InsertAllNewestFirst(h, Create(request), kept);
  }

  lemma LinkOrEvictNewestFirst(h: Hash, t: Table, rec: Rec)
    requires WF(h, t) && ChainsNewestFirst(h, t)
    ensures ChainsNewestFirst(h, LinkOrEvict(h, t, rec).0)
  {
    if Overflows(h, t, rec.key) {
      var victim := Victim(h, t, rec.key);
      UnlinkedNewestFirst(h, t, victim);
      LinkedNewestFirst(h, Unlinked(h, t, victim), rec);
    } else {
      LinkedNewestFirst(h, t, rec);
    }
  }

  lemma ReplaceNewestFirst(h: Hash, t: Table, rec: Rec)
    requires WF(h, t) && ChainsNewestFirst(h, t) && t.heuristic == NoHeuristic
    ensures ChainsNewestFirst(h, Replace(h, t, rec).0)
  {
    assert Keys(WithData(t.age, rec.key, rec.data)) == Keys(t.age);
  }

  predicate SetsNoHeuristic(op: Op) {
    op.OpSetHeuristic? ==> op.heuristic == NoHeuristic
  }

  lemma StepNewestFirst(h: Hash, t: Table, op: Op)
    requires WF(h, t) && ChainsNewestFirst(h, t) && t.heuristic == NoHeuristic && SetsNoHeuristic(op)
    ensures ChainsNewestFirst(h, Step(h, t, op).0) && Step(h, t, op).0.heuristic == NoHeuristic
  {
    hide Pow2, BitAnd, Pos, UpToNull;
    match op
    case OpInsert(rec) =>
      if MustGrow(t) {
        RehashKeeps(h, t, 2 * Pow2(t.bits));
        RehashNewestFirst(h, t, 2 * Pow2(t.bits));
        LinkOrEvictNewestFirst(h, Rehash(h, t, 2 * Pow2(t.bits)), rec);
      } else {
        LinkOrEvictNewestFirst(h, t, rec);
      }
    case OpReplace(rec) => ReplaceNewestFirst(h, t, rec);
    case OpRemove(key) => UnlinkedNewestFirst(h, t, key);
    case OpRemoveFirst => if t.age != [] { UnlinkedNewestFirst(h, t, t.age[0].key); }
    case OpRehash(request) => RehashNewestFirst(h, t, request);
    case _ =>
  }

  /** With no heuristic every chain is, at all times, its part of the age list reversed. */
  lemma {:induction false} RunNewestFirst(h: Hash, t: Table, ops: seq<Op>)
    requires WF(h, t) && ChainsNewestFirst(h, t) && t.heuristic == NoHeuristic
    requires forall i :: 0 <= i < |ops| ==> SetsNoHeuristic(ops[i])
    ensures ChainsNewestFirst(h, Run(h, t, ops).0)
    decreases |ops|
  {
    hide WF, Step, ChainsNewestFirst;
    if ops != [] {
      StepWF(h, t, ops[0]);
      StepNewestFirst(h, t, ops[0]);
      RunNewestFirst(h, Step(h, t, ops[0]).0, ops[1..]);
    }
  }

  lemma {:induction false} LastIsOldest(h: Hash, keys: seq<Key>, bits: nat, b: nat, i: nat)
    requires NoDup(keys) && i < |keys|
    requires var c := NewestFirst(h, keys, bits, b); c != [] && c[|c| - 1] == keys[i]
    ensures forall j :: 0 <= j < i ==> Bucket(h, keys[j], bits) != b
    decreases |keys|
  {
    hide Bucket;
    var n := |keys| - 1;
    var rest := keys[..n];
    assert keys == rest + [keys[n]];
    NewestFirstAppend(h, rest, keys[n], bits, b);
    var c := NewestFirst(h, rest, bits, b);
    if c == [] {
      forall j | 0 <= j < n
        ensures Bucket(h, keys[j], bits) != b
      {
        NewestFirstMembers(h, rest, bits, b, rest[j]);
      }
    } else {
      NewestFirstMembers(h, rest, bits, b, keys[i]);
      LastIsOldest(h, rest, bits, b, i);
    }
  }

  lemma VictimIsOldest(h: Hash, t: Table, key: Key, i: nat)
    requires WF(h, t) && ChainsNewestFirst(h, t) && Overflows(h, t, key)
    requires i < |t.age| && t.age[i].key == Victim(h, t, key)
    ensures forall j :: 0 <= j < i ==> Bucket(h, t.age[j].key, t.bits) != Bucket(h, key, t.bits)
  {
    LastIsOldest(h, Keys(t.age), t.bits, Bucket(h, key, t.bits), i);
    assert forall j :: 0 <= j < i ==> Keys(t.age)[j] == t.age[j].key;
  }

  lemma EvictionEffect(h: Hash, t: Table, rec: Rec)
    requires WF(h, t) && rec.key !in Keys(t.age) && Overflows(h, t, rec.key)
    ensures var i := Pos(Keys(t.age), Victim(h, t, rec.key));
            && i < |t.age|
            && Bucket(h, t.age[i].key, t.bits) == Bucket(h, rec.key, t.bits)
            && LinkOrEvict(h, t, rec).1 == Inserted(Some(t.age[i]))
            && LinkOrEvict(h, t, rec).0.age == Delete(t.age, i) + [rec]
    ensures var b := Bucket(h, rec.key, t.bits);
            |LinkOrEvict(h, t, rec).0.chains| == |t.chains| && |LinkOrEvict(h, t, rec).0.chains[b]| == |t.chains[b]|
  {
    var victim := Victim(h, t, rec.key);
    assert victim in t.chains[Bucket(h, rec.key, t.bits)];
    UnlinkedWF(h, t, victim);
    hide WF;
  }

  /**
   A bounded bucket that overflows with no heuristic in use gives up its oldest entry, and the
   new entry stays as the newest of the table.
   */
  lemma EvictionTakesOldest(h: Hash, t: Table, rec: Rec)
    requires WF(h, t) && ChainsNewestFirst(h, t) && rec.key !in Keys(t.age) && Overflows(h, t, rec.key)
    ensures var b := Bucket(h, rec.key, t.bits);
            var i := Pos(Keys(t.age), Victim(h, t, rec.key));
            && i < |t.age| && Bucket(h, t.age[i].key, t.bits) == b
            && (forall j :: 0 <= j < i ==> Bucket(h, t.age[j].key, t.bits) != b)
            && LinkOrEvict(h, t, rec).1 == Inserted(Some(t.age[i]))
            && LinkOrEvict(h, t, rec).0.age == Delete(t.age, i) + [rec]
  {
    assert |t.chains| == Pow2(t.bits);
    hide WF, LinkOrEvict, ChainsNewestFirst, Bucket, Victim;
    EvictionEffect(h, t, rec);
    VictimIsOldest(h, t, rec.key, Pos(Keys(t.age), Victim(h, t, rec.key)));
  }

  /** A chain of two whose older entry is looked up: any heuristic makes the newer one the victim. */
  lemma EvictionAfterLookup(h: Hash, heuristic: Heuristic, k1: Key, k2: Key, k3: Key)
    requires k1 != k2 && k1 != k3 && k2 != k3
    ensures var t := Create(1).(heuristic := heuristic, limit := 2);
            var used := Linked(h, Linked(h, t, Rec(k1, 1)), Rec(k2, 2));
            && |used.chains| == Pow2(used.bits)
            && Get(h, used, k1).0.bits == 0 && Get(h, used, k1).0.age == [Rec(k1, 1), Rec(k2, 2)]
            && |Get(h, used, k1).0.chains| == 1
            && Overflows(h, Get(h, used, k1).0, k3)
            && Victim(h, Get(h, used, k1).0, k3) == if heuristic == NoHeuristic then k1 else k2
  {
    assert Pow2(0) == 1;
    var t := Create(1).(heuristic := heuristic, limit := 2);
    assert t.bits == 0 && t.chains == [[]];
    var used := Linked(h, Linked(h, t, Rec(k1, 1)), Rec(k2, 2));
    assert used.chains[0] == [k2, k1];
    assert [k2, k1][1..] == [k1];
    assert Get(h, used, k1).0.chains[0] == if heuristic == NoHeuristic then [k2, k1] else [k1, k2];
  }

  /** The table a run leaves that starts on an empty one with the given heuristic. */
  ghost function AfterRun(h: Hash, request: nat, heuristic: Heuristic, ops: seq<Op>): (t: Table)
    ensures WF(h, t)
  {
    CreateWF(h, request);
    Run(h, Create(request).(heuristic := heuristic), ops).0
  }

  /** No entry of the key's bucket is older than the one a new entry would push out. */
  ghost predicate TakesOldest(h: Hash, t: Table, key: Key)
    requires WF(h, t)
  {
    Overflows(h, t, key) ==>
      forall j :: 0 <= j < Pos(Keys(t.age), Victim(h, t, key)) && j < |t.age| ==>
        Bucket(h, t.age[j].key, t.bits) != Bucket(h, key, t.bits)
  }

  ghost predicate KeepsHeuristic(ops: seq<Op>) {
    forall i :: 0 <= i < |ops| ==> !ops[i].OpSetHeuristic?
  }

  /** Two insertions into a table made to have one bucket of two entries, and a lookup. */
  function LookupOldest(k1: Key, k2: Key): seq<Op> {
    [OpRehash(1), OpSetLimit(2), OpInsert(Rec(k1, 1)), OpInsert(Rec(k2, 2)), OpGet(k1)]
  }

  lemma RunStep(h: Hash, t: Table, op: Op, ops: seq<Op>)
    requires WF(h, t)
    ensures WF(h, Step(h, t, op).0)
    ensures Run(h, t, [op] + ops).0 == Run(h, Step(h, t, op).0, ops).0
  {
    hide Step;
    StepWF(h, t, op);
    assert ([op] + ops)[1..] == ops;
  }

  /** An insertion into the single bucket while there is room. */
  lemma InsertIntoOnly(h: Hash, t: Table, rec: Rec)
    requires WF(h, t) && t.bits == 0 && t.limit == 2 && !t.autoRehash
    requires |t.chains| == 1 && |t.chains[0]| < 2 && rec.key !in t.chains[0]
    ensures Step(h, t, OpInsert(rec)).0 == Linked(h, t, rec)
    ensures Linked(h, t, rec).chains == [[rec.key] + t.chains[0]]
  {
    assert Pow2(0) == 1;
    assert Bucket(h, rec.key, 0) == 0;
  }

  lemma RehashOfEmpty(h: Hash, request: nat, heuristic: Heuristic)
    ensures var t := Create(1).(heuristic := heuristic);
            && Rehash(h, Create(request).(heuristic := heuristic), 1) == t
            && t.bits == 0 && t.chains == [[]]
  {
    assert Pow2(0) == 1;
    assert NoChains(1) == [[]];
  }

  lemma LookupOldestRun(h: Hash, request: nat, heuristic: Heuristic, k1: Key, k2: Key)
    requires k1 != k2
    ensures var t := Create(1).(heuristic := heuristic, limit := 2);
            && |t.chains| == Pow2(t.bits)
            && AfterRun(h, request, heuristic, LookupOldest(k1, k2)) ==
               Get(h, Linked(h, Linked(h, t, Rec(k1, 1)), Rec(k2, 2)), k1).0
  {
    hide Run, Rehash, Get, Insert, Linked, Bucket, WF;
    CreateWF(h, request);
    WithHeuristicWF(h, request, heuristic);
    RehashOfEmpty(h, request, heuristic);
    var t0 := Create(request).(heuristic := heuristic);
    var r1, r2 := Rec(k1, 1), Rec(k2, 2);
    var last := [OpGet(k1)];
    var ops3 := [OpInsert(r2)] + last;
    var ops2 := [OpInsert(r1)] + ops3;
    var ops1 := [OpSetLimit(2)] + ops2;
    assert LookupOldest(k1, k2) == [OpRehash(1)] + ops1;
    RunStep(h, t0, OpRehash(1), ops1);
    var t1 := Create(1).(heuristic := heuristic);
    RunStep(h, t1, OpSetLimit(2), ops2);
    var t2 := t1.(limit := 2);
    InsertIntoOnly(h, t2, r1);
    RunStep(h, t2, OpInsert(r1), ops3);
    var t3 := Linked(h, t2, r1);
    LinkedShape(h, t2, r1);
    InsertIntoOnly(h, t3, r2);
    RunStep(h, t3, OpInsert(r2), last);
    var t4 := Linked(h, t3, r2);
    assert last == [OpGet(k1)] + [];
    RunStep(h, t4, OpGet(k1), []);
    RunNothing(h, Step(h, t4, OpGet(k1)).0);
  }

  lemma WithHeuristicWF(h: Hash, request: nat, heuristic: Heuristic)
    ensures WF(h, Create(request).(heuristic := heuristic))
  {
    CreateWF(h, request);
  }

  lemma LinkedShape(h: Hash, t: Table, rec: Rec)
    requires |t.chains| == Pow2(t.bits)
    ensures var t' := Linked(h, t, rec); t' == t.(age := t'.age, chains := t'.chains)
  {}

  lemma RunNothing(h: Hash, t: Table)
    requires WF(h, t)
    ensures Run(h, t, []).0 == t
  {}

  /**
   Over all runs that leave the heuristic as it is, the entry pushed out of a full bucket is
   always the bucket's oldest exactly when no search heuristic is set.
   */
  lemma EvictsOldestIffNoHeuristic(h: Hash, request: nat, heuristic: Heuristic)
    ensures (forall ops, key :: KeepsHeuristic(ops) ==> TakesOldest(h, AfterRun(h, request, heuristic, ops), key)) <==>
            heuristic == NoHeuristic
  {
    hide Run, Step, Bucket, Victim, Overflows, Get, Linked, Pos;
    if heuristic == NoHeuristic {
      forall ops, key | KeepsHeuristic(ops)
        ensures TakesOldest(h, AfterRun(h, request, heuristic, ops), key)
      {
        PlainRunTakesOldest(h, request, ops, key);
      }
    } else {
      HeuristicRunFails(h, request, heuristic);
    }
  }

  /** Setting a heuristic on an empty table is starting with it. */
  lemma SettingIsStarting(h: Hash, request: nat, from: Heuristic, to: Heuristic, ops: seq<Op>)
    ensures AfterRun(h, request, from, [OpSetHeuristic(to)] + ops) == AfterRun(h, request, to, ops)
  {
    WithHeuristicWF(h, request, from);
    WithHeuristicWF(h, request, to);
    hide Run, WF;
    RunStep(h, Create(request).(heuristic := from), OpSetHeuristic(to), ops);
  }

  lemma PlainRunTakesOldest(h: Hash, request: nat, ops: seq<Op>, key: Key)
    requires KeepsHeuristic(ops)
    ensures TakesOldest(h, AfterRun(h, request, NoHeuristic, ops), key)
  {
    hide Run, Step, Bucket;
    CreateWF(h, request);
    EmptyNewestFirst(h, request);
    RunNewestFirst(h, Create(request), ops);
    var t := AfterRun(h, request, NoHeuristic, ops);
    if Overflows(h, t, key) {
      var i := Pos(Keys(t.age), Victim(h, t, key));
      if i < |t.age| {
        VictimIsOldest(h, t, key, i);
      } else {
        VictimIsStored(h, t, key);
      }
    }
  }

  lemma EmptyNewestFirst(h: Hash, request: nat)
    ensures ChainsNewestFirst(h, Create(request))
  {}

  lemma VictimIsStored(h: Hash, t: Table, key: Key)
    requires WF(h, t) && Overflows(h, t, key)
    ensures Victim(h, t, key) in Keys(t.age)
  {}

  lemma HeuristicRunFails(h: Hash, request: nat, heuristic: Heuristic)
    requires heuristic != NoHeuristic
    ensures KeepsHeuristic(LookupOldest([1], [2])) && !TakesOldest(h, AfterRun(h, request, heuristic, LookupOldest([1], [2])), [3])
  {
    hide Run, AfterRun, Get, Linked, Victim, Overflows, Bucket, Pos, WF;
    LookupOldestRun(h, request, heuristic, [1], [2]);
    EvictionAfterLookup(h, heuristic, [1], [2], [3]);
    NewerIsNotOldest(h, AfterRun(h, request, heuristic, LookupOldest([1], [2])), [1], [2], [3]);
  }

  lemma NewerIsNotOldest(h: Hash, t: Table, k1: Key, k2: Key, k3: Key)
    requires WF(h, t) && t.bits == 0 && k1 != k2
    requires t.age == [Rec(k1, 1), Rec(k2, 2)]
    requires Overflows(h, t, k3) && Victim(h, t, k3) == k2
    ensures !TakesOldest(h, t, k3)
  {
    assert Pow2(0) == 1;
    FirstPos(Keys(t.age), k2, 1);
    assert Bucket(h, t.age[0].key, 0) == 0 == Bucket(h, k3, 0);
  }

  // ---------------------------------------------------------------------------
  // Rehashing to a size that is not smaller
  // ---------------------------------------------------------------------------

  lemma BucketOfLarger(h: Hash, key: Key, bits: nat, larger: nat)
    requires bits <= larger
    ensures Bucket(h, key, bits) == Bucket(h, key, larger) % Pow2(bits)
  {
    MaskIsMod(h(key), bits);
    MaskIsMod(h(key), larger);
    ModMod(h(key), bits, larger);
  }

  /**
   When the table does not shrink, every new bucket draws from a single old one, so no bucket
   gets longer and a per-bucket limit that held still holds.
   */
  lemma RehashKeepsBucketLimit(h: Hash, t: Table, request: nat, b: nat)
    requires WF(h, t) && t.bits <= Create(request).bits
    requires b < Pow2(Create(request).bits)
    ensures b % Pow2(t.bits) < |t.chains|
    ensures var t' := Rehash(h, t, request);
            && (forall k :: k in t'.chains[b] ==> k in t.chains[b % Pow2(t.bits)])
            && |t'.chains[b]| <= |t.chains[b % Pow2(t.bits)]|
  {
    RehashKeeps(h, t, request);
    var t' := Rehash(h, t, request);
    hide Rehash, Bucket, Create;
    forall k | k in t'.chains[b]
      ensures k in t.chains[b % Pow2(t.bits)]
    {
      BucketOfLarger(h, k, t.bits, t'.bits);
    }
    NoDupInside(t'.chains[b], t.chains[b % Pow2(t.bits)]);
  }

  // ---------------------------------------------------------------------------
  // The cost of automatic rehashing
  // ---------------------------------------------------------------------------

  /** Operations allowed while automatic rehashing is left to do its work. */
  predicate LeavesRehashAlone(op: Op) {
    StoresNoNull(op) && !op.OpRehash? && (op.OpSetRehash? ==> op.on)
  }

  /** How many entries an operation inserts again because it rehashes. */
  ghost function Moved(h: Hash, t: Table, op: Op): nat {
    if op.OpInsert? && op.rec.key !in Keys(t.age) && MustGrow(t) then |UpToNull(t.age)| else 0
  }

  ghost function TotalMoved(h: Hash, t: Table, ops: seq<Op>): nat
    requires WF(h, t)
    decreases |ops|
  {
    if ops == [] then 0 else
      StepWF(h, t, ops[0]);
      Moved(h, t, ops[0]) + TotalMoved(h, Step(h, t, ops[0]).0, ops[1..])
  }

  function Successes(outs: seq<Out>): nat {
    if outs == [] then 0
    else (if outs[0].OutInsert? && outs[0].outcome.Inserted? then 1 else 0) + Successes(outs[1..])
  }

  lemma CreatePow2(k: nat)
    ensures Create(Pow2(k)).bits == k
  {
    CreateSize(Pow2(k), k);
    var bits := Create(Pow2(k)).bits;
    if bits < k { Pow2Monotone(bits, k); }
  }

  ghost predicate Growing(t: Table) {
    t.autoRehash && NoNulls(t.age) && |t.age| <= 2 * Pow2(t.bits) + 1
  }

  lemma LinkOrEvictGrows(h: Hash, t: Table, rec: Rec)
    requires WF(h, t) && NoNulls(t.age) && rec.data != NULL
    ensures var t' := LinkOrEvict(h, t, rec).0;
            |t'.age| <= |t.age| + 1 && NoNulls(t'.age) && t'.bits == t.bits && t'.autoRehash == t.autoRehash
  {
    if Overflows(h, t, rec.key) {
      var victim := Victim(h, t, rec.key);
      assert victim in t.chains[Bucket(h, rec.key, t.bits)];
    }
  }

  lemma GrowDoubles(h: Hash, t: Table)
    requires WF(h, t) && NoNulls(t.age)
    ensures var t' := Rehash(h, t, 2 * Pow2(t.bits));
            WF(h, t') && t'.age == t.age && t'.bits == t.bits + 1 && t'.autoRehash == t.autoRehash
  {
    RehashKeeps(h, t, 2 * Pow2(t.bits));
    NoNullsUpToNull(t.age);
    CreatePow2(t.bits + 1);
  }

  lemma InsertGrows(h: Hash, t: Table, rec: Rec)
    requires WF(h, t) && Growing(t) && rec.data != NULL
    ensures var t' := Insert(h, t, rec).0;
            && Growing(t')
            && |t'.age| <= |t.age| + (if rec.key in Keys(t.age) then 0 else 1)
            && t'.bits == t.bits + (if Moved(h, t, OpInsert(rec)) > 0 then 1 else 0)
            && (Moved(h, t, OpInsert(rec)) > 0 ==> rec.key !in Keys(t.age))
            && (Moved(h, t, OpInsert(rec)) > 0 ==> Moved(h, t, OpInsert(rec)) == |t.age| == 2 * Pow2(t.bits) + 1)
  {
    hide WF, Rehash, LinkOrEvict, Insert;
    InsertCases(h, t, rec);
    if rec.key !in Keys(t.age) {
      if MustGrow(t) {
        GrowDoubles(h, t);
        NoNullsUpToNull(t.age);
        LinkOrEvictGrows(h, Rehash(h, t, 2 * Pow2(t.bits)), rec);
      } else {
        LinkOrEvictGrows(h, t, rec);
      }
    }
  }

  lemma OtherStepsShrink(h: Hash, t: Table, op: Op)
    requires WF(h, t) && Growing(t) && LeavesRehashAlone(op) && !op.OpInsert?
    ensures var t' := Step(h, t, op).0; Growing(t') && |t'.age| <= |t.age| && t'.bits == t.bits
  {
    match op
    case OpGet(key) => TouchWF(h, t, key);
    case OpReplace(rec) => ReplaceWF(h, t, rec);
    case OpRemove(key) => UnlinkedWF(h, t, key);
    case OpRemoveFirst => if t.age != [] { RemoveFirstIsRemoveOfOldest(h, t); }
    case _ =>
  }

  lemma SuccessesCons(o: Out, os: seq<Out>)
    ensures Successes([o] + os) == (if o.OutInsert? && o.outcome.Inserted? then 1 else 0) + Successes(os)
  {
    assert ([o] + os)[1..] == os;
  }

  lemma {:induction false} GrowthLedger(h: Hash, t: Table, ops: seq<Op>, n: nat)
    requires WF(h, t) && Growing(t) && |t.age| <= n
    requires forall i :: 0 <= i < |ops| ==> LeavesRehashAlone(ops[i])
    ensures var (t', outs) := Run(h, t, ops);
            && Growing(t')
            && t'.bits >= t.bits
            && TotalMoved(h, t, ops) == 2 * Pow2(t'.bits) - 2 * Pow2(t.bits) + (t'.bits - t.bits)
            && (t'.bits > t.bits ==> n + Successes(outs) >= Pow2(t'.bits) + 2)
    decreases |ops|
  {
    hide WF, Insert, Moved, LeavesRehashAlone, Keys, Successes;
    if ops != [] {
      var op := ops[0];
      StepWF(h, t, op);
      var (t1, o) := Step(h, t, op);
      if op.OpInsert? {
        AloneStores(op);
        InsertGrows(h, t, op.rec);
        InsertWF(h, t, op.rec);
        GrowthLedger(h, t1, ops[1..], if op.rec.key in Keys(t.age) then n else n + 1);
      } else {
        OtherStepsShrink(h, t, op);
        NothingMoved(h, t, op);
        GrowthLedger(h, t1, ops[1..], n);
      }
      SuccessesCons(o, Run(h, t1, ops[1..]).1);
    }
  }

  lemma AloneStores(op: Op)
    requires LeavesRehashAlone(op) && op.OpInsert?
    ensures op.rec.data != NULL
  {}

  lemma NothingMoved(h: Hash, t: Table, op: Op)
    requires !op.OpInsert?
    ensures Moved(h, t, op) == 0
  {}

  /**
   From an empty table with automatic rehashing on, there are never more than twice as many
   entries as buckets and one, and all rehashes of a run together insert again exactly
   2(s' - s) + k entries, for k doublings from s to s' buckets: at most three for each
   successful insert.
   */
  lemma AutomaticRehashCost(h: Hash, t: Table, ops: seq<Op>)
    requires WF(h, t) && t.age == [] && t.autoRehash
    requires forall i :: 0 <= i < |ops| ==> LeavesRehashAlone(ops[i])
    ensures var (t', outs) := Run(h, t, ops);
            && |t'.age| <= 2 * Pow2(t'.bits) + 1
            && t'.bits >= t.bits
            && TotalMoved(h, t, ops) == 2 * (Pow2(t'.bits) - Pow2(t.bits)) + (t'.bits - t.bits)
            && TotalMoved(h, t, ops) <= 3 * Successes(outs)
  {
    hide WF, Run, TotalMoved, Pow2, Successes, LeavesRehashAlone;
    GrowthLedger(h, t, ops, 0);
    Pow2Exceeds(Run(h, t, ops).0.bits);
  }
}
