/**
 What each operation of src/hash_table.c does, on values: the age list (oldest first) as a
 sequence of records, and every bucket chain (front first) as a sequence of keys.

 The class in HashTable.dfy is proved to compute exactly these functions on its pointers.
 A stored data pointer is a natural number and NULL is 0, as in the source, where a NULL
 result of a lookup does not tell a missing key from stored NULL data.
 */
module TableSpec {
  import opened Base
  import HashFunctions

  type Key = HashFunctions.Key
  type Ptr = nat
  const NULL: Ptr := 0

  type Hash = Key -> nat

  datatype Rec = Rec(key: Key, data: Ptr)

  datatype Heuristic = NoHeuristic | Transpose | MoveToFront

  datatype Table = Table(
    bits: nat,              // the table has 2^bits buckets
    heuristic: Heuristic,
    autoRehash: bool,
    limit: nat,             // entries allowed per bucket, 0 for no limit
    age: seq<Rec>,
    chains: seq<seq<Key>>)

  datatype InsertOutcome = Duplicate | Inserted(evicted: Option<Rec>)

  function Keys(age: seq<Rec>): seq<Key> {
    seq(|age|, i requires 0 <= i < |age| => age[i].key)
  }

  function Bucket(h: Hash, key: Key, bits: nat): (b: nat)
    ensures b < Pow2(bits)
  {
    BitAnd(h(key), Pow2(bits) - 1)
  }

  /** Masking the hash with size - 1 is taking its remainder by the size. */
  lemma BucketIsRemainder(h: Hash, key: Key, bits: nat)
    ensures Bucket(h, key, bits) == h(key) % Pow2(bits)
  {
    MaskIsMod(h(key), bits);
  }

  /** The chains are the age list split by bucket, in some order, and keys are unique. */
  ghost predicate WF(h: Hash, t: Table) {
    && |t.chains| == Pow2(t.bits)
    && NoDup(Keys(t.age))
    && (forall b :: 0 <= b < |t.chains| ==> NoDup(t.chains[b]))
    && (forall b, k :: 0 <= b < |t.chains| && k in t.chains[b] ==> Bucket(h, k, t.bits) == b && k in Keys(t.age))
    && (forall k :: k in Keys(t.age) ==> k in t.chains[Bucket(h, k, t.bits)])
  }

  // ---- records by key

  function DataOf(age: seq<Rec>, key: Key): Ptr {
    var i := Pos(Keys(age), key);
    if i < |age| then age[i].data else NULL
  }

  function Without(age: seq<Rec>, key: Key): seq<Rec> {
    var i := Pos(Keys(age), key);
    if i < |age| then Delete(age, i) else age
  }

  function WithData(age: seq<Rec>, key: Key, data: Ptr): seq<Rec> {
    var i := Pos(Keys(age), key);
    if i < |age| then age[i := Rec(key, data)] else age
  }

  // ---- ght_create

  /** The exponent reached by doubling from 2^k until the request fits. */
  function BitsFrom(request: nat, k: nat): nat
    decreases request - Pow2(k)
  {
    if Pow2(k) < request then BitsFrom(request, k + 1) else k
  }

  function NoChains(n: nat): seq<seq<Key>> {
    seq(n, _ => [])
  }

  function Create(request: nat): Table {
    var bits := BitsFrom(request, 0);
    Table(bits, NoHeuristic, false, 0, [], NoChains(Pow2(bits)))
  }

  // ---- ght_insert and ght_rehash

  /** Place a record first in its bucket chain and last in the age list. */
  function Linked(h: Hash, t: Table, rec: Rec): Table
    requires |t.chains| == Pow2(t.bits)
  {
    var b := Bucket(h, rec.key, t.bits);
    t.(age := t.age + [rec], chains := t.chains[b := [rec.key] + t.chains[b]])
  }

  /** Take a key out of its bucket chain and the age list. */
  function Unlinked(h: Hash, t: Table, key: Key): Table
    requires |t.chains| == Pow2(t.bits)
  {
    var b := Bucket(h, key, t.bits);
    var i := Pos(t.chains[b], key);
    if i < |t.chains[b]| then
      t.(age := Without(t.age, key), chains := t.chains[b := Delete(t.chains[b], i)])
    else t
  }

  predicate Overflows(h: Hash, t: Table, key: Key)
    requires |t.chains| == Pow2(t.bits)
  {
    t.limit != 0 && |t.chains[Bucket(h, key, t.bits)]| >= t.limit
  }

  /** The last entry of the chain a key belongs to. */
  function Victim(h: Hash, t: Table, key: Key): Key
    requires |t.chains| == Pow2(t.bits) && Overflows(h, t, key)
  {
    var chain := t.chains[Bucket(h, key, t.bits)];
    chain[|chain| - 1]
  }

  function LinkOrEvict(h: Hash, t: Table, rec: Rec): (Table, InsertOutcome)
    requires |t.chains| == Pow2(t.bits)
  {
    if Overflows(h, t, rec.key) then
      var victim := Victim(h, t, rec.key);
      (Linked(h, Unlinked(h, t, victim), rec), Inserted(Some(Rec(victim, DataOf(t.age, victim)))))
    else
      (Linked(h, t, rec), Inserted(None))
  }

  /** ght_insert on a table that does not rehash itself. */
  function InsertHere(h: Hash, t: Table, rec: Rec): (Table, InsertOutcome)
    requires |t.chains| == Pow2(t.bits)
  {
    if rec.key in t.chains[Bucket(h, rec.key, t.bits)] then (t, Duplicate)
    else LinkOrEvict(h, t, rec)
  }

  lemma InsertHereKeepsShape(h: Hash, t: Table, rec: Rec)
    requires |t.chains| == Pow2(t.bits)
    ensures var t' := InsertHere(h, t, rec).0;
            t'.bits == t.bits && |t'.chains| == |t.chains| && t'.limit == t.limit && t'.autoRehash == t.autoRehash
  {}

  function InsertAll(h: Hash, t: Table, recs: seq<Rec>): (t': Table)
    requires |t.chains| == Pow2(t.bits)
    ensures |t'.chains| == Pow2(t'.bits) && t'.bits == t.bits
    decreases |recs|
  {
    if recs == [] then t else
      InsertHereKeepsShape(h, t, recs[0]);
      InsertAll(h, InsertHere(h, t, recs[0]).0, recs[1..])
  }

  /** The records an iteration reaches: it ends at the first NULL data pointer. */
  function UpToNull(age: seq<Rec>): seq<Rec> {
    if age == [] || age[0].data == NULL then [] else [age[0]] + UpToNull(age[1..])
  }

  function Rehash(h: Hash, t: Table, request: nat): (t': Table)
    ensures |t'.chains| == Pow2(t'.bits)
  {
    var full := InsertAll(h, Create(request), UpToNull(t.age));
    t.(bits := full.bits, age := full.age, chains := full.chains)
  }

  predicate MustGrow(t: Table) {
    t.autoRehash && |t.age| > 2 * Pow2(t.bits)
  }

  function Insert(h: Hash, t: Table, rec: Rec): (Table, InsertOutcome)
    requires |t.chains| == Pow2(t.bits)
  {
    if rec.key in t.chains[Bucket(h, rec.key, t.bits)] then (t, Duplicate)
    else LinkOrEvict(h, if MustGrow(t) then Rehash(h, t, 2 * Pow2(t.bits)) else t, rec)
  }

  // ---- ght_get and ght_replace

  /** One chain after a hit at place i. */
  function Reorder<T>(heuristic: Heuristic, chain: seq<T>, i: nat): seq<T>
    requires i < |chain|
  {
    match heuristic
    case NoHeuristic => chain
    case Transpose => if i == 0 then chain else chain[i - 1 := chain[i]][i := chain[i - 1]]
    case MoveToFront => [chain[i]] + Delete(chain, i)
  }

  /**
   Where everything is after a hit at place i: transpose exchanges the entry with the one before
   it, move-to-front puts it first and shifts those before it back by one.
   */
  lemma ReorderPlaces<T>(heuristic: Heuristic, chain: seq<T>, i: nat, j: nat)
    requires i < |chain| && j < |chain|
    ensures |Reorder(heuristic, chain, i)| == |chain|
    ensures Reorder(heuristic, chain, i)[j] ==
            match heuristic
            case NoHeuristic => chain[j]
            case Transpose => if i > 0 && j == i then chain[i - 1] else if j + 1 == i then chain[i] else chain[j]
            case MoveToFront => if j == 0 then chain[i] else if j <= i then chain[j - 1] else chain[j]
  {}

  function Touch(h: Hash, t: Table, key: Key): Table
    requires |t.chains| == Pow2(t.bits)
  {
    var b := Bucket(h, key, t.bits);
    var i := Pos(t.chains[b], key);
    if i < |t.chains[b]| then t.(chains := t.chains[b := Reorder(t.heuristic, t.chains[b], i)]) else t
  }

  function Get(h: Hash, t: Table, key: Key): (Table, Ptr)
    requires |t.chains| == Pow2(t.bits)
  {
    (Touch(h, t, key), if key in t.chains[Bucket(h, key, t.bits)] then DataOf(t.age, key) else NULL)
  }

  function Replace(h: Hash, t: Table, rec: Rec): (Table, Ptr)
    requires |t.chains| == Pow2(t.bits)
  {
    if rec.key in t.chains[Bucket(h, rec.key, t.bits)] then
      (Touch(h, t, rec.key).(age := WithData(t.age, rec.key, rec.data)), DataOf(t.age, rec.key))
    else (t, NULL)
  }

  // ---- ght_remove, ght_remove_first, ght_remove_all

  function Remove(h: Hash, t: Table, key: Key): (Table, Ptr)
    requires |t.chains| == Pow2(t.bits)
  {
    if key in t.chains[Bucket(h, key, t.bits)] then (Unlinked(h, t, key), DataOf(t.age, key))
    else (t, NULL)
  }

  function RemoveFirst(h: Hash, t: Table): (Table, Ptr)
    requires |t.chains| == Pow2(t.bits)
  {
    if t.age == [] then (t, NULL) else (Unlinked(h, t, t.age[0].key), t.age[0].data)
  }

  function RemoveAll(t: Table): Table {
    t.(age := [], chains := NoChains(Pow2(t.bits)))
  }

  // ---------------------------------------------------------------------------
  // Every operation keeps WF
  // ---------------------------------------------------------------------------

  lemma {:induction false} CreateRoundsUp(request: nat, k: nat)
    requires k == 0 || Pow2(k - 1) < request
    ensures request <= Pow2(BitsFrom(request, k))
    ensures BitsFrom(request, k) == 0 || Pow2(BitsFrom(request, k) - 1) < request
    decreases request - Pow2(k)
  {
    if Pow2(k) < request { CreateRoundsUp(request, k + 1); }
  }

  /** The size is the least power of two at or above the request. */
  lemma CreateSize(request: nat, k: nat)
    ensures request <= Pow2(Create(request).bits)
    ensures request <= Pow2(k) ==> Create(request).bits <= k
  {
    CreateRoundsUp(request, 0);
    var bits := Create(request).bits;
    if request <= Pow2(k) && k < bits {
      if k < bits - 1 { Pow2Monotone(k, bits - 1); }
    }
  }

  lemma CreateWF(h: Hash, request: nat)
    ensures WF(h, Create(request))
  {}

  lemma LinkedWF(h: Hash, t: Table, rec: Rec)
    requires WF(h, t) && rec.key !in Keys(t.age)
    ensures WF(h, Linked(h, t, rec))
    ensures Keys(Linked(h, t, rec).age) == Keys(t.age) + [rec.key]
  {
    var t' := Linked(h, t, rec);
    assert Keys(t'.age) == Keys(t.age) + [rec.key];
  }

  lemma KeysWithout(age: seq<Rec>, key: Key)
    requires NoDup(Keys(age)) && key in Keys(age)
    ensures Keys(Without(age, key)) == Delete(Keys(age), Pos(Keys(age), key))
    ensures NoDup(Keys(Without(age, key)))
    ensures forall k :: k in Keys(Without(age, key)) <==> k in Keys(age) && k != key
  {
    var i := Pos(Keys(age), key);
    assert Keys(Without(age, key)) == Delete(Keys(age), i);
    forall k {
      InDelete(Keys(age), i, k);
    }
    InDelete(Keys(age), i, key);
  }

  lemma ChainWithout(c: seq<Key>, key: Key)
    requires NoDup(c) && key in c
    ensures var c' := Delete(c, Pos(c, key)); NoDup(c') && forall k :: k in c' <==> k in c && k != key
  {
    forall k {
      InDelete(c, Pos(c, key), k);
    }
    InDelete(c, Pos(c, key), key);
  }

  lemma UnlinkedWF(h: Hash, t: Table, key: Key)
    requires WF(h, t)
    ensures WF(h, Unlinked(h, t, key))
    ensures key in Keys(t.age) <==> key in t.chains[Bucket(h, key, t.bits)]
    ensures Unlinked(h, t, key).age == Without(t.age, key)
  {
    var b := Bucket(h, key, t.bits);
    if key in t.chains[b] {
      KeysWithout(t.age, key);
      ChainWithout(t.chains[b], key);
    }
  }

  lemma LinkOrEvictWF(h: Hash, t: Table, rec: Rec)
    requires WF(h, t) && rec.key !in Keys(t.age)
    ensures WF(h, LinkOrEvict(h, t, rec).0)
  {
    if Overflows(h, t, rec.key) {
      var victim := Victim(h, t, rec.key);
      UnlinkedWF(h, t, victim);
      assert victim in t.chains[Bucket(h, rec.key, t.bits)];
      KeysWithout(t.age, victim);
      LinkedWF(h, Unlinked(h, t, victim), rec);
    } else {
      LinkedWF(h, t, rec);
    }
  }

  lemma {:induction false} UpToNullPrefix(age: seq<Rec>)
    ensures UpToNull(age) <= age
    ensures |UpToNull(age)| < |age| ==> age[|UpToNull(age)|].data == NULL
    ensures forall i :: 0 <= i < |UpToNull(age)| ==> age[i].data != NULL
  {
    if age != [] && age[0].data != NULL {
      UpToNullPrefix(age[1..]);
      assert age == [age[0]] + age[1..];
    }
  }

  lemma InsertFresh(h: Hash, t: Table, recs: seq<Rec>)
    requires WF(h, t) && t.limit == 0 && recs != []
    requires NoDup(Keys(t.age + recs))
    ensures InsertHere(h, t, recs[0]).0 == Linked(h, t, recs[0])
    ensures WF(h, Linked(h, t, recs[0]))
    ensures Linked(h, t, recs[0]).age + recs[1..] == t.age + recs
  {
    var k := Keys(t.age + recs);
    assert k[|t.age|] == recs[0].key;
    assert forall i :: 0 <= i < |t.age| ==> k[i] == Keys(t.age)[i];
    LinkedWF(h, t, recs[0]);
    assert t.age + [recs[0]] + recs[1..] == t.age + recs;
  }

  /** Inserting fresh records into an unlimited table appends them all: no duplicate is met. */
  lemma {:induction false} InsertAllAppends(h: Hash, t: Table, recs: seq<Rec>)
    requires WF(h, t) && t.limit == 0
    requires NoDup(Keys(t.age + recs))
    ensures WF(h, InsertAll(h, t, recs))
    ensures InsertAll(h, t, recs).age == t.age + recs
    decreases |recs|
  {
    if recs == [] {
      assert t.age + recs == t.age;
    } else {
      InsertFresh(h, t, recs);
      hide WF;
      InsertAllAppends(h, Linked(h, t, recs[0]), recs[1..]);
    }
  }

  lemma NoDupPrefix(age: seq<Rec>, n: nat)
    requires NoDup(Keys(age)) && n <= |age|
    ensures NoDup(Keys(age[..n]))
    ensures forall k :: k in Keys(age[..n]) ==> k in Keys(age)
  {
    assert Keys(age[..n]) == Keys(age)[..n];
  }

  lemma RefillWF(h: Hash, recs: seq<Rec>, request: nat)
    requires NoDup(Keys(recs))
    ensures var t' := InsertAll(h, Create(request), recs);
            t'.age == recs && (forall t: Table | t.bits == t'.bits && t.age == t'.age && t.chains == t'.chains :: WF(h, t))
  {
    CreateWF(h, request);
    assert [] + recs == recs;
    InsertAllAppends(h, Create(request), recs);
  }

  /** Rehashing keeps the age list up to the first NULL data pointer, and the settings. */
  lemma RehashKeeps(h: Hash, t: Table, request: nat)
    requires WF(h, t)
    ensures var t' := Rehash(h, t, request);
            && WF(h, t') && t'.age == UpToNull(t.age) && t'.bits == Create(request).bits
            && t'.limit == t.limit && t'.heuristic == t.heuristic && t'.autoRehash == t.autoRehash
            && (forall k :: k in Keys(t'.age) ==> k in Keys(t.age))
  {
    var kept := UpToNull(t.age);
    UpToNullPrefix(t.age);
    NoDupPrefix(t.age, |kept|);
    assert kept == t.age[..|kept|];
    hide WF;
    RefillWF(h, kept, request);
  }

  /** ght_rehash retains all entries exactly when none of them has NULL data. */
  lemma RehashKeepsAllIffNoNull(h: Hash, t: Table, request: nat)
    requires WF(h, t)
    ensures Rehash(h, t, request).age == t.age <==> forall i :: 0 <= i < |t.age| ==> t.age[i].data != NULL
  {
    RehashKeeps(h, t, request);
    UpToNullPrefix(t.age);
  }

  lemma InsertWF(h: Hash, t: Table, rec: Rec)
    requires WF(h, t)
    ensures WF(h, Insert(h, t, rec).0)
    ensures Insert(h, t, rec).1.Duplicate? <==> rec.key in Keys(t.age)
  {
    if rec.key !in Keys(t.age) {
      if MustGrow(t) {
        RehashKeeps(h, t, 2 * Pow2(t.bits));
        LinkOrEvictWF(h, Rehash(h, t, 2 * Pow2(t.bits)), rec);
      } else {
        LinkOrEvictWF(h, t, rec);
      }
    }
  }

  lemma KeyInChain(h: Hash, t: Table, key: Key)
    requires WF(h, t)
    ensures |t.chains| == Pow2(t.bits)
    ensures key in Keys(t.age) <==> key in t.chains[Bucket(h, key, t.bits)]
  {}

  lemma InsertCases(h: Hash, t: Table, rec: Rec)
    requires WF(h, t)
    ensures Insert(h, t, rec) ==
            if rec.key in Keys(t.age) then (t, Duplicate)
            else if MustGrow(t) then LinkOrEvict(h, Rehash(h, t, 2 * Pow2(t.bits)), rec)
            else LinkOrEvict(h, t, rec)
  {
    KeyInChain(h, t, rec.key);
  }

  lemma SwapPermutes<T>(s: seq<T>, i: nat)
    requires 0 < i < |s|
    ensures multiset(s[i - 1 := s[i]][i := s[i - 1]]) == multiset(s)
  {}

  lemma FrontPermutes<T>(s: seq<T>, i: nat)
    requires i < |s|
    ensures multiset([s[i]] + Delete(s, i)) == multiset(s)
  {
    assert s == s[..i] + [s[i]] + s[i + 1..];
  }

  lemma {:induction false} PermutationFacts<T>(s: seq<T>, t: seq<T>)
    requires multiset(s) == multiset(t)
    ensures |s| == |t|
    ensures forall x :: x in s <==> x in t
    ensures NoDup(t) ==> NoDup(s)
  {
    assert |multiset(s)| == |multiset(t)|;
    forall x
      ensures x in s <==> x in t
    {
      assert x in multiset(s) <==> x in multiset(t);
    }
    if NoDup(t) {
      forall i, j | 0 <= i < j < |s|
        ensures s[i] != s[j]
      {
        if s[i] == s[j] {
          NoDupOnce(t, s[i]);
          TwiceCounted(s, i, j);
        }
      }
    }
  }

  lemma {:induction false} NoDupOnce<T>(t: seq<T>, x: T)
    requires NoDup(t)
    ensures multiset(t)[x] <= 1
  {
    if t != [] {
      NoDupOnce(t[1..], x);
      assert t == [t[0]] + t[1..];
      if t[0] == x {
        assert x !in t[1..];
        assert x !in multiset(t[1..]);
      }
    }
  }

  lemma TwiceCounted<T>(s: seq<T>, i: nat, j: nat)
    requires i < j < |s| && s[i] == s[j]
    ensures multiset(s)[s[i]] >= 2
  {
    assert s == s[..j] + [s[j]] + s[j + 1..];
    assert s[..j][i] == s[i];
    assert s[i] in multiset(s[..j]);
  }

  /** A hit only permutes the chain. */
  lemma ReorderPermutes<T>(heuristic: Heuristic, chain: seq<T>, i: nat)
    requires i < |chain|
    ensures multiset(Reorder(heuristic, chain, i)) == multiset(chain)
    ensures |Reorder(heuristic, chain, i)| == |chain|
    ensures NoDup(chain) ==> NoDup(Reorder(heuristic, chain, i))
    ensures forall k :: k in Reorder(heuristic, chain, i) <==> k in chain
  {
    match heuristic
    case NoHeuristic =>
    case Transpose =>
      if i > 0 {
        SwapPermutes(chain, i);
        PermutationFacts(Reorder(heuristic, chain, i), chain);
      }
    case MoveToFront =>
      FrontPermutes(chain, i);
      PermutationFacts(Reorder(heuristic, chain, i), chain);
  }

  lemma TouchWF(h: Hash, t: Table, key: Key)
    requires WF(h, t)
    ensures WF(h, Touch(h, t, key)) && Touch(h, t, key).age == t.age
    ensures key in Keys(t.age) <==> key in t.chains[Bucket(h, key, t.bits)]
  {
    var b := Bucket(h, key, t.bits);
    var i := Pos(t.chains[b], key);
    if i < |t.chains[b]| {
      ReorderPermutes(t.heuristic, t.chains[b], i);
    }
  }

  lemma TouchSettings(h: Hash, t: Table, key: Key)
    requires |t.chains| == Pow2(t.bits)
    ensures var t' := Touch(h, t, key); t' == t.(chains := t'.chains) && |t'.chains| == |t.chains|
    ensures key !in t.chains[Bucket(h, key, t.bits)] ==> Touch(h, t, key) == t
  {}

  lemma ReplaceWF(h: Hash, t: Table, rec: Rec)
    requires WF(h, t)
    ensures WF(h, Replace(h, t, rec).0)
    ensures Replace(h, t, rec).0.age == WithData(t.age, rec.key, rec.data)
  {
    TouchWF(h, t, rec.key);
    assert Keys(WithData(t.age, rec.key, rec.data)) == Keys(t.age);
  }

  lemma RemoveFirstIsRemoveOfOldest(h: Hash, t: Table)
    requires WF(h, t) && t.age != []
    ensures RemoveFirst(h, t) == Remove(h, t, t.age[0].key)
    ensures RemoveFirst(h, t).0.age == t.age[1..]
  {
    var key := t.age[0].key;
    assert Keys(t.age)[0] == key;
    NoDupPos(Keys(t.age), 0);
    UnlinkedWF(h, t, key);
  }
}
