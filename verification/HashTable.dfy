/**
 The hash table of src/hash_table.c on the heap: entries carry the four pointers of the source
 and sit in two doubly linked lists at once, a bucket chain and the list from oldest to newest.

 Each public method leaves the ghost value t equal to the function of TableSpec that describes
 the operation. The pointer structure is described by the ghost sequences age and chains.
 Freeing is not modelled: an unlinked entry is simply no longer reachable from the table.
 */
module HashTable {
  import opened Base
  import opened TableSpec
  import HashFunctions

  class Entry {
    const key: Key
    var data: Ptr
    var bucketIdx: nat
    var next: Entry?
    var prev: Entry?
    var older: Entry?
    var newer: Entry?

    constructor (key: Key, data: Ptr)
      ensures this.key == key && this.data == data
      ensures next == null && prev == null && older == null && newer == null
    {
      this.key, this.data := key, data;
      bucketIdx, next, prev, older, newer := 0, null, null, null, null;
    }
  }

  // ---------------------------------------------------------------------------
  // The two linked lists
  // ---------------------------------------------------------------------------

  ghost function At(s: seq<Entry>, i: int): Entry? {
    if 0 <= i < |s| then s[i] else null
  }

  /** The bucket chain that starts at head runs through s, and back. */
  ghost predicate Chained(s: seq<Entry>, head: Entry?)
    reads s`next, s`prev
  {
    && head == At(s, 0)
    && (forall i {:trigger s[i].next} :: 0 <= i < |s| ==> s[i].next == At(s, i + 1))
    && (forall i {:trigger s[i].prev} :: 0 <= i < |s| ==> s[i].prev == At(s, i - 1))
  }

  /** The age list runs from oldest through s to newest, and back. */
  ghost predicate Aged(s: seq<Entry>, oldest: Entry?, newest: Entry?)
    reads s`older, s`newer
  {
    && oldest == At(s, 0) && newest == At(s, |s| - 1)
    && (forall i {:trigger s[i].newer} :: 0 <= i < |s| ==> s[i].newer == At(s, i + 1))
    && (forall i {:trigger s[i].older} :: 0 <= i < |s| ==> s[i].older == At(s, i - 1))
  }

  /** Place e first in a chain. */
  method LinkFirst(e: Entry, head: Entry?, ghost s: seq<Entry>)
    requires Chained(s, head) && NoDup(s) && e !in s
    modifies e`next, e`prev, s`prev
    ensures Chained([e] + s, e)
  {
    e.next := head;
    e.prev := null;
    if head != null {
      head.prev := e;
    }
  }

  /** Take p out of its chain; returns the new head. */
  method UnlinkChain(p: Entry, head: Entry?, ghost s: seq<Entry>, ghost i: nat) returns (head': Entry?)
    requires Chained(s, head) && NoDup(s) && i < |s| && s[i] == p
    modifies s`next, s`prev
    ensures Chained(Delete(s, i), head')
  {
    head' := head;
    if p.prev != null {
      p.prev.next := p.next;
    } else {
      head' := p.next;
    }
    if p.next != null {
      p.next.prev := p.prev;
    }
  }

  /** Move p one up in its chain; returns the new head. */
  method TransposeUp(p: Entry, head: Entry?, ghost s: seq<Entry>, ghost i: nat) returns (head': Entry?)
    requires Chained(s, head) && NoDup(s) && i < |s| && s[i] == p
    modifies s`next, s`prev
    ensures Chained(if i == 0 then s else s[i - 1 := p][i := s[i - 1]], head')
  {
    head' := head;
    if p.prev != null {
      var x := p.prev;
      var a := x.prev;
      var b := p.next;
      if a != null {
        a.next := p;
      } else {
        head' := p;
      }
      if b != null {
        b.prev := x;
      }
      x.next := p.next;
      x.prev := p;
      p.next := x;
      p.prev := a;
    }
  }

  /** Move p to the front of its chain; returns the new head. */
  method MoveFirst(p: Entry, head: Entry, ghost s: seq<Entry>, ghost i: nat) returns (head': Entry)
    requires Chained(s, head) && NoDup(s) && i < |s| && s[i] == p
    modifies s`next, s`prev
    ensures Chained([p] + Delete(s, i), head')
  {
    if p == head {
      assert i == 0 && [p] + Delete(s, 0) == s;
      return head;
    }
    p.prev.next := p.next;
    if p.next != null {
      p.next.prev := p.prev;
    }
    p.next := head;
    p.prev := null;
    head.prev := p;
    head' := p;
  }

  /** What search_in_bucket does at a hit. */
  method ApplyHeuristic(heuristic: Heuristic, p: Entry, head: Entry, ghost s: seq<Entry>, ghost i: nat) returns (head': Entry?)
    requires Chained(s, head) && NoDup(s) && i < |s| && s[i] == p
    modifies s`next, s`prev
    ensures Chained(Reorder(heuristic, s, i), head')
  {
    match heuristic
    case MoveToFront => head' := MoveFirst(p, head, s, i);
    case Transpose => head' := TransposeUp(p, head, s, i);
    case NoHeuristic => head' := head;
  }

  /** Append e to the age list. */
  method LinkNewest(e: Entry, oldest: Entry?, newest: Entry?, ghost s: seq<Entry>) returns (oldest': Entry, newest': Entry)
    requires Aged(s, oldest, newest) && NoDup(s) && e !in s && e.newer == null
    modifies e`older, s`newer
    ensures Aged(s + [e], oldest', newest')
  {
    if oldest == null {
      oldest' := e;
    } else {
      oldest' := oldest;
    }
    e.older := newest;
    if newest != null {
      newest.newer := e;
    }
    newest' := e;
  }

  /** Take p out of the age list. */
  method UnlinkAge(p: Entry, oldest: Entry?, newest: Entry?, ghost s: seq<Entry>, ghost j: nat)
    returns (oldest': Entry?, newest': Entry?)
    requires Aged(s, oldest, newest) && NoDup(s) && j < |s| && s[j] == p
    modifies s`older, s`newer
    ensures Aged(Delete(s, j), oldest', newest')
  {
    oldest', newest' := oldest, newest;
    if p.older != null {
      p.older.newer := p.newer;
    } else {
      oldest' := p.newer;
    }
    if p.newer != null {
      p.newer.older := p.older;
    } else {
      newest' := p.older;
    }
  }

  // ---------------------------------------------------------------------------
  // What the lists show
  // ---------------------------------------------------------------------------

  ghost predicate ChainShows(s: seq<Entry>, keys: seq<Key>) {
    |s| == |keys| && forall i :: 0 <= i < |s| ==> s[i].key == keys[i]
  }

  ghost predicate Inside(s: seq<Entry>, all: seq<Entry>) {
    forall e :: e in s ==> e in all
  }

  /** Entry lists that carry the keys of t, every chain entry being an entry of the age list. */
  ghost predicate Shows(h: Hash, t: Table, age: seq<Entry>, chains: seq<seq<Entry>>) {
    && WF(h, t)
    && ChainShows(age, Keys(t.age))
    && |chains| == |t.chains|
    && forall b :: 0 <= b < |chains| ==> ChainShows(chains[b], t.chains[b]) && Inside(chains[b], age)
  }

  ghost predicate DataShows(s: seq<Entry>, recs: seq<Rec>)
    reads s`data
  {
    |s| == |recs| && forall i :: 0 <= i < |s| ==> s[i].data == recs[i].data
  }

  ghost predicate CountsOf(nr: seq<int>, chains: seq<seq<Entry>>) {
    |nr| == |chains| && forall b :: 0 <= b < |chains| ==> nr[b] == |chains[b]|
  }

  lemma DeleteLength<T>(s: seq<T>, i: nat)
    requires i < |s|
    ensures |Delete(s, i)| == |s| - 1
  {}

  lemma CountsKept(nr: seq<int>, chains: seq<seq<Entry>>, b: nat, c: seq<Entry>)
    requires CountsOf(nr, chains) && b < |chains| && |c| == |chains[b]|
    ensures CountsOf(nr, chains[b := c])
  {}

  lemma CountsReordered(nr: seq<int>, chains: seq<seq<Entry>>, b: nat, heuristic: Heuristic, i: nat)
    requires CountsOf(nr, chains) && b < |chains| && i < |chains[b]|
    ensures CountsOf(nr, chains[b := Reorder(heuristic, chains[b], i)])
  {
    ReorderPermutes(heuristic, chains[b], i);
  }

  lemma DataOfEvicted(s: seq<Entry>, recs: seq<Rec>, j: nat, p: Entry)
    requires DataShows(s, recs) && j < |s|
    ensures |recs| == |s| && s[j].data == recs[j].data
    ensures DataShows(Delete(s, j) + [p], Delete(recs, j) + [Rec(p.key, p.data)])
  {}

  lemma CountsAfterDelete(nr: seq<int>, chains: seq<seq<Entry>>, b: nat, i: nat)
    requires CountsOf(nr, chains) && b < |chains| && i < |chains[b]|
    ensures |nr| == |chains| && CountsOf(nr[b := nr[b] - 1], chains[b := Delete(chains[b], i)])
  {}

  lemma CountsAfter(nr: seq<int>, chains: seq<seq<Entry>>, b: nat, c: seq<Entry>)
    requires CountsOf(nr, chains) && b < |chains|
    ensures |nr| == |chains| && CountsOf(nr[b := nr[b] + |c| - |chains[b]|], chains[b := c])
  {}

  lemma DataShowsDelete(s: seq<Entry>, recs: seq<Rec>, j: nat)
    requires DataShows(s, recs) && j < |s|
    ensures DataShows(Delete(s, j), Delete(recs, j))
  {}

  lemma DataShowsAppend(s: seq<Entry>, recs: seq<Rec>, p: Entry)
    requires DataShows(s, recs)
    ensures DataShows(s + [p], recs + [Rec(p.key, p.data)])
  {}

  lemma ShowsShape(h: Hash, t: Table, age: seq<Entry>, chains: seq<seq<Entry>>)
    requires Shows(h, t, age, chains)
    ensures |chains| == |t.chains| == Pow2(t.bits) && |age| == |t.age|
    ensures forall b :: 0 <= b < |chains| ==> |chains[b]| == |t.chains[b]|
  {}

  lemma ShowsWF(h: Hash, t: Table, age: seq<Entry>, chains: seq<seq<Entry>>)
    requires Shows(h, t, age, chains)
    ensures WF(h, t)
  {}

  lemma AgeKeysDistinct(h: Hash, t: Table, age: seq<Entry>, chains: seq<seq<Entry>>, j: nat)
    requires Shows(h, t, age, chains) && j < |age|
    ensures NoDup(age) && Pos(Keys(t.age), age[j].key) == j && t.age[j].key == age[j].key
  {
    NoDupPos(Keys(t.age), j);
  }

  /** From a chain entry to its place in the age list. */
  lemma InAge(h: Hash, t: Table, age: seq<Entry>, chains: seq<seq<Entry>>, b: nat, i: nat) returns (j: nat)
    requires Shows(h, t, age, chains) && b < |chains| && i < |chains[b]|
    ensures j < |age| && age[j] == chains[b][i]
    ensures t.chains[b][i] == age[j].key && t.age[j].key == age[j].key
    ensures Pos(Keys(t.age), age[j].key) == j && Pos(t.chains[b], age[j].key) == i
    ensures Bucket(h, age[j].key, t.bits) == b
  {
    var e := chains[b][i];
    assert e in chains[b];
    j := Pos(age, e);
    AgeKeysDistinct(h, t, age, chains, j);
    NoDupPos(t.chains[b], i);
    assert e.key in t.chains[b];
  }

  /** From an entry of the age list to its place in its chain. */
  lemma InBucket(h: Hash, t: Table, age: seq<Entry>, chains: seq<seq<Entry>>, j: nat) returns (i: nat)
    requires Shows(h, t, age, chains) && j < |age|
    ensures var b := Bucket(h, age[j].key, t.bits); b < |chains| && i < |chains[b]| && chains[b][i] == age[j]
  {
    AgeKeysDistinct(h, t, age, chains, j);
    var key := age[j].key;
    assert Keys(t.age)[j] == key;
    var b := Bucket(h, key, t.bits);
    i := Pos(t.chains[b], key);
    var j' := InAge(h, t, age, chains, b, i);
  }

  lemma ShowsUnlinked(h: Hash, t: Table, age: seq<Entry>, chains: seq<seq<Entry>>, b: nat, i: nat, j: nat)
    requires Shows(h, t, age, chains)
    requires b < |chains| && i < |chains[b]| && j < |age| && chains[b][i] == age[j]
    ensures var t' := Unlinked(h, t, age[j].key); t' == t.(age := Delete(t.age, j), chains := t'.chains)
    ensures Shows(h, Unlinked(h, t, age[j].key), Delete(age, j), chains[b := Delete(chains[b], i)])
  {
    var p := age[j];
    var j' := InAge(h, t, age, chains, b, i);
    AgeKeysDistinct(h, t, age, chains, j);
    var t' := Unlinked(h, t, p.key);
    UnlinkedWF(h, t, p.key);
    KeysWithout(t.age, p.key);
    var chains' := chains[b := Delete(chains[b], i)];
    forall b' | 0 <= b' < |chains'|
      ensures Inside(chains'[b'], Delete(age, j))
    {
      forall e | e in chains'[b']
        ensures e in Delete(age, j)
      {
        InsideStays(h, t, age, chains, b, i, j, b', e);
      }
    }
    hide WF;
    assert ChainShows(Delete(age, j), Keys(t'.age));
    assert ChainShows(Delete(chains[b], i), t'.chains[b]);
  }

  lemma InsideStays(h: Hash, t: Table, age: seq<Entry>, chains: seq<seq<Entry>>, b: nat, i: nat, j: nat, b': nat, e: Entry)
    requires Shows(h, t, age, chains)
    requires b < |chains| && i < |chains[b]| && j < |age| && chains[b][i] == age[j]
    requires b' < |chains| && e in chains[b := Delete(chains[b], i)][b']
    ensures e in Delete(age, j)
  {
    var j' := InAge(h, t, age, chains, b, i);
    AgeKeysDistinct(h, t, age, chains, j);
    DeleteInside(chains[b], i);
    assert e in chains[b'];
    var k := Pos(chains[b'], e);
    var j2 := InAge(h, t, age, chains, b', k);
    assert NoDup(chains[b]);
    InDelete(age, j, e);
  }

  lemma ShowsLinked(h: Hash, t: Table, age: seq<Entry>, chains: seq<seq<Entry>>, p: Entry, rec: Rec)
    requires Shows(h, t, age, chains) && rec.key == p.key && rec.key !in Keys(t.age)
    ensures var t' := Linked(h, t, rec); t' == t.(age := t.age + [rec], chains := t'.chains)
    ensures var b := Bucket(h, rec.key, t.bits);
            b < |chains| && Shows(h, Linked(h, t, rec), age + [p], chains[b := [p] + chains[b]])
  {
    var b := Bucket(h, rec.key, t.bits);
    var t' := Linked(h, t, rec);
    LinkedWF(h, t, rec);
    var chains' := chains[b := [p] + chains[b]];
    hide WF;
    assert ChainShows(age + [p], Keys(t'.age));
    forall b' | 0 <= b' < |chains'|
      ensures ChainShows(chains'[b'], t'.chains[b']) && Inside(chains'[b'], age + [p])
    {
      assert Inside(chains[b'], age);
    }
  }

  lemma VictimEntry(h: Hash, t: Table, age: seq<Entry>, chains: seq<seq<Entry>>, rec: Rec) returns (j: nat)
    requires Shows(h, t, age, chains) && |t.chains| == Pow2(t.bits) && Overflows(h, t, rec.key)
    ensures var b := Bucket(h, rec.key, t.bits);
            b < |chains| && chains[b] != [] && j < |age| && age[j] == chains[b][|chains[b]| - 1]
    ensures j < |t.age| && t.age[j].key == age[j].key
    ensures LinkOrEvict(h, t, rec) == (Linked(h, Unlinked(h, t, age[j].key), rec), Inserted(Some(t.age[j])))
    ensures rec.key !in Keys(t.age) ==> rec.key !in Keys(Delete(t.age, j))
  {
    hide Shows, WF, Bucket, Linked, Unlinked, Pos;
    ShowsShape(h, t, age, chains);
    BucketBound(h, rec.key, t.bits);
    var b := Bucket(h, rec.key, t.bits);
    j := InAge(h, t, age, chains, b, |chains[b]| - 1);
    FreshAfterDelete(t.age, j, rec.key);
  }

  lemma BucketBound(h: Hash, key: Key, bits: nat)
    ensures Bucket(h, key, bits) < Pow2(bits)
  {}

  lemma FreshAfterDelete(age: seq<Rec>, j: nat, key: Key)
    requires j < |age|
    ensures key !in Keys(age) ==> key !in Keys(Delete(age, j))
  {
    DeleteInside(Keys(age), j);
    assert Keys(Delete(age, j)) == Delete(Keys(age), j);
  }

  /** The two list updates of an insert that overflows its bucket. */
  lemma ShowsEvicted(h: Hash, t: Table, age: seq<Entry>, chains: seq<seq<Entry>>, p: Entry, rec: Rec) returns (j: nat)
    requires Shows(h, t, age, chains) && rec.key == p.key && rec.key !in Keys(t.age)
    requires |t.chains| == Pow2(t.bits) && Overflows(h, t, rec.key)
    ensures var b := Bucket(h, rec.key, t.bits);
            var t' := LinkOrEvict(h, t, rec).0;
            && b < |chains| && chains[b] != [] && j < |age| == |t.age| && age[j] == chains[b][|chains[b]| - 1]
            && LinkOrEvict(h, t, rec).1 == Inserted(Some(t.age[j])) && t.age[j].key == age[j].key
            && t' == t.(age := Delete(t.age, j) + [rec], chains := t'.chains)
            && Shows(h, t', Delete(age, j) + [p], chains[b := Delete([p] + chains[b], |chains[b]|)])
  {
    hide WF, Shows, Overflows, Linked, Unlinked, LinkOrEvict, Bucket;
    ShowsShape(h, t, age, chains);
    j := VictimEntry(h, t, age, chains, rec);
    var b := Bucket(h, rec.key, t.bits);
    var i := |chains[b]| - 1;
    ShowsUnlinked(h, t, age, chains, b, i, j);
    var t1 := Unlinked(h, t, age[j].key);
    var chains1 := chains[b := Delete(chains[b], i)];
    ShowsShape(h, t1, Delete(age, j), chains1);
    ShowsLinked(h, t1, Delete(age, j), chains1, p, rec);
    assert Delete([p] + chains[b], |chains[b]|) == [p] + Delete(chains[b], i);
    assert chains1[b := [p] + chains1[b]] == chains[b := Delete([p] + chains[b], |chains[b]|)];
  }

  lemma RehashShows(h: Hash, t: Table, request: nat, full: Table, age: seq<Entry>, chains: seq<seq<Entry>>)
    requires full == InsertAll(h, Create(request), UpToNull(t.age)) && Shows(h, full, age, chains)
    ensures var t' := TableSpec.Rehash(h, t, request);
            t' == t.(bits := full.bits, age := full.age, chains := full.chains) && Shows(h, t', age, chains)
  {}

  lemma ShowsEmptied(h: Hash, t: Table)
    ensures Shows(h, RemoveAll(t), [], seq(Pow2(t.bits), _ => []))
  {}

  lemma ShowsAnyHash(h: Hash, h': Hash, t: Table, age: seq<Entry>, chains: seq<seq<Entry>>)
    requires Shows(h, t, age, chains) && age == []
    ensures Shows(h', t, age, chains)
  {
    assert Keys(t.age) == [];
    forall b, k | 0 <= b < |t.chains|
      ensures k !in t.chains[b]
    {
      assert k in t.chains[b] ==> k in Keys(t.age);
    }
  }

  lemma ShowsTouch(h: Hash, t: Table, age: seq<Entry>, chains: seq<seq<Entry>>, key: Key)
    requires Shows(h, t, age, chains)
    ensures var b := Bucket(h, key, t.bits);
            var i := Pos(t.chains[b], key);
            && b < |chains|
            && |chains[b]| == |t.chains[b]|
            && Shows(h, Touch(h, t, key), age,
                     if i < |chains[b]| then chains[b := Reorder(t.heuristic, chains[b], i)] else chains)
  {
    hide WF, Bucket;
    ShowsWF(h, t, age, chains);
    TouchWF(h, t, key);
    KeyInChain(h, t, key);
    var b := Bucket(h, key, t.bits);
    var i := Pos(t.chains[b], key);
    if i < |chains[b]| {
      ReorderShows(t.heuristic, chains[b], t.chains[b], i, age);
    }
  }

  lemma ReorderShows(heuristic: Heuristic, c: seq<Entry>, keys: seq<Key>, i: nat, age: seq<Entry>)
    requires ChainShows(c, keys) && Inside(c, age) && i < |c|
    ensures ChainShows(Reorder(heuristic, c, i), Reorder(heuristic, keys, i))
    ensures Inside(Reorder(heuristic, c, i), age)
  {
    hide Reorder, NoDup;
    ReorderPermutes(heuristic, c, i);
    ReorderPermutes(heuristic, keys, i);
    forall j | 0 <= j < |c| ensures Reorder(heuristic, c, i)[j].key == Reorder(heuristic, keys, i)[j] {
      ReorderPlaces(heuristic, c, i, j);
      ReorderPlaces(heuristic, keys, i, j);
    }
    forall e | e in Reorder(heuristic, c, i) ensures e in age {
      var j :| 0 <= j < |c| && Reorder(heuristic, c, i)[j] == e;
      ReorderPlaces(heuristic, c, i, j);
    }
  }

  lemma ShowsWithData(h: Hash, t: Table, age: seq<Entry>, chains: seq<seq<Entry>>, key: Key, data: Ptr)
    requires Shows(h, t, age, chains)
    ensures var t' := t.(age := WithData(t.age, key, data)); Shows(h, t', age, chains)
  {
    assert Keys(WithData(t.age, key, data)) == Keys(t.age);
  }

  ghost predicate DisjointKeys(r: seq<Rec>, s: seq<Rec>) {
    forall k :: k in Keys(r) ==> k !in Keys(s)
  }

  ghost predicate EndsWith<T>(s: seq<T>, rest: seq<T>) {
    |rest| <= |s| && s[|s| - |rest|..] == rest
  }

  lemma EndsWithDelete<T>(s: seq<T>, rest: seq<T>, j: nat)
    requires EndsWith(s, rest) && j < |s| - |rest|
    ensures EndsWith(Delete(s, j), rest)
  {}

  lemma PosBeforeSuffix(recs: seq<Rec>, key: Key, rest: seq<Rec>)
    requires EndsWith(recs, rest) && key in Keys(recs) && key !in Keys(rest)
    ensures Pos(Keys(recs), key) < |recs| - |rest|
  {
    var m := |recs| - |rest|;
    forall i | m <= i < |recs|
      ensures Keys(recs)[i] != key
    {
      assert recs[m..][i - m] == recs[i];
      assert Keys(rest)[i - m] == recs[i].key;
    }
  }

  lemma EndsWithTail<T>(s: seq<T>, all: seq<T>, n: nat)
    requires n < |all| && EndsWith(s, all[n..])
    ensures EndsWith(s, all[n + 1..])
  {
    var m := |s| - |all[n..]|;
    assert s[m + 1..] == s[m..][1..];
    assert all[n + 1..] == all[n..][1..];
  }

  lemma WholeSuffix<T>(s: seq<T>)
    ensures EndsWith(s, s[0..])
  {}

  lemma EndsWithAt<T>(s: seq<T>, all: seq<T>, n: nat)
    requires n <= |all| && EndsWith(s, all[n..])
    ensures var j := |s| - (|all| - n);
            && 0 <= j
            && (n < |all| ==> j < |s| && s[j] == all[n])
            && (n + 1 < |all| ==> s[j + 1] == all[n + 1])
  {
    var j := |s| - (|all| - n);
    assert n < |all| ==> s[j..][0] == all[n..][0];
    assert n + 1 < |all| ==> s[j..][1] == all[n..][1];
  }

  lemma DataAt(s: seq<Entry>, recs: seq<Rec>, j: nat)
    requires DataShows(s, recs) && j < |s|
    ensures |recs| == |s| && s[j].data == recs[j].data
  {}

  lemma RemoveSpec(h: Hash, t: Table, key: Key)
    requires WF(h, t)
    ensures |t.chains| == Pow2(t.bits)
    ensures key in Keys(t.age) <==> key in t.chains[Bucket(h, key, t.bits)]
    ensures TableSpec.Remove(h, t, key) ==
            if key in Keys(t.age) then (Unlinked(h, t, key), DataOf(t.age, key)) else (t, NULL)
  {
    UnlinkedWF(h, t, key);
  }

  lemma RemovedAge(h: Hash, t: Table, key: Key)
    requires WF(h, t)
    ensures |t.chains| == Pow2(t.bits)
    ensures TableSpec.Remove(h, t, key).0.age ==
            if key in Keys(t.age) then Delete(t.age, Pos(Keys(t.age), key)) else t.age
  {
    UnlinkedWF(h, t, key);
  }

  /** The n-th entry is what the n-th visit yields, and no key visited so far comes again. */
  lemma VisitStep(h: Hash, t: Table, age: seq<Entry>, chains: seq<seq<Entry>>, n: nat)
    requires Shows(h, t, age, chains) && n < |age|
    ensures n < |t.age| && age[n].key == t.age[n].key
    ensures t.age[..n] + [t.age[n]] == t.age[..n + 1]
    ensures DisjointKeys(t.age[..n + 1], t.age[n + 1..])
  {
    assert Keys(t.age)[n] == t.age[n].key;
    assert Keys(t.age[..n + 1]) == Keys(t.age)[..n + 1];
    assert Keys(t.age[n + 1..]) == Keys(t.age)[n + 1..];
  }

  lemma CopyDone(h: Hash, t: Table, age: seq<Rec>, n: nat)
    requires |t.chains| == Pow2(t.bits) && n <= |age| && (n < |age| ==> age[n].data == NULL)
    ensures InsertAll(h, t, UpToNull(age[n..])) == t
  {}

  lemma {:induction false} UpToNullIs(recs: seq<Rec>, n: nat)
    requires n <= |recs| && (n < |recs| ==> recs[n].data == NULL)
    requires forall i :: 0 <= i < n ==> recs[i].data != NULL
    ensures UpToNull(recs) == recs[..n]
  {
    if n > 0 {
      UpToNullIs(recs[1..], n - 1);
      assert recs[..n] == [recs[0]] + recs[1..][..n - 1];
    }
  }

  /** One pass of the copying loop of ght_rehash. */
  lemma CopyStep(h: Hash, t: Table, age: seq<Rec>, n: nat)
    requires |t.chains| == Pow2(t.bits) && !t.autoRehash
    requires n < |age| && age[n].data != NULL
    ensures var t' := TableSpec.Insert(h, t, age[n]).0;
            && |t'.chains| == Pow2(t'.bits) && !t'.autoRehash
            && InsertAll(h, t, UpToNull(age[n..])) == InsertAll(h, t', UpToNull(age[n + 1..]))
  {
    assert TableSpec.Insert(h, t, age[n]) == InsertHere(h, t, age[n]);
    InsertHereKeepsShape(h, t, age[n]);
    assert age[n..][1..] == age[n + 1..];
    var rest := UpToNull(age[n + 1..]);
    assert UpToNull(age[n..]) == [age[n]] + rest;
    assert ([age[n]] + rest)[1..] == rest;
  }

  lemma StaysPlain(h: Hash, t: Table, rec: Rec)
    requires |t.chains| == Pow2(t.bits) && !t.autoRehash
    ensures !TableSpec.Insert(h, t, rec).0.autoRehash
  {
    InsertHereKeepsShape(h, t, rec);
  }

  /** The iterator of the source: the current entry and, read in advance, the next one. */
  datatype Iterator = Iterator(entry: Entry?, next: Entry?)

  class Ght {
    var items: nat
    var size: nat
    var mask: nat
    var hash: Hash
    var heuristic: Heuristic
    var autoRehash: bool
    var limit: nat
    var entries: array<Entry?>
    var nr: array<int>
    var oldest: Entry?
    var newest: Entry?

    ghost var age: seq<Entry>
    ghost var chains: seq<seq<Entry>>
    ghost var nodes: set<Entry>
    ghost var t: Table

    // ---- the pointer structure

    ghost predicate BucketLinked(b: nat)
      requires b < |chains| == entries.Length
      reads `chains, `entries, `nodes, entries, chains[b]`next, chains[b]`prev, chains[b]`bucketIdx
    {
      && NoDup(chains[b])
      && (forall e :: e in chains[b] ==> e in nodes && e.bucketIdx == b)
      && Chained(chains[b], entries[b])
    }

    ghost predicate BucketsLinked()
      reads `chains, `entries, `nodes, `size, entries, nodes`next, nodes`prev, nodes`bucketIdx
    {
      && |chains| == entries.Length == size
      && forall b :: 0 <= b < |chains| ==> (forall e :: e in chains[b] ==> e in nodes) && BucketLinked(b)
    }

    ghost predicate AgeLinked()
      reads `age, `nodes, `oldest, `newest, nodes`older, nodes`newer
    {
      NoDup(age) && (forall e :: e in age ==> e in nodes) && Aged(age, oldest, newest)
    }

    // ---- the pointer structure shows t

    ghost predicate Valid()
      reads this, entries, nr, nodes
    {
      && BucketsLinked() && AgeLinked()
      && nr.Length == size && nr as object != entries
      && size == Pow2(t.bits) && mask == size - 1
      && heuristic == t.heuristic && autoRehash == t.autoRehash && limit == t.limit
      && Shows(hash, t, age, chains)
      && DataShows(age, t.age)
      && Counted()
    }

    /** The counters of the table and of every bucket. */
    ghost predicate Counted()
      reads `items, `age, `chains, `nr, nr
    {
      items == |age| && CountsOf(nr[..], chains)
    }

    lemma Opened()
      requires Valid()
      ensures BucketsLinked() && AgeLinked() && nr.Length == size == |chains| == entries.Length && nr as object != entries
      ensures size == Pow2(t.bits) && mask == size - 1
      ensures heuristic == t.heuristic && autoRehash == t.autoRehash && limit == t.limit
      ensures Shows(hash, t, age, chains) && DataShows(age, t.age)
      ensures items == |age| == |t.age| && CountsOf(nr[..], chains)
      ensures forall e :: e in age ==> e in nodes
    {}

    lemma Closed()
      requires BucketsLinked() && AgeLinked() && nr.Length == size && nr as object != entries
      requires size == Pow2(t.bits) && mask == size - 1
      requires heuristic == t.heuristic && autoRehash == t.autoRehash && limit == t.limit
      requires Shows(hash, t, age, chains) && DataShows(age, t.age)
      requires items == |age| && CountsOf(nr[..], chains)
      ensures Valid()
    {}

    ghost function Repr(): set<object>
      reads this
    {
      {this, entries, nr} + nodes
    }

    /** ght_create. */
    constructor (request: nat)
      ensures Valid() && t == Create(request)
      ensures fresh(entries) && fresh(nr) && nodes == {} && items == 0 && !autoRehash
      ensures hash == ((key: Key) => HashFunctions.OneAtATime(key) as nat)
    {
      var size, mask := RoundUp(request);
      this.size, this.mask, items := size, mask, 0;
      hash := (key: Key) => HashFunctions.OneAtATime(key) as nat;
      heuristic, autoRehash, limit := NoHeuristic, false, 0;
      entries := new Entry?[size](_ => null);
      nr := new int[size](_ => 0);
      oldest, newest := null, null;
      age, nodes, t := [], {}, Create(request);
      chains := seq(size, _ => []);
      new;
      CreateWF(this.hash, request);
      hide WF, Create;
      assert forall b :: 0 <= b < size ==> chains[b] == [];
      assert forall b :: 0 <= b < size ==> BucketLinked(b);
      assert t.chains == NoChains(size);
    }

    static method RoundUp(request: nat) returns (size: nat, mask: nat)
      ensures size == Pow2(BitsFrom(request, 0)) && mask == size - 1
    {
      size := 1;
      var i := 1;
      while size < request
        invariant i >= 1 && size == Pow2(i - 1)
        invariant BitsFrom(request, i - 1) == BitsFrom(request, 0)
        decreases request - size
      {
        size := Pow2(i);
        i := i + 1;
      }
      mask := Pow2(i - 1) - 1;
    }

    function BucketOf(key: Key): nat
      reads this
    {
      BitAnd(hash(key), mask)
    }

    /** Relinking the entries of one bucket leaves the other buckets as they were. */
    twostate lemma OneBucketRelinked(b: nat, new c: seq<Entry>)
      requires old(BucketsLinked()) && b < size
      requires entries == old(entries) && size == old(size) && chains == old(chains)[b := c] && old(nodes) <= nodes
      requires forall b' :: 0 <= b' < size && b' != b ==> entries[b'] == old(entries[b'])
      requires forall e :: e in old(nodes) && e !in old(chains[b]) ==> e.next == old(e.next) && e.prev == old(e.prev)
      requires forall e :: e in old(nodes) ==> e.bucketIdx == old(e.bucketIdx)
      requires NoDup(c)
      requires Chained(c, entries[b])
      requires forall e :: e in c ==> e in nodes && e.bucketIdx == b
      ensures BucketsLinked()
    {
      forall b' | 0 <= b' < |chains|
        ensures BucketLinked(b') && forall e :: e in chains[b'] ==> e in nodes
      {
        assert old(BucketLinked(b'));
        if b' != b {
          assert old(BucketLinked(b));
          assert forall e :: e in chains[b'] ==> e !in old(chains[b]);
        }
      }
    }

    lemma LinkedAt(b: nat)
      requires BucketsLinked() && b < size
      ensures NoDup(chains[b]) && Chained(chains[b], entries[b])
      ensures forall e :: e in chains[b] ==> e in nodes && e.bucketIdx == b
    {
      assert BucketLinked(b);
    }

    method UnlinkFromBucket(b: nat, p: Entry, ghost i: nat)
      requires BucketsLinked() && b < size
      requires i < |chains[b]| && chains[b][i] == p
      modifies entries, `chains, nodes`next, nodes`prev
      ensures BucketsLinked()
      ensures chains == old(chains)[b := Delete(old(chains[b]), i)]
    {
      LinkedAt(b);
      var head := UnlinkChain(p, entries[b], chains[b], i);
      entries[b] := head;
      DeleteInside(chains[b], i);
      ghost var c := Delete(chains[b], i);
      chains := chains[b := c];
      OneBucketRelinked(b, c);
    }

    method UnlinkFromAge(p: Entry, ghost j: nat)
      requires AgeLinked() && j < |age| && age[j] == p
      modifies `oldest, `newest, `age, age`older, age`newer
      ensures AgeLinked() && age == Delete(old(age), j)
    {
      oldest, newest := UnlinkAge(p, oldest, newest, age, j);
      DeleteInside(age, j);
      age := Delete(age, j);
    }

    /** remove_from_chain: out of bucket b and out of the age list. */
    method RemoveFromChain(b: nat, p: Entry, ghost i: nat, ghost j: nat)
      requires BucketsLinked() && AgeLinked() && b < size
      requires i < |chains[b]| && chains[b][i] == p
      requires j < |age| && age[j] == p
      modifies entries, `oldest, `newest, `age, `chains, nodes`next, nodes`prev, age`older, age`newer
      ensures BucketsLinked() && AgeLinked()
      ensures chains == old(chains)[b := Delete(old(chains[b]), i)]
      ensures age == Delete(old(age), j)
    {
      UnlinkFromBucket(b, p, i);
      UnlinkFromAge(p, j);
    }

    method LinkInBucket(b: nat, p: Entry)
      requires BucketsLinked() && AgeLinked() && b < size && p !in nodes
      modifies entries, `chains, `nodes, p`next, p`prev, p`bucketIdx, nodes`prev
      ensures BucketsLinked() && AgeLinked() && nodes == old(nodes) + {p} && p !in age
      ensures chains == old(chains)[b := [p] + old(chains[b])]
    {
      LinkedAt(b);
      p.bucketIdx := b;
      LinkFirst(p, entries[b], chains[b]);
      entries[b] := p;
      nodes := nodes + {p};
      ghost var c := [p] + chains[b];
      chains := chains[b := c];
      OneBucketRelinked(b, c);
    }

    lemma DistinctAge()
      requires AgeLinked() && BucketsLinked()
      ensures NoDup(age) && |chains| == size == entries.Length
    {}

    method LinkInAge(p: Entry)
      requires AgeLinked() && p in nodes && p !in age && p.newer == null
      modifies `oldest, `newest, `age, nodes`older, nodes`newer
      ensures AgeLinked() && age == old(age) + [p]
    {
      oldest, newest := LinkNewest(p, oldest, newest, age);
      age := age + [p];
    }

    /** The loop of search_in_bucket. */
    method Find(b: nat, key: Key) returns (e: Entry?, ghost i: nat)
      requires Valid() && b < size
      ensures i == Pos(t.chains[b], key) && e == At(chains[b], Pos(t.chains[b], key))
    {
      LinkedAt(b);
      assert ChainShows(chains[b], t.chains[b]);
      ghost var keys := t.chains[b];
      e, i := entries[b], 0;
      while e != null
        invariant i <= |keys| && e == At(chains[b], i) && key !in keys[..i]
        decreases |keys| - i
      {
        if e.key == key {
          assert keys[i] == key;
          assert Pos(keys, key) < |keys|;
          assert key !in keys[..i];
          FirstPos(keys, key, i);
          return;
        }
        assert keys[..i + 1] == keys[..i] + [keys[i]];
        e := e.next;
        i := i + 1;
      }
      assert keys[..i] == keys;
    }

    // ---- ght_remove and ght_remove_first

    /** One entry more or less, in the table and in bucket b. */
    method Count(b: nat, d: int)
      requires b < nr.Length && items + d >= 0
      modifies nr, `items
      ensures items == old(items) + d
      ensures nr[..] == old(nr[..])[b := old(nr[b]) + d]
    {
      items := items + d;
      nr[b] := nr[b] + d;
    }

    method RemoveCounted(b: nat, p: Entry, ghost i: nat, ghost j: nat)
      requires BucketsLinked() && AgeLinked() && b < size == nr.Length && nr as object != entries && items > 0
      requires i < |chains[b]| && chains[b][i] == p && j < |age| && age[j] == p
      modifies entries, nr, `oldest, `newest, `age, `chains, `items, nodes`next, nodes`prev, age`older, age`newer
      ensures BucketsLinked() && AgeLinked()
      ensures chains == old(chains)[b := Delete(old(chains[b]), i)] && age == Delete(old(age), j)
      ensures items == old(items) - 1 && nr[..] == old(nr[..])[b := old(nr[b]) - 1]
    {
      hide *;
      Count(b, -1);
      RemoveFromChain(b, p, i, j);
    }

    /** remove_from_chain with the counters of the table and of the bucket. */
    method Detach(b: nat, p: Entry, ghost i: nat, ghost j: nat)
      requires Valid() && b < size
      requires i < |chains[b]| && chains[b][i] == p && j < |age| && age[j] == p
      modifies entries, nr, `oldest, `newest, `age, `chains, `items, `t
      modifies nodes`next, nodes`prev, age`older, age`newer
      ensures Valid() && t == Unlinked(hash, old(t), p.key) && age == Delete(old(age), j)
    {
      hide Valid, Counted, Shows, DataShows, CountsOf, BucketsLinked, AgeLinked, Unlinked, WF, NoDup, Pow2, Bucket;
      Opened();
      DataShowsDelete(age, t.age, j);
      ShowsUnlinked(hash, t, age, chains, b, i, j);
      CountsAfterDelete(nr[..], chains, b, i);
      DeleteLength(age, j);
      RemoveCounted(b, p, i, j);
      t := Unlinked(hash, t, p.key);
      Closed();
    }

    method Remove(key: Key) returns (data: Ptr)
      requires Valid()
      modifies entries, nr, `oldest, `newest, `age, `chains, `items, `t
      modifies nodes`next, nodes`prev, age`older, age`newer
      ensures Valid() && (t, data) == TableSpec.Remove(hash, old(t), key)
      ensures age == if key in Keys(old(t.age)) then Delete(old(age), Pos(Keys(old(t.age)), key)) else old(age)
    {
      hide Valid, Counted, Shows, DataShows, CountsOf, BucketsLinked, AgeLinked, WF, NoDup, Pow2, Unlinked;
      Opened();
      ShowsShape(hash, t, age, chains);
      ShowsWF(hash, t, age, chains);
      var b := BucketOf(key);
      ghost var i;
      var p;
      p, i := Find(b, key);
      data := NULL;
      RemoveSpec(hash, t, key);
      if p != null {
        ghost var j := InAge(hash, t, age, chains, b, i);
        DataAt(age, t.age, j);
        Detach(b, p, i, j);
        data := p.data;
      }
    }

    method RemoveFirst() returns (data: Ptr)
      requires Valid()
      modifies entries, nr, `oldest, `newest, `age, `chains, `items, `t
      modifies nodes`next, nodes`prev, age`older, age`newer
      ensures Valid() && (t, data) == TableSpec.RemoveFirst(hash, old(t))
      ensures age == if old(age) == [] then [] else old(age)[1..]
    {
      var first := oldest;
      if first == null {
        return NULL;
      }
      ghost var i := InBucket(hash, t, age, chains, 0);
      AgeKeysDistinct(hash, t, age, chains, 0);
      LinkedAt(Bucket(hash, first.key, t.bits));
      Detach(first.bucketIdx, first, i, 0);
      data := first.data;
    }

    // ---- ght_insert

    /** The loop that walks to the end of a chain. */
    method LastOf(b: nat) returns (p: Entry)
      requires BucketsLinked() && b < size && chains[b] != []
      ensures p == chains[b][|chains[b]| - 1]
    {
      LinkedAt(b);
      p := entries[b];
      ghost var i := 0;
      while p.next != null
        invariant i < |chains[b]| && p == chains[b][i]
        decreases |chains[b]| - i
      {
        p := p.next;
        i := i + 1;
      }
    }

    /** Link p first in bucket b and last in the age list. */
    method Attach(b: nat, p: Entry)
      requires BucketsLinked() && AgeLinked() && b < size && p !in nodes && p.newer == null
      modifies entries, `oldest, `newest, `age, `chains, `nodes
      modifies nodes`prev, nodes`older, nodes`newer, p`next, p`prev, p`bucketIdx, p`older, p`newer
      ensures BucketsLinked() && AgeLinked() && nodes == old(nodes) + {p}
      ensures chains == old(chains)[b := [p] + old(chains[b])]
      ensures age == old(age) + [p]
    {
      LinkInBucket(b, p);
      LinkInAge(p);
    }

    /** The same, taking the last entry of the bucket out of both lists. */
    method AttachEvicting(b: nat, p: Entry, ghost j: nat) returns (last: Entry)
      requires BucketsLinked() && AgeLinked() && b < size && p !in nodes && p.newer == null
      requires chains[b] != [] && j < |age| && age[j] == chains[b][|chains[b]| - 1]
      modifies entries, `oldest, `newest, `age, `chains, `nodes
      modifies nodes`next, nodes`prev, nodes`older, nodes`newer, p`next, p`prev, p`bucketIdx, p`older, p`newer
      ensures BucketsLinked() && AgeLinked() && nodes == old(nodes) + {p}
      ensures chains == old(chains)[b := Delete([p] + old(chains[b]), |old(chains[b])|)]
      ensures age == Delete(old(age), j) + [p] && last == old(age)[j]
    {
      hide BucketsLinked, AgeLinked, NoDup, Chained, Aged;
      DistinctAge();
      LinkInBucket(b, p);
      last := LastOf(b);
      DeleteInside(age, j);
      RemoveFromChain(b, last, |old(chains[b])|, j);
      LinkInAge(p);
    }

    method AttachCounted(b: nat, p: Entry)
      requires BucketsLinked() && AgeLinked() && b < size == nr.Length && nr as object != entries
      requires p !in nodes && p.newer == null
      modifies entries, nr, `oldest, `newest, `age, `chains, `nodes, `items
      modifies nodes`prev, nodes`older, nodes`newer, p`next, p`prev, p`bucketIdx, p`older, p`newer
      ensures BucketsLinked() && AgeLinked() && nodes == old(nodes) + {p}
      ensures chains == old(chains)[b := [p] + old(chains[b])] && age == old(age) + [p]
      ensures items == old(items) + 1 && nr[..] == old(nr[..])[b := old(nr[b]) + 1]
    {
      hide *;
      Count(b, 1);
      Attach(b, p);
    }

    /** Link a new entry in where its bucket has room. */
    method PlaceCounted(b: nat, p: Entry)
      requires Valid() && p !in nodes && p.newer == null
      requires p.key !in Keys(t.age) && b == Bucket(hash, p.key, t.bits)
      modifies entries, nr, `oldest, `newest, `age, `chains, `items, `t, `nodes
      modifies nodes`next, nodes`prev, nodes`older, nodes`newer, p
      ensures Valid() && nodes == old(nodes) + {p}
      ensures old(|t.chains|) == Pow2(old(t.bits)) && t == Linked(hash, old(t), Rec(p.key, old(p.data)))
    {
      hide *;
      Opened();
      DataShowsAppend(age, t.age, p);
      ShowsShape(hash, t, age, chains);
      ghost var rec := Rec(p.key, p.data);
      ShowsLinked(hash, t, age, chains, p, rec);
      CountsAfter(nr[..], chains, b, [p] + chains[b]);
      AttachCounted(b, p);
      t := Linked(hash, t, rec);
      Closed();
    }

    /** Link a new entry in where its bucket is full, giving up the last entry of the chain. */
    method PlaceEvicting(b: nat, p: Entry) returns (evicted: Rec)
      requires Valid() && p !in nodes && p.newer == null
      requires p.key !in Keys(t.age) && b == Bucket(hash, p.key, t.bits)
      requires |t.chains| == Pow2(t.bits) && Overflows(hash, t, p.key)
      modifies entries, `oldest, `newest, `age, `chains, `t, `nodes
      modifies nodes`next, nodes`prev, nodes`older, nodes`newer, p
      ensures Valid() && nodes == old(nodes) + {p}
      ensures (t, Inserted(Some(evicted))) == LinkOrEvict(hash, old(t), Rec(p.key, old(p.data)))
    {
      hide Valid, Counted, Shows, DataShows, CountsOf, BucketsLinked, AgeLinked, LinkOrEvict, Overflows, WF, NoDup, Pow2, Bucket, Keys;
      Opened();
      ghost var rec := Rec(p.key, p.data);
      ghost var j := ShowsEvicted(hash, t, age, chains, p, rec);
      DataOfEvicted(age, t.age, j, p);
      CountsKept(nr[..], chains, b, Delete([p] + chains[b], |chains[b]|));
      var last := AttachEvicting(b, p, j);
      t := LinkOrEvict(hash, t, rec).0;
      evicted := Rec(last.key, last.data);
      Closed();
    }

    method Place(b: nat, p: Entry) returns (outcome: InsertOutcome)
      requires Valid() && p !in nodes && p.newer == null
      requires p.key !in Keys(t.age) && b == Bucket(hash, p.key, t.bits)
      modifies entries, nr, `oldest, `newest, `age, `chains, `items, `t, `nodes
      modifies nodes`next, nodes`prev, nodes`older, nodes`newer, p
      ensures Valid() && nodes == old(nodes) + {p}
      ensures old(|t.chains|) == Pow2(old(t.bits)) && (t, outcome) == LinkOrEvict(hash, old(t), Rec(p.key, old(p.data)))
    {
      hide Shows, BucketsLinked, AgeLinked, Linked, Unlinked;
      ShowsShape(hash, t, age, chains);
      if limit != 0 && nr[b] >= limit {
        var evicted := PlaceEvicting(b, p);
        outcome := Inserted(Some(evicted));
      } else {
        PlaceCounted(b, p);
        outcome := Inserted(None);
      }
    }

    method Insert(key: Key, data: Ptr) returns (outcome: InsertOutcome)
      requires Valid()
      modifies this, entries, nr, nodes
      ensures Valid() && fresh(Repr() - old(Repr())) && hash == old(hash)
      ensures old(|t.chains|) == Pow2(old(t.bits)) && (t, outcome) == TableSpec.Insert(hash, old(t), Rec(key, data))
      decreases if autoRehash then 4 else 0
    {
      hide WF, Shows, BucketsLinked, AgeLinked, LinkOrEvict, TableSpec.Rehash, TableSpec.Insert, Pow2, BitAnd, DataShows;
      ShowsShape(hash, t, age, chains);
      ShowsWF(hash, t, age, chains);
      InsertCases(hash, t, Rec(key, data));
      KeyInChain(hash, t, key);
      var b := BucketOf(key);
      ghost var i;
      var found;
      found, i := Find(b, key);
      if found != null {
        return Duplicate;
      }
      var p := new Entry(key, data);
      if autoRehash && items > 2 * size {
        RehashKeeps(hash, t, 2 * size);
        Rehash(2 * size);
        b := BucketOf(key);
      }
      outcome := Place(b, p);
    }

    // ---- ght_first and ght_next

    method First() returns (it: Iterator, data: Ptr)
      requires Valid()
      ensures it == Iterator(At(age, 0), At(age, 1))
      ensures data == if t.age == [] then NULL else t.age[0].data
    {
      it := Iterator(oldest, null);
      if it.entry != null {
        it := Iterator(it.entry, it.entry.newer);
        return it, it.entry.data;
      }
      data := NULL;
    }

    /** The next entry is the one read in advance, which must still be in the table. */
    method Next(it: Iterator, ghost j: nat) returns (it': Iterator, data: Ptr)
      requires Valid() && it.next == At(age, j)
      ensures it' == Iterator(At(age, j), At(age, j + 1))
      ensures data == if j < |t.age| then t.age[j].data else NULL
    {
      if it.next != null {
        it' := Iterator(it.next, it.next.newer);
        return it', it'.entry.data;
      }
      it' := Iterator(null, null);
      data := NULL;
    }

    // ---- ght_rehash

    /** One turn of the loop of ght_rehash: insert the current entry into the other table and step on. */
    method CopyOne(tmp: Ght, it: Iterator, ghost n: nat) returns (it': Iterator, data': Ptr)
      requires Valid() && tmp.Valid() && Repr() !! tmp.Repr() && tmp.hash == hash && !tmp.autoRehash
      requires n < |age| && it == Iterator(At(age, n), At(age, n + 1))
      modifies tmp.Repr()
      ensures tmp.Valid() && fresh(tmp.Repr() - old(tmp.Repr())) && tmp.hash == hash && !tmp.autoRehash
      ensures n < |t.age| && old(|tmp.t.chains|) == Pow2(old(tmp.t.bits))
      ensures tmp.t == TableSpec.Insert(hash, old(tmp.t), t.age[n]).0
      ensures it' == Iterator(At(age, n + 1), At(age, n + 2))
      ensures data' == if n + 1 < |age| then t.age[n + 1].data else NULL
      decreases 1
    {
      hide WF, Shows, BucketsLinked, AgeLinked, TableSpec.Insert, Pow2, BitAnd;
      ShowsShape(tmp.hash, tmp.t, tmp.age, tmp.chains);
      ShowsShape(hash, t, age, chains);
      AgeKeysDistinct(hash, t, age, chains, n);
      StaysPlain(hash, tmp.t, t.age[n]);
      var outcome := tmp.Insert(it.entry.key, it.entry.data);
      it', data' := Next(it, n + 1);
    }

    lemma Lengths()
      requires Valid()
      ensures |t.chains| == Pow2(t.bits) && |age| == |t.age| && autoRehash == t.autoRehash
    {
      ShowsShape(hash, t, age, chains);
    }

    /** The loop of ght_rehash: walk this table and insert each entry into another. */
    method CopyTo(tmp: Ght)
      requires Valid() && tmp.Valid() && Repr() !! tmp.Repr() && tmp.hash == hash && !tmp.autoRehash
      modifies tmp.Repr()
      ensures tmp.Valid() && fresh(tmp.Repr() - old(tmp.Repr())) && tmp.hash == hash
      ensures old(|tmp.t.chains|) == Pow2(old(tmp.t.bits)) && tmp.t == InsertAll(hash, old(tmp.t), UpToNull(t.age))
      decreases 2
    {
      hide Valid, TableSpec.Insert, InsertAll, UpToNull, Pow2, At;
      Lengths();
      tmp.Lengths();
      var it, data := First();
      ghost var n := 0;
      assert t.age[0..] == t.age;
      while data != NULL
        invariant Valid() && tmp.Valid() && tmp.hash == hash && !tmp.autoRehash
        invariant fresh(tmp.Repr() - old(tmp.Repr()))
        invariant n <= |age| == |t.age| && it == Iterator(At(age, n), At(age, n + 1))
        invariant data == if n < |age| then t.age[n].data else NULL
        invariant |tmp.t.chains| == Pow2(tmp.t.bits) && tmp.t.autoRehash == tmp.autoRehash
        invariant InsertAll(hash, tmp.t, UpToNull(t.age[n..])) == InsertAll(hash, old(tmp.t), UpToNull(t.age))
        decreases |age| - n
      {
        CopyStep(hash, tmp.t, t.age, n);
        it, data := CopyOne(tmp, it, n);
        tmp.Lengths();
        n := n + 1;
      }
      CopyDone(hash, tmp.t, t.age, n);
    }

    method CopyFields(tmp: Ght)
      modifies `size, `mask, `items, `entries, `nr, `oldest, `newest, `age, `chains, `nodes
      ensures size == tmp.size && mask == tmp.mask && items == tmp.items
      ensures entries == tmp.entries && nr == tmp.nr && oldest == tmp.oldest && newest == tmp.newest
      ensures age == tmp.age && chains == tmp.chains && nodes == tmp.nodes
    {
      size, mask, items := tmp.size, tmp.mask, tmp.items;
      entries, nr := tmp.entries, tmp.nr;
      oldest, newest := tmp.oldest, tmp.newest;
      age, chains, nodes := tmp.age, tmp.chains, tmp.nodes;
    }

    /** Replace the lists and arrays of this table by those of another. */
    method TakeOver(tmp: Ght, ghost t': Table)
      requires tmp != this && tmp.Valid() && tmp.hash == hash
      requires t'.heuristic == heuristic && t'.autoRehash == autoRehash && t'.limit == limit
      requires t'.bits == tmp.t.bits && t'.age == tmp.t.age && Shows(hash, t', tmp.age, tmp.chains)
      modifies this
      ensures Valid() && t == t' && hash == old(hash)
      ensures entries == tmp.entries && nr == tmp.nr && nodes == tmp.nodes
    {
      hide Valid, Shows;
      CopyFields(tmp);
      t := t';
      tmp.GivenTo(this);
    }

    /** A table whose fields are those of a valid one that did not change is valid. */
    twostate lemma GivenTo(new other: Ght)
      requires old(Valid()) && unchanged(this) && unchanged(entries) && unchanged(nr) && unchanged(nodes)
      requires other.t.heuristic == other.heuristic && other.t.autoRehash == other.autoRehash && other.t.limit == other.limit
      requires other.t.bits == t.bits && other.t.age == t.age && Shows(other.hash, other.t, age, chains)
      requires other.size == size && other.mask == mask && other.items == items && other.entries == entries && other.nr == nr
      requires other.age == age && other.chains == chains && other.nodes == nodes
      requires other.oldest == oldest && other.newest == newest
      ensures other.Valid()
    {
      assert BucketsLinked() && AgeLinked() && DataShows(age, t.age);
      forall b | 0 <= b < |chains|
        ensures other.BucketLinked(b)
      {
        assert BucketLinked(b);
      }
    }

    method Rehash(request: nat)
      requires Valid()
      modifies this
      ensures Valid() && fresh(entries) && fresh(nr) && fresh(nodes)
      ensures hash == old(hash) && t == TableSpec.Rehash(hash, old(t), request)
      decreases 3
    {
      hide WF, Shows, BucketsLinked, AgeLinked, InsertAll, Create;
      var tmp := new Ght(request);
      tmp.SetHash(hash);
      CopyTo(tmp);
      RehashShows(hash, t, request, tmp.t, tmp.age, tmp.chains);
      TakeOver(tmp, TableSpec.Rehash(hash, t, request));
    }

    // ---- ght_get and ght_replace

    /** The heuristics of search_in_bucket, at a hit. */
    method ReorderBucket(b: nat, p: Entry, ghost i: nat)
      requires BucketsLinked() && AgeLinked() && b < size && i < |chains[b]| && chains[b][i] == p
      modifies entries, `chains, nodes`next, nodes`prev
      ensures BucketsLinked() && AgeLinked()
      ensures chains == old(chains)[b := Reorder(heuristic, old(chains[b]), i)]
    {
      LinkedAt(b);
      ghost var c := Reorder(heuristic, chains[b], i);
      ReorderPermutes(heuristic, chains[b], i);
      hide Reorder;
      var head := ApplyHeuristic(heuristic, p, entries[b], chains[b], i);
      entries[b] := head;
      chains := chains[b := c];
      OneBucketRelinked(b, c);
    }

    /** An entry was found: reorder its chain. */
    method Found(b: nat, p: Entry, ghost i: nat)
      requires Valid() && b < size && i < |chains[b]| && chains[b][i] == p
      requires b == Bucket(hash, p.key, t.bits) && i == Pos(t.chains[b], p.key)
      modifies entries, `chains, `t, nodes`next, nodes`prev
      ensures Valid() && t == Touch(hash, old(t), p.key)
    {
      hide Valid, Counted, Shows, DataShows, CountsOf, BucketsLinked, AgeLinked, WF, Touch, Pow2, Reorder, Bucket, Pos;
      Opened();
      ShowsShape(hash, t, age, chains);
      ShowsTouch(hash, t, age, chains, p.key);
      TouchSettings(hash, t, p.key);
      CountsReordered(nr[..], chains, b, heuristic, i);
      ReorderBucket(b, p, i);
      t := Touch(hash, t, p.key);
      Closed();
    }

    /** search_in_bucket with the heuristics of the table. */
    method Search(key: Key) returns (p: Entry?)
      requires Valid()
      modifies entries, `chains, `t, nodes`next, nodes`prev
      ensures Valid() && t == Touch(hash, old(t), key)
      ensures p == At(age, Pos(Keys(old(t.age)), key))
    {
      hide Valid, Counted, Shows, DataShows, CountsOf, BucketsLinked, AgeLinked, WF, Touch, Pow2, Reorder;
      Opened();
      ShowsShape(hash, t, age, chains);
      ShowsWF(hash, t, age, chains);
      KeyInChain(hash, t, key);
      TouchSettings(hash, t, key);
      var b := BucketOf(key);
      ghost var i;
      p, i := Find(b, key);
      if p != null {
        ghost var j := InAge(hash, t, age, chains, b, i);
        Found(b, p, i);
      }
    }

    method Get(key: Key) returns (data: Ptr)
      requires Valid()
      modifies entries, `chains, `t, nodes`next, nodes`prev
      ensures Valid() && (t, data) == TableSpec.Get(hash, old(t), key)
    {
      hide WF, Shows, BucketsLinked, AgeLinked, Touch, Pow2, BitAnd;
      ShowsShape(hash, t, age, chains);
      ShowsWF(hash, t, age, chains);
      KeyInChain(hash, t, key);
      var p := Search(key);
      data := if p != null then p.data else NULL;
    }

    method Replace(key: Key, data: Ptr) returns (was: Ptr)
      requires Valid()
      modifies entries, `chains, `t, nodes`next, nodes`prev, age`data
      ensures Valid() && (t, was) == TableSpec.Replace(hash, old(t), Rec(key, data))
    {
      hide WF, Shows, BucketsLinked, AgeLinked, Touch, Pow2, BitAnd;
      ShowsShape(hash, t, age, chains);
      ShowsWF(hash, t, age, chains);
      KeyInChain(hash, t, key);
      TouchSettings(hash, t, key);
      var p := Search(key);
      if p == null {
        return NULL;
      }
      ShowsWithData(hash, t, age, chains, key, data);
      AgeKeysDistinct(hash, t, age, chains, Pos(Keys(t.age), key));
      t := t.(age := WithData(t.age, key, data));
      was := p.data;
      p.data := data;
    }

    // ---- ght_remove_all and the settings

    method ClearBuckets()
      requires entries.Length == nr.Length == size && nr as object != entries
      modifies entries, nr
      ensures forall b :: 0 <= b < size ==> entries[b] == null && nr[b] == 0
    {
      for i := 0 to size
        modifies entries
        invariant forall b :: 0 <= b < i ==> entries[b] == null
      {
        entries[i] := null;
      }
      for i := 0 to size
        modifies nr
        invariant forall b :: 0 <= b < i ==> nr[b] == 0
      {
        nr[i] := 0;
      }
    }

    method RemoveAll()
      requires Valid()
      modifies entries, nr, `chains, `age, `nodes, `oldest, `newest, `items, `t
      ensures Valid() && t == TableSpec.RemoveAll(old(t))
    {
      hide WF, Shows, BucketsLinked, AgeLinked;
      ShowsShape(hash, t, age, chains);
      LinksShape();
      ClearBuckets();
      ClearLists();
      ShowsEmptied(hash, t);
      t := TableSpec.RemoveAll(t);
      EmptyLinks();
    }

    method ClearLists()
      modifies `oldest, `newest, `items, `age, `nodes, `chains
      ensures oldest == null && newest == null && items == 0 && age == [] && nodes == {}
      ensures chains == seq(size, _ => [])
    {
      oldest, newest, items := null, null, 0;
      age, nodes := [], {};
      chains := seq(size, _ => []);
    }

    lemma LinksShape()
      requires BucketsLinked()
      ensures |chains| == entries.Length == size
    {}

    lemma EmptyLinks()
      requires |chains| == entries.Length == size
      requires forall b :: 0 <= b < size ==> chains[b] == [] && entries[b] == null
      requires age == [] && oldest == null && newest == null
      ensures BucketsLinked() && AgeLinked()
    {
      assert forall b :: 0 <= b < size ==> BucketLinked(b);
    }

    method SetHeuristic(heuristic: Heuristic)
      requires Valid()
      modifies `heuristic, `t
      ensures Valid() && t == old(t).(heuristic := heuristic)
    {
      this.heuristic := heuristic;
      t := t.(heuristic := heuristic);
    }

    method SetRehash(on: bool)
      requires Valid()
      modifies `autoRehash, `t
      ensures Valid() && t == old(t).(autoRehash := on)
    {
      autoRehash := on;
      t := t.(autoRehash := on);
    }

    method SetBoundedBuckets(limit: nat)
      requires Valid()
      modifies `limit, `t
      ensures Valid() && t == old(t).(limit := limit)
    {
      this.limit := limit;
      t := t.(limit := limit);
    }

    /** The hash function may only be set while the table is empty. */
    method SetHash(hash: Hash)
      requires Valid() && items == 0
      modifies `hash
      ensures Valid() && this.hash == hash
    {
      ShowsAnyHash(this.hash, hash, t, age, chains);
      this.hash := hash;
    }

    // ---- removal while iterating

    lemma ValidShows()
      requires Valid()
      ensures Shows(hash, t, age, chains) && |age| == |t.age|
    {}

    lemma AgeInNodes()
      requires AgeLinked()
      ensures forall e :: e in age ==> e in nodes
    {}

    /** Removing an entry already visited leaves the entries still to come in place. */
    method RemoveKeeping(key: Key, ghost rest: seq<Entry>, ghost restRecs: seq<Rec>)
      requires Valid() && EndsWith(age, rest) && EndsWith(t.age, restRecs) && |rest| == |restRecs|
      requires key !in Keys(restRecs)
      modifies entries, nr, `oldest, `newest, `age, `chains, `items, `t
      modifies nodes`next, nodes`prev, nodes`older, nodes`newer
      ensures Valid() && EndsWith(age, rest) && EndsWith(t.age, restRecs)
      ensures t.age == Keep(old(t.age), {key})
    {
      hide WF, Shows, BucketsLinked, AgeLinked, Unlinked, EndsWith, Keep;
      ShowsShape(hash, t, age, chains);
      ShowsWF(hash, t, age, chains);
      RemovedAge(hash, t, key);
      KeepAllBut(hash, t, key);
      if key in Keys(t.age) {
        ghost var j := Pos(Keys(t.age), key);
        PosBeforeSuffix(t.age, key, restRecs);
        EndsWithDelete(age, rest, j);
        EndsWithDelete(t.age, restRecs, j);
      }
      AgeInNodes();
      var data := Remove(key);
    }

    /** Remove those of the given keys that were visited; the entries still to come stay put. */
    method RemoveVisited(keys: seq<Key>, visited: seq<Rec>, ghost rest: seq<Entry>, ghost restRecs: seq<Rec>)
      requires Valid() && EndsWith(age, rest) && EndsWith(t.age, restRecs) && |rest| == |restRecs|
      requires DisjointKeys(visited, restRecs)
      modifies entries, nr, `oldest, `newest, `age, `chains, `items, `t
      modifies nodes`next, nodes`prev, nodes`older, nodes`newer
      ensures Valid() && EndsWith(age, rest) && EndsWith(t.age, restRecs)
      ensures t.age == Keep(old(t.age), Among(keys, visited))
    {
      hide Valid, EndsWith, Keep;
      KeepAll(t.age);
      assert Among(keys[..0], visited) == {};
      for i := 0 to |keys|
        invariant Valid() && EndsWith(age, rest) && EndsWith(t.age, restRecs)
        invariant t.age == Keep(old(t.age), Among(keys[..i], visited))
      {
        AmongNext(keys, visited, i);
        if keys[i] in Keys(visited) {
          KeepMore(old(t.age), Among(keys[..i], visited), keys[i]);
          RemoveKeeping(keys[i], rest, restRecs);
        }
      }
      assert keys[..|keys|] == keys;
    }

    ghost predicate Visiting(start: seq<Entry>, recs: seq<Rec>, n: nat, it: Iterator, data: Ptr, visited: seq<Rec>)
      reads this
    {
      AtVisit(start, recs, n, it, data, visited) && EndsWith(age, start[n..]) && EndsWith(t.age, recs[n..])
    }

    method VisitOne(it: Iterator, data: Ptr, visited: seq<Rec>, remove: seq<Key>,
                    ghost t0: Table, ghost start: seq<Entry>, ghost chains0: seq<seq<Entry>>, ghost n: nat)
      returns (it': Iterator, data': Ptr, visited': seq<Rec>)
      requires Valid() && Shows(hash, t0, start, chains0)
      requires Visiting(start, t0.age, n, it, data, visited) && data != NULL
      modifies entries, nr, `oldest, `newest, `age, `chains, `items, `t
      modifies nodes`next, nodes`prev, nodes`older, nodes`newer
      ensures Valid() && Visiting(start, t0.age, n + 1, it', data', visited')
      ensures t.age == Keep(old(t.age), Among(remove, visited'))
    {
      hide Valid, Shows, EndsWith, DisjointKeys, Keep, Among;
      VisitStep(hash, t0, start, chains0, n);
      EndsWithTail(age, start, n);
      EndsWithTail(t.age, t0.age, n);
      visited' := visited + [Rec(it.entry.key, data)];
      RemoveVisited(remove, visited', start[n + 1..], t0.age[n + 1..]);
      ValidShows();
      EndsWithAt(age, start, n + 1);
      EndsWithAt(t.age, t0.age, n + 1);
      it', data' := Next(it, |age| - (|start| - n - 1));
    }

    /**
     A loop over ght_first and ght_next that, after each visit, removes entries already visited
     (the current one included) as the schedule says, visits every entry of the original age
     list once, oldest first, up to the first NULL data pointer. What is left are the other
     entries, in order.
     */
    method VisitRemoving(schedule: nat -> seq<Key>) returns (visited: seq<Rec>)
      requires Valid()
      modifies entries, nr, `oldest, `newest, `age, `chains, `items, `t
      modifies nodes`next, nodes`prev, nodes`older, nodes`newer
      ensures Valid() && visited == UpToNull(old(t.age))
      ensures t.age == Keep(old(t.age), Removed(schedule, visited, |visited|))
    {
      hide Valid, Shows, Visiting, UpToNull, Keep, Among;
      KeepAll(t.age);
      ghost var t0, start, chains0 := t, age, chains;
      ValidShows();
      var it, data := First();
      var n := 0;
      visited := [];
      VisitingFirst(it, data);
      while data != NULL
        invariant Valid() && Visiting(start, t0.age, n, it, data, visited)
        invariant |visited| == n && t.age == Keep(t0.age, Removed(schedule, visited, n))
        decreases |start| - n
      {
        VisitingBounds(start, t0.age, n, it, data, visited);
        ghost var before := visited;
        it, data, visited := VisitOne(it, data, visited, schedule(n), t0, start, chains0, n);
        VisitedNext(start, t0.age, n, it, data, visited, before);
        RemovedNext(schedule, before, visited, n);
        KeepTwice(t0.age, Removed(schedule, before, n), Among(schedule(n), visited));
        n := n + 1;
      }
      VisitingBounds(start, t0.age, n, it, data, visited);
    }

    lemma VisitingFirst(it: Iterator, data: Ptr)
      requires |age| == |t.age| && it == Iterator(At(age, 0), At(age, 1))
      requires data == if t.age == [] then NULL else t.age[0].data
      ensures Visiting(age, t.age, 0, it, data, [])
    {
      hide EndsWith, AtVisit, At;
      WholeSuffix(age);
      WholeSuffix(t.age);
      FirstVisit(age, t.age, it, data);
    }

    lemma VisitedNext(start: seq<Entry>, recs: seq<Rec>, n: nat, it: Iterator, data: Ptr, visited: seq<Rec>, before: seq<Rec>)
      requires Visiting(start, recs, n + 1, it, data, visited) && before == recs[..Min(n, |recs|)]
      ensures |visited| == n + 1 && visited[..n] == before
    {}

    lemma VisitingBounds(start: seq<Entry>, recs: seq<Rec>, n: nat, it: Iterator, data: Ptr, visited: seq<Rec>)
      requires Visiting(start, recs, n, it, data, visited)
      ensures data != NULL ==> n < |start|
      ensures data == NULL ==> visited == UpToNull(recs)
      ensures visited == recs[..Min(n, |recs|)]
    {
      hide EndsWith, UpToNull;
      if data == NULL {
        UpToNullIs(recs, n);
      }
    }
  }

  function Min(a: nat, b: nat): nat {
    if a < b then a else b
  }

  /** The records whose keys are not among the given ones, in order. */
  function Keep(recs: seq<Rec>, gone: set<Key>): seq<Rec> {
    if recs == [] then []
    else (if recs[0].key in gone then [] else [recs[0]]) + Keep(recs[1..], gone)
  }

  /** Those of the keys that belong to visited records. */
  function Among(keys: seq<Key>, visited: seq<Rec>): set<Key> {
    set k | k in keys && k in Keys(visited)
  }

  /** What the schedule removed in the first n visits: at each, keys of records visited by then. */
  function Removed(schedule: nat -> seq<Key>, visited: seq<Rec>, n: nat): set<Key>
    requires n <= |visited|
  {
    if n == 0 then {} else Removed(schedule, visited, n - 1) + Among(schedule(n - 1), visited[..n])
  }

  lemma {:induction false} KeepAll(recs: seq<Rec>)
    ensures Keep(recs, {}) == recs
  {
    if recs != [] { KeepAll(recs[1..]); }
  }

  lemma {:induction false} KeepTwice(recs: seq<Rec>, a: set<Key>, b: set<Key>)
    ensures Keep(Keep(recs, a), b) == Keep(recs, a + b)
  {
    if recs != [] {
      KeepTwice(recs[1..], a, b);
      var rest := Keep(recs[1..], a);
      if recs[0].key !in a {
        assert ([recs[0]] + rest)[1..] == rest;
      } else {
        assert [] + rest == rest;
      }
    }
  }

  lemma KeepMore(recs: seq<Rec>, gone: set<Key>, key: Key)
    ensures Keep(Keep(recs, gone), {key}) == Keep(recs, gone + {key})
  {
    KeepTwice(recs, gone, {key});
  }

  lemma {:induction false} KeepButOne(recs: seq<Rec>, i: nat)
    requires NoDup(Keys(recs)) && i < |recs|
    ensures Keep(recs, {recs[i].key}) == Delete(recs, i)
  {
    hide NoDup, Keep;
    var key := recs[i].key;
    TailKeys(recs, i);
    KeepStep(recs, {key});
    if i == 0 {
      KeepAbsent(recs[1..], key);
      assert [] + recs[1..] == Delete(recs, 0);
    } else {
      KeepButOne(recs[1..], i - 1);
      assert [recs[0]] + Delete(recs[1..], i - 1) == Delete(recs, i);
    }
  }

  lemma KeepStep(recs: seq<Rec>, gone: set<Key>)
    requires recs != []
    ensures Keep(recs, gone) == (if recs[0].key in gone then [] else [recs[0]]) + Keep(recs[1..], gone)
  {}

  lemma TailKeys(recs: seq<Rec>, i: nat)
    requires NoDup(Keys(recs)) && i < |recs|
    ensures NoDup(Keys(recs[1..]))
    ensures i > 0 ==> recs[0].key != recs[i].key
    ensures i == 0 ==> recs[0].key !in Keys(recs[1..])
  {
    assert forall j :: 0 <= j < |recs[1..]| ==> Keys(recs[1..])[j] == Keys(recs)[j + 1];
    assert Keys(recs)[0] == recs[0].key && Keys(recs)[i] == recs[i].key;
  }

  lemma {:induction false} KeepAbsent(recs: seq<Rec>, key: Key)
    requires key !in Keys(recs)
    ensures Keep(recs, {key}) == recs
  {
    if recs != [] {
      assert Keys(recs)[0] == recs[0].key && Keys(recs)[1..] == Keys(recs[1..]);
      KeepAbsent(recs[1..], key);
    }
  }

  lemma KeepAllBut(h: Hash, t: Table, key: Key)
    requires WF(h, t)
    ensures |t.chains| == Pow2(t.bits) && TableSpec.Remove(h, t, key).0.age == Keep(t.age, {key})
  {
    hide Keep;
    RemovedAge(h, t, key);
    if key in Keys(t.age) {
      KeepButOne(t.age, Pos(Keys(t.age), key));
    } else {
      KeepAbsent(t.age, key);
    }
  }

  lemma AmongNext(keys: seq<Key>, visited: seq<Rec>, i: nat)
    requires i < |keys|
    ensures Among(keys[..i + 1], visited) ==
            if keys[i] in Keys(visited) then Among(keys[..i], visited) + {keys[i]} else Among(keys[..i], visited)
  {}

  lemma {:induction false} RemovedSame(schedule: nat -> seq<Key>, a: seq<Rec>, b: seq<Rec>, n: nat)
    requires n <= |a| && n <= |b| && a[..n] == b[..n]
    ensures Removed(schedule, a, n) == Removed(schedule, b, n)
  {
    if n > 0 {
      assert a[..n - 1] == a[..n][..n - 1] && b[..n - 1] == b[..n][..n - 1];
      RemovedSame(schedule, a, b, n - 1);
    }
  }

  lemma RemovedNext(schedule: nat -> seq<Key>, before: seq<Rec>, visited: seq<Rec>, n: nat)
    requires |before| == n && |visited| == n + 1 && visited[..n] == before
    ensures Removed(schedule, visited, n + 1) == Removed(schedule, before, n) + Among(schedule(n), visited)
  {
    assert before[..n] == before && visited[..n + 1] == visited;
    RemovedSame(schedule, visited, before, n);
  }

  /** n entries of the original age list were visited and the iterator is at the next one. */
  ghost predicate AtVisit(start: seq<Entry>, recs: seq<Rec>, n: nat, it: Iterator, data: Ptr, visited: seq<Rec>) {
    && |start| == |recs| && n <= |start|
    && it == Iterator(At(start, n), At(start, n + 1))
    && data == (if n < |recs| then recs[n].data else NULL)
    && visited == recs[..n] && forall i :: 0 <= i < n ==> recs[i].data != NULL
  }

  lemma FirstVisit(start: seq<Entry>, recs: seq<Rec>, it: Iterator, data: Ptr)
    requires |start| == |recs| && it == Iterator(At(start, 0), At(start, 1))
    requires data == if recs == [] then NULL else recs[0].data
    ensures AtVisit(start, recs, 0, it, data, [])
  {}
}
