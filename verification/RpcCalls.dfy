/**
 Matching replies to calls in src/clnt_tcp_nb.c: the transaction ids, the table from ids to
 callbacks, and the count of pending calls, over every run of calls and incoming records.

 A reply header is taken as already parsed: a record either does not decode as a reply, or
 carries an id and a payload. The callback_info that the n-th call on a handle allocates is
 the pointer n. The host is little-endian.
 */
module RpcCalls {
  import opened Base
  import opened TableSpec

  const WORDS := 0x1_0000_0000

  predicate IsWord(w: nat) {
    w < WORDS
  }

  // ---------------------------------------------------------------------------
  // Transaction ids
  // ---------------------------------------------------------------------------

  /** The four bits of n, the highest first, and the machine number they make. */
  function BitsOf(n: nat): (bool, bool, bool, bool) {
    (n / 8 % 2 == 1, n / 4 % 2 == 1, n / 2 % 2 == 1, n % 2 == 1)
  }

  function NibbleOf(b: (bool, bool, bool, bool)): bv8 {
    (if b.0 then 8 else 0) | (if b.1 then 4 else 0) | (if b.2 then 2 else 0) | (if b.3 then 1 else 0)
  }

  function ByteOf(n: nat): bv8
    requires n < 256
  {
    (NibbleOf(BitsOf(n / 16)) << 4) | NibbleOf(BitsOf(n % 16))
  }

  /**
   The table key of a call whose header word holds w: the id is sent as the bytes of the word
   in memory order, and the key is the id read back in host order.
   */
  function KeyOf(w: nat): Key
    requires IsWord(w)
  {
    [ByteOf(w / 0x100_0000), ByteOf(w / 0x1_0000 % 0x100), ByteOf(w / 0x100 % 0x100), ByteOf(w % 0x100)]
  }

  /** The header word after n calls: the word in network order is decremented as it stands. */
  function WordAfter(first: nat, n: nat): (w: nat)
    requires IsWord(first)
    ensures IsWord(w)
  {
    (first + n * (WORDS - 1)) % WORDS
  }

  function Decrement(w: nat): nat
    requires IsWord(w)
  {
    if w == 0 then WORDS - 1 else w - 1
  }

  lemma WordAfterNext(first: nat, n: nat)
    requires IsWord(first)
    ensures WordAfter(first, n + 1) == Decrement(WordAfter(first, n))
  {
    var x := first + n * (WORDS - 1);
    var q, r := x / WORDS, x % WORDS;
    assert x == q * WORDS + r;
    assert first + (n + 1) * (WORDS - 1) == x + (WORDS - 1);
    if r == 0 {
      ModUnique(x + (WORDS - 1), WORDS, q, WORDS - 1);
    } else {
      ModUnique(x + (WORDS - 1), WORDS, q + 1, r - 1);
    }
  }

  /** The word counts down: n calls after the first word, adding n gives the first word back. */
  lemma WordCountsDown(first: nat, n: nat)
    requires IsWord(first)
    ensures (WordAfter(first, n) + n) % WORDS == first
  {
    var x := first + n * (WORDS - 1);
    var q := x / WORDS;
    assert x == q * WORDS + WordAfter(first, n);
    assert x == n * WORDS + first - n;
    assert WordAfter(first, n) + n == (n - q) * WORDS + first;
    ModUnique(WordAfter(first, n) + n, WORDS, n - q, first);
  }

  /** Two calls get the same word exactly when they are a multiple of 2^32 calls apart. */
  lemma SameWord(first: nat, m: nat, n: nat)
    requires IsWord(first) && m <= n
    ensures WordAfter(first, m) == WordAfter(first, n) <==> (n - m) % WORDS == 0
  {
    var x, y := first + m * (WORDS - 1), first + n * (WORDS - 1);
    var d := n - m;
    assert y - x == d * (WORDS - 1);
    assert y == x + d * WORDS - d;
    if d % WORDS == 0 {
      var k := d / WORDS;
      assert d == k * WORDS;
      ModUnique(y, WORDS, x / WORDS + d - k, x % WORDS);
    } else if x % WORDS == y % WORDS {
      assert d == (x / WORDS + d - y / WORDS) * WORDS;
      ModUnique(d, WORDS, x / WORDS + d - y / WORDS, 0);
    }
  }

  lemma BitsApart(m: (bool, bool, bool, bool), n: (bool, bool, bool, bool))
    requires NibbleOf(m) == NibbleOf(n)
    ensures m == n
  {}

  lemma NibblesApart(h: bv8, l: bv8, h': bv8, l': bv8)
    requires h < 16 && l < 16 && h' < 16 && l' < 16 && (h << 4) | l == (h' << 4) | l'
    ensures h == h' && l == l'
  {}

  lemma ByteInjective(m: nat, n: nat)
    requires m < 256 && n < 256 && ByteOf(m) == ByteOf(n)
    ensures m == n
  {
    NibbleSmall(BitsOf(m / 16));
    NibbleSmall(BitsOf(m % 16));
    NibbleSmall(BitsOf(n / 16));
    NibbleSmall(BitsOf(n % 16));
    hide NibbleOf, BitsOf;
    NibblesApart(NibbleOf(BitsOf(m / 16)), NibbleOf(BitsOf(m % 16)), NibbleOf(BitsOf(n / 16)), NibbleOf(BitsOf(n % 16)));
    BitsApart(BitsOf(m / 16), BitsOf(n / 16));
    BitsApart(BitsOf(m % 16), BitsOf(n % 16));
    BitsBack(m / 16, n / 16);
    BitsBack(m % 16, n % 16);
  }

  lemma NibbleSmall(b: (bool, bool, bool, bool))
    ensures NibbleOf(b) < 16
  {}

  lemma BitsBack(m: nat, n: nat)
    requires m < 16 && n < 16 && BitsOf(m) == BitsOf(n)
    ensures m == n
  {}

  lemma KeyInjective(v: nat, w: nat)
    requires IsWord(v) && IsWord(w) && KeyOf(v) == KeyOf(w)
    ensures v == w
  {
    hide ByteOf;
    assert KeyOf(v)[0] == KeyOf(w)[0] && KeyOf(v)[1] == KeyOf(w)[1] && KeyOf(v)[2] == KeyOf(w)[2] && KeyOf(v)[3] == KeyOf(w)[3];
    ByteInjective(v / 0x100_0000, w / 0x100_0000);
    ByteInjective(v / 0x1_0000 % 0x100, w / 0x1_0000 % 0x100);
    ByteInjective(v / 0x100 % 0x100, w / 0x100 % 0x100);
    ByteInjective(v % 0x100, w % 0x100);
    Digits(v);
    Digits(w);
  }

  /** Calls fewer than 2^32 apart never share an id. */
  lemma IdsRepeatOnlyAfterWrap(first: nat, m: nat, n: nat)
    requires IsWord(first) && m <= n
    ensures KeyOf(WordAfter(first, m)) == KeyOf(WordAfter(first, n)) <==> (n - m) % WORDS == 0
  {
    hide KeyOf, WordAfter;
    SameWord(first, m, n);
    if KeyOf(WordAfter(first, m)) == KeyOf(WordAfter(first, n)) {
      KeyInjective(WordAfter(first, m), WordAfter(first, n));
    }
  }

  // ---------------------------------------------------------------------------
  // Calls and replies
  // ---------------------------------------------------------------------------

  datatype Reply = Reply(word: nat, payload: seq<byte>)

  datatype Fired = Fired(callback: Ptr, word: nat, payload: seq<byte>)

  datatype Client = Client(
    first: nat,           // the header word before the first call
    calls: nat,
    table: seq<Rec>,      // the age list of the id table
    pending: int,
    fired: seq<Fired>,    // every callback run so far
    refused: nat,         // calls sent although the table refused their callback
    failed: nat,          // calls entered in the table whose arguments did not encode
    unmatched: nat)       // records that were no reply to an outstanding call

  /** clnttcp_nb_call, up to the point where it turns to receiving. */
  function Call(c: Client, encodes: bool): Client
    requires IsWord(c.first)
  {
    var n := c.calls + 1;
    var key := KeyOf(WordAfter(c.first, n));
    var isNew := key !in Keys(c.table);
    c.(calls := n,
       table := if isNew then c.table + [Rec(key, n)] else c.table,
       pending := if encodes then c.pending + 1 else c.pending,
       refused := if !isNew && encodes then c.refused + 1 else c.refused,
       failed := if isNew && !encodes then c.failed + 1 else c.failed)
  }

  function Fire(c: Client, table: seq<Rec>, callback: Ptr, r: Reply): Client {
    c.(table := table, fired := c.fired + [Fired(callback, r.word, r.payload)])
  }

  function Unmatched(c: Client): Client {
    c.(unmatched := c.unmatched + 1)
  }

  /** call_user_cb: look at the oldest entry first, and search the table only if it differs. */
  function Dispatch(c: Client, reply: Option<Reply>): Client
    requires reply.Some? ==> IsWord(reply.value.word)
  {
    if reply.None? || c.table == [] then Unmatched(c)
    else
      var key := KeyOf(reply.value.word);
      if c.table[0].key == key then Fire(c, c.table[1..], c.table[0].data, reply.value)
      else
        var i := Pos(Keys(c.table), key);
        if i < |c.table| then Fire(c, Delete(c.table, i), c.table[i].data, reply.value)
        else Unmatched(c)
  }

  function DispatchAll(c: Client, replies: seq<Option<Reply>>): Client
    requires forall i :: 0 <= i < |replies| ==> replies[i].Some? ==> IsWord(replies[i].value.word)
    decreases |replies|
  {
    if replies == [] then c else DispatchAll(Dispatch(c, replies[0]), replies[1..])
  }

  /** clnttcp_nb_receive: nothing is read while no call is pending. */
  function Receive(c: Client, replies: seq<Option<Reply>>): Client
    requires forall i :: 0 <= i < |replies| ==> replies[i].Some? ==> IsWord(replies[i].value.word)
  {
    if c.pending == 0 then c
    else
      var c' := DispatchAll(c, replies);
      c'.(pending := c'.pending - |replies|)
  }

  datatype Event = EvCall(encodes: bool) | EvReceive(replies: seq<Option<Reply>>)

  predicate Possible(e: Event) {
    e.EvReceive? ==> forall i :: 0 <= i < |e.replies| ==> e.replies[i].Some? ==> IsWord(e.replies[i].value.word)
  }

  function Step(c: Client, e: Event): Client
    requires IsWord(c.first) && Possible(e)
  {
    match e
    case EvCall(encodes) => Call(c, encodes)
    case EvReceive(replies) => Receive(c, replies)
  }

  // ---------------------------------------------------------------------------
  // What every run keeps
  // ---------------------------------------------------------------------------

  /** A callback pointer names its call, and the entry or firing carries that call's own id. */
  ghost predicate OwnId(c: Client, callback: Ptr, word: nat) {
    1 <= callback <= c.calls && IsWord(c.first) && word == WordAfter(c.first, callback)
  }

  ghost predicate TableOk(c: Client) {
    && IsWord(c.first) && NoDup(Keys(c.table))
    && forall i :: 0 <= i < |c.table| ==>
         1 <= c.table[i].data <= c.calls && c.table[i].key == KeyOf(WordAfter(c.first, c.table[i].data))
  }

  ghost predicate FiredOk(c: Client) {
    && (forall i :: 0 <= i < |c.fired| ==> OwnId(c, c.fired[i].callback, c.fired[i].word))
    && (forall i, j :: 0 <= i < j < |c.fired| ==> c.fired[i].callback != c.fired[j].callback)
    && (forall i, j :: 0 <= i < |c.fired| && 0 <= j < |c.table| ==> c.fired[i].callback != c.table[j].data)
  }

  ghost predicate Balanced(c: Client) {
    c.pending == |c.table| + c.refused - c.failed - c.unmatched
  }

  /** Entries and firings carry the ids of their own calls, and no callback is in both. */
  ghost predicate Matched(c: Client) {
    TableOk(c) && FiredOk(c)
  }

  ghost predicate Inv(c: Client) {
    Matched(c) && Balanced(c)
  }

  function Start(first: nat): Client {
    Client(first, 0, [], 0, [], 0, 0, 0)
  }

  lemma DistinctData(c: Client, i: nat, j: nat)
    requires TableOk(c) && i < j < |c.table|
    ensures c.table[i].data != c.table[j].data
  {
    assert Keys(c.table)[i] != Keys(c.table)[j];
  }

  lemma CallKeeps(c: Client, encodes: bool)
    requires Matched(c)
    ensures Matched(Call(c, encodes))
    ensures Balanced(c) ==> Balanced(Call(c, encodes))
  {
    hide KeyOf, WordAfter;
    var c' := Call(c, encodes);
    var key := KeyOf(WordAfter(c.first, c.calls + 1));
    if key !in Keys(c.table) {
      assert Keys(c'.table) == Keys(c.table) + [key];
    }
  }

  /** Taking entry i out and running its callback. */
  lemma FireKeeps(c: Client, i: nat, r: Reply)
    requires Matched(c) && i < |c.table|
    requires IsWord(r.word) && c.table[i].key == KeyOf(r.word)
    ensures var c' := Fire(c, Delete(c.table, i), c.table[i].data, r); Matched(c')
  {
    KeyInjective(WordAfter(c.first, c.table[i].data), r.word);
    hide KeyOf, WordAfter;
    var table' := Delete(c.table, i);
    assert Keys(table') == Delete(Keys(c.table), i);
    DeleteInside(Keys(c.table), i);
    forall j | 0 <= j < |table'|
      ensures table'[j].data != c.table[i].data
    {
      if j < i { DistinctData(c, j, i); } else { DistinctData(c, i, j + 1); }
    }
  }

  /** The shortcut through the oldest entry does what a plain removal by id does. */
  lemma ShortcutIsRemoval(c: Client, reply: Reply)
    requires NoDup(Keys(c.table)) && IsWord(reply.word)
    ensures var key := KeyOf(reply.word);
            Dispatch(c, Some(reply)) ==
            if key in Keys(c.table) then Fire(c, Without(c.table, key), DataOf(c.table, key), reply) else Unmatched(c)
  {
    hide KeyOf;
    var key := KeyOf(reply.word);
    if c.table != [] && c.table[0].key == key {
      NoDupPos(Keys(c.table), 0);
      assert Delete(c.table, 0) == c.table[1..];
    }
  }

  lemma DispatchKeeps(c: Client, reply: Option<Reply>)
    requires Matched(c)
    requires reply.Some? ==> IsWord(reply.value.word)
    ensures var c' := Dispatch(c, reply);
            && c'.first == c.first && Matched(c')
            && |c'.table| - c'.unmatched == |c.table| - c.unmatched - 1
            && c'.pending == c.pending && c'.refused == c.refused && c'.failed == c.failed
  {
    hide KeyOf, WordAfter;
    if reply.Some? {
      ShortcutIsRemoval(c, reply.value);
      var key := KeyOf(reply.value.word);
      if key in Keys(c.table) {
        FireKeeps(c, Pos(Keys(c.table), key), reply.value);
      }
    }
  }

  lemma {:induction false} DispatchAllKeeps(c: Client, replies: seq<Option<Reply>>)
    requires Matched(c)
    requires forall i :: 0 <= i < |replies| ==> replies[i].Some? ==> IsWord(replies[i].value.word)
    ensures var c' := DispatchAll(c, replies);
            && c'.first == c.first && Matched(c')
            && |c'.table| - c'.unmatched == |c.table| - c.unmatched - |replies|
            && c'.pending == c.pending && c'.refused == c.refused && c'.failed == c.failed
    decreases |replies|
  {
    hide Matched, Dispatch;
    if replies != [] {
      DispatchKeeps(c, replies[0]);
      DispatchAllKeeps(Dispatch(c, replies[0]), replies[1..]);
    }
  }

  lemma StepKeeps(c: Client, e: Event)
    requires Inv(c) && Possible(e)
    ensures Inv(Step(c, e))
  {
    match e
    case EvCall(encodes) => CallKeeps(c, encodes);
    case EvReceive(replies) => DispatchAllKeeps(c, replies);
  }

  ghost function Run(c: Client, events: seq<Event>): (c': Client)
    requires Inv(c) && forall i :: 0 <= i < |events| ==> Possible(events[i])
    ensures Inv(c')
    decreases |events|
  {
    if events == [] then c else
      StepKeeps(c, events[0]);
      Run(Step(c, events[0]), events[1..])
  }

  /**
   In every run, with duplicate, unknown, undecodable and out-of-order replies mixed in, each
   callback runs at most once, only with a reply carrying the id of its own call, and never
   while its entry is still in the table.
   */
  lemma CallbacksRunOnce(first: nat, events: seq<Event>, i: nat)
    requires IsWord(first) && forall k :: 0 <= k < |events| ==> Possible(events[k])
    requires i < |Run(Start(first), events).fired|
    ensures var c := Run(Start(first), events);
            && 1 <= c.fired[i].callback <= c.calls
            && c.fired[i].word == WordAfter(first, c.fired[i].callback)
            && (forall j :: 0 <= j < |c.fired| && j != i ==> c.fired[j].callback != c.fired[i].callback)
            && (forall j :: 0 <= j < |c.table| ==> c.table[j].data != c.fired[i].callback)
  {
    RunKeepsFirst(Start(first), events);
  }

  lemma {:induction false} RunKeepsFirst(c: Client, events: seq<Event>)
    requires Inv(c) && forall k :: 0 <= k < |events| ==> Possible(events[k])
    ensures Run(c, events).first == c.first
    decreases |events|
  {
    if events != [] {
      StepKeeps(c, events[0]);
      if events[0].EvReceive? { DispatchAllKeeps(c, events[0].replies); }
      hide Inv, Step;
      RunKeepsFirst(Step(c, events[0]), events[1..]);
    }
  }

  /** Over every run the pending count and the table size differ by exactly the calls that went wrong. */
  lemma PendingCount(first: nat, events: seq<Event>)
    requires IsWord(first) && forall k :: 0 <= k < |events| ==> Possible(events[k])
    ensures var c := Run(Start(first), events);
            && c.pending == |c.table| + c.refused - c.failed - c.unmatched
            && (c.failed == 0 && c.unmatched == 0 ==> c.pending >= |c.table|)
  {}

  /** A record nobody waits for drives the pending count below zero. */
  lemma PendingCanGoNegative(first: nat)
    requires IsWord(first)
    ensures Run(Start(first), [EvCall(true), EvReceive([None, None])]).pending == -1
  {
    var c := Start(first);
    var e1, e2 := EvCall(true), EvReceive([None, None]);
    StepKeeps(c, e1);
    var c1 := Step(c, e1);
    StepKeeps(c1, e2);
    var c2 := Step(c1, e2);
    var two: seq<Option<Reply>>, one: seq<Option<Reply>> := [None, None], [None];
    assert two[1..] == one && one[1..] == [];
    assert c1.pending == 1;
    assert DispatchAll(c1, two) == DispatchAll(Dispatch(c1, None), one);
    assert c2.pending == -1;
    assert [e1, e2][1..] == [e2] && [e2][1..] == [];
    assert Run(c1, [e2]) == Run(c2, []);
  }

  /** The table refuses a call exactly when one a multiple of 2^32 calls older is outstanding. */
  lemma RefusedOnlyAfterWrap(c: Client)
    requires Inv(c)
    ensures KeyOf(WordAfter(c.first, c.calls + 1)) in Keys(c.table) <==>
            exists i :: 0 <= i < |c.table| && (c.calls + 1 - c.table[i].data) % WORDS == 0
  {
    hide KeyOf, WordAfter;
    var key := KeyOf(WordAfter(c.first, c.calls + 1));
    forall i | 0 <= i < |c.table|
      ensures Keys(c.table)[i] == key <==> (c.calls + 1 - c.table[i].data) % WORDS == 0
    {
      IdsRepeatOnlyAfterWrap(c.first, c.table[i].data, c.calls + 1);
    }
  }
}
