/**
 The handle of src/clnt_tcp_nb.c (struct ct_data) on top of the hash table and the record
 reader, proved to compute the client of RpcCalls.

 read is an oracle: the bytes each successful read returned, in order; an empty one stands for
 a read that returned nothing or failed. Callbacks do not re-enter the handle. The methods
 return the callbacks they run, taken out of the table, and the ghost value c records them.
 */
module RpcClient {
  import opened Base
  import opened TableSpec
  import TableRuns
  import HashTable
  import RecordMarking
  import RecordReader
  import SendQueue
  import opened RpcCalls

  const BUCKET_XID := 100

  /** Decodes the reply header of a record: its id and payload, or None if it is no reply. */
  type HeaderParser = p: seq<byte> -> Option<Reply> |
    forall b :: p(b).Some? ==> IsWord(p(b).value.word) witness b => None

  predicate Decodable(replies: seq<Option<Reply>>) {
    forall i :: 0 <= i < |replies| ==> replies[i].Some? ==> IsWord(replies[i].value.word)
  }

  function Parsed(parse: HeaderParser, out: seq<RecordMarking.Delivery>): (r: seq<Option<Reply>>)
    ensures |r| == |out| && Decodable(r)
  {
    var r := seq(|out|, i requires 0 <= i < |out| => parse(out[i].msg));
    assert forall i :: 0 <= i < |r| ==> r[i] == parse(out[i].msg);
    r
  }

  /**
   The read loop of rpc_cb: read until something was handed up or nothing came; a non-blocking
   caller of a non-blocking socket reads once. Returns the record state and what was handed up.
   */
  function ReadLoop(v: RecordMarking.Variant, s: RecordMarking.State, chunks: seq<seq<byte>>, once: bool)
    : (r: (RecordMarking.State, seq<RecordMarking.Delivery>))
    requires RecordMarking.WF(s)
    ensures RecordMarking.WF(r.0)
    decreases |chunks|
  {
    if chunks == [] || chunks[0] == [] then (s, [])
    else
      var (s', out) := RecordMarking.Feed(v, s, chunks[0]);
      if out != [] || once then (s', out) else ReadLoop(v, s', chunks[1..], once)
  }

  /** A read loop feeds the first k reads to the reassembly machine, for some k. */
  lemma {:induction false} ReadLoopFeedsPrefix(v: RecordMarking.Variant, s: RecordMarking.State, chunks: seq<seq<byte>>, once: bool)
    returns (k: nat)
    requires RecordMarking.WF(s)
    ensures k <= |chunks| && ReadLoop(v, s, chunks, once) == RecordMarking.FeedAll(v, s, chunks[..k])
    ensures k < |chunks| && chunks[k] != [] && !once ==> ReadLoop(v, s, chunks, once).1 != []
    ensures chunks != [] && chunks[0] != [] ==> k >= 1 && (once ==> k == 1)
    ensures k > 0 ==> RecordMarking.FeedAll(v, s, chunks[..k - 1]).1 == []
    decreases |chunks|
  {
    hide RecordMarking.Feed, RecordMarking.WF;
    if chunks == [] || chunks[0] == [] {
      k := 0;
    } else {
      var (s', out) := RecordMarking.Feed(v, s, chunks[0]);
      if out != [] || once {
        k := 1;
        assert chunks[..0] == [];
        assert chunks[..1][1..] == [];
        assert RecordMarking.FeedAll(v, s', []) == (s', []) && out + [] == out;
      } else {
        var j := ReadLoopFeedsPrefix(v, s', chunks[1..], once);
        k := j + 1;
        assert chunks[..k][1..] == chunks[1..][..j];
        if j > 0 {
          assert chunks[..j][1..] == chunks[1..][..j - 1];
        } else {
          assert chunks[..0] == [];
        }
        assert forall x: seq<RecordMarking.Delivery> :: [] + x == x;
      }
    }
  }

  /** The id table is used plainly: no limit, no automatic rehash, no NULL data. */
  ghost predicate Plain(t: Table) {
    t.limit == 0 && !t.autoRehash && TableRuns.NoNulls(t.age)
  }

  lemma PlainInsert(h: Hash, t: Table, rec: Rec)
    requires WF(h, t) && Plain(t) && rec.data != NULL
    ensures |t.chains| == Pow2(t.bits)
    ensures var t' := Insert(h, t, rec).0;
            Plain(t') && t'.age == if rec.key in Keys(t.age) then t.age else t.age + [rec]
  {
    TableRuns.InsertRefines(h, t, rec);
  }

  lemma PlainRemove(h: Hash, t: Table, key: Key)
    requires WF(h, t) && Plain(t)
    ensures |t.chains| == Pow2(t.bits)
    ensures Remove(h, t, key).1 == DataOf(t.age, key)
    ensures var t' := Remove(h, t, key).0;
            Plain(t') && t'.age == Without(t.age, key)
    ensures key in Keys(t.age) <==> DataOf(t.age, key) != NULL
  {
    UnlinkedWF(h, t, key);
  }

  lemma PlainRemoveFirst(h: Hash, t: Table)
    requires WF(h, t) && Plain(t) && t.age != []
    ensures |t.chains| == Pow2(t.bits)
    ensures RemoveFirst(h, t).1 == t.age[0].data
    ensures var t' := RemoveFirst(h, t).0;
            Plain(t') && t'.age == t.age[1..]
  {
    RemoveFirstIsRemoveOfOldest(h, t);
    UnlinkedWF(h, t, t.age[0].key);
  }

  lemma TableWF(table: HashTable.Ght)
    requires table.Valid()
    ensures WF(table.hash, table.t) && |table.age| == |table.t.age|
    ensures forall i :: 0 <= i < |table.age| ==> table.age[i].key == table.t.age[i].key
  {
    assert forall i :: 0 <= i < |table.age| ==> table.age[i].key == Keys(table.t.age)[i];
  }

  /** The part of the handle that issues ids and matches replies. */
  class CallTable {
    const table: HashTable.Ght
    var word: nat
    var calls: nat
    var pending: int
    ghost var c: Client

    ghost predicate Counts()
      reads this
    {
      Matched(c) && word == WordAfter(c.first, calls) && calls == c.calls && pending == c.pending
    }

    ghost predicate Valid()
      reads this, table, table.entries, table.nr, table.nodes
    {
      table.Valid() && Plain(table.t) && table.t.age == c.table && Counts()
    }

    constructor (first: nat)
      requires IsWord(first)
      ensures Valid() && c == Start(first) && fresh(table) && fresh(table.entries) && fresh(table.nr) && fresh(table.nodes)
    {
      table := new HashTable.Ght(BUCKET_XID);
      word, calls, pending := first, 0, 0;
      c := Start(first);
      new;
      hide *;
      StartCounts(first);
    }

    lemma StartCounts(first: nat)
      requires IsWord(first) && c == Start(first) && word == first && calls == 0 && pending == 0
      requires table.t == Create(BUCKET_XID)
      ensures Counts() && Plain(table.t) && table.t.age == c.table
    {}

    /** clnttcp_nb_call, up to the point where it turns to receiving. */
    method Call(encodes: bool)
      requires Valid()
      modifies this, table, table.entries, table.nr, table.nodes
      ensures Valid() && c == RpcCalls.Call(old(c), encodes)
      ensures fresh(table.Repr() - old(table.Repr()))
    {
      hide *;
      Opened();
      var w := Decrement(word);
      CallStep(c, encodes, w);
      PlainInsert(table.hash, table.t, Rec(KeyOf(w), calls + 1));
      var outcome := table.Insert(KeyOf(w), calls + 1);
      SetCall(w, encodes);
      Closed();
    }

    lemma Opened()
      requires Valid()
      ensures table.Valid() && Plain(table.t) && table.t.age == c.table && Counts()
      ensures Matched(c) && IsWord(c.first) && IsWord(word) && word == WordAfter(c.first, calls) && calls == c.calls
      ensures pending == c.pending
      ensures WF(table.hash, table.t)
      ensures forall e :: e in table.age ==> e in table.nodes
    {
      TableWF(table);
    }

    lemma Closed()
      requires table.Valid() && Plain(table.t) && table.t.age == c.table && Counts()
      ensures Valid()
    {}

    method SetCall(w: nat, encodes: bool)
      requires Counts() && IsWord(c.first) && IsWord(word) && w == Decrement(word)
      modifies this
      ensures Counts() && c == RpcCalls.Call(old(c), encodes)
    {
      CallKeeps(c, encodes);
      WordAfterNext(c.first, calls);
      word := w;
      calls := calls + 1;
      if encodes {
        pending := pending + 1;
      }
      c := RpcCalls.Call(c, encodes);
    }

    /** call_user_cb, for a record whose header is parsed. Returns the callback it runs, or NULL. */
    method Dispatch(reply: Option<Reply>) returns (data: Ptr)
      requires Valid() && (reply.Some? ==> IsWord(reply.value.word))
      modifies `c, table.entries, table.nr, table`oldest, table`newest, table`age, table`chains, table`items, table`t
      modifies table.nodes`next, table.nodes`prev, table.nodes`older, table.nodes`newer
      ensures Valid() && c == RpcCalls.Dispatch(old(c), reply)
      ensures data != NULL ==> reply.Some?
      ensures c.fired == if data == NULL then old(c.fired)
                         else old(c.fired) + [Fired(data, reply.value.word, reply.value.payload)]
    {
      hide *;
      Opened();
      data := NULL;
      DispatchNothing(c);
      if reply.Some? {
        var key := KeyOf(reply.value.word);
        TableWF(table);
        OldestFirst(table);
        DispatchStep(c, reply.value);
        var it;
        it, data := table.First();
        if data != NULL {
          if it.entry.key != key {
            PlainRemove(table.hash, table.t, key);
            data := table.Remove(key);
          } else {
            PlainRemoveFirst(table.hash, table.t);
            data := table.RemoveFirst();
          }
        }
      }
      SetDispatched(reply, data);
      Closed();
    }

    /** Record that the callback taken out of the table ran on the reply, if there was one. */
    method SetDispatched(reply: Option<Reply>, data: Ptr)
      requires Counts() && (reply.Some? ==> IsWord(reply.value.word)) && (data != NULL ==> reply.Some?)
      requires RpcCalls.Dispatch(c, reply) ==
               if data == NULL then Unmatched(c) else Fire(c, table.t.age, data, reply.value)
      modifies `c
      ensures Counts() && c == RpcCalls.Dispatch(old(c), reply)
      ensures c == if data == NULL then Unmatched(old(c)) else Fire(old(c), table.t.age, data, reply.value)
    {
      DispatchKeeps(c, reply);
      DispatchCounts(c, reply);
      c := if data == NULL then Unmatched(c) else Fire(c, table.t.age, data, reply.value);
    }

    /** One call_user_cb for every record handed up, in order. Returns the callbacks that ran. */
    method DispatchAll(replies: seq<Option<Reply>>) returns (ran: seq<Ptr>)
      requires Valid() && Decodable(replies)
      modifies `c, table.entries, table.nr, table`oldest, table`newest, table`age, table`chains, table`items, table`t
      modifies table.nodes`next, table.nodes`prev, table.nodes`older, table.nodes`newer
      ensures Valid() && c == RpcCalls.DispatchAll(old(c), replies)
      ensures Callbacks(c.fired) == Callbacks(old(c.fired)) + ran
      decreases |replies|
    {
      hide *;
      DispatchAllStep(c, replies);
      ran := [];
      NoMoreCallbacks(c.fired);
      if replies != [] {
        var data := Dispatch(replies[0]);
        OneMoreCallback(old(c.fired), replies[0], data);
        var more := DispatchAll(replies[1..]);
        ran := (if data == NULL then [] else [data]) + more;
        assert Callbacks(old(c.fired)) + (if data == NULL then [] else [data]) + more == Callbacks(old(c.fired)) + ran;
      }
    }

    /** Dispatch the records of one read loop and take them off the pending count. */
    method Answer(replies: seq<Option<Reply>>) returns (ran: seq<Ptr>)
      requires Valid() && Decodable(replies) && pending != 0
      modifies `c, `pending
      modifies table.entries, table.nr, table`oldest, table`newest, table`age, table`chains, table`items, table`t
      modifies table.nodes`next, table.nodes`prev, table.nodes`older, table.nodes`newer
      ensures Valid() && c == RpcCalls.Receive(old(c), replies)
      ensures Callbacks(c.fired) == Callbacks(old(c.fired)) + ran
    {
      hide *;
      Opened();
      ReceiveStep(c, replies);
      ran := DispatchAll(replies);
      Opened();
      CountDown(|replies|);
      Closed();
    }

    method CountDown(n: nat)
      requires Counts()
      modifies `c, `pending
      ensures Counts() && c == old(c).(pending := old(c).pending - n)
    {
      pending := pending - n;
      c := c.(pending := c.pending - n);
    }
  }

  lemma ReceiveStep(c: Client, replies: seq<Option<Reply>>)
    requires Decodable(replies) && c.pending != 0
    ensures var c' := RpcCalls.DispatchAll(c, replies);
            RpcCalls.Receive(c, replies) == c'.(pending := c'.pending - |replies|)
  {}

  lemma DispatchAllStep(c: Client, replies: seq<Option<Reply>>)
    requires Decodable(replies)
    ensures replies == [] ==> RpcCalls.DispatchAll(c, replies) == c
    ensures replies != [] ==>
              && (replies[0].Some? ==> IsWord(replies[0].value.word)) && Decodable(replies[1..])
              && RpcCalls.DispatchAll(c, replies) == RpcCalls.DispatchAll(RpcCalls.Dispatch(c, replies[0]), replies[1..])
  {}

  lemma OldestFirst(table: HashTable.Ght)
    requires table.Valid() && Plain(table.t)
    ensures table.t.age == [] ==> HashTable.At(table.age, 0) == null
    ensures table.t.age != [] ==>
              && HashTable.At(table.age, 0) != null && HashTable.At(table.age, 0).key == table.t.age[0].key
              && table.t.age[0].data != NULL
  {
    TableWF(table);
  }

  ghost function Callbacks(fired: seq<Fired>): seq<Ptr> {
    seq(|fired|, i requires 0 <= i < |fired| => fired[i].callback)
  }

  lemma NoMoreCallbacks(fired: seq<Fired>)
    ensures Callbacks(fired) + [] == Callbacks(fired)
  {}

  lemma OneMoreCallback(fired: seq<Fired>, reply: Option<Reply>, data: Ptr)
    requires data != NULL ==> reply.Some?
    ensures data != NULL ==>
              Callbacks(fired + [Fired(data, reply.value.word, reply.value.payload)]) == Callbacks(fired) + [data]
    ensures data == NULL ==> Callbacks(fired) == Callbacks(fired) + []
  {}

  lemma DispatchNothing(c: Client)
    ensures RpcCalls.Dispatch(c, None) == Unmatched(c) && Unmatched(c).table == c.table && Unmatched(c).fired == c.fired
  {}

  lemma DispatchStep(c: Client, reply: Reply)
    requires Matched(c) && IsWord(reply.word)
    ensures var key := KeyOf(reply.word);
            && (c.table != [] && c.table[0].key == key ==>
                  RpcCalls.Dispatch(c, Some(reply)) == Fire(c, c.table[1..], c.table[0].data, reply))
            && (c.table == [] || c.table[0].key != key ==>
                  RpcCalls.Dispatch(c, Some(reply)) ==
                  if DataOf(c.table, key) == NULL then Unmatched(c)
                  else Fire(c, Without(c.table, key), DataOf(c.table, key), reply))
            && (c.table == [] ==> RpcCalls.Dispatch(c, Some(reply)) == Unmatched(c))
            && (DataOf(c.table, key) == NULL ==> Without(c.table, key) == c.table)
    ensures forall t, d :: Fire(c, t, d, reply).table == t && Fire(c, t, d, reply).fired == c.fired + [Fired(d, reply.word, reply.payload)]
  {
    ShortcutIsRemoval(c, reply);
    hide KeyOf;
    var key := KeyOf(reply.word);
    if c.table != [] && c.table[0].key == key {
      NoDupPos(Keys(c.table), 0);
      assert Delete(c.table, 0) == c.table[1..];
    }
    if key in Keys(c.table) {
      assert c.table[Pos(Keys(c.table), key)].data != NULL;
    }
  }

  lemma DispatchCounts(c: Client, reply: Option<Reply>)
    requires reply.Some? ==> IsWord(reply.value.word)
    ensures var c' := RpcCalls.Dispatch(c, reply); c'.calls == c.calls && c'.first == c.first && c'.pending == c.pending
  {}

  lemma CallStep(c: Client, encodes: bool, w: nat)
    requires IsWord(c.first) && w == Decrement(WordAfter(c.first, c.calls))
    ensures IsWord(w)
    ensures var rec := Rec(KeyOf(w), c.calls + 1);
            && rec.data != NULL
            && RpcCalls.Call(c, encodes).table == if rec.key in Keys(c.table) then c.table else c.table + [rec]
  {
    hide KeyOf, WordAfter, Decrement;
    WordAfterNext(c.first, c.calls);
  }

  /** What the flag argument says: RPC_NO_TX_FLUSH, RPC_NO_RX and RPC_NONBLOCK_WAIT, each when absent. */
  datatype Flags = Flags(flush: bool, read: bool, blocking: bool)

  /** struct ct_data. */
  class Handle {
    const ids: CallTable
    const reader: RecordReader.Reader
    const sender: SendQueue.Sender
    const parse: HeaderParser
    const nonblocking: bool      // the socket is

    ghost predicate Valid()
      reads this, ids, ids.table, ids.table.entries, ids.table.nr, ids.table.nodes
      reads reader, reader.fragBuf, reader.marker, sender
    {
      && ids.Valid() && reader.Valid() && sender.Valid()
      && Apart(reader.fragBuf, ids.table) && Apart(reader.marker, ids.table)
    }

    static ghost predicate Apart(a: array<byte>, table: HashTable.Ght)
      reads table
    {
      a as object != table.entries && a as object != table.nr && a as object !in table.nodes
    }

    constructor (first: nat, variant: RecordMarking.Variant, parse: HeaderParser, nonblocking: bool)
      requires IsWord(first)
      ensures Valid() && ids.c == Start(first) && reader.variant == variant && this.parse == parse
      ensures reader.View() == RecordMarking.Init(reader.marker[..]) && this.nonblocking == nonblocking
      ensures sender.q == SendQueue.Queue([], [], [], 0)
    {
      hide *;
      var ids := new CallTable(first);
      var reader := new RecordReader.Reader(variant);
      var sender := new SendQueue.Sender();
      this.ids, this.reader, this.sender, this.parse, this.nonblocking := ids, reader, sender, parse, nonblocking;
      new;
      Closed();
    }

    lemma Opened()
      requires Valid()
      ensures ids.Valid() && reader.Valid() && sender.Valid()
      ensures reader.fragBuf as object != ids.table.entries && reader.fragBuf as object != ids.table.nr
      ensures reader.marker as object != ids.table.entries && reader.marker as object != ids.table.nr
      ensures reader.fragBuf as object !in ids.table.nodes && reader.marker as object !in ids.table.nodes
    {}

    /** The read loop of rpc_cb, over what each read returned. */
    method ReadRecords(chunks: seq<seq<byte>>, once: bool) returns (out: seq<RecordMarking.Delivery>)
      requires reader.Valid()
      modifies reader, reader.fragBuf, reader.marker
      ensures reader.Valid() && (reader.fragBuf == old(reader.fragBuf) || fresh(reader.fragBuf))
      ensures (reader.View(), out) == ReadLoop(reader.variant, old(reader.View()), chunks, once)
    {
      hide RecordMarking.WF, RecordMarking.Feed;
      out := [];
      var i := 0;
      assert chunks[0..] == chunks;
      while i < |chunks| && chunks[i] != []
        invariant i <= |chunks| && out == []
        invariant reader.Valid() && (reader.fragBuf == old(reader.fragBuf) || fresh(reader.fragBuf))
        invariant ReadLoop(reader.variant, reader.View(), chunks[i..], once) ==
                  ReadLoop(reader.variant, old(reader.View()), chunks, once)
        decreases |chunks| - i
      {
        assert chunks[i..][0] == chunks[i] && chunks[i..][1..] == chunks[i + 1..];
        out := reader.Feed(chunks[i]);
        if out != [] || once {
          return;
        }
        i := i + 1;
      }
    }

    /**
     clnttcp_nb_receive: flush, then read and dispatch, as far as the flags say and calls are
     pending. Returns how many records were handed up and the callbacks that ran; blocked if a
     blocking flush still waits when the given writes are used up.
     */
    method Receive(flags: Flags, script: seq<SendQueue.WriteResult>, chunks: seq<seq<byte>>)
      returns (called: nat, ran: seq<Ptr>, blocked: bool)
      requires Valid()
      modifies ids, ids.table, ids.table.entries, ids.table.nr, ids.table.nodes
      modifies reader, reader.fragBuf, reader.marker, sender
      ensures Valid()
      ensures sender.q == if flags.flush then SendQueue.Flush(old(sender.q), script, flags.blocking) else old(sender.q)
      ensures blocked <==>
                flags.flush && SendQueue.Send(old(sender.q).list, script, flags.blocking).outcome == SendQueue.Waiting
      ensures blocked || old(ids.pending) == 0 || !flags.read ==>
                ids.c == old(ids.c) && called == 0 && ran == [] && reader.View() == old(reader.View())
      ensures !blocked && old(ids.pending) != 0 && flags.read ==>
                var (s, out) := ReadLoop(reader.variant, old(reader.View()), chunks, nonblocking && !flags.blocking);
                && reader.View() == s && called == |out|
                && ids.c == RpcCalls.Receive(old(ids.c), Parsed(parse, out))
                && Callbacks(ids.c.fired) == Callbacks(old(ids.c.fired)) + ran
    {
      hide *;
      Opened();
      called, ran, blocked := 0, [], false;
      if flags.flush {
        var outcome := sender.SendBuffers(script, flags.blocking);
        blocked := outcome == SendQueue.Waiting;
      }
      if !blocked && ids.pending != 0 && flags.read {
        var out := ReadRecords(chunks, nonblocking && !flags.blocking);
        called := |out|;
        ran := ids.Answer(Parsed(parse, out));
      }
      Closed();
    }

    lemma Closed()
      requires ids.Valid() && reader.Valid() && sender.Valid()
      requires reader.fragBuf as object != ids.table.entries && reader.fragBuf as object != ids.table.nr
      requires reader.marker as object != ids.table.entries && reader.marker as object != ids.table.nr
      requires reader.fragBuf as object !in ids.table.nodes && reader.marker as object !in ids.table.nodes
      ensures Valid()
    {}
  }
}
