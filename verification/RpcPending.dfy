/**
 The pending count of src/clnt_tcp_nb.c: exactly which runs of calls and receives keep it equal
 to the number of calls in the id table, and which keep it from going below zero. The conditions
 are stated on the events alone.
 */
module RpcPending {
  import opened Base
  import opened TableSpec
  import opened RpcCalls

  ghost predicate AllPossible(events: seq<Event>) {
    forall i :: 0 <= i < |events| ==> Possible(events[i])
  }

  /** Some call among these was sent with the id of the word. */
  ghost predicate Answers(first: nat, open: set<nat>, word: nat)
    requires IsWord(first)
  {
    exists m :: m in open && WordAfter(first, m) == word
  }

  function Closed(first: nat, open: set<nat>, word: nat): set<nat>
    requires IsWord(first)
  {
    set m | m in open && WordAfter(first, m) != word
  }

  /** Each of these records is the reply to a call still open. */
  ghost predicate AllAnswer(first: nat, open: set<nat>, replies: seq<Option<Reply>>)
    requires IsWord(first)
    decreases |replies|
  {
    replies == [] ||
    (&& replies[0].Some? && Answers(first, open, replies[0].value.word)
     && AllAnswer(first, Closed(first, open, replies[0].value.word), replies[1..]))
  }

  function AllClosed(first: nat, open: set<nat>, replies: seq<Option<Reply>>): set<nat>
    requires IsWord(first)
    decreases |replies|
  {
    if replies == [] then open
    else if replies[0].None? then AllClosed(first, open, replies[1..])
    else AllClosed(first, Closed(first, open, replies[0].value.word), replies[1..])
  }

  /** No open call is a multiple of 2^32 calls older than call n. */
  ghost predicate IdFree(open: set<nat>, n: nat) {
    forall m :: m in open ==> (n - m) % WORDS != 0
  }

  /**
   From here on every call encodes exactly when its id is free, and every record that is read
   answers an open call; nothing is read while no call is open.
   */
  ghost predicate Orderly(first: nat, calls: nat, open: set<nat>, events: seq<Event>)
    requires IsWord(first)
    decreases |events|
  {
    events == [] ||
    match events[0]
    case EvCall(encodes) =>
      && (encodes <==> IdFree(open, calls + 1))
      && Orderly(first, calls + 1, if encodes then open + {calls + 1} else open, events[1..])
    case EvReceive(replies) =>
      if open == {} then Orderly(first, calls, open, events[1..])
      else AllAnswer(first, open, replies) && Orderly(first, calls, AllClosed(first, open, replies), events[1..])
  }

  /** The numbers of the calls in the table. */
  ghost function Numbers(table: seq<Rec>): set<nat> {
    set i | 0 <= i < |table| :: table[i].data
  }

  lemma NumbersEmpty(table: seq<Rec>)
    ensures Numbers(table) == {} <==> table == []
  {
    if table != [] {
      assert table[0].data in Numbers(table);
    }
  }

  lemma InNumbers(table: seq<Rec>, i: nat)
    requires i < |table|
    ensures table[i].data in Numbers(table)
  {}

  ghost predicate DistinctNumbers(table: seq<Rec>) {
    forall i, j :: 0 <= i < j < |table| ==> table[i].data != table[j].data
  }

  lemma TableNumbers(c: Client)
    requires TableOk(c)
    ensures DistinctNumbers(c.table)
  {
    hide KeyOf, WordAfter;
    forall i, j | 0 <= i < j < |c.table| ensures c.table[i].data != c.table[j].data {
      DistinctData(c, i, j);
    }
  }

  lemma NumbersDelete(table: seq<Rec>, i: nat)
    requires DistinctNumbers(table) && i < |table|
    ensures Numbers(Delete(table, i)) == Numbers(table) - {table[i].data}
  {
    var t := Delete(table, i);
    forall m | m in Numbers(t) ensures m in Numbers(table) - {table[i].data} {
      var k :| 0 <= k < |t| && t[k].data == m;
      assert t[k] == table[if k < i then k else k + 1];
    }
    forall m | m in Numbers(table) - {table[i].data} ensures m in Numbers(t) {
      var j :| 0 <= j < |table| && table[j].data == m;
      InNumbers(t, if j < i then j else j - 1);
    }
  }

  /** A key is in the table exactly when an open call was sent with its word. */
  lemma KeyOpen(c: Client, word: nat)
    requires TableOk(c) && IsWord(word)
    ensures KeyOf(word) in Keys(c.table) <==> Answers(c.first, Numbers(c.table), word)
    ensures forall i :: 0 <= i < |c.table| ==>
              (c.table[i].key == KeyOf(word) <==> WordAfter(c.first, c.table[i].data) == word)
  {
    hide KeyOf, WordAfter;
    forall i | 0 <= i < |c.table|
      ensures c.table[i].key == KeyOf(word) <==> WordAfter(c.first, c.table[i].data) == word
    {
      if c.table[i].key == KeyOf(word) { KeyInjective(WordAfter(c.first, c.table[i].data), word); }
    }
    if KeyOf(word) in Keys(c.table) {
      var i := Pos(Keys(c.table), KeyOf(word));
      assert c.table[i].data in Numbers(c.table);
    }
    if m :| m in Numbers(c.table) && WordAfter(c.first, m) == word {
      var i :| 0 <= i < |c.table| && c.table[i].data == m;
      assert Keys(c.table)[i] == KeyOf(word);
    }
  }

  /** One record: it answers an open call exactly when the table gets smaller. */
  lemma DispatchCloses(c: Client, reply: Option<Reply>)
    requires Matched(c) && (reply.Some? ==> IsWord(reply.value.word))
    ensures var c' := Dispatch(c, reply);
            && |c'.table| == |c.table| - (if reply.Some? && Answers(c.first, Numbers(c.table), reply.value.word) then 1 else 0)
            && Numbers(c'.table) ==
               if reply.Some? then Closed(c.first, Numbers(c.table), reply.value.word) else Numbers(c.table)
  {
    hide KeyOf, WordAfter;
    if reply.Some? {
      var word := reply.value.word;
      ShortcutIsRemoval(c, reply.value);
      KeyOpen(c, word);
      if KeyOf(word) in Keys(c.table) {
        var i := Pos(Keys(c.table), KeyOf(word));
        TableNumbers(c);
        NumbersDelete(c.table, i);
        OnlyOne(c, i, word);
      }
    }
  }

  lemma OnlyOne(c: Client, i: nat, word: nat)
    requires TableOk(c) && i < |c.table| && IsWord(word) && c.table[i].key == KeyOf(word)
    ensures Closed(c.first, Numbers(c.table), word) == Numbers(c.table) - {c.table[i].data}
  {
    hide KeyOf, WordAfter;
    KeyOpen(c, word);
    forall j | 0 <= j < |c.table| && j != i ensures WordAfter(c.first, c.table[j].data) != word {
      assert Keys(c.table)[i] != Keys(c.table)[j];
    }
  }

  lemma {:induction false} DispatchAllCloses(c: Client, replies: seq<Option<Reply>>)
    requires Matched(c) && Possible(EvReceive(replies))
    ensures var c' := DispatchAll(c, replies);
            && |c'.table| >= |c.table| - |replies|
            && (|c'.table| == |c.table| - |replies| <==> AllAnswer(c.first, Numbers(c.table), replies))
            && Numbers(c'.table) == AllClosed(c.first, Numbers(c.table), replies)
    decreases |replies|
  {
    hide Matched, Dispatch, Answers, Closed;
    if replies != [] {
      MatchedFirst(c);
      DispatchKeeps(c, replies[0]);
      DispatchCloses(c, replies[0]);
      DispatchAllCloses(Dispatch(c, replies[0]), replies[1..]);
    }
  }

  lemma MatchedFirst(c: Client)
    requires Matched(c)
    ensures IsWord(c.first) && TableOk(c)
  {}

  lemma NumbersAppend(table: seq<Rec>, rec: Rec)
    ensures Numbers(table + [rec]) == Numbers(table) + {rec.data}
  {
    var t := table + [rec];
    InNumbers(t, |table|);
    forall m | m in Numbers(table) ensures m in Numbers(t) {
      var i :| 0 <= i < |table| && table[i].data == m;
      InNumbers(t, i);
    }
  }

  lemma IdFreeIffTaken(c: Client)
    requires Inv(c)
    ensures IsWord(c.first)
    ensures IdFree(Numbers(c.table), c.calls + 1) <==> KeyOf(WordAfter(c.first, c.calls + 1)) !in Keys(c.table)
  {
    hide KeyOf, WordAfter, Keys, Inv;
    InvFirst(c);
    RefusedOnlyAfterWrap(c);
    var n := c.calls + 1;
    if i :| 0 <= i < |c.table| && (n - c.table[i].data) % WORDS == 0 {
      InNumbers(c.table, i);
    }
  }

  /** The table takes the next call exactly when its id is free. */
  lemma CallOpens(c: Client, encodes: bool)
    requires Inv(c)
    ensures var c', n := Call(c, encodes), c.calls + 1;
            && |c'.table| == |c.table| + (if IdFree(Numbers(c.table), n) then 1 else 0)
            && Numbers(c'.table) == if IdFree(Numbers(c.table), n) then Numbers(c.table) + {n} else Numbers(c.table)
  {
    hide KeyOf, WordAfter, Keys, Numbers, IdFree, Inv;
    IdFreeIffTaken(c);
    var n := c.calls + 1;
    NumbersAppend(c.table, Rec(KeyOf(WordAfter(c.first, n)), n));
  }

  /** One step from a state where count and table agree. */
  lemma StepOrderly(c: Client, e: Event, rest: seq<Event>)
    requires Inv(c) && Possible(e) && c.pending == |c.table|
    ensures var c' := Step(c, e);
            Inv(c') && (Orderly(c.first, c.calls, Numbers(c.table), [e] + rest) <==>
                        c'.pending == |c'.table| && Orderly(c'.first, c'.calls, Numbers(c'.table), rest))
  {
    hide Matched, Balanced, DispatchAll, AllAnswer, AllClosed, IdFree, Keys, KeyOf, WordAfter;
    StepKeeps(c, e);
    assert ([e] + rest)[0] == e && ([e] + rest)[1..] == rest;
    match e
    case EvCall(encodes) => CallOpens(c, encodes);
    case EvReceive(replies) =>
      NumbersEmpty(c.table);
      MatchedFirst(c);
      DispatchAllKeeps(c, replies);
      DispatchAllCloses(c, replies);
      SameCalls(c, replies);
  }

  lemma {:induction false} SameCalls(c: Client, replies: seq<Option<Reply>>)
    requires Possible(EvReceive(replies))
    ensures DispatchAll(c, replies).calls == c.calls
    decreases |replies|
  {
    if replies != [] { SameCalls(Dispatch(c, replies[0]), replies[1..]); }
  }

  lemma RunOfPrefix(c: Client, events: seq<Event>, k: nat)
    requires Inv(c) && AllPossible(events) && events != [] && k < |events|
    ensures Inv(Step(c, events[0])) && AllPossible(events[1..])
    ensures Run(c, events[..k + 1]) == Run(Step(c, events[0]), events[1..][..k])
  {
    hide Inv, Step;
    StepKeeps(c, events[0]);
    assert events[..k + 1][1..] == events[1..][..k];
  }

  /** The property holds at the start and after every event. */
  ghost predicate Always(p: Client -> bool, c: Client, events: seq<Event>)
    requires Inv(c) && AllPossible(events)
  {
    forall k :: 0 <= k <= |events| ==> p(Run(c, events[..k]))
  }

  lemma AlwaysStep(p: Client -> bool, c: Client, events: seq<Event>)
    requires Inv(c) && AllPossible(events) && events != []
    ensures IsWord(c.first) && Inv(Step(c, events[0])) && AllPossible(events[1..])
    ensures Always(p, c, events) <==> p(c) && Always(p, Step(c, events[0]), events[1..])
  {
    hide Inv, Step, Run, Possible;
    InvFirst(c);
    StepKeeps(c, events[0]);
    RunNothing(c);
    assert events[..0] == [];
    var c', rest := Step(c, events[0]), events[1..];
    if Always(p, c, events) {
      forall k | 0 <= k <= |rest| ensures p(Run(c', rest[..k])) {
        RunOfPrefix(c, events, k);
        assert p(Run(c, events[..k + 1]));
      }
    }
    if p(c) && Always(p, c', rest) {
      forall k | 0 <= k <= |events| ensures p(Run(c, events[..k])) {
        if k > 0 {
          RunOfPrefix(c, events, k - 1);
          assert p(Run(c', rest[..k - 1]));
        }
      }
    }
  }

  lemma InvFirst(c: Client)
    requires Inv(c)
    ensures IsWord(c.first)
  {}

  lemma AlwaysStart(p: Client -> bool, c: Client, events: seq<Event>)
    requires Inv(c) && AllPossible(events)
    ensures Always(p, c, events) ==> p(c)
    ensures events == [] && p(c) ==> Always(p, c, events)
  {
    assert events[..0] == [];
    assert Run(c, events[..0]) == c;
  }

  lemma RunNothing(c: Client)
    requires Inv(c)
    ensures Run(c, []) == c
  {}

  predicate CountIsTable(c: Client) {
    c.pending == |c.table|
  }

  lemma {:induction false} EqualIffOrderly(c: Client, events: seq<Event>)
    requires Inv(c) && AllPossible(events) && CountIsTable(c)
    ensures IsWord(c.first)
    ensures Always(CountIsTable, c, events) <==> Orderly(c.first, c.calls, Numbers(c.table), events)
    decreases |events|
  {
    AlwaysStart(CountIsTable, c, events);
    if events != [] {
      var e, rest := events[0], events[1..];
      assert events == [e] + rest;
      AlwaysStep(CountIsTable, c, events);
      StepOrderly(c, e, rest);
      var c' := Step(c, e);
      hide Inv, Orderly, Step, Always;
      if CountIsTable(c') {
        EqualIffOrderly(c', rest);
      } else {
        AlwaysStart(CountIsTable, c', rest);
      }
    }
  }

  /**
   The pending count is the number of calls in the table throughout a run exactly when every
   call encodes under an id no open call has, or is refused and fails, and every record read
   answers an open call.
   */
  lemma PendingIsTableIff(first: nat, events: seq<Event>)
    requires IsWord(first) && AllPossible(events)
    ensures Inv(Start(first))
    ensures (forall k :: 0 <= k <= |events| ==>
               Run(Start(first), events[..k]).pending == |Run(Start(first), events[..k]).table|) <==>
            Orderly(first, 0, {}, events)
  {
    EqualIffOrderly(Start(first), events);
    NumbersEmpty([]);
    assert Always(CountIsTable, Start(first), events) <==>
           forall k :: 0 <= k <= |events| ==> CountIsTable(Run(Start(first), events[..k]));
  }

  // ---- not negative

  /** From p pending calls on, no receive hands up more records than are pending. */
  predicate Fits(p: nat, events: seq<Event>)
    decreases |events|
  {
    events == [] ||
    match events[0]
    case EvCall(encodes) => Fits(if encodes then p + 1 else p, events[1..])
    case EvReceive(replies) =>
      if p == 0 then Fits(p, events[1..]) else |replies| <= p && Fits(p - |replies|, events[1..])
  }

  predicate NotNegative(c: Client) {
    c.pending >= 0
  }

  lemma {:induction false} NeverNegativeIffFits(c: Client, events: seq<Event>)
    requires Inv(c) && AllPossible(events) && NotNegative(c)
    ensures Always(NotNegative, c, events) <==> Fits(c.pending, events)
    decreases |events|
  {
    hide Inv, Step, Always, Possible;
    AlwaysStart(NotNegative, c, events);
    if events != [] {
      InvFirst(c);
      AlwaysStep(NotNegative, c, events);
      StepPending(c, events[0]);
      var c' := Step(c, events[0]);
      if NotNegative(c') {
        NeverNegativeIffFits(c', events[1..]);
      } else {
        AlwaysStart(NotNegative, c', events[1..]);
      }
    }
  }

  lemma StepPending(c: Client, e: Event)
    requires Inv(c) && Possible(e)
    ensures Step(c, e).pending ==
            match e
            case EvCall(encodes) => if encodes then c.pending + 1 else c.pending
            case EvReceive(replies) => if c.pending == 0 then 0 else c.pending - |replies|
  {
    if e.EvReceive? { DispatchAllKeeps(c, e.replies); }
  }

  /** The pending count stays at zero or above exactly when no receive hands up more than is pending. */
  lemma PendingNeverNegativeIff(first: nat, events: seq<Event>)
    requires IsWord(first) && AllPossible(events)
    ensures Inv(Start(first))
    ensures (forall k :: 0 <= k <= |events| ==> Run(Start(first), events[..k]).pending >= 0) <==> Fits(0, events)
  {
    NeverNegativeIffFits(Start(first), events);
    assert Always(NotNegative, Start(first), events) <==>
           forall k :: 0 <= k <= |events| ==> NotNegative(Run(Start(first), events[..k]));
  }

  // ---- refusals need 2^32 calls

  function CallsIn(events: seq<Event>): nat {
    if events == [] then 0 else (if events[0].EvCall? then 1 else 0) + CallsIn(events[1..])
  }

  /** With fewer than 2^32 calls made before it, a call is never refused. */
  lemma NoEarlyRefusal(c: Client)
    requires Inv(c) && c.calls < WORDS
    ensures IsWord(c.first) && KeyOf(WordAfter(c.first, c.calls + 1)) !in Keys(c.table)
  {
    hide KeyOf, WordAfter, Keys;
    RefusedOnlyAfterWrap(c);
    forall i | 0 <= i < |c.table| ensures (c.calls + 1 - c.table[i].data) % WORDS != 0 {
      assert 1 <= c.calls + 1 - c.table[i].data < WORDS;
    }
  }

  lemma {:induction false} NoRefusalInShortRun(c: Client, events: seq<Event>)
    requires Inv(c) && AllPossible(events) && c.refused == 0 && c.calls + CallsIn(events) <= WORDS
    ensures Run(c, events).refused == 0
    decreases |events|
  {
    if events != [] {
      var e := events[0];
      StepKeeps(c, e);
      if e.EvCall? {
        NoEarlyRefusal(c);
      } else {
        DispatchAllKeeps(c, e.replies);
        SameCalls(c, e.replies);
      }
      hide Inv, KeyOf, WordAfter, DispatchAll;
      NoRefusalInShortRun(Step(c, e), events[1..]);
    }
  }

  /** No call of a run of at most 2^32 calls is refused. */
  lemma NothingRefusedBeforeWrap(first: nat, events: seq<Event>)
    requires IsWord(first) && AllPossible(events) && CallsIn(events) <= WORDS
    ensures Inv(Start(first)) && Run(Start(first), events).refused == 0
  {
    NoRefusalInShortRun(Start(first), events);
  }
}
