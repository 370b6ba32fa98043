/**
 The send side of src/clnt_tcp_nb.c: a queue of buffers drained by writes that may be partial.

 write is an oracle, given as the results of the calls to come, in order. A blocking flush may
 use up all of them and still wait; that is the outcome Waiting.
 */
module SendQueue {
  import opened Base

  datatype WriteResult = Wrote(n: nat) | Again | Broken

  datatype Outcome = Returned(code: int) | Waiting

  /** What send_buffers leaves in the list, what the socket accepted, and how it ended. */
  datatype Sent = Sent(list: seq<Bytes>, accepted: Bytes, outcome: Outcome, left: seq<WriteResult>)

  function Accepting(b: Bytes, s: Sent): Sent {
    s.(accepted := b + s.accepted)
  }

  /** send_buffers over a list of what each buffer still has to send. */
  function Send(list: seq<Bytes>, script: seq<WriteResult>, blocking: bool): Sent
    decreases |script|
  {
    if list == [] then Sent([], [], Returned(0), script)
    else if script == [] then Sent(list, [], Waiting, [])
    else
      match script[0]
      case Broken => Sent(list, [], Returned(-1), script[1..])
      case Again => if blocking then Send(list, script[1..], blocking) else Sent(list, [], Returned(0), script[1..])
      case Wrote(n) =>
        if n < |list[0]| then
          var rest := [list[0][n..]] + list[1..];
          if blocking then Accepting(list[0][..n], Send(rest, script[1..], blocking))
          else Sent(rest, list[0][..n], Returned(0), script[1..])
        else Accepting(list[0], Send(list[1..], script[1..], blocking))
  }

  // ---------------------------------------------------------------------------
  // Conservation
  // ---------------------------------------------------------------------------

  lemma ConcatSplit(b: Bytes, n: nat, rest: seq<Bytes>)
    requires n <= |b|
    ensures b[..n] + Concat([b[n..]] + rest) == Concat([b] + rest)
  {
    assert ([b[n..]] + rest)[1..] == rest && ([b] + rest)[1..] == rest;
    assert b[..n] + (b[n..] + Concat(rest)) == b + Concat(rest);
  }

  /** No byte is lost, duplicated or reordered, whatever the writes do. */
  lemma {:induction false} SendConserves(list: seq<Bytes>, script: seq<WriteResult>, blocking: bool)
    ensures var s := Send(list, script, blocking); s.accepted + Concat(s.list) == Concat(list)
    ensures var s := Send(list, script, blocking); blocking && s.outcome == Returned(0) ==> s.list == []
    decreases |script|
  {
    if list != [] && script != [] {
      var rest := [list[0]] + list[1..];
      assert rest == list;
      match script[0]
      case Broken =>
      case Again =>
        if blocking { SendConserves(list, script[1..], blocking); }
      case Wrote(n) =>
        if n < |list[0]| {
          ConcatSplit(list[0], n, list[1..]);
          if blocking {
            var short := [list[0][n..]] + list[1..];
            SendConserves(short, script[1..], blocking);
            var s := Send(short, script[1..], blocking);
            assert list[0][..n] + (s.accepted + Concat(s.list)) == list[0][..n] + s.accepted + Concat(s.list);
          }
        } else {
          SendConserves(list[1..], script[1..], blocking);
          var s := Send(list[1..], script[1..], blocking);
          assert list[0] + (s.accepted + Concat(s.list)) == list[0] + s.accepted + Concat(s.list);
        }
    }
  }

  /** The socket takes all of the buffer. */
  predicate Whole(b: Bytes, w: WriteResult) {
    w.Wrote? && w.n >= |b|
  }

  /**
   A flush that must not block, exactly: the first k buffers are taken whole, and the next write,
   which is not whole, ends it.
   */
  lemma {:induction false} NonblockingSend(list: seq<Bytes>, script: seq<WriteResult>, k: nat)
    requires k <= |list| && k <= |script| && forall j :: 0 <= j < k ==> Whole(list[j], script[j])
    requires k < |list| && k < |script| ==> !Whole(list[k], script[k])
    ensures var s := Send(list, script, false);
            if k == |list| then s == Sent([], Concat(list), Returned(0), script[k..])
            else if k == |script| then s == Sent(list[k..], Concat(list[..k]), Waiting, [])
            else
              && s.left == script[k + 1..]
              && match script[k]
                 case Broken => s.list == list[k..] && s.accepted == Concat(list[..k]) && s.outcome == Returned(-1)
                 case Again => s.list == list[k..] && s.accepted == Concat(list[..k]) && s.outcome == Returned(0)
                 case Wrote(n) =>
                   && s.list == [list[k][n..]] + list[k + 1..]
                   && s.accepted == Concat(list[..k]) + list[k][..n] && s.outcome == Returned(0)
    decreases |script|
  {
    if k == 0 {
      assert list[..0] == [];
    } else {
      assert Whole(list[0], script[0]);
      forall j | 0 <= j < k - 1 ensures Whole(list[1..][j], script[1..][j]) {
        assert Whole(list[j + 1], script[j + 1]);
      }
      NonblockingSend(list[1..], script[1..], k - 1);
      assert list[..k][1..] == list[1..][..k - 1];
      var rest := Concat(list[1..][..k - 1]);
      if k < |list| && k < |script| && script[k].Wrote? {
        assert list[0] + (rest + list[k][..script[k].n]) == list[0] + rest + list[k][..script[k].n];
      }
    }
  }

  function Writes(script: seq<WriteResult>): nat {
    if script == [] then 0
    else (if script[0].Wrote? && script[0].n > 0 then 1 else 0) + Writes(script[1..])
  }

  /**
   A blocking flush went on until the list was empty, an error came, or the results given were used
   up; every write that took bytes made progress, by a byte or by a buffer.
   */
  predicate Ended(list: seq<Bytes>, script: seq<WriteResult>, s: Sent) {
    var u := |script| - |s.left|;
    && 0 <= u && s.left == script[u..] && |s.list| <= |list|
    && |s.accepted| + |list| - |s.list| >= Writes(script[..u])
    && match s.outcome
       case Waiting => s.list != [] && u == |script| && Broken !in script
       case Returned(code) =>
         if code == 0 then s.list == [] && Broken !in script[..u]
         else code == -1 && s.list != [] && u > 0 && script[u - 1] == Broken && Broken !in script[..u - 1]
  }

  lemma {:induction false} BlockingSend(list: seq<Bytes>, script: seq<WriteResult>)
    ensures Ended(list, script, Send(list, script, true))
    decreases |script|
  {
    hide Ended;
    if list == [] || script == [] {
      EndedAtOnce(list, script);
    } else {
      match script[0]
      case Broken => EndedAtOnce(list, script);
      case Again =>
        BlockingSend(list, script[1..]);
        EndedStep(list, list, script, [], Send(list, script[1..], true));
        assert [] + Send(list, script[1..], true).accepted == Send(list, script[1..], true).accepted;
      case Wrote(n) =>
        var partial := n < |list[0]|;
        var list' := if partial then [list[0][n..]] + list[1..] else list[1..];
        BlockingSend(list', script[1..]);
        EndedStep(list, list', script, if partial then list[0][..n] else list[0], Send(list', script[1..], true));
    }
  }

  lemma EndedAtOnce(list: seq<Bytes>, script: seq<WriteResult>)
    requires list == [] || script == [] || script[0] == Broken
    ensures Ended(list, script, Send(list, script, true))
  {
    assert script != [] ==> script[..1] == [script[0]] && [script[0]][1..] == [];
  }

  lemma EndedStep(list: seq<Bytes>, list': seq<Bytes>, script: seq<WriteResult>, taken: Bytes, s: Sent)
    requires script != [] && script[0] != Broken && |list'| <= |list| && Ended(list', script[1..], s)
    requires script[0].Wrote? && script[0].n > 0 ==> |taken| + |list| - |list'| > 0
    ensures Ended(list, script, s.(accepted := taken + s.accepted))
  {
    hide Writes;
    var u := |script[1..]| - |s.left|;
    assert script[..u + 1] == [script[0]] + script[1..][..u] && script[..u + 1][1..] == script[1..][..u];
    assert u > 0 ==> script[..u] == [script[0]] + script[1..][..u - 1];
    assert script == [script[0]] + script[1..];
    WritesStep(script[..u + 1]);
  }

  lemma WritesStep(script: seq<WriteResult>)
    requires script != []
    ensures Writes(script) == (if script[0].Wrote? && script[0].n > 0 then 1 else 0) + Writes(script[1..])
  {}

  /** A flush that must not block ends after at most one write for each buffer. */
  lemma {:induction false} NonblockingReturns(list: seq<Bytes>, script: seq<WriteResult>)
    requires |script| >= |list|
    ensures Send(list, script, false).outcome != Waiting
    ensures |script| - |Send(list, script, false).left| <= |list|
    decreases |script|
  {
    if list != [] && script[0].Wrote? && script[0].n >= |list[0]| {
      NonblockingReturns(list[1..], script[1..]);
    }
  }

  // ---------------------------------------------------------------------------
  // Runs
  // ---------------------------------------------------------------------------

  datatype Queue = Queue(list: seq<Bytes>, accepted: Bytes, queued: Bytes, datatx: nat)

  datatype Event =
    | EvWrite(buf: Bytes, script: seq<WriteResult>)          // writetcp_nb
    | EvFlush(blocking: bool, script: seq<WriteResult>)      // send_buffers from clnttcp_nb_receive

  function Flush(q: Queue, script: seq<WriteResult>, blocking: bool): Queue {
    var s := Send(q.list, script, blocking);
    q.(list := s.list, accepted := q.accepted + s.accepted, datatx := q.datatx + |s.accepted|)
  }

  function Step(q: Queue, e: Event): Queue {
    match e
    case EvWrite(buf, script) => Flush(q.(list := q.list + [buf], queued := q.queued + buf), script, false)
    case EvFlush(blocking, script) => Flush(q, script, blocking)
  }

  function Run(q: Queue, events: seq<Event>): Queue
    decreases |events|
  {
    if events == [] then q else Run(Step(q, events[0]), events[1..])
  }

  predicate Conserved(q: Queue) {
    q.accepted + Concat(q.list) == q.queued && q.datatx == |q.accepted|
  }

  lemma FlushConserves(q: Queue, script: seq<WriteResult>, blocking: bool)
    requires Conserved(q)
    ensures Conserved(Flush(q, script, blocking))
  {
    SendConserves(q.list, script, blocking);
    var s := Send(q.list, script, blocking);
    assert q.accepted + (s.accepted + Concat(s.list)) == q.accepted + s.accepted + Concat(s.list);
  }

  lemma StepConserves(q: Queue, e: Event)
    requires Conserved(q)
    ensures Conserved(Step(q, e))
  {
    match e
    case EvFlush(blocking, script) => FlushConserves(q, script, blocking);
    case EvWrite(buf, script) =>
      ConcatAppend(q.list, buf);
      var q' := q.(list := q.list + [buf], queued := q.queued + buf);
      assert q'.accepted + Concat(q'.list) == (q.accepted + Concat(q.list)) + buf;
      FlushConserves(q', script, false);
  }

  /**
   Over every run of queued buffers and flushes, under every pattern of partial writes, refusals
   and errors, the bytes accepted followed by the bytes still listed are all bytes queued, in
   order, and the transmit counter is the number accepted.
   */
  lemma {:induction false} RunConserves(q: Queue, events: seq<Event>)
    requires Conserved(q)
    ensures Conserved(Run(q, events))
    decreases |events|
  {
    if events != [] {
      StepConserves(q, events[0]);
      RunConserves(Step(q, events[0]), events[1..]);
    }
  }

  /** The bytes passed to the writes of a run, in order. */
  function Written(events: seq<Event>): Bytes {
    if events == [] then []
    else (if events[0].EvWrite? then events[0].buf else []) + Written(events[1..])
  }

  lemma {:induction false} QueuedIsWritten(q: Queue, events: seq<Event>)
    ensures Run(q, events).queued == q.queued + Written(events)
    decreases |events|
  {
    if events == [] {
      assert q.queued + [] == q.queued;
    } else {
      var e := events[0];
      QueuedIsWritten(Step(q, e), events[1..]);
      var b := if e.EvWrite? then e.buf else [];
      assert Step(q, e).queued == q.queued + b;
      assert q.queued + b + Written(events[1..]) == q.queued + (b + Written(events[1..]));
    }
  }

  /** From an empty queue: accepted and queued bytes together are the bytes passed to the writes. */
  lemma NothingLostOrAdded(events: seq<Event>)
    ensures var q := Run(Queue([], [], [], 0), events);
            q.accepted + Concat(q.list) == Written(events) && q.datatx == |q.accepted|
  {
    var start := Queue([], [], [], 0);
    RunConserves(start, events);
    QueuedIsWritten(start, events);
    assert [] + Written(events) == Written(events);
  }

  // ---------------------------------------------------------------------------
  // In place
  // ---------------------------------------------------------------------------

  /** struct frag_buffer: a buffer, where the next byte to send is, and how many there are. */
  datatype FragBuffer = FragBuffer(base: Bytes, current: nat, len: nat) {
    predicate Valid() { current + len <= |base| }

    function Left(): Bytes
      requires Valid()
    {
      base[current..current + len]
    }
  }

  ghost predicate AllValid(bufs: seq<FragBuffer>) {
    forall i :: 0 <= i < |bufs| ==> bufs[i].Valid()
  }

  ghost function Lefts(bufs: seq<FragBuffer>): seq<Bytes>
    requires AllValid(bufs)
  {
    seq(|bufs|, i requires 0 <= i < |bufs| => bufs[i].Left())
  }

  class Sender {
    var sndlist: seq<FragBuffer>
    var datatx: nat
    ghost var q: Queue

    ghost predicate Listed()
      reads this
    {
      AllValid(sndlist) && q.list == Lefts(sndlist) && q.datatx == datatx
    }

    ghost predicate Valid()
      reads this
    {
      Listed() && Conserved(q)
    }

    constructor ()
      ensures Valid() && q == Queue([], [], [], 0)
    {
      sndlist, datatx, q := [], 0, Queue([], [], [], 0);
    }

    /** add_buffer_list, copying the buffer. */
    method AddBuffer(buf: Bytes)
      requires Valid()
      modifies this
      ensures Valid() && q == old(q).(list := old(q).list + [buf], queued := old(q).queued + buf)
    {
      ConcatAppend(q.list, buf);
      assert q.accepted + Concat(q.list + [buf]) == (q.accepted + Concat(q.list)) + buf;
      sndlist := sndlist + [FragBuffer(buf, 0, |buf|)];
      assert buf[0..|buf|] == buf;
      q := q.(list := q.list + [buf], queued := q.queued + buf);
      assert Lefts(sndlist) == q.list;
    }

    /** One result of write on the head of the list, with the bookkeeping around it. */
    method WriteHead(n: nat) returns (partial: bool)
      requires Listed() && sndlist != []
      modifies `sndlist, `datatx, `q
      ensures Listed() && partial == (n < |old(q).list[0]|)
      ensures var b, rest := old(q).list[0], old(q).list[1..];
              var taken := if partial then b[..n] else b;
              q == old(q).(list := if partial then [b[n..]] + rest else rest,
                           accepted := old(q).accepted + taken, datatx := old(q).datatx + |taken|)
    {
      var buf := sndlist[0];
      ghost var b := q.list[0];
      var written := if n < buf.len then n else buf.len;
      datatx := datatx + written;
      partial := written < buf.len;
      if partial {
        sndlist := sndlist[0 := FragBuffer(buf.base, buf.current + written, buf.len - written)];
        q := q.(list := [b[n..]] + q.list[1..], accepted := q.accepted + b[..n], datatx := q.datatx + n);
        assert Lefts(sndlist)[0] == b[n..];
      } else {
        sndlist := sndlist[1..];
        q := q.(list := q.list[1..], accepted := q.accepted + b, datatx := q.datatx + |b|);
      }
      assert Lefts(sndlist) == q.list;
    }

    /** send_buffers. */
    method SendBuffers(script: seq<WriteResult>, blocking: bool) returns (outcome: Outcome)
      requires Valid()
      modifies this
      ensures Valid() && q == Flush(old(q), script, blocking)
      ensures outcome == Send(old(q).list, script, blocking).outcome
      ensures blocking && outcome == Returned(0) ==> sndlist == []
    {
      ghost var q0 := q;
      FlushConserves(q, script, blocking);
      SendConserves(q.list, script, blocking);
      var i := 0;
      assert script[0..] == script;
      while sndlist != []
        invariant i <= |script| && Listed()
        invariant Send(q.list, script[i..], blocking).outcome == Send(q0.list, script, blocking).outcome
        invariant Flush(q, script[i..], blocking) == Flush(q0, script, blocking)
        decreases |script| - i
      {
        if i == |script| {
          FlushNothing(q, script[i..], blocking);
          return Waiting;
        }
        assert script[i..][0] == script[i] && script[i..][1..] == script[i + 1..];
        FlushStep(q, script[i..], blocking);
        match script[i] {
          case Broken =>
            return Returned(-1);
          case Again =>
            if !blocking {
              return Returned(0);
            }
          case Wrote(n) =>
            var partial := WriteHead(n);
            if partial && !blocking {
              return Returned(0);
            }
        }
        i := i + 1;
      }
      FlushNothing(q, script[i..], blocking);
      outcome := Returned(0);
    }

    /**
     writetcp_nb: queue a buffer and send what can be sent without blocking. It reports the length
     unless a write fails, even if bytes stay queued.
     */
    method WriteTcp(buf: Bytes, script: seq<WriteResult>) returns (outcome: Outcome)
      requires Valid()
      modifies this
      ensures Valid() && q == Step(old(q), EvWrite(buf, script))
      ensures outcome == Waiting <==> Send(old(q).list + [buf], script, false).outcome == Waiting
      ensures outcome == Returned(|buf|) <==> Send(old(q).list + [buf], script, false).outcome == Returned(0)
      ensures outcome == Waiting || outcome == Returned(|buf|) || outcome == Returned(-1)
      ensures |script| > |old(q).list| && Broken !in script ==> outcome == Returned(|buf|)
      ensures script != [] && script[0] == Broken ==> outcome == Returned(-1)
    {
      AddBuffer(buf);
      NonblockingOutcome(q.list, script);
      var sent := SendBuffers(script, false);
      outcome := if sent == Returned(0) then Returned(|buf|) else if sent == Waiting then Waiting else Returned(-1);
    }
  }

  /** A flush that must not block fails only on an error, and at once when the first write is one. */
  lemma {:induction false} NonblockingOutcome(list: seq<Bytes>, script: seq<WriteResult>)
    ensures var o := Send(list, script, false).outcome;
            && (o == Waiting || o == Returned(0) || o == Returned(-1))
            && (Broken !in script ==> o != Returned(-1)) && (|script| >= |list| ==> o != Waiting)
            && (list != [] && script != [] && script[0] == Broken ==> o == Returned(-1))
    decreases |script|
  {
    if list != [] && script != [] && Whole(list[0], script[0]) {
      NonblockingOutcome(list[1..], script[1..]);
    }
  }

  lemma FlushNothing(q: Queue, script: seq<WriteResult>, blocking: bool)
    requires q.list == [] || script == []
    ensures Flush(q, script, blocking) == q
    ensures Send(q.list, script, blocking).outcome == if q.list == [] then Returned(0) else Waiting
  {
    assert q.accepted + [] == q.accepted;
  }

  /** What the first write of a flush does to the rest of it. */
  lemma FlushStep(q: Queue, script: seq<WriteResult>, blocking: bool)
    requires q.list != [] && script != []
    ensures var o := Send(q.list, script, blocking).outcome;
            match script[0]
            case Broken => Flush(q, script, blocking) == q && o == Returned(-1)
            case Again =>
              if blocking then
                Flush(q, script, blocking) == Flush(q, script[1..], blocking) && o == Send(q.list, script[1..], blocking).outcome
              else Flush(q, script, blocking) == q && o == Returned(0)
            case Wrote(n) =>
              var b, rest := q.list[0], q.list[1..];
              var partial := n < |b|;
              var taken := if partial then b[..n] else b;
              var q' := q.(list := if partial then [b[n..]] + rest else rest,
                           accepted := q.accepted + taken, datatx := q.datatx + |taken|);
              if partial && !blocking then Flush(q, script, blocking) == q' && o == Returned(0)
              else Flush(q, script, blocking) == Flush(q', script[1..], blocking) && o == Send(q'.list, script[1..], blocking).outcome
  {
    assert q.accepted + [] == q.accepted;
    if script[0].Wrote? {
      var b, rest := q.list[0], q.list[1..];
      var n := script[0].n;
      var taken := if n < |b| then b[..n] else b;
      var list' := if n < |b| then [b[n..]] + rest else rest;
      var s := Send(list', script[1..], blocking);
      assert q.accepted + (taken + s.accepted) == q.accepted + taken + s.accepted;
    }
  }
}
