/**
 Whole runs of a handle with the intended record reader: what the calls and receives together
 dispatch, against the records of all the bytes they read.
 */
module RpcRuns {
  import opened Base
  import opened RecordMarking
  import opened RpcCalls
  import opened RpcClient

  /** A call, or a receive with what its reads would return. */
  datatype HandleEvent = HCall(encodes: bool) | HReceive(reading: bool, once: bool, chunks: seq<Bytes>)

  datatype HandleState = HandleState(c: Client, s: State)

  ghost predicate Sound(x: HandleState) {
    Inv(x.c) && WF(x.s)
  }

  /** The reads that a read loop takes. */
  function Took(s: State, chunks: seq<Bytes>, once: bool): seq<Bytes>
    requires WF(s)
    decreases |chunks|
  {
    if chunks == [] || chunks[0] == [] then []
    else
      var (s', out) := Feed(Intended, s, chunks[0]);
      if out != [] || once then [chunks[0]] else [chunks[0]] + Took(s', chunks[1..], once)
  }

  lemma {:induction false} ReadLoopTakes(s: State, chunks: seq<Bytes>, once: bool)
    requires WF(s)
    ensures ReadLoop(Intended, s, chunks, once) == FeedAll(Intended, s, Took(s, chunks, once))
    decreases |chunks|
  {
    hide Feed, WF;
    if chunks != [] && chunks[0] != [] {
      var (s', out) := Feed(Intended, s, chunks[0]);
      var took := Took(s, chunks, once);
      if out != [] || once {
        assert took[1..] == [];
        assert FeedAll(Intended, s', []) == (s', []) && out + [] == out;
      } else {
        ReadLoopTakes(s', chunks[1..], once);
        assert took[1..] == Took(s', chunks[1..], once);
        var rest := FeedAll(Intended, s', took[1..]).1;
        assert [] + rest == rest;
      }
    }
  }

  predicate Receives(x: HandleState, e: HandleEvent) {
    e.HReceive? && e.reading && x.c.pending != 0
  }

  ghost function Read(x: HandleState, e: HandleEvent): seq<Bytes>
    requires Sound(x)
  {
    if Receives(x, e) then Took(x.s, e.chunks, e.once) else []
  }

  /** A receive that reads takes the first reads offered, at least one if there is any. */
  lemma {:induction false} TookPrefix(s: State, chunks: seq<Bytes>, once: bool)
    requires WF(s)
    ensures Took(s, chunks, once) <= chunks
    ensures chunks != [] && chunks[0] != [] ==> Took(s, chunks, once) != []
    decreases |chunks|
  {
    hide Feed, WF;
    if chunks != [] && chunks[0] != [] {
      var (s', out) := Feed(Intended, s, chunks[0]);
      if out == [] && !once {
        TookPrefix(s', chunks[1..], once);
      }
    }
  }

  lemma ReceiveReads(x: HandleState, e: HandleEvent)
    requires Sound(x) && Receives(x, e)
    ensures Read(x, e) <= e.chunks && (e.chunks != [] && e.chunks[0] != [] ==> Read(x, e) != [])
  {
    TookPrefix(x.s, e.chunks, e.once);
  }

  /** What the event is to the id table and the pending count. */
  ghost function Seen(parse: HeaderParser, x: HandleState, e: HandleEvent): Event
    requires Sound(x)
  {
    match e
    case HCall(encodes) => EvCall(encodes)
    case HReceive(_, _, _) => EvReceive(Parsed(parse, FeedAll(Intended, x.s, Read(x, e)).1))
  }

  /** clnttcp_nb_call and clnttcp_nb_receive on the handle, as the methods of Handle compute them. */
  ghost function HandleStep(parse: HeaderParser, x: HandleState, e: HandleEvent): HandleState
    requires Sound(x)
  {
    match e
    case HCall(encodes) => x.(c := Call(x.c, encodes))
    case HReceive(_, once, chunks) =>
      if !Receives(x, e) then x
      else
        var (s, out) := ReadLoop(Intended, x.s, chunks, once);
        HandleState(Receive(x.c, Parsed(parse, out)), s)
  }

  lemma HandleStepSplits(parse: HeaderParser, x: HandleState, e: HandleEvent)
    requires Sound(x)
    ensures var x' := HandleStep(parse, x, e);
            && Possible(Seen(parse, x, e)) && x'.c == Step(x.c, Seen(parse, x, e)) && Sound(x')
            && x'.s == FeedAll(Intended, x.s, Read(x, e)).0
  {
    hide WF, Feed, Matched, Balanced, Dispatch;
    if e.HReceive? {
      ReadLoopTakes(x.s, e.chunks, e.once);
    }
    assert Possible(Seen(parse, x, e));
    StepKeeps(x.c, Seen(parse, x, e));
  }

  ghost function HandleRun(parse: HeaderParser, x: HandleState, events: seq<HandleEvent>): (x': HandleState)
    requires Sound(x)
    ensures Sound(x')
    decreases |events|
  {
    if events == [] then x else
      HandleStepSplits(parse, x, events[0]);
      HandleRun(parse, HandleStep(parse, x, events[0]), events[1..])
  }

  /** All reads of a run, and all events as the id table sees them. */
  ghost function AllRead(parse: HeaderParser, x: HandleState, events: seq<HandleEvent>): seq<Bytes>
    requires Sound(x)
    decreases |events|
  {
    if events == [] then [] else
      HandleStepSplits(parse, x, events[0]);
      Read(x, events[0]) + AllRead(parse, HandleStep(parse, x, events[0]), events[1..])
  }

  ghost function AllSeen(parse: HeaderParser, x: HandleState, events: seq<HandleEvent>): (r: seq<Event>)
    requires Sound(x)
    ensures forall i :: 0 <= i < |r| ==> Possible(r[i])
    decreases |events|
  {
    if events == [] then [] else
      HandleStepSplits(parse, x, events[0]);
      [Seen(parse, x, events[0])] + AllSeen(parse, HandleStep(parse, x, events[0]), events[1..])
  }

  /** The replies dispatched by a run, in order. */
  function Dispatched(events: seq<Event>): seq<Option<Reply>> {
    if events == [] then []
    else (if events[0].EvReceive? then events[0].replies else []) + Dispatched(events[1..])
  }

  function ParseAll(parse: HeaderParser, msgs: seq<Bytes>): (r: seq<Option<Reply>>)
    ensures |r| == |msgs|
  {
    seq(|msgs|, i requires 0 <= i < |msgs| => parse(msgs[i]))
  }

  lemma ParsedIsParseAll(parse: HeaderParser, out: seq<Delivery>)
    ensures Parsed(parse, out) == ParseAll(parse, Messages(out))
  {}

  lemma ParseAppend(parse: HeaderParser, a: seq<Bytes>, b: seq<Bytes>)
    ensures ParseAll(parse, a + b) == ParseAll(parse, a) + ParseAll(parse, b)
  {}

  lemma {:induction false} FeedAllAppend(s: State, a: seq<Bytes>, b: seq<Bytes>)
    requires WF(s)
    ensures var (s1, o1) := FeedAll(Intended, s, a);
            var (s2, o2) := FeedAll(Intended, s1, b);
            FeedAll(Intended, s, a + b) == (s2, o1 + o2)
    decreases |a|
  {
    hide Feed, WF;
    if a == [] {
      assert a + b == b;
      var o := FeedAll(Intended, s, b).1;
      assert [] + o == o;
    } else {
      assert (a + b)[1..] == a[1..] + b;
      var (s1, o1) := Feed(Intended, s, a[0]);
      FeedAllAppend(s1, a[1..], b);
      var (s2, o2) := FeedAll(Intended, s1, a[1..]);
      var o3 := FeedAll(Intended, s2, b).1;
      assert o1 + (o2 + o3) == (o1 + o2) + o3;
    }
  }

  lemma {:induction false} RunSplits(parse: HeaderParser, x: HandleState, events: seq<HandleEvent>)
    requires Sound(x)
    ensures var x' := HandleRun(parse, x, events);
            var (s, out) := FeedAll(Intended, x.s, AllRead(parse, x, events));
            && x'.s == s && Dispatched(AllSeen(parse, x, events)) == ParseAll(parse, Messages(out))
            && x'.c == Run(x.c, AllSeen(parse, x, events))
    decreases |events|
  {
    hide WF, FeedAll, Inv, Step, HandleStep, Read;
    if events == [] {
      FedNothing(parse, x.s);
    } else {
      var e, rest := events[0], events[1..];
      HandleStepSplits(parse, x, e);
      var x1 := HandleStep(parse, x, e);
      RunSplits(parse, x1, rest);
      var seen := AllSeen(parse, x, events);
      assert seen[1..] == AllSeen(parse, x1, rest);
      FeedAllAppend(x.s, Read(x, e), AllRead(parse, x1, rest));
      var o1 := FeedAll(Intended, x.s, Read(x, e)).1;
      var o2 := FeedAll(Intended, x1.s, AllRead(parse, x1, rest)).1;
      MessagesAppend(o1, o2);
      ParseAppend(parse, Messages(o1), Messages(o2));
      ParsedIsParseAll(parse, o1);
      if e.HCall? { CallReadsNothing(parse, x, e); }
    }
  }

  lemma FedNothing(parse: HeaderParser, s: State)
    requires WF(s)
    ensures FeedAll(Intended, s, []) == (s, []) && ParseAll(parse, Messages([])) == []
  {}

  lemma CallReadsNothing(parse: HeaderParser, x: HandleState, e: HandleEvent)
    requires Sound(x) && e.HCall?
    ensures FeedAll(Intended, x.s, Read(x, e)).1 == [] && ParseAll(parse, Messages([])) == []
  {}

  /**
   Over any run of calls and receives on a new handle, however the stream is cut into reads and
   the reads fall on receives: the records dispatched, in order, are the records of the one-shot
   parser on all bytes read, but for an empty last fragment still waiting for a byte; and the
   callbacks that ran, the id table and the pending count are what those dispatches make of them.
   */
  lemma RunDispatchesRecords(parse: HeaderParser, first: nat, stale: Bytes, events: seq<HandleEvent>)
    requires IsWord(first) && |stale| == MARKER
    ensures var x := HandleState(Start(first), Init(stale));
            && Sound(x)
            && var x' := HandleRun(parse, x, events);
               var seen := AllSeen(parse, x, events);
               && x'.c == Run(Start(first), seen)
               && Dispatched(seen) + ParseAll(parse, Withheld(x'.s)) ==
                  ParseAll(parse, Records(Concat(AllRead(parse, x, events)), []))
  {
    var x := HandleState(Start(first), Init(stale));
    RunSplits(parse, x, events);
    var taken := AllRead(parse, x, events);
    IntendedYieldsRecords(stale, taken);
    hide FeedAll, AllRead, AllSeen, HandleRun, Run, Records, Withheld, Init;
    var (s, out) := FeedAll(Intended, Init(stale), taken);
    ParseAppend(parse, Messages(out), Withheld(s));
  }
}
