/**
 The request queues of src/nfscd_ops.c: any number of threads put requests into a list guarded
 by a mutex and take them out after a semaphore wait. The metadata and the data queue run the
 same steps on their own list, mutex and semaphore; this is one of them.

 Every step of a thread between two points where others may run is one atomic action, and a
 run is any interleaving of the actions of any number of threads. sem_wait returns only after
 it took a unit. A request may come again after it was taken out, but, as the list demands,
 not while it is in the list or on its way there.
 */
module RequestQueue {
  import opened Base
  import FList

  datatype Thread = Thread(id: int)
  type Request = int

  /** Where a thread is in an enqueue call (E) or a dequeue call (D). */
  datatype Place =
    | Idle
    | EStart(rq: Request)
    | ELocked(rq: Request)
    | ELinked(rq: Request)
    | EPosted(rq: Request)
    | DWaiting
    | DGranted
    | DLocked
    | DFirst(rq: Request)
    | DUnlinked(rq: Request)

  /** The shared objects, the threads, and the history of what went through the list. */
  datatype State = State(
    sem: int,
    lock: Option<Thread>,
    queue: seq<Request>,
    at: map<Thread, Place>,
    enqueued: seq<Request>,
    removed: seq<Request>,
    returned: seq<Request>,
    sawEmpty: bool)

  /** init_nfsclient_queues. */
  const INIT := State(0, None, [], map[], [], [], [], false)

  function PlaceOf(s: State, t: Thread): Place {
    if t in s.at then s.at[t] else Idle
  }

  /** The thread has a request that is not in the list yet. */
  predicate Carrying(p: Place) {
    p.EStart? || p.ELocked?
  }

  datatype Action =
    | BeginEnqueue(rq: Request)
    | BeginDequeue
    | Proceed

  /** What the caller of an enqueue must respect, and when a call that may block goes on. */
  ghost predicate Enabled(s: State, t: Thread, a: Action) {
    match a
    case BeginEnqueue(rq) =>
      && PlaceOf(s, t) == Idle
      && rq !in s.queue
      && forall u :: Carrying(PlaceOf(s, u)) ==> PlaceOf(s, u).rq != rq
    case BeginDequeue => PlaceOf(s, t) == Idle
    case Proceed => CanProceed(s, t)
  }

  predicate CanProceed(s: State, t: Thread) {
    match PlaceOf(s, t)
    case Idle => false
    case EStart(_) => s.lock == None
    case DWaiting => s.sem > 0
    case DGranted => s.lock == None
    case _ => true
  }

  function GoTo(s: State, t: Thread, p: Place): State {
    s.(at := s.at[t := p])
  }

  /** flist_del of the entry of rq. */
  function Unlink(queue: seq<Request>, rq: Request): seq<Request> {
    var i := Pos(queue, rq);
    if i < |queue| then Delete(queue, i) else queue
  }

  function Advance(s: State, t: Thread): State
    requires CanProceed(s, t)
  {
    match PlaceOf(s, t)
    case EStart(rq) => GoTo(s, t, ELocked(rq)).(lock := Some(t))
    case ELocked(rq) => GoTo(s, t, ELinked(rq)).(queue := s.queue + [rq], enqueued := s.enqueued + [rq])
    case ELinked(rq) => GoTo(s, t, EPosted(rq)).(sem := s.sem + 1)
    case EPosted(rq) => GoTo(s, t, Idle).(lock := None)
    case DWaiting => GoTo(s, t, DGranted).(sem := s.sem - 1)
    case DGranted => GoTo(s, t, DLocked).(lock := Some(t))
    case DLocked =>
      if s.queue == [] then GoTo(s, t, DFirst(0)).(sawEmpty := true)
      else GoTo(s, t, DFirst(s.queue[0]))
    case DFirst(rq) => GoTo(s, t, DUnlinked(rq)).(queue := Unlink(s.queue, rq), removed := s.removed + [rq])
    case DUnlinked(rq) => GoTo(s, t, Idle).(lock := None, returned := s.returned + [rq])
  }

  ghost function Next(s: State, t: Thread, a: Action): State
    requires Enabled(s, t, a)
  {
    match a
    case BeginEnqueue(rq) => GoTo(s, t, EStart(rq))
    case BeginDequeue => GoTo(s, t, DWaiting)
    case Proceed => Advance(s, t)
  }

  // ---------------------------------------------------------------------------
  // The invariant
  // ---------------------------------------------------------------------------

  /** The thread is between pthread_mutex_lock and pthread_mutex_unlock. */
  predicate InCritical(p: Place) {
    p.ELocked? || p.ELinked? || p.EPosted? || p.DLocked? || p.DFirst? || p.DUnlinked?
  }

  /** The thread took a unit of the semaphore and has not removed its request yet. */
  predicate IsTaking(p: Place) {
    p.DGranted? || p.DLocked? || p.DFirst?
  }

  function Taking(s: State): set<Thread> {
    set t | t in s.at && IsTaking(s.at[t])
  }

  /** Where the thread that has the lock is. */
  function Holder(s: State): Place {
    if s.lock.Some? then PlaceOf(s, s.lock.value) else Idle
  }

  ghost predicate Exclusive(s: State) {
    forall t :: InCritical(PlaceOf(s, t)) <==> s.lock == Some(t)
  }

  /** The semaphore counts the requests in the list that no thread has come for. */
  ghost predicate Counted(s: State) {
    && s.sem >= 0
    && s.sem + |Taking(s)| + (if Holder(s).ELinked? then 1 else 0) == |s.queue|
  }

  /** Requests leave in the order they came, and are handed to callers in that order too. */
  ghost predicate Ordered(s: State) {
    && s.enqueued == s.removed + s.queue
    && s.removed == s.returned + (if Holder(s).DUnlinked? then [Holder(s).rq] else [])
    && (Holder(s).DFirst? ==> s.queue != [] && s.queue[0] == Holder(s).rq)
    && !s.sawEmpty
  }

  /** No request is in the list, or on its way there, twice. */
  ghost predicate Distinct(s: State) {
    && NoDup(s.queue)
    && (forall t :: Carrying(PlaceOf(s, t)) ==> PlaceOf(s, t).rq !in s.queue)
    && (forall t, u :: t != u && Carrying(PlaceOf(s, t)) && Carrying(PlaceOf(s, u)) ==>
          PlaceOf(s, t).rq != PlaceOf(s, u).rq)
  }

  ghost predicate Inv(s: State) {
    Exclusive(s) && Counted(s) && Ordered(s) && Distinct(s)
  }

  lemma InitInv()
    ensures Inv(INIT)
  {
    assert Taking(INIT) == {};
  }

  /** The holder's place before and after a step. */
  lemma HolderMoves(s: State, t: Thread, a: Action)
    requires Exclusive(s) && Enabled(s, t, a)
    ensures InCritical(PlaceOf(s, t)) ==> Holder(s) == PlaceOf(s, t)
    ensures var s' := Next(s, t, a);
            && s'.at == s.at[t := PlaceOf(s', t)]
            && Holder(s') == (if InCritical(PlaceOf(s', t)) then PlaceOf(s', t)
                              else if InCritical(PlaceOf(s, t)) then Idle else Holder(s))
            && (!InCritical(PlaceOf(s, t)) && InCritical(PlaceOf(s', t)) ==> s.lock == None)
  {
    assert InCritical(PlaceOf(s, t)) <==> s.lock == Some(t);
  }

  lemma ExclusiveKept(s: State, t: Thread, a: Action)
    requires Exclusive(s) && Enabled(s, t, a)
    ensures Exclusive(Next(s, t, a))
  {
    var s' := Next(s, t, a);
    forall u
      ensures InCritical(PlaceOf(s', u)) <==> s'.lock == Some(u)
    {
      assert InCritical(PlaceOf(s, u)) <==> s.lock == Some(u);
      assert InCritical(PlaceOf(s, t)) <==> s.lock == Some(t);
    }
  }

  lemma TakingMoves(s: State, s': State, t: Thread)
    requires s'.at == s.at[t := PlaceOf(s', t)]
    ensures Taking(s') == if IsTaking(PlaceOf(s', t)) then Taking(s) + {t} else Taking(s) - {t}
    ensures t in Taking(s) <==> IsTaking(PlaceOf(s, t))
  {}

  /** A dequeue that has the lock finds its request in the list: the count says so. */
  lemma DequeueFindsEntry(s: State, t: Thread)
    requires Exclusive(s) && Counted(s) && PlaceOf(s, t).DLocked?
    ensures s.queue != []
  {
    assert InCritical(PlaceOf(s, t)) <==> s.lock == Some(t);
    assert t in Taking(s);
    assert |Taking(s)| >= 1;
  }

  lemma CountedKept(s: State, t: Thread, a: Action)
    requires Exclusive(s) && Counted(s) && Ordered(s) && Enabled(s, t, a)
    ensures Counted(Next(s, t, a))
  {
    var s' := Next(s, t, a);
    HolderMoves(s, t, a);
    TakingMoves(s, s', t);
    if PlaceOf(s, t).DFirst? {
      FirstPos(s.queue, PlaceOf(s, t).rq, 0);
    }
  }

  lemma OrderedKept(s: State, t: Thread, a: Action)
    requires Exclusive(s) && Counted(s) && Ordered(s) && Enabled(s, t, a)
    ensures Ordered(Next(s, t, a))
  {
    HolderMoves(s, t, a);
    var p := PlaceOf(s, t);
    match p
    case DFirst(rq) =>
      FirstPos(s.queue, rq, 0);
      assert s.removed + [rq] + s.queue[1..] == s.removed + s.queue;
    case ELocked(rq) =>
      assert s.removed + (s.queue + [rq]) == s.enqueued + [rq];
    case DLocked =>
      DequeueFindsEntry(s, t);
    case _ =>
  }

  lemma DistinctKept(s: State, t: Thread, a: Action)
    requires Exclusive(s) && Ordered(s) && Distinct(s) && Enabled(s, t, a)
    ensures Distinct(Next(s, t, a))
  {
    hide Pos, Taking;
    var s' := Next(s, t, a);
    HolderMoves(s, t, a);
    forall u ensures PlaceOf(s', u) == if u == t then PlaceOf(s', t) else PlaceOf(s, u) {}
    if PlaceOf(s, t).DFirst? {
      FirstPos(s.queue, PlaceOf(s, t).rq, 0);
      DeleteInside(s.queue, 0);
    }
  }

  lemma StepInv(s: State, t: Thread, a: Action)
    requires Inv(s) && Enabled(s, t, a)
    ensures Inv(Next(s, t, a))
  {
    hide *;
    Opened(s);
    ExclusiveKept(s, t, a);
    CountedKept(s, t, a);
    OrderedKept(s, t, a);
    DistinctKept(s, t, a);
    Closed(Next(s, t, a));
  }

  lemma Opened(s: State)
    requires Inv(s)
    ensures Exclusive(s) && Counted(s) && Ordered(s) && Distinct(s)
  {}

  lemma Closed(s: State)
    requires Exclusive(s) && Counted(s) && Ordered(s) && Distinct(s)
    ensures Inv(s)
  {}

  // ---------------------------------------------------------------------------
  // Whole runs
  // ---------------------------------------------------------------------------

  /** s' is reached from s by the given actions of the given threads. */
  ghost predicate Leads(s: State, steps: seq<(Thread, Action)>, s': State)
    decreases |steps|
  {
    if steps == [] then s == s'
    else
      var (t, a) := steps[0];
      Enabled(s, t, a) && Leads(Next(s, t, a), steps[1..], s')
  }

  lemma {:induction false} RunInv(s: State, steps: seq<(Thread, Action)>, s': State)
    requires Inv(s) && Leads(s, steps, s')
    ensures Inv(s')
    decreases |steps|
  {
    hide Inv, Enabled, Next;
    if steps != [] {
      var (t, a) := steps[0];
      StepInv(s, t, a);
      RunInv(Next(s, t, a), steps[1..], s');
    }
  }

  /**
   In every reachable state: at most one thread is between lock and unlock, no dequeue ever met
   an empty list, requests were handed out in the order they were linked in and each linking
   was handed out at most once, the rest being in the list or with the lock's holder.
   */
  lemma Safety(steps: seq<(Thread, Action)>, s: State, t: Thread, u: Thread)
    requires Leads(INIT, steps, s)
    ensures InCritical(PlaceOf(s, t)) && InCritical(PlaceOf(s, u)) ==> t == u
    ensures !s.sawEmpty
    ensures s.enqueued == s.returned + (if Holder(s).DUnlinked? then [Holder(s).rq] else []) + s.queue
    ensures NoDup(s.queue)
  {
    InitInv();
    RunInv(INIT, steps, s);
    assert InCritical(PlaceOf(s, t)) <==> s.lock == Some(t);
  }

  /**
   No wake-up is lost: while the lock is free and no dequeue is under way, the semaphore stands
   at the length of the list.
   */
  lemma SemaphoreCountsList(steps: seq<(Thread, Action)>, s: State)
    requires Leads(INIT, steps, s)
    requires s.lock == None && forall t :: !IsTaking(PlaceOf(s, t))
    ensures s.sem == |s.queue|
  {
    InitInv();
    RunInv(INIT, steps, s);
    assert Taking(s) == {} by {
      forall t ensures t !in Taking(s) { assert !IsTaking(PlaceOf(s, t)); }
    }
  }

  // ---------------------------------------------------------------------------
  // One call with nothing in its way
  // ---------------------------------------------------------------------------

  /** The thread begins a call and goes on n times. */
  function Alone(t: Thread, a: Action, n: nat): seq<(Thread, Action)> {
    [(t, a)] + seq(n, _ => (t, Proceed))
  }

  ghost predicate Goes(s: State, t: Thread, n: nat, s': State) {
    Leads(s, seq(n, _ => (t, Proceed)), s')
  }

  lemma GoesOn(s: State, t: Thread, n: nat, s': State)
    requires CanProceed(s, t) && Goes(Advance(s, t), t, n, s')
    ensures Goes(s, t, n + 1, s')
  {
    hide CanProceed, Advance;
    var steps := seq(n + 1, _ => (t, Proceed));
    assert steps[0] == (t, Proceed) && steps[1..] == seq(n, _ => (t, Proceed));
  }

  lemma Begins(s: State, t: Thread, a: Action, n: nat, s': State)
    requires Enabled(s, t, a) && Goes(Next(s, t, a), t, n, s')
    ensures Leads(s, Alone(t, a, n), s')
  {
    hide Enabled, Next;
    assert Alone(t, a, n)[0] == (t, a) && Alone(t, a, n)[1..] == seq(n, _ => (t, Proceed));
  }

  lemma Arrived(s: State, t: Thread)
    ensures Goes(s, t, 0, s)
  {}

  lemma MovedTwice(at: map<Thread, Place>, t: Thread, p: Place, q: Place)
    ensures at[t := p][t := q] == at[t := q]
  {}

  lemma EnqueueLocked(s: State, t: Thread, rq: Request)
    requires PlaceOf(s, t) == ELocked(rq)
    ensures Goes(s, t, 3, s.(queue := s.queue + [rq], enqueued := s.enqueued + [rq], sem := s.sem + 1, lock := None,
                             at := s.at[t := Idle]))
  {
    hide Goes, Unlink;
    var s1 := Advance(s, t);
    var s2 := Advance(s1, t);
    var s3 := Advance(s2, t);
    MovedTwice(s.at, t, ELinked(rq), EPosted(rq));
    MovedTwice(s.at, t, EPosted(rq), Idle);
    Arrived(s3, t);
    GoesOn(s2, t, 0, s3);
    GoesOn(s1, t, 1, s3);
    GoesOn(s, t, 2, s3);
  }

  /** An enqueue call links its request last and posts one unit. */
  lemma EnqueueCall(s: State, t: Thread, rq: Request)
    requires PlaceOf(s, t) == Idle && s.lock == None && Enabled(s, t, BeginEnqueue(rq))
    ensures Leads(s, Alone(t, BeginEnqueue(rq), 4),
              s.(queue := s.queue + [rq], enqueued := s.enqueued + [rq], sem := s.sem + 1, at := s.at[t := Idle]))
  {
    hide Goes, Leads, Unlink;
    var s0 := Next(s, t, BeginEnqueue(rq));
    var s1 := Advance(s0, t);
    var s4 := s.(queue := s.queue + [rq], enqueued := s.enqueued + [rq], sem := s.sem + 1, at := s.at[t := Idle]);
    MovedTwice(s.at, t, EStart(rq), ELocked(rq));
    MovedTwice(s.at, t, ELocked(rq), Idle);
    EnqueueLocked(s1, t, rq);
    GoesOn(s0, t, 3, s4);
    Begins(s, t, BeginEnqueue(rq), 4, s4);
  }

  lemma DequeueLocked(s: State, t: Thread)
    requires PlaceOf(s, t) == DLocked && s.queue != []
    ensures Goes(s, t, 3, s.(queue := s.queue[1..], removed := s.removed + [s.queue[0]], returned := s.returned + [s.queue[0]],
                             lock := None, at := s.at[t := Idle]))
  {
    var rq := s.queue[0];
    FirstPos(s.queue, rq, 0);
    assert Unlink(s.queue, rq) == s.queue[1..];
    hide Goes, Unlink, Pos;
    var s1 := Advance(s, t);
    var s2 := Advance(s1, t);
    var s3 := Advance(s2, t);
    MovedTwice(s.at, t, DFirst(rq), DUnlinked(rq));
    MovedTwice(s.at, t, DUnlinked(rq), Idle);
    Arrived(s3, t);
    GoesOn(s2, t, 0, s3);
    GoesOn(s1, t, 1, s3);
    GoesOn(s, t, 2, s3);
  }

  lemma DequeueGranted(s: State, t: Thread)
    requires PlaceOf(s, t) == DGranted && s.lock == None && s.queue != []
    ensures Goes(s, t, 4, s.(queue := s.queue[1..], removed := s.removed + [s.queue[0]], returned := s.returned + [s.queue[0]],
                             at := s.at[t := Idle]))
  {
    hide Goes, Unlink;
    var s1 := Advance(s, t);
    MovedTwice(s.at, t, DLocked, Idle);
    DequeueLocked(s1, t);
    GoesOn(s, t, 3, s.(queue := s.queue[1..], removed := s.removed + [s.queue[0]], returned := s.returned + [s.queue[0]],
                       at := s.at[t := Idle]));
  }

  /** A dequeue call takes one unit and returns the first request of the list. */
  lemma DequeueCall(s: State, t: Thread)
    requires PlaceOf(s, t) == Idle && s.lock == None && s.sem > 0 && s.queue != []
    ensures Leads(s, Alone(t, BeginDequeue, 5),
              s.(queue := s.queue[1..], removed := s.removed + [s.queue[0]], returned := s.returned + [s.queue[0]],
                 sem := s.sem - 1, at := s.at[t := Idle]))
  {
    hide Goes, Leads, Unlink;
    var s0 := Next(s, t, BeginDequeue);
    var s1 := Advance(s0, t);
    var s5 := s.(queue := s.queue[1..], removed := s.removed + [s.queue[0]], returned := s.returned + [s.queue[0]],
                 sem := s.sem - 1, at := s.at[t := Idle]);
    MovedTwice(s.at, t, DWaiting, DGranted);
    MovedTwice(s.at, t, DGranted, Idle);
    DequeueGranted(s1, t);
    GoesOn(s0, t, 4, s5);
    Begins(s, t, BeginDequeue, 5, s5);
  }

  // ---------------------------------------------------------------------------
  // No request is lost: against the calls that were made
  // ---------------------------------------------------------------------------

  /** The requests passed to the enqueue calls of a run. */
  function Passed(steps: seq<(Thread, Action)>): multiset<Request> {
    if steps == [] then multiset{}
    else (if steps[0].1.BeginEnqueue? then multiset{steps[0].1.rq} else multiset{}) + Passed(steps[1..])
  }

  /** The number of dequeue calls of a run. */
  function Dequeues(steps: seq<(Thread, Action)>): nat {
    if steps == [] then 0 else (if steps[0].1.BeginDequeue? then 1 else 0) + Dequeues(steps[1..])
  }

  function Load(p: Place): multiset<Request> {
    if Carrying(p) then multiset{p.rq} else multiset{}
  }

  ghost function Carried(s: State, threads: set<Thread>): multiset<Request> {
    if threads == {} then multiset{}
    else
      var t :| t in threads;
      Load(PlaceOf(s, t)) + Carried(s, threads - {t})
  }

  lemma {:induction false} CarriedWithout(s: State, threads: set<Thread>, t: Thread)
    requires t in threads
    ensures Carried(s, threads) == Load(PlaceOf(s, t)) + Carried(s, threads - {t})
    decreases threads
  {
    var u :| u in threads && Carried(s, threads) == Load(PlaceOf(s, u)) + Carried(s, threads - {u});
    if u != t {
      CarriedWithout(s, threads - {u}, t);
      CarriedWithout(s, threads - {t}, u);
      assert threads - {u} - {t} == threads - {t} - {u};
    }
  }

  lemma {:induction false} CarriedSame(s: State, s': State, threads: set<Thread>)
    requires forall t :: t in threads ==> PlaceOf(s, t) == PlaceOf(s', t)
    ensures Carried(s, threads) == Carried(s', threads)
    decreases threads
  {
    if threads != {} {
      var t :| t in threads;
      CarriedWithout(s, threads, t);
      CarriedWithout(s', threads, t);
      CarriedSame(s, s', threads - {t});
    }
  }

  /** What is carried changes by what the thread that moved carried and carries. */
  lemma CarriedMoves(s: State, s': State, t: Thread)
    requires s'.at == s.at[t := PlaceOf(s', t)]
    ensures Carried(s', s'.at.Keys) + Load(PlaceOf(s, t)) == Carried(s, s.at.Keys) + Load(PlaceOf(s', t))
  {
    hide Load;
    var others := s.at.Keys - {t};
    assert s'.at.Keys - {t} == others;
    CarriedWithout(s', s'.at.Keys, t);
    CarriedSame(s, s', others);
    if t in s.at {
      CarriedWithout(s, s.at.Keys, t);
    } else {
      assert others == s.at.Keys;
      assert PlaceOf(s, t) == Idle;
      NoLoad();
    }
  }

  lemma NoLoad()
    ensures Load(Idle) == multiset{}
  {}

  /** The thread is inside a dequeue call. */
  predicate InDequeue(p: Place) {
    p.DWaiting? || p.DGranted? || p.DLocked? || p.DFirst? || p.DUnlinked?
  }

  function Dequeuing(s: State): set<Thread> {
    set t | t in s.at && InDequeue(s.at[t])
  }

  lemma DequeuingMoves(s: State, s': State, t: Thread)
    requires s'.at == s.at[t := PlaceOf(s', t)]
    ensures |Dequeuing(s')| + (if InDequeue(PlaceOf(s, t)) then 1 else 0) ==
            |Dequeuing(s)| + (if InDequeue(PlaceOf(s', t)) then 1 else 0)
  {
    var others := Dequeuing(s) - {t};
    assert Dequeuing(s') - {t} == others;
    assert t in Dequeuing(s) <==> InDequeue(PlaceOf(s, t));
    assert t in Dequeuing(s') <==> InDequeue(PlaceOf(s', t));
    assert t in Dequeuing(s) ==> Dequeuing(s) == others + {t};
    assert t in Dequeuing(s') ==> Dequeuing(s') == others + {t};
    assert t !in Dequeuing(s) ==> Dequeuing(s) == others;
    assert t !in Dequeuing(s') ==> Dequeuing(s') == others;
  }

  /** What one action does to the histories and to the place of its thread. */
  lemma ActionEffect(s: State, t: Thread, a: Action)
    requires Enabled(s, t, a)
    ensures var s' := Next(s, t, a);
            var p, p' := PlaceOf(s, t), PlaceOf(s', t);
            && s'.at == s.at[t := p']
            && multiset(s'.enqueued) + Load(p') ==
               multiset(s.enqueued) + Load(p) + (if a.BeginEnqueue? then multiset{a.rq} else multiset{})
            && |s'.returned| + (if InDequeue(p') then 1 else 0) ==
               |s.returned| + (if InDequeue(p) then 1 else 0) + (if a.BeginDequeue? then 1 else 0)
  {
    hide Enabled, Next, PlaceOf;
    ActionCases(s, t, a);
    var p, p' := PlaceOf(s, t), PlaceOf(Next(s, t, a), t);
    if a.BeginEnqueue? {
      assert Load(p) == multiset{} && Load(p') == multiset{a.rq};
    } else if p.EStart? {
      assert Load(p') == Load(p);
    } else if p.ELocked? {
      assert multiset(s.enqueued + [p.rq]) == multiset(s.enqueued) + multiset{p.rq};
      assert Load(p) == multiset{p.rq} && Load(p') == multiset{};
    } else {
      assert Load(p) == multiset{} && Load(p') == multiset{};
    }
  }

  lemma ActionCases(s: State, t: Thread, a: Action)
    requires Enabled(s, t, a)
    ensures var s' := Next(s, t, a);
            var p, p' := PlaceOf(s, t), PlaceOf(s', t);
            && s'.at == s.at[t := p']
            && (!a.Proceed? ==> p == Idle)
            && s'.enqueued == (if p.ELocked? then s.enqueued + [p.rq] else s.enqueued)
            && |s'.returned| == |s.returned| + (if p.DUnlinked? then 1 else 0)
            && (if a.BeginEnqueue? then p' == EStart(a.rq) else if p.EStart? then p' == ELocked(p.rq) else !Carrying(p'))
            && (InDequeue(p') <==> (InDequeue(p) && !p.DUnlinked?) || a.BeginDequeue?)
  {
    hide Unlink;
  }

  /** One action: what it links in and hands out, and what moves into and out of calls. */
  lemma StepAccounts(s: State, t: Thread, a: Action)
    requires Enabled(s, t, a)
    ensures var s' := Next(s, t, a);
            && multiset(s'.enqueued) + Carried(s', s'.at.Keys) ==
               multiset(s.enqueued) + Carried(s, s.at.Keys) + (if a.BeginEnqueue? then multiset{a.rq} else multiset{})
            && |s'.returned| + |Dequeuing(s')| == |s.returned| + |Dequeuing(s)| + (if a.BeginDequeue? then 1 else 0)
  {
    hide Carried, Dequeuing, Next, Enabled, Load, InDequeue, PlaceOf;
    var s' := Next(s, t, a);
    ActionEffect(s, t, a);
    CarriedMoves(s, s', t);
    DequeuingMoves(s, s', t);
    Balance(multiset(s'.enqueued), Load(PlaceOf(s', t)), multiset(s.enqueued), Load(PlaceOf(s, t)),
            if a.BeginEnqueue? then multiset{a.rq} else multiset{}, Carried(s', s'.at.Keys), Carried(s, s.at.Keys));
  }

  lemma Balance(e': multiset<Request>, l': multiset<Request>, e: multiset<Request>, l: multiset<Request>,
                n: multiset<Request>, c': multiset<Request>, c: multiset<Request>)
    requires e' + l' == e + l + n && c' + l == c + l'
    ensures e' + c' == e + c + n
  {
    forall x ensures (e' + c')[x] == (e + c + n)[x] {
      assert (e' + l')[x] == (e + l + n)[x] && (c' + l)[x] == (c + l')[x];
    }
  }

  lemma {:induction false} RunAccounts(s: State, steps: seq<(Thread, Action)>, s': State)
    requires Leads(s, steps, s')
    ensures multiset(s'.enqueued) + Carried(s', s'.at.Keys) == multiset(s.enqueued) + Carried(s, s.at.Keys) + Passed(steps)
    ensures |s'.returned| + |Dequeuing(s')| == |s.returned| + |Dequeuing(s)| + Dequeues(steps)
    decreases |steps|
  {
    hide Enabled, Next, Carried, Dequeuing;
    if steps != [] {
      var (t, a) := steps[0];
      StepAccounts(s, t, a);
      RunAccounts(Next(s, t, a), steps[1..], s');
    }
  }

  /**
   In every reachable state the requests passed to enqueue calls are, each as often as it was
   passed, those handed out, the one the lock's holder has taken out, those in the list and those
   on their way to it; and every dequeue call has returned a request or is still under way.
   */
  lemma NoRequestLost(steps: seq<(Thread, Action)>, s: State)
    requires Leads(INIT, steps, s)
    ensures Passed(steps) ==
            multiset(s.returned) + (if Holder(s).DUnlinked? then multiset{Holder(s).rq} else multiset{}) +
            multiset(s.queue) + Carried(s, s.at.Keys)
    ensures Dequeues(steps) == |s.returned| + |Dequeuing(s)|
  {
    InitInv();
    RunInv(INIT, steps, s);
    hide Leads, Carried, Dequeuing, Passed, Dequeues, Next, Enabled, Exclusive, Counted, Distinct;
    RunAccounts(INIT, steps, s);
    StartsEmpty();
    var held := if Holder(s).DUnlinked? then [Holder(s).rq] else [];
    assert s.enqueued == s.returned + held + s.queue;
    assert multiset(s.returned + held + s.queue) == multiset(s.returned) + multiset(held) + multiset(s.queue);
  }

  lemma StartsEmpty()
    ensures Dequeuing(INIT) == {} && INIT.at.Keys == {} && Carried(INIT, INIT.at.Keys) == multiset{}
  {
    assert Dequeuing(INIT) == {} && INIT.at.Keys == {};
  }

  /** When every call has ended, what was passed in is what was handed out and what is in the list. */
  lemma AllAccountedAtRest(steps: seq<(Thread, Action)>, s: State)
    requires Leads(INIT, steps, s) && forall t :: PlaceOf(s, t).Idle?
    ensures Passed(steps) == multiset(s.returned) + multiset(s.queue) && Dequeues(steps) == |s.returned|
  {
    hide Leads, Passed, Dequeues, Next, Enabled;
    NoRequestLost(steps, s);
    NothingCarried(s, s.at.Keys);
    assert Dequeuing(s) == {} by {
      forall t ensures t !in Dequeuing(s) { assert PlaceOf(s, t).Idle?; }
    }
  }

  lemma {:induction false} NothingCarried(s: State, threads: set<Thread>)
    requires forall t :: t in threads ==> PlaceOf(s, t).Idle?
    ensures Carried(s, threads) == multiset{}
    decreases threads
  {
    if threads != {} {
      var t :| t in threads;
      CarriedWithout(s, threads, t);
      NothingCarried(s, threads - {t});
    }
  }

  // ---------------------------------------------------------------------------
  // Every call ends, except dequeues of an empty list
  // ---------------------------------------------------------------------------

  ghost predicate Quiet(s: State) {
    forall t :: !CanProceed(s, t)
  }

  /** When nothing can go on, every call has ended except dequeues waiting for an empty list. */
  lemma QuietMeansDone(s: State)
    requires Inv(s) && Quiet(s)
    ensures s.lock == None
    ensures forall t :: PlaceOf(s, t).Idle? || PlaceOf(s, t).DWaiting?
    ensures s.returned + s.queue == s.enqueued
    ensures (exists t :: PlaceOf(s, t).DWaiting?) ==> s.queue == [] && s.returned == s.enqueued
  {
    assert s.lock.Some? ==> InCritical(PlaceOf(s, s.lock.value)) && CanProceed(s, s.lock.value);
    forall t ensures PlaceOf(s, t).Idle? || PlaceOf(s, t).DWaiting? {
      assert InCritical(PlaceOf(s, t)) <==> s.lock == Some(t);
      assert !CanProceed(s, t);
    }
    assert Taking(s) == {} by {
      forall t ensures t !in Taking(s) { assert !IsTaking(PlaceOf(s, t)); }
    }
    if t :| PlaceOf(s, t).DWaiting? {
      assert !CanProceed(s, t);
    }
  }

  /** The steps a thread still has to take to the end of its call. */
  function Left(p: Place): nat {
    match p
    case Idle => 0
    case EStart(_) => 4
    case ELocked(_) => 3
    case ELinked(_) => 2
    case EPosted(_) => 1
    case DWaiting => 5
    case DGranted => 4
    case DLocked => 3
    case DFirst(_) => 2
    case DUnlinked(_) => 1
  }

  ghost function StepsLeft(s: State, threads: set<Thread>): nat {
    if threads == {} then 0
    else
      var t :| t in threads;
      Left(PlaceOf(s, t)) + StepsLeft(s, threads - {t})
  }

  lemma {:induction false} StepsLeftWithout(s: State, threads: set<Thread>, t: Thread)
    requires t in threads
    ensures StepsLeft(s, threads) == Left(PlaceOf(s, t)) + StepsLeft(s, threads - {t})
    decreases threads
  {
    var u :| u in threads && StepsLeft(s, threads) == Left(PlaceOf(s, u)) + StepsLeft(s, threads - {u});
    if u != t {
      StepsLeftWithout(s, threads - {u}, t);
      StepsLeftWithout(s, threads - {t}, u);
      assert threads - {u} - {t} == threads - {t} - {u};
    }
  }

  lemma {:induction false} StepsLeftSame(s: State, s': State, threads: set<Thread>)
    requires forall t :: t in threads ==> PlaceOf(s, t) == PlaceOf(s', t)
    ensures StepsLeft(s, threads) == StepsLeft(s', threads)
    decreases threads
  {
    if threads != {} {
      var t :| t in threads;
      StepsLeftWithout(s, threads, t);
      StepsLeftWithout(s', threads, t);
      StepsLeftSame(s, s', threads - {t});
    }
  }

  lemma AdvanceMoves(s: State, t: Thread)
    requires CanProceed(s, t)
    ensures t in s.at && Advance(s, t).at.Keys == s.at.Keys
    ensures Left(PlaceOf(Advance(s, t), t)) == Left(PlaceOf(s, t)) - 1
    ensures forall u :: u != t ==> PlaceOf(Advance(s, t), u) == PlaceOf(s, u)
  {
    assert Advance(s, t).at.Keys == s.at.Keys;
  }

  lemma AdvanceTakesOne(s: State, t: Thread)
    requires CanProceed(s, t)
    ensures t in s.at && Advance(s, t).at.Keys == s.at.Keys
    ensures StepsLeft(Advance(s, t), s.at.Keys) == StepsLeft(s, s.at.Keys) - 1
  {
    hide *;
    var s' := Advance(s, t);
    AdvanceMoves(s, t);
    StepsLeftWithout(s, s.at.Keys, t);
    StepsLeftWithout(s', s.at.Keys, t);
    StepsLeftSame(s, s', s.at.Keys - {t});
  }

  /**
   However the calls under way are scheduled, they take exactly as many steps as they have left;
   a schedule that cannot be extended leaves only dequeues waiting for an empty list, and then
   everything that was linked in has been handed out.
   */
  lemma {:induction false} CallsEnd(s: State, schedule: seq<Thread>, s': State)
    requires Inv(s) && Leads(s, seq(|schedule|, i requires 0 <= i < |schedule| => (schedule[i], Proceed)), s')
    ensures s'.at.Keys == s.at.Keys
    ensures |schedule| + StepsLeft(s', s.at.Keys) == StepsLeft(s, s.at.Keys)
    ensures Inv(s')
    ensures Quiet(s') ==> forall t :: PlaceOf(s', t).Idle? || (PlaceOf(s', t).DWaiting? && s'.returned == s'.enqueued)
    decreases |schedule|
  {
    var steps := seq(|schedule|, i requires 0 <= i < |schedule| => (schedule[i], Proceed));
    if schedule == [] {
      if Quiet(s) { QuietMeansDone(s); }
    } else {
      var rest := schedule[1..];
      assert steps[0] == (schedule[0], Proceed);
      assert steps[1..] == seq(|rest|, i requires 0 <= i < |rest| => (rest[i], Proceed));
      StepInv(s, schedule[0], Proceed);
      AdvanceTakesOne(s, schedule[0]);
      CallsEnd(Advance(s, schedule[0]), rest, s');
    }
  }

  // ---------------------------------------------------------------------------
  // The list steps, on the linked list
  // ---------------------------------------------------------------------------

  /** The list of one queue; each method is what a call does to it while it has the lock. */
  class RequestList {
    const head: FList.Node
    ghost var nodes: seq<FList.Node>

    ghost predicate Valid()
      reads this, head, nodes
    {
      FList.Ring(head, nodes) && NoDup(FList.Items(nodes))
    }

    ghost function Queue(): seq<Request>
      reads this
    {
      FList.Items(nodes)
    }

    constructor ()
      ensures Valid() && Queue() == []
    {
      head := new FList.Node(0);
      nodes := [];
      new;
      FList.InitHead(head);
    }

    method Link(rq: FList.Node)
      requires Valid() && rq.item !in Queue() && rq != head
      modifies this, rq, head, nodes
      ensures Valid() && Queue() == old(Queue()) + [rq.item]
    {
      assert forall i :: 0 <= i < |nodes| ==> Queue()[i] == nodes[i].item;
      FList.AddTail(rq, head, nodes);
      nodes := nodes + [rq];
      assert Queue() == old(Queue()) + [rq.item];
    }

    method First() returns (elem: FList.Node)
      requires Valid() && Queue() != []
      ensures elem in nodes && elem.item == Queue()[0]
    {
      elem := head.next;
      assert elem == nodes[0];
    }

    method Del(elem: FList.Node)
      requires Valid() && elem in nodes
      modifies this, elem, head, nodes
      ensures Valid() && Queue() == Unlink(old(Queue()), elem.item)
    {
      ghost var i := Pos(nodes, elem);
      ghost var q := Queue();
      assert q[i] == elem.item;
      NoDupPos(q, i);
      DeleteInside(q, i);
      FList.Del(elem, head, nodes, i);
      nodes := Delete(nodes, i);
      assert Queue() == Delete(q, i);
    }
  }
}
