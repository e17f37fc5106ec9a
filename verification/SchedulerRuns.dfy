/** All interleavings of the Master's threads: no wakeup is lost, no query is lost or
    duplicated, and no query that has aged to priority 0 is overtaken for long. */
module SchedulerRuns {
  import opened Scheduler

  /** A query-control thread between admission and sem_post. */
  datatype Arrival = Admitted | Enqueued

  /** A worker thread: blocked in sem_wait, past it, or at one of the points between the
      mutex regions that move a query from queue to running list and back. */
  datatype Worker =
    | Waiting
    | Passed
    | Popped(q: nat)
    | Launching(q: nat)
    | Serving(q: nat)
    | Ended(q: nat)
    | Preempted(q: nat, pc: nat)
    | Returning(q: nat)
    | Posting

  datatype State = State(queries: map<nat, Query>, queue: seq<nat>, running: seq<nat>, sem: nat,
                         arrivals: map<nat, Arrival>, workers: map<nat, Worker>, finished: set<nat>)

  const START := State(map[], [], [], 0, map[], map[], {})

  datatype Event =
    | Admit(q: nat, priority: int)       // id assigned, estado = READY
    | Enqueue(q: nat)                    // list_add under the queue mutex
    | PostArrival(q: nat)                // sem_post by the query-control thread
    | Connect(w: nat)                    // a worker with a new id
    | Wait(w: nat)                       // sem_wait returns
    | Pop(w: nat)                        // removal under the queue mutex
    | Mark(w: nat)                       // estado = RUNNING
    | Launch(w: nat)                     // idWorker set, added to the running list
    | Unlist(w: nat, end: bool, pc: nat) // a terminal message or a PC update takes it off
    | Finish(w: nat)                     // estado = EXIT
    | MakeReady(w: nat)                  // estado = READY, program counter stored
    | Requeue(w: nat)                    // list_add under the queue mutex
    | PostReturn(w: nat)                 // sem_post by the worker's thread
    | Age(q: nat)                        // one tick of a query's timer

  ghost predicate Enabled(s: State, e: Event) {
    match e
    case Admit(q, _) => q !in s.queries
    case Enqueue(q) => q in s.arrivals && s.arrivals[q] == Admitted
    case PostArrival(q) => q in s.arrivals && s.arrivals[q] == Enqueued
    case Connect(w) => w !in s.workers
    case Wait(w) => w in s.workers && s.workers[w].Waiting? && s.sem > 0
    case Pop(w) => w in s.workers && s.workers[w].Passed? && Known(s.queries, s.queue)
    case Mark(w) => w in s.workers && s.workers[w].Popped? && s.workers[w].q in s.queries
    case Launch(w) => w in s.workers && s.workers[w].Launching? && s.workers[w].q in s.queries
    case Unlist(w, _, _) => w in s.workers && s.workers[w].Serving? && s.workers[w].q in s.running
    case Finish(w) => w in s.workers && s.workers[w].Ended? && s.workers[w].q in s.queries
    case MakeReady(w) => w in s.workers && s.workers[w].Preempted? && s.workers[w].q in s.queries
    case Requeue(w) => w in s.workers && s.workers[w].Returning?
    case PostReturn(w) => w in s.workers && s.workers[w].Posting?
    case Age(q) => q in s.queries && s.queries[q].estado == Ready && s.queries[q].priority > 0
  }

  ghost function Apply(a: Algorithm, s: State, e: Event): State
    requires Enabled(s, e)
  {
    match e
    case Admit(q, priority) =>
      s.(queries := s.queries[q := Query(priority, 0, Ready, 0)], arrivals := s.arrivals[q := Admitted])
    case Enqueue(q) => s.(queue := s.queue + [q], arrivals := s.arrivals[q := Enqueued])
    case PostArrival(q) => s.(sem := s.sem + 1, arrivals := s.arrivals - {q})
    case Connect(w) => s.(workers := s.workers[w := Waiting])
    case Wait(w) => s.(sem := s.sem - 1, workers := s.workers[w := Passed])
    case Pop(w) =>
      if s.queue == [] then s.(workers := s.workers[w := Waiting]) else
      var i := Pick(a, s.queries, s.queue);
      s.(queue := RemoveAt(s.queue, i), workers := s.workers[w := Popped(s.queue[i])])
    case Mark(w) =>
      var q := s.workers[w].q;
      s.(queries := s.queries[q := s.queries[q].(estado := Running)], workers := s.workers[w := Launching(q)])
    case Launch(w) =>
      var q := s.workers[w].q;
      s.(queries := s.queries[q := s.queries[q].(worker := w)], running := s.running + [q],
         workers := s.workers[w := Serving(q)])
    case Unlist(w, end, pc) =>
      var q := s.workers[w].q;
      s.(running := RemoveAt(s.running, IndexOf(s.running, q)),
         workers := s.workers[w := if end then Ended(q) else Preempted(q, pc)])
    case Finish(w) =>
      var q := s.workers[w].q;
      s.(queries := s.queries[q := s.queries[q].(estado := Exit)], finished := s.finished + {q},
         workers := s.workers[w := Waiting])
    case MakeReady(w) =>
      var q := s.workers[w].q;
      s.(queries := s.queries[q := s.queries[q].(estado := Ready, pc := s.workers[w].pc)],
         workers := s.workers[w := Returning(q)])
    case Requeue(w) => s.(queue := s.queue + [s.workers[w].q], workers := s.workers[w := Posting])
    case PostReturn(w) => s.(sem := s.sem + 1, workers := s.workers[w := Waiting])
    case Age(q) => s.(queries := s.queries[q := s.queries[q].(priority := s.queries[q].priority - 1)])
  }

  // ------------------------------------------------------------ what a step changes

  /** The step that dispatches takes the head of the queue under FIFO and otherwise the first query
      of the smallest priority number, and the queue loses that position and no other.  Of an
      empty queue nothing is taken, and the thread goes back to wait. */
  lemma PopTakes(a: Algorithm, s: State, w: nat)
    requires Enabled(s, Pop(w))
    ensures var s' := Apply(a, s, Pop(w));
      && s'.queries == s.queries && s'.running == s.running && s'.sem == s.sem
      && s'.arrivals == s.arrivals && s'.finished == s.finished
    ensures var s' := Apply(a, s, Pop(w));
      && w in s'.workers && s'.workers == s.workers[w := s'.workers[w]]
      && if s.queue == [] then s'.queue == [] && s'.workers[w].Waiting?
         else s'.workers[w].Popped? && Takes(a, s.queries, s.queue, s'.workers[w].q, s'.queue)
  {
    if s.queue != [] { PickTakes(a, s.queries, s.queue); }
  }

  /** What one step does to a query that Master knows: only the tick of its own timer lowers its
      priority, by one; only the step that makes it READY again changes its program counter, to
      the one its worker reported; each change of state belongs to one kind of step. */
  lemma StepChangesQuery(a: Algorithm, s: State, e: Event, x: nat)
    requires Enabled(s, e) && x in s.queries
    ensures var s' := Apply(a, s, e); x in s'.queries && var q, q' := s.queries[x], s'.queries[x];
      && q'.priority == (if e == Age(x) then q.priority - 1 else q.priority)
      && (e == Age(x) ==> q.priority > 0 && q.estado == Ready)
      && q'.pc == (if e.MakeReady? && s.workers[e.w].q == x then s.workers[e.w].pc else q.pc)
      && q'.worker == (if e.Launch? && s.workers[e.w].q == x then e.w else q.worker)
      && q'.estado == (if e.Mark? && s.workers[e.w].q == x then Running
                       else if e.Finish? && s.workers[e.w].q == x then Exit
                       else if e.MakeReady? && s.workers[e.w].q == x then Ready else q.estado)
  {
  }

  // -------------------------------------------------------------- semaphore account

  /** Threads that have put a query in the queue and not yet posted. */
  ghost function ArrivalsToPost(arrivals: map<nat, Arrival>): set<nat> {
    set q | q in arrivals && arrivals[q] == Enqueued
  }

  ghost function ReturnsToPost(workers: map<nat, Worker>): set<nat> {
    set w | w in workers && workers[w].Posting?
  }

  /** Threads past sem_wait that have not yet taken a query. */
  ghost function PastWait(workers: map<nat, Worker>): set<nat> {
    set w | w in workers && workers[w].Passed?
  }

  ghost predicate SemaphoreAccount(s: State) {
    |s.queue| == s.sem + |ArrivalsToPost(s.arrivals)| + |ReturnsToPost(s.workers)| + |PastWait(s.workers)|
  }

  lemma ArrivalMoves(arrivals: map<nat, Arrival>, q: nat)
    ensures q in arrivals && arrivals[q] == Admitted ==>
      |ArrivalsToPost(arrivals[q := Enqueued])| == |ArrivalsToPost(arrivals)| + 1
    ensures q in arrivals && arrivals[q] == Enqueued ==>
      |ArrivalsToPost(arrivals - {q})| == |ArrivalsToPost(arrivals)| - 1
    ensures q !in arrivals ==> ArrivalsToPost(arrivals[q := Admitted]) == ArrivalsToPost(arrivals)
  {
    if q in arrivals {
      if arrivals[q] == Admitted {
        assert ArrivalsToPost(arrivals[q := Enqueued]) == ArrivalsToPost(arrivals) + {q};
      } else {
        assert q in ArrivalsToPost(arrivals);
        assert ArrivalsToPost(arrivals - {q}) == ArrivalsToPost(arrivals) - {q};
      }
    }
  }

  /** Two sets that differ at most in w. */
  lemma SetMoves(a: set<nat>, b: set<nat>, w: nat)
    requires forall x :: x != w ==> (x in b <==> x in a)
    ensures |b| == |a| - (if w in a then 1 else 0) + (if w in b then 1 else 0)
  {
    assert a - {w} == b - {w};
    if w in a { assert a == (a - {w}) + {w}; }
    if w in b { assert b == (b - {w}) + {w}; }
  }

  lemma WorkerMoves(workers: map<nat, Worker>, w: nat, to: Worker)
    ensures |ReturnsToPost(workers[w := to])| == |ReturnsToPost(workers)|
      - (if w in workers && workers[w].Posting? then 1 else 0) + (if to.Posting? then 1 else 0)
    ensures |PastWait(workers[w := to])| == |PastWait(workers)|
      - (if w in workers && workers[w].Passed? then 1 else 0) + (if to.Passed? then 1 else 0)
  {
    ReturnsMove(workers, w, to);
    PastMoves(workers, w, to);
  }

  lemma ReturnsMove(workers: map<nat, Worker>, w: nat, to: Worker)
    ensures |ReturnsToPost(workers[w := to])| == |ReturnsToPost(workers)|
      - (if w in workers && workers[w].Posting? then 1 else 0) + (if to.Posting? then 1 else 0)
  {
    SetMoves(ReturnsToPost(workers), ReturnsToPost(workers[w := to]), w);
  }

  lemma PastMoves(workers: map<nat, Worker>, w: nat, to: Worker)
    ensures |PastWait(workers[w := to])| == |PastWait(workers)|
      - (if w in workers && workers[w].Passed? then 1 else 0) + (if to.Passed? then 1 else 0)
  {
    SetMoves(PastWait(workers), PastWait(workers[w := to]), w);
  }

  /** A thread past sem_wait finds the queue non-empty. */
  lemma PastWaitFindsQuery(s: State, w: nat)
    requires SemaphoreAccount(s) && w in s.workers && s.workers[w].Passed?
    ensures s.queue != []
  {
    assert w in PastWait(s.workers);
  }

  lemma SemaphoreStep(a: Algorithm, s: State, e: Event)
    requires SemaphoreAccount(s) && Enabled(s, e) && s.arrivals.Keys <= s.queries.Keys
    ensures SemaphoreAccount(Apply(a, s, e))
  {
    match e {
      case Admit(q, _) => ArrivalMoves(s.arrivals, q);
      case Enqueue(q) => ArrivalMoves(s.arrivals, q);
      case PostArrival(q) => ArrivalMoves(s.arrivals, q);
      case Age(q) =>
      case _ =>
        var w := e.w;
        if e.Pop? { PastWaitFindsQuery(s, w); }
        WorkerMoves(s.workers, w, Apply(a, s, e).workers[w]);
        assert Apply(a, s, e).workers == s.workers[w := Apply(a, s, e).workers[w]];
    }
  }

  // -------------------------------------------------------------- where a query is

  datatype Place = InQueue | InRunning | Arriving | InHands(w: nat) | Done

  /** A worker thread carries q between two mutex regions. */
  predicate Carries(t: Worker, q: nat) {
    match t
    case Popped(x) => x == q
    case Launching(x) => x == q
    case Ended(x) => x == q
    case Preempted(x, _) => x == q
    case Returning(x) => x == q
    case _ => false
  }

  ghost predicate At(s: State, q: nat, p: Place) {
    match p
    case InQueue => q in s.queue
    case InRunning => q in s.running
    case Arriving => q in s.arrivals && s.arrivals[q] == Admitted
    case InHands(w) => w in s.workers && Carries(s.workers[w], q)
    case Done => q in s.finished
  }

  ghost predicate NoRepeats(ids: seq<nat>) {
    forall i, j :: 0 <= i < j < |ids| ==> ids[i] != ids[j]
  }

  /** Every admitted query is in exactly one place, once. */
  ghost predicate Conserved(s: State) {
    && NoRepeats(s.queue) && NoRepeats(s.running)
    && (forall q, p :: At(s, q, p) ==> q in s.queries)
    && (forall q :: q in s.queries ==> exists p :: At(s, q, p))
    && (forall q, p, p' :: At(s, q, p) && At(s, q, p') ==> p == p')
  }

  /** The running list and the serving threads agree, through idWorker. */
  ghost predicate ServedByOwner(s: State) {
    && (forall q :: q in s.running ==> q in s.queries)
    && (forall q :: q in s.running ==> s.queries[q].worker in s.workers)
    && (forall q :: q in s.running ==> s.workers[s.queries[q].worker] == Serving(q))
    && (forall w :: w in s.workers && s.workers[w].Serving? ==> s.workers[w].q in s.running)
    && (forall w :: w in s.workers && s.workers[w].Serving? ==> s.queries[s.workers[w].q].worker == w)
  }

  ghost predicate MasterInv(s: State) {
    SemaphoreAccount(s) && Conserved(s) && ServedByOwner(s) && s.arrivals.Keys <= s.queries.Keys
  }

  lemma RemovedOnce(ids: seq<nat>, i: nat)
    requires i < |ids| && NoRepeats(ids)
    ensures NoRepeats(RemoveAt(ids, i))
    ensures forall q :: q in RemoveAt(ids, i) <==> q in ids && q != ids[i]
  {
    var r := RemoveAt(ids, i);
    forall q ensures q in r <==> q in ids && q != ids[i] {
      if q in ids && q != ids[i] {
        var j :| 0 <= j < |ids| && ids[j] == q;
        assert r[if j < i then j else j - 1] == q;
      }
      if q in r {
        var j :| 0 <= j < |r| && r[j] == q;
      }
    }
  }

  /** Query x moves from place p to place p'; all others stay where they are. */
  ghost predicate Moved(s: State, s': State, x: nat, p: Place, p': Place) {
    && At(s', x, p') && !At(s', x, p) && (forall p1 :: p1 != p' && At(s', x, p1) ==> At(s, x, p1))
    && (forall q, p1 :: q != x ==> At(s', q, p1) == At(s, q, p1))
  }

  lemma MoveKeepsConserved(s: State, s': State, x: nat, p: Place, p': Place)
    requires Conserved(s) && At(s, x, p) && Moved(s, s', x, p, p')
    requires s'.queries.Keys == s.queries.Keys && NoRepeats(s'.queue) && NoRepeats(s'.running)
    ensures Conserved(s')
  {
    forall q | q in s'.queries ensures exists p1 :: At(s', q, p1) {
      if q != x {
        var p1 :| At(s, q, p1);
        assert At(s', q, p1);
      }
    }
  }

  lemma ConservedStep(a: Algorithm, s: State, e: Event)
    requires Conserved(s) && Enabled(s, e) && s.arrivals.Keys <= s.queries.Keys
    requires e.Pop? ==> s.queue != []
    ensures Conserved(Apply(a, s, e))
  {
    match e {
      case Admit(q, priority) => AdmitConserves(a, s, q, priority);
      case Enqueue(q) => EnqueueConserves(a, s, q);
      case Pop(w) => PopConserves(a, s, w);
      case Launch(w) => LaunchConserves(a, s, w);
      case Unlist(w, end, pc) => UnlistConserves(a, s, w, end, pc);
      case Finish(w) => FinishConserves(a, s, w);
      case Requeue(w) => RequeueConserves(a, s, w);
      case PostArrival(_) => SamePlaces(s, Apply(a, s, e));
      case Age(_) => SamePlaces(s, Apply(a, s, e));
      case _ => SameHands(a, s, e);
    }
  }

  lemma AdmitConserves(a: Algorithm, s: State, q: nat, priority: int)
    requires Conserved(s) && Enabled(s, Admit(q, priority)) && s.arrivals.Keys <= s.queries.Keys
    ensures Conserved(Apply(a, s, Admit(q, priority)))
  {
    var s' := Apply(a, s, Admit(q, priority));
    assert At(s', q, Arriving);
    forall x, p | x != q ensures At(s', x, p) == At(s, x, p) {}
    forall p | p != Arriving ensures !At(s', q, p) {
      assert !At(s, q, p);
    }
    forall x | x in s'.queries ensures exists p :: At(s', x, p) {
      if x != q {
        var p :| At(s, x, p);
        assert At(s', x, p);
      }
    }
  }

  lemma EnqueueConserves(a: Algorithm, s: State, q: nat)
    requires Conserved(s) && Enabled(s, Enqueue(q))
    ensures Conserved(Apply(a, s, Enqueue(q)))
  {
    var s' := Apply(a, s, Enqueue(q));
    assert At(s, q, Arriving) && !At(s, q, InQueue);
    MoveKeepsConserved(s, s', q, Arriving, InQueue);
  }

  /** Steps of one worker thread that carry the same query before and after. */
  lemma SameHands(a: Algorithm, s: State, e: Event)
    requires Conserved(s) && Enabled(s, e)
    requires e.Connect? || e.Wait? || e.Mark? || e.MakeReady? || e.PostReturn?
    ensures Conserved(Apply(a, s, e))
  {
    var s' := Apply(a, s, e);
    var t := s'.workers[e.w];
    assert s'.workers == s.workers[e.w := t];
    assert forall q :: Carries(t, q) == (e.w in s.workers && Carries(s.workers[e.w], q));
    SamePlaces(s, s');
  }

  lemma SamePlaces(s: State, s': State)
    requires Conserved(s) && s'.queries.Keys == s.queries.Keys && s'.queue == s.queue && s'.running == s.running
    requires forall q, p :: At(s', q, p) == At(s, q, p)
    ensures Conserved(s')
  {
    forall q | q in s'.queries ensures exists p :: At(s', q, p) {
      var p :| At(s, q, p);
      assert At(s', q, p);
    }
  }

  lemma PopConserves(a: Algorithm, s: State, w: nat)
    requires Conserved(s) && Enabled(s, Pop(w)) && s.queue != []
    ensures Conserved(Apply(a, s, Pop(w)))
  {
    var s' := Apply(a, s, Pop(w));
    var i := Pick(a, s.queries, s.queue);
    var q := s.queue[i];
    RemovedOnce(s.queue, i);
    assert At(s, q, InQueue);
    MoveKeepsConserved(s, s', q, InQueue, InHands(w));
  }

  lemma LaunchConserves(a: Algorithm, s: State, w: nat)
    requires Conserved(s) && Enabled(s, Launch(w))
    ensures Conserved(Apply(a, s, Launch(w)))
  {
    var s' := Apply(a, s, Launch(w));
    var q := s.workers[w].q;
    assert At(s, q, InHands(w)) && !At(s, q, InRunning);
    MoveKeepsConserved(s, s', q, InHands(w), InRunning);
  }

  lemma UnlistConserves(a: Algorithm, s: State, w: nat, end: bool, pc: nat)
    requires Conserved(s) && Enabled(s, Unlist(w, end, pc))
    ensures Conserved(Apply(a, s, Unlist(w, end, pc)))
  {
    var s' := Apply(a, s, Unlist(w, end, pc));
    var q := s.workers[w].q;
    RemovedOnce(s.running, IndexOf(s.running, q));
    assert At(s, q, InRunning);
    MoveKeepsConserved(s, s', q, InRunning, InHands(w));
  }

  lemma FinishConserves(a: Algorithm, s: State, w: nat)
    requires Conserved(s) && Enabled(s, Finish(w))
    ensures Conserved(Apply(a, s, Finish(w)))
  {
    var s' := Apply(a, s, Finish(w));
    var q := s.workers[w].q;
    assert At(s, q, InHands(w));
    MoveKeepsConserved(s, s', q, InHands(w), Done);
  }

  lemma RequeueConserves(a: Algorithm, s: State, w: nat)
    requires Conserved(s) && Enabled(s, Requeue(w))
    ensures Conserved(Apply(a, s, Requeue(w)))
  {
    var s' := Apply(a, s, Requeue(w));
    var q := s.workers[w].q;
    assert At(s, q, InHands(w)) && !At(s, q, InQueue);
    MoveKeepsConserved(s, s', q, InHands(w), InQueue);
  }

  lemma OwnerStep(a: Algorithm, s: State, e: Event)
    requires Conserved(s) && ServedByOwner(s) && Enabled(s, e)
    requires e.Pop? ==> s.queue != []
    ensures ServedByOwner(Apply(a, s, e))
  {
    match e {
      case Launch(w) => OwnerLaunches(a, s, w);
      case Unlist(w, end, pc) => OwnerUnlists(a, s, w, end, pc);
      case Admit(_, _) => OwnerUndisturbed(a, s, e);
      case Enqueue(_) => OwnerUndisturbed(a, s, e);
      case PostArrival(_) => OwnerUndisturbed(a, s, e);
      case Age(_) => OwnerUndisturbed(a, s, e);
      case _ => OwnerElsewhere(a, s, e);
    }
  }

  /** No worker thread moves and no running query changes hands. */
  lemma OwnerUndisturbed(a: Algorithm, s: State, e: Event)
    requires ServedByOwner(s) && Enabled(s, e) && (e.Admit? || e.Enqueue? || e.PostArrival? || e.Age?)
    ensures ServedByOwner(Apply(a, s, e))
  {
    var s' := Apply(a, s, e);
    assert s'.workers == s.workers && s'.running == s.running;
    assert forall q :: q in s.queries ==> q in s'.queries && s'.queries[q].worker == s.queries[q].worker;
  }

  /** A worker thread that is not serving moves, and it serves nothing afterwards. */
  lemma OwnerElsewhere(a: Algorithm, s: State, e: Event)
    requires Conserved(s) && ServedByOwner(s) && Enabled(s, e)
    requires e.Connect? || e.Wait? || e.Pop? || e.Mark? || e.Finish? || e.MakeReady? || e.Requeue? || e.PostReturn?
    ensures ServedByOwner(Apply(a, s, e))
  {
    var s' := Apply(a, s, e);
    assert e.w in s'.workers && !s'.workers[e.w].Serving? && s'.workers == s.workers[e.w := s'.workers[e.w]];
    assert e.w in s.workers ==> !s.workers[e.w].Serving?;
    assert s'.running == s.running;
    assert forall q :: q in s.queries ==> q in s'.queries && s'.queries[q].worker == s.queries[q].worker;
  }

  lemma CarriedIsNotRunning(s: State, w: nat, q: nat)
    requires Conserved(s) && w in s.workers && Carries(s.workers[w], q)
    ensures q !in s.running
  {
    assert At(s, q, InHands(w)) && !At(s, q, InRunning);
  }

  lemma OwnerLaunches(a: Algorithm, s: State, w: nat)
    requires Conserved(s) && ServedByOwner(s) && Enabled(s, Launch(w))
    ensures ServedByOwner(Apply(a, s, Launch(w)))
  {
    CarriedIsNotRunning(s, w, s.workers[w].q);
  }

  lemma OwnerUnlists(a: Algorithm, s: State, w: nat, end: bool, pc: nat)
    requires Conserved(s) && ServedByOwner(s) && Enabled(s, Unlist(w, end, pc))
    ensures ServedByOwner(Apply(a, s, Unlist(w, end, pc)))
  {
    RemovedOnce(s.running, IndexOf(s.running, s.workers[w].q));
  }

  lemma StepKeepsMasterInv(a: Algorithm, s: State, e: Event)
    requires MasterInv(s) && Enabled(s, e)
    ensures MasterInv(Apply(a, s, e))
  {
    if e.Pop? { PastWaitFindsQuery(s, e.w); }
    forall q | q in s.queue ensures q in s.queries { assert At(s, q, InQueue); }
    SemaphoreStep(a, s, e);
    ConservedStep(a, s, e);
    OwnerStep(a, s, e);
  }

  /** The guards above that only make a step well defined never block a thread. */
  lemma ThreadsAreNeverStuck(s: State, w: nat)
    requires MasterInv(s) && w in s.workers
    ensures match s.workers[w]
      case Waiting => s.sem > 0 ==> Enabled(s, Wait(w))
      case Passed => Enabled(s, Pop(w)) && s.queue != []
      case Popped(_) => Enabled(s, Mark(w))
      case Launching(_) => Enabled(s, Launch(w))
      case Serving(_) => forall end, pc: nat :: Enabled(s, Unlist(w, end, pc))
      case Ended(_) => Enabled(s, Finish(w))
      case Preempted(_, _) => Enabled(s, MakeReady(w))
      case Returning(_) => Enabled(s, Requeue(w))
      case Posting => Enabled(s, PostReturn(w))
  {
    if s.workers[w].Passed? {
      PastWaitFindsQuery(s, w);
      forall q | q in s.queue ensures q in s.queries { assert At(s, q, InQueue); }
    } else if !s.workers[w].Waiting? && !s.workers[w].Serving? && !s.workers[w].Posting? {
      assert At(s, s.workers[w].q, InHands(w));
    }
  }

  // ---------------------------------------------------------------------- whole runs

  /** A run: each event is enabled where it happens and leads to the next state. */
  ghost predicate Execution(a: Algorithm, states: seq<State>, events: seq<Event>) {
    && |states| == |events| + 1
    && forall i :: 0 <= i < |events| ==>
         Enabled(states[i], events[i]) && states[i + 1] == Apply(a, states[i], events[i])
  }

  lemma {:induction false} ExecutionKeepsMasterInv(a: Algorithm, states: seq<State>, events: seq<Event>, k: nat)
    requires Execution(a, states, events) && states[0] == START && k < |states|
    ensures MasterInv(states[k])
  {
    if k > 0 {
      ExecutionKeepsMasterInv(a, states, events, k - 1);
      StepKeepsMasterInv(a, states[k - 1], events[k - 1]);
    }
  }

  /** No thread is between putting a query in the queue and its post, nor between the wait
      and the removal. */
  ghost predicate NobodyBetween(s: State) {
    && (forall q :: q in s.arrivals ==> s.arrivals[q] == Admitted)
    && (forall w :: w in s.workers ==> !s.workers[w].Posting? && !s.workers[w].Passed?)
  }

  /** In every interleaving: no wakeup is lost, so a worker past sem_wait finds a query, and
      a queued query that nobody is about to post or take leaves the semaphore open. */
  lemma NoLostWakeups(a: Algorithm, states: seq<State>, events: seq<Event>, k: nat)
    requires Execution(a, states, events) && states[0] == START && k < |states|
    ensures var s := states[k];
      |s.queue| == s.sem + |ArrivalsToPost(s.arrivals)| + |ReturnsToPost(s.workers)| + |PastWait(s.workers)|
    ensures forall w :: w in states[k].workers && states[k].workers[w].Passed? ==> states[k].queue != []
    ensures states[k].queue != [] && NobodyBetween(states[k]) ==> states[k].sem > 0
  {
    ExecutionKeepsMasterInv(a, states, events, k);
    var s := states[k];
    forall w | w in s.workers && s.workers[w].Passed? ensures s.queue != [] {
      PastWaitFindsQuery(s, w);
    }
    if NobodyBetween(s) {
      assert ArrivalsToPost(s.arrivals) == {} && ReturnsToPost(s.workers) == {} && PastWait(s.workers) == {};
    }
  }

  /** In every interleaving each admitted query is in exactly one place, at most once in
      each list, and no two running queries share a worker. */
  lemma QueriesAreConserved(a: Algorithm, states: seq<State>, events: seq<Event>, k: nat)
    requires Execution(a, states, events) && states[0] == START && k < |states|
    ensures var s := states[k];
      forall q :: q in s.queries <==> exists p :: At(s, q, p)
    ensures var s := states[k];
      && (forall q, p, p' :: At(s, q, p) && At(s, q, p') ==> p == p')
      && NoRepeats(s.queue) && NoRepeats(s.running)
    ensures var s := states[k];
      && (forall q :: q in s.running ==> q in s.queries)
      && (forall i, j :: 0 <= i < j < |s.running| ==> s.queries[s.running[i]].worker != s.queries[s.running[j]].worker)
  {
    ExecutionKeepsMasterInv(a, states, events, k);
    var s := states[k];
    forall i, j | 0 <= i < j < |s.running|
      ensures s.queries[s.running[i]].worker != s.queries[s.running[j]].worker
    {
      assert s.running[i] in s.running && s.running[j] in s.running;
    }
  }

  // --------------------------------------------------------------- estado and place

  /** The estado of a query that is at place p. */
  ghost function EstadoAt(s: State, p: Place): Estado {
    match p
    case InQueue => Ready
    case Arriving => Ready
    case InRunning => Running
    case Done => Exit
    case InHands(w) =>
      if w in s.workers && (s.workers[w].Popped? || s.workers[w].Returning?) then Ready else Running
  }

  ghost predicate EstadosFit(s: State) {
    forall q, p :: At(s, q, p) ==> q in s.queries && s.queries[q].estado == EstadoAt(s, p)
  }

  /** A query is READY while it arrives, waits, or is on its way out of or back to the queue,
      RUNNING from there on until its worker reports, and EXIT at the end. */
  lemma StepKeepsEstados(a: Algorithm, s: State, e: Event)
    requires MasterInv(s) && EstadosFit(s) && Enabled(s, e)
    ensures EstadosFit(Apply(a, s, e))
  {
    var s' := Apply(a, s, e);
    StepKeepsMasterInv(a, s, e);
    forall q, p | At(s', q, p) ensures q in s'.queries && s'.queries[q].estado == EstadoAt(s', p) {
      if e.Age? || e.Connect? || e.Wait? || e.PostArrival? || e.PostReturn? {
        assert At(s, q, p);
      } else if e.Admit? || e.Enqueue? {
        EstadoArrives(a, s, e, q, p);
      } else if e.Pop? {
        PastWaitFindsQuery(s, e.w);
        EstadoPops(a, s, e.w, q, p);
      } else if e.Unlist? {
        EstadoUnlists(a, s, e, q, p);
      } else if e.Mark? || e.MakeReady? {
        EstadoInHands(a, s, e, q, p);
      } else {
        EstadoLeavesHands(a, s, e, q, p);
      }
    }
  }

  /** A thread that changes the estado of the query it has in hand. */
  lemma EstadoInHands(a: Algorithm, s: State, e: Event, q: nat, p: Place)
    requires EstadosFit(s) && Enabled(s, e) && (e.Mark? || e.MakeReady?)
    requires Conserved(Apply(a, s, e)) && At(Apply(a, s, e), q, p)
    ensures var s' := Apply(a, s, e); q in s'.queries && s'.queries[q].estado == EstadoAt(s', p)
  {
    var s', x := Apply(a, s, e), s.workers[e.w].q;
    assert At(s', x, InHands(e.w));
    if q != x { assert At(s, q, p); }
  }

  /** Query x moves from place p0 to place p1, and nobody else's place or estado changes. */
  lemma EstadoMoves(s: State, s': State, x: nat, p0: Place, p1: Place, q: nat, p: Place)
    requires EstadosFit(s) && Conserved(s') && At(s, x, p0) && At(s', x, p1) && At(s', q, p)
    requires x in s'.queries && s'.queries[x].estado == EstadoAt(s', p1)
    requires q != x ==> At(s, q, p) && EstadoAt(s', p) == EstadoAt(s, p)
    requires q != x && q in s.queries ==> q in s'.queries && s'.queries[q].estado == s.queries[q].estado
    ensures q in s'.queries && s'.queries[q].estado == EstadoAt(s', p)
  {
  }

  lemma EstadoArrives(a: Algorithm, s: State, e: Event, q: nat, p: Place)
    requires EstadosFit(s) && Enabled(s, e) && (e.Admit? || e.Enqueue?)
    requires Conserved(Apply(a, s, e)) && At(Apply(a, s, e), q, p)
    ensures var s' := Apply(a, s, e); q in s'.queries && s'.queries[q].estado == EstadoAt(s', p)
  {
    var s' := Apply(a, s, e);
    if e.Admit? {
      assert At(s', e.q, Arriving);
      if q != e.q { assert At(s, q, p); }
    } else {
      assert At(s, e.q, Arriving);
      EstadoMoves(s, s', e.q, Arriving, InQueue, q, p);
    }
  }

  lemma EstadoPops(a: Algorithm, s: State, w: nat, q: nat, p: Place)
    requires EstadosFit(s) && Conserved(s) && Enabled(s, Pop(w)) && s.queue != []
    requires Conserved(Apply(a, s, Pop(w))) && At(Apply(a, s, Pop(w)), q, p)
    ensures var s' := Apply(a, s, Pop(w)); q in s'.queries && s'.queries[q].estado == EstadoAt(s', p)
  {
    var s' := Apply(a, s, Pop(w));
    RemovedOnce(s.queue, Pick(a, s.queries, s.queue));
    assert At(s, s'.workers[w].q, InQueue);
    EstadoMoves(s, s', s'.workers[w].q, InQueue, InHands(w), q, p);
  }

  lemma EstadoUnlists(a: Algorithm, s: State, e: Event, q: nat, p: Place)
    requires EstadosFit(s) && Conserved(s) && Enabled(s, e) && e.Unlist?
    requires Conserved(Apply(a, s, e)) && At(Apply(a, s, e), q, p)
    ensures var s' := Apply(a, s, e); q in s'.queries && s'.queries[q].estado == EstadoAt(s', p)
  {
    RemovedOnce(s.running, IndexOf(s.running, s.workers[e.w].q));
    assert At(s, s.workers[e.w].q, InRunning);
    EstadoMoves(s, Apply(a, s, e), s.workers[e.w].q, InRunning, InHands(e.w), q, p);
  }

  lemma EstadoLeavesHands(a: Algorithm, s: State, e: Event, q: nat, p: Place)
    requires EstadosFit(s) && Enabled(s, e) && (e.Launch? || e.Finish? || e.Requeue?)
    requires Conserved(Apply(a, s, e)) && At(Apply(a, s, e), q, p)
    ensures var s' := Apply(a, s, e); q in s'.queries && s'.queries[q].estado == EstadoAt(s', p)
  {
    var p1 := if e.Launch? then InRunning else if e.Finish? then Done else InQueue;
    assert At(s, s.workers[e.w].q, InHands(e.w));
    EstadoMoves(s, Apply(a, s, e), s.workers[e.w].q, InHands(e.w), p1, q, p);
  }

  lemma {:induction false} EstadosAlwaysFit(a: Algorithm, states: seq<State>, events: seq<Event>, k: nat)
    requires Execution(a, states, events) && states[0] == START && k < |states|
    ensures EstadosFit(states[k])
  {
    if k > 0 {
      EstadosAlwaysFit(a, states, events, k - 1);
      ExecutionKeepsMasterInv(a, states, events, k - 1);
      StepKeepsEstados(a, states[k - 1], events[k - 1]);
    }
  }

  /** In every interleaving only queries that wait age, not the running nor the finished ones. */
  lemma OnlyWaitingQueriesAge(a: Algorithm, states: seq<State>, events: seq<Event>, x: nat, k: nat)
    requires Execution(a, states, events) && states[0] == START && k < |events| && events[k] == Age(x)
    ensures x !in states[k].running && x !in states[k].finished
  {
    EstadosAlwaysFit(a, states, events, k);
    assert At(states[k], x, InRunning) == (x in states[k].running);
    assert At(states[k], x, Done) == (x in states[k].finished);
  }

  // ------------------------------------------------- aging and program counters

  /** Ticks of x's timer in a run. */
  function Ticks(events: seq<Event>, x: nat): nat {
    if events == [] then 0
    else Ticks(events[..|events| - 1], x) + if events[|events| - 1] == Age(x) then 1 else 0
  }

  /** Step j lowers the priority of x if it is a tick of its timer and a positive one, and else
      keeps it. */
  ghost predicate TicksAt(states: seq<State>, events: seq<Event>, x: nat, j: nat) {
    && j < |events| && j + 1 < |states| && x in states[j].queries && x in states[j + 1].queries
    && var p, p' := states[j].queries[x].priority, states[j + 1].queries[x].priority;
       p' == (if events[j] == Age(x) then p - 1 else p) && (events[j] == Age(x) ==> p > 0)
  }

  lemma {:induction false} TicksAddUp(states: seq<State>, events: seq<Event>, x: nat, i: nat, k: nat)
    requires i <= k <= |events| < |states| && x in states[i].queries
    requires forall j :: i <= j < k ==> TicksAt(states, events, x, j)
    ensures x in states[k].queries
    ensures states[k].queries[x].priority == states[i].queries[x].priority - Ticks(events[i..k], x)
    ensures states[i].queries[x].priority >= 0 ==> states[k].queries[x].priority >= 0
  {
    if i < k {
      TicksAddUp(states, events, x, i, k - 1);
      assert TicksAt(states, events, x, k - 1);
      assert events[i..k][..k - 1 - i] == events[i..k - 1];
    }
  }

  lemma {:induction false} QueriesStay(a: Algorithm, states: seq<State>, events: seq<Event>, x: nat, i: nat, k: nat)
    requires Execution(a, states, events) && i <= k < |states| && x in states[i].queries
    ensures x in states[k].queries
  {
    if i < k {
      QueriesStay(a, states, events, x, i, k - 1);
      StepChangesQuery(a, states[k - 1], events[k - 1], x);
    }
  }

  lemma EveryStepTicks(a: Algorithm, states: seq<State>, events: seq<Event>, x: nat, i: nat, j: nat)
    requires Execution(a, states, events) && i <= j < |events| && x in states[i].queries
    ensures TicksAt(states, events, x, j)
  {
    QueriesStay(a, states, events, x, i, j);
    StepChangesQuery(a, states[j], events[j], x);
  }

  lemma AdmitStarts(a: Algorithm, states: seq<State>, events: seq<Event>, x: nat, priority: int, i: nat)
    requires Execution(a, states, events) && i < |events| && events[i] == Admit(x, priority)
    ensures x in states[i + 1].queries && states[i + 1].queries[x].priority == priority
  {
    assert states[i + 1] == Apply(a, states[i], events[i]);
  }

  /** In every interleaving a query's priority is the one it came with, less one for each tick of
      its own timer since, and ticks never take it below 0. */
  lemma PriorityCountsTicks(a: Algorithm, states: seq<State>, events: seq<Event>, x: nat, priority: int, i: nat,
                            k: nat)
    requires Execution(a, states, events) && i < k < |states| && events[i] == Admit(x, priority)
    ensures x in states[k].queries && states[k].queries[x].priority == priority - Ticks(events[i + 1..k], x)
    ensures priority >= 0 ==> states[k].queries[x].priority >= 0
  {
    AdmitStarts(a, states, events, x, priority, i);
    forall j | i + 1 <= j < k ensures TicksAt(states, events, x, j) { EveryStepTicks(a, states, events, x, i + 1, j); }
    TicksAddUp(states, events, x, i + 1, k);
  }

  /** The step takes x off the running list, its worker having reported this program counter. */
  ghost predicate Reports(s: State, e: Event, x: nat) {
    e.Unlist? && !e.end && e.w in s.workers && s.workers[e.w] == Serving(x)
  }

  /** The program counter last reported for x in the first k steps; 0 when there is none. */
  ghost function LastReported(states: seq<State>, events: seq<Event>, x: nat, k: nat): nat
    requires |states| == |events| + 1 && k < |states|
  {
    if k == 0 then 0
    else if Reports(states[k - 1], events[k - 1], x) then events[k - 1].pc
    else LastReported(states, events, x, k - 1)
  }

  /** The program counter kept for x is r: in the hands of the thread that has it from the
      worker, or else with the query. */
  ghost predicate KeepsCounter(s: State, x: nat, r: nat) {
    && (x !in s.queries ==> r == 0)
    && (forall w :: w in s.workers && s.workers[w].Preempted? && s.workers[w].q == x ==> s.workers[w].pc == r)
    && (x in s.queries && s.queries[x].pc != r ==> exists w :: w in s.workers && s.workers[w] == Preempted(x, r))
  }

  lemma StepKeepsCounter(a: Algorithm, s: State, e: Event, x: nat, r: nat)
    requires MasterInv(s) && Enabled(s, e) && KeepsCounter(s, x, r)
    ensures KeepsCounter(Apply(a, s, e), x, if Reports(s, e, x) then e.pc else r)
  {
    if Reports(s, e, x) { ReportKeepsCounter(a, s, e, x); } else { OthersKeepCounter(a, s, e, x, r); }
  }

  /** Nobody else has a running query in hand. */
  lemma ReportKeepsCounter(a: Algorithm, s: State, e: Event, x: nat)
    requires Conserved(s) && ServedByOwner(s) && Enabled(s, e) && Reports(s, e, x)
    ensures KeepsCounter(Apply(a, s, e), x, e.pc)
  {
    assert At(s, x, InRunning);
    forall w | w in s.workers && s.workers[w].Preempted? ensures s.workers[w].q != x {
      assert s.workers[w].q == x ==> At(s, x, InHands(w));
    }
    assert Apply(a, s, e).workers[e.w] == Preempted(x, e.pc);
  }

  lemma OthersKeepCounter(a: Algorithm, s: State, e: Event, x: nat, r: nat)
    requires Conserved(s) && Enabled(s, e) && KeepsCounter(s, x, r) && !Reports(s, e, x)
    ensures KeepsCounter(Apply(a, s, e), x, r)
  {
    var s' := Apply(a, s, e);
    if x in s.queries { StepChangesQuery(a, s, e, x); }
    forall w | w in s.workers && s.workers[w].Preempted? && s.workers[w].q == x ensures At(s, x, InHands(w)) {}
    if w :| w in s.workers && s.workers[w] == Preempted(x, r) {
      assert e == MakeReady(w) || s'.workers[w] == Preempted(x, r);
    }
  }

  /** In every interleaving a query is taken up again where its worker last reported to be. */
  lemma {:induction false} CounterIsLastReported(a: Algorithm, states: seq<State>, events: seq<Event>, x: nat, k: nat)
    requires Execution(a, states, events) && states[0] == START && k < |states|
    ensures KeepsCounter(states[k], x, LastReported(states, events, x, k))
  {
    if k > 0 {
      CounterIsLastReported(a, states, events, x, k - 1);
      ExecutionKeepsMasterInv(a, states, events, k - 1);
      assert states[k - 1 + 1] == Apply(a, states[k - 1], events[k - 1]);
      StepKeepsCounter(a, states[k - 1], events[k - 1], x, LastReported(states, events, x, k - 1));
    }
  }

  // ------------------------------------------------------------------- no overtaking

  ghost predicate NonNegative(queries: map<nat, Query>) {
    forall q :: q in queries ==> queries[q].priority >= 0
  }

  ghost predicate AdmitsNonNegative(events: seq<Event>) {
    forall e :: e in events && e.Admit? ==> e.priority >= 0
  }

  /** Dispatches in a run. */
  function Pops(events: seq<Event>): nat {
    if events == [] then 0 else (if events[0].Pop? then 1 else 0) + Pops(events[1..])
  }

  /** The step hands x to a worker thread. */
  ghost predicate Dispatches(e: Event, s': State, x: nat) {
    e.Pop? && e.w in s'.workers && s'.workers[e.w] == Popped(x)
  }

  /** x waits in the ready queue with nothing able to rank before it. */
  ghost predicate Settled(a: Algorithm, s: State, x: nat) {
    x in s.queue && x in s.queries && (a.Fifo? || s.queries[x].priority == 0)
  }

  lemma StaysNonNegative(a: Algorithm, s: State, e: Event)
    requires Enabled(s, e) && NonNegative(s.queries) && (e.Admit? ==> e.priority >= 0)
    ensures NonNegative(Apply(a, s, e).queries)
  {}

  lemma AppendKeepsIndex(ids: seq<nat>, q: nat, x: nat)
    requires x in ids
    ensures IndexOf(ids + [q], x) == IndexOf(ids, x)
  {
    var k := IndexOf(ids, x);
    assert (ids + [q])[..k] == ids[..k];
    Lists.IndexIsFirst(ids + [q], x, k);
  }

  /** Taking out an entry ahead of x brings x one place forward. */
  lemma RemovedAhead(ids: seq<nat>, m: nat, x: nat)
    requires x in ids && m < IndexOf(ids, x)
    ensures x in RemoveAt(ids, m) && IndexOf(RemoveAt(ids, m), x) == IndexOf(ids, x) - 1
  {
    var k, r := IndexOf(ids, x), RemoveAt(ids, m);
    assert r[k - 1] == ids[k] == x;
    forall j | 0 <= j < k - 1 ensures r[j] != x {
      assert ids[if j < m then j else j + 1] in ids[..k];
    }
    Lists.IndexIsFirst(r, x, k - 1);
  }

  /** A dispatch takes x itself or a query ahead of it. */
  lemma PickIsNotBehind(a: Algorithm, queries: map<nat, Query>, ids: seq<nat>, x: nat)
    requires Known(queries, ids) && NonNegative(queries) && x in ids
    requires a.Fifo? || queries[x].priority == 0
    ensures Pick(a, queries, ids) <= IndexOf(ids, x)
  {
    var k, m := IndexOf(ids, x), Pick(a, queries, ids);
    assert ids[m] in ids && ids[k] == x;
  }

  lemma PopDoesNotOvertake(a: Algorithm, s: State, w: nat, x: nat)
    requires Enabled(s, Pop(w)) && NonNegative(s.queries) && Settled(a, s, x)
    ensures var s' := Apply(a, s, Pop(w));
      Dispatches(Pop(w), s', x) || (Settled(a, s', x) && IndexOf(s'.queue, x) == IndexOf(s.queue, x) - 1)
  {
    var m := Pick(a, s.queries, s.queue);
    PickIsNotBehind(a, s.queries, s.queue, x);
    if m < IndexOf(s.queue, x) { RemovedAhead(s.queue, m, x); }
  }

  /** Any other step leaves x where it is. */
  lemma OthersDoNotOvertake(a: Algorithm, s: State, e: Event, x: nat)
    requires Enabled(s, e) && Settled(a, s, x) && !e.Pop?
    ensures Settled(a, Apply(a, s, e), x) && IndexOf(Apply(a, s, e).queue, x) == IndexOf(s.queue, x)
  {
    var s' := Apply(a, s, e);
    match e {
      case Enqueue(q) => AppendKeepsIndex(s.queue, q, x);
      case Requeue(w) => AppendKeepsIndex(s.queue, s.workers[w].q, x);
      case _ => assert s'.queue == s.queue;
    }
    assert s.queries[x].priority == 0 ==> s'.queries[x].priority == 0;
  }

  /** Nothing behind x is taken before it: one step either dispatches x or leaves it in the
      queue at the same priority, one place further on for every dispatch. */
  lemma StepDoesNotOvertake(a: Algorithm, s: State, e: Event, x: nat)
    requires Enabled(s, e) && NonNegative(s.queries) && Settled(a, s, x)
    ensures var s' := Apply(a, s, e);
      Dispatches(e, s', x)
      || (Settled(a, s', x) && IndexOf(s'.queue, x) == IndexOf(s.queue, x) - (if e.Pop? then 1 else 0))
  {
    if e.Pop? { PopDoesNotOvertake(a, s, e.w, x); } else { OthersDoNotOvertake(a, s, e, x); }
  }

  /** Some one of the first n dispatches of the run is x's. */
  ghost predicate DispatchedWithin(states: seq<State>, events: seq<Event>, x: nat, n: int)
    requires |states| == |events| + 1
  {
    exists i :: 0 <= i < |events| && Dispatches(events[i], states[i + 1], x) && Pops(events[..i + 1]) <= n
  }

  lemma DispatchedLater(states: seq<State>, events: seq<Event>, x: nat, n: int)
    requires |states| == |events| + 1 && events != [] && DispatchedWithin(states[1..], events[1..], x, n)
    ensures DispatchedWithin(states, events, x, n + if events[0].Pop? then 1 else 0)
  {
    var later := events[1..];
    var i :| 0 <= i < |later| && Dispatches(later[i], states[1..][i + 1], x) && Pops(later[..i + 1]) <= n;
    assert events[..i + 2][1..] == later[..i + 1];
    assert Dispatches(events[i + 1], states[i + 2], x);
  }

  /** A query that has aged to priority 0 (any query, under FIFO) and sits at index k of the
      ready queue is dispatched within k + 1 dispatches, whatever else happens meanwhile. */
  lemma {:induction false} NoOvertaking(a: Algorithm, states: seq<State>, events: seq<Event>, x: nat)
    requires Execution(a, states, events) && MasterInv(states[0])
    requires NonNegative(states[0].queries) && AdmitsNonNegative(events) && Settled(a, states[0], x)
    requires Pops(events) > IndexOf(states[0].queue, x)
    ensures DispatchedWithin(states, events, x, IndexOf(states[0].queue, x) + 1)
    decreases |events|
  {
    var e, s := events[0], states[0];
    ExecutionTail(a, states, events);
    StepDoesNotOvertake(a, s, e, x);
    if Dispatches(e, states[1], x) {
      assert events[..1][1..] == [] && Pops(events[..1]) == 1;
    } else {
      StepKeepsMasterInv(a, s, e);
      StaysNonNegative(a, s, e);
      NoOvertaking(a, states[1..], events[1..], x);
      DispatchedLater(states, events, x, IndexOf(states[1].queue, x) + 1);
    }
  }

  lemma ExecutionTail(a: Algorithm, states: seq<State>, events: seq<Event>)
    requires Execution(a, states, events) && events != [] && AdmitsNonNegative(events)
    ensures Enabled(states[0], events[0]) && states[1] == Apply(a, states[0], events[0])
    ensures events[0].Admit? ==> events[0].priority >= 0
    ensures Execution(a, states[1..], events[1..]) && AdmitsNonNegative(events[1..])
  {
    assert events[0] in events && forall e :: e in events[1..] ==> e in events;
    forall i | 0 <= i < |events[1..]|
      ensures Enabled(states[1..][i], events[1..][i]) && states[1..][i + 1] == Apply(a, states[1..][i], events[1..][i])
    {
      assert Enabled(states[i + 1], events[i + 1]);
    }
  }
}
