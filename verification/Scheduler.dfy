/** The Master scheduler: a ready queue, a running list and a counting semaphore shared by
    one thread per arriving query and one per worker.  A step is one mutex region or one
    semaphore operation; threads interleave freely. */
module Scheduler {

  datatype Algorithm = Fifo | Priorities

  datatype Estado = Ready | Running | Exit

  /** The fields of a query that scheduling reads or writes. */
  datatype Query = Query(priority: int, pc: nat, estado: Estado, worker: nat)

  // ------------------------------------------------------------- queue operations

  /** Every id in the list names a known query. */
  predicate Known(queries: map<nat, Query>, ids: seq<nat>) {
    forall q :: q in ids ==> q in queries
  }

  /** Index of the first query whose priority number is smallest. */
  function FirstLowest(queries: map<nat, Query>, ids: seq<nat>): (m: nat)
    requires ids != [] && Known(queries, ids)
    ensures m < |ids|
    ensures forall i :: 0 <= i < |ids| ==> queries[ids[m]].priority <= queries[ids[i]].priority
    ensures forall i :: 0 <= i < m ==> queries[ids[m]].priority < queries[ids[i]].priority
  {
    var n := |ids| - 1;
    if n == 0 then 0 else
    assert forall q :: q in ids[..n] ==> q in ids;
    var m := FirstLowest(queries, ids[..n]);
    if queries[ids[n]].priority < queries[ids[m]].priority then n else m
  }

  /** Position i holds the first query of the smallest priority number. */
  ghost predicate FirstSmallest(queries: map<nat, Query>, ids: seq<nat>, i: nat) {
    && i < |ids| && Known(queries, ids)
    && (forall j :: 0 <= j < |ids| ==> queries[ids[i]].priority <= queries[ids[j]].priority)
    && (forall j :: 0 <= j < i ==> queries[ids[i]].priority < queries[ids[j]].priority)
  }

  /** Position i holds the first query of the largest priority number. */
  ghost predicate FirstLargest(queries: map<nat, Query>, ids: seq<nat>, i: nat) {
    && i < |ids| && Known(queries, ids)
    && (forall j :: 0 <= j < |ids| ==> queries[ids[j]].priority <= queries[ids[i]].priority)
    && (forall j :: 0 <= j < i ==> queries[ids[j]].priority < queries[ids[i]].priority)
  }

  function RemoveAt(ids: seq<nat>, i: nat): (r: seq<nat>)
    requires i < |ids|
    ensures |r| == |ids| - 1
    ensures forall j :: 0 <= j < |r| ==> r[j] == if j < i then ids[j] else ids[j + 1]
  {
    ids[..i] + ids[i + 1..]
  }

  /** q is the first query of the smallest priority number, and `after` is `ids` without the
      position it had. */
  ghost predicate TakesSmallest(queries: map<nat, Query>, ids: seq<nat>, q: nat, after: seq<nat>) {
    exists i: nat {:trigger FirstSmallest(queries, ids, i)} ::
      FirstSmallest(queries, ids, i) && q == ids[i] && after == ids[..i] + ids[i + 1..]
  }

  lemma LowestIsSmallest(queries: map<nat, Query>, ids: seq<nat>)
    requires ids != [] && Known(queries, ids)
    ensures var i := FirstLowest(queries, ids); TakesSmallest(queries, ids, ids[i], RemoveAt(ids, i))
  {
    assert FirstSmallest(queries, ids, FirstLowest(queries, ids));
  }

  /** The position comenzar_a_ejecutar takes its query from. */
  function Pick(a: Algorithm, queries: map<nat, Query>, ids: seq<nat>): (i: nat)
    requires ids != [] && Known(queries, ids)
    ensures i < |ids|
  {
    if a.Fifo? then 0 else FirstLowest(queries, ids)
  }

  /** The query a dispatch takes, and the queue it leaves: the head and the rest under FIFO, and
      otherwise the first query of the smallest priority number and the queue without it. */
  ghost predicate Takes(a: Algorithm, queries: map<nat, Query>, ids: seq<nat>, q: nat, after: seq<nat>) {
    if a.Fifo? then [q] + after == ids else TakesSmallest(queries, ids, q, after)
  }

  lemma PickTakes(a: Algorithm, queries: map<nat, Query>, ids: seq<nat>)
    requires ids != [] && Known(queries, ids)
    ensures var i := Pick(a, queries, ids); Takes(a, queries, ids, ids[i], RemoveAt(ids, i))
  {
    if a.Fifo? {
      assert RemoveAt(ids, 0) == ids[1..];
    } else {
      LowestIsSmallest(queries, ids);
    }
  }

  function IndexOf(ids: seq<nat>, q: nat): (i: nat)
    ensures i <= |ids| && (i < |ids| <==> q in ids) && (i < |ids| ==> ids[i] == q) && q !in ids[..i]
  {
    if ids == [] || ids[0] == q then 0 else 1 + IndexOf(ids[1..], q)
  }

  // --------------------------------------------------------------- the running code

  /** The shared lists as the threads change them, each method inside one mutex region. */
  class Lists {
    var queries: map<nat, Query>
    var queue: seq<nat>
    var running: seq<nat>

    ghost predicate Valid()
      reads this
    {
      Known(queries, queue) && Known(queries, running)
    }

    /** obtener_menor_prioridad: scan for the smallest priority, then take it out. */
    method TakeLowest() returns (q: nat)
      requires Valid() && queue != []
      modifies this`queue
      ensures q == old(queue)[FirstLowest(queries, old(queue))]
      ensures queue == RemoveAt(old(queue), FirstLowest(queries, old(queue)))
    {
      var best := 0;
      var i := 1;
      assert queue[..1] == [queue[0]];
      while i < |queue|
        invariant 1 <= i <= |queue| && Known(queries, queue[..i]) && best == FirstLowest(queries, queue[..i])
      {
        assert queue[..i + 1][..i] == queue[..i];
        if queries[queue[i]].priority < queries[queue[best]].priority {
          best := i;
        }
        i := i + 1;
      }
      assert queue[..i] == queue;
      q := queue[best];
      queue := queue[..best] + queue[best + 1..];
    }

    method TakeNext(a: Algorithm) returns (q: nat)
      requires Valid() && queue != []
      modifies this`queue
      ensures q == old(queue)[Pick(a, queries, old(queue))]
      ensures queue == RemoveAt(old(queue), Pick(a, queries, old(queue)))
      ensures Takes(a, queries, old(queue), q, queue)
    {
      PickTakes(a, queries, queue);
      if a.Fifo? {
        q := queue[0];
        queue := queue[1..];
      } else {
        q := TakeLowest();
      }
    }

    /** eliminar_por_id on the running list. */
    method RemoveRunning(q: nat) returns (found: bool)
      modifies this`running
      ensures found == (q in old(running))
      ensures running == if found then RemoveAt(old(running), IndexOf(old(running), q)) else old(running)
    {
      var i := 0;
      while i < |running| && running[i] != q
        invariant 0 <= i <= |running| && q !in running[..i]
      {
        i := i + 1;
      }
      found := i < |running|;
      IndexIsFirst(running, q, i);
      if found {
        running := running[..i] + running[i + 1..];
      }
    }

    static lemma {:induction false} IndexIsFirst(ids: seq<nat>, q: nat, i: nat)
      requires i <= |ids| && q !in ids[..i] && (i < |ids| ==> ids[i] == q)
      ensures IndexOf(ids, q) == i
    {
      if i > 0 {
        assert ids[1..][..i - 1] == ids[..i][1..];
        IndexIsFirst(ids[1..], q, i - 1);
      }
    }

    /** chequeador_desalojo: when every worker is busy and the newcomer's priority number
        is below the largest one running, the first query with that largest number must go. */
    method MustPreempt(priority: int, workers: nat) returns (preempt: bool, victim: nat)
      requires Valid()
      ensures preempt <==> |running| == workers && exists q :: q in running && priority < queries[q].priority
      ensures preempt ==> victim in running && priority < queries[victim].priority
      ensures preempt ==> forall q :: q in running ==> queries[q].priority <= queries[victim].priority
      ensures preempt ==> exists i: nat :: i < |running| && FirstLargest(queries, running, i) && running[i] == victim
    {
      if running == [] { return false, 0; }
      victim := running[0];
      ghost var at: nat := 0;
      var i := 1;
      while i < |running|
        invariant 1 <= i <= |running| && at < i && victim == running[at]
        invariant forall j :: 0 <= j < i ==> queries[running[j]].priority <= queries[victim].priority
        invariant forall j :: 0 <= j < at ==> queries[running[j]].priority < queries[victim].priority
      {
        if queries[running[i]].priority > queries[victim].priority {
          victim, at := running[i], i;
        }
        i := i + 1;
      }
      assert FirstLargest(queries, running, at);
      assert forall q :: q in running ==> queries[q].priority <= queries[victim].priority;
      preempt := |running| == workers && priority < queries[victim].priority;
    }
  }
}
