/** LRU is exact: the list is always the most recently used distinct pages in the order of
    their last use, as many as fit, so more frames never cause more misses. */
module LruExact {
  import opened Bytes
  import opened FlatFile
  import opened Paging
  import opened Cache
  import opened CacheInvariant
  import opened CacheFiles

  // ------------------------------------------------------------- histories of uses

  /** Distinct pages of a history, the one used longest ago first. */
  function Recent(history: seq<PageId>): seq<PageId> {
    if history == [] then [] else
    var last := history[|history| - 1];
    Without(Recent(history[..|history| - 1]), last) + [last]
  }

  function LastUse(history: seq<PageId>, id: PageId): (i: nat)
    requires id in history
    ensures i < |history| && history[i] == id && id !in history[i + 1..]
  {
    if history[|history| - 1] == id then |history| - 1 else LastUse(history[..|history| - 1], id)
  }

  /** The last n entries, or all of them. */
  function LastN(list: seq<PageId>, n: nat): seq<PageId> {
    if |list| <= n then list else list[|list| - n..]
  }

  /** The list after one more use, with n frames. */
  function LruStep(n: nat, lru: seq<PageId>, id: PageId): seq<PageId> {
    if id in lru then Without(lru, id) + [id]
    else (if |lru| < n || lru == [] then lru else lru[1..]) + [id]
  }

  function LruAfter(n: nat, history: seq<PageId>): seq<PageId> {
    if history == [] then [] else LruStep(n, LruAfter(n, history[..|history| - 1]), history[|history| - 1])
  }

  lemma {:induction false} WithoutConcat(a: seq<PageId>, b: seq<PageId>, id: PageId)
    ensures Without(a + b, id) == Without(a, id) + Without(b, id)
  {
    if a == [] {
      assert a + b == b;
    } else {
      assert (a + b)[1..] == a[1..] + b;
      WithoutConcat(a[1..], b, id);
    }
  }

  lemma {:induction false} WithoutOne(a: seq<PageId>, id: PageId)
    requires NoRepeats(a) && id in a
    ensures |Without(a, id)| == |a| - 1
  {
    if a[0] == id {
      WithoutAbsent(a[1..], id);
    } else {
      WithoutOne(a[1..], id);
    }
  }

  /** Pages of the history, listed by last use. */
  ghost predicate ByLastUse(history: seq<PageId>, list: seq<PageId>) {
    && (forall x :: x in list ==> x in history)
    && (forall i, j :: 0 <= i < j < |list| ==> LastUse(history, list[i]) < LastUse(history, list[j]))
  }

  lemma ConsByLastUse(history: seq<PageId>, first: PageId, rest: seq<PageId>)
    requires first in history && ByLastUse(history, rest)
    requires forall x :: x in rest ==> LastUse(history, first) < LastUse(history, x)
    ensures ByLastUse(history, [first] + rest)
  {
  }

  lemma {:induction false} WithoutByLastUse(history: seq<PageId>, list: seq<PageId>, id: PageId)
    requires ByLastUse(history, list)
    ensures ByLastUse(history, Without(list, id))
  {
    if list != [] {
      var first, tail := list[0], list[1..];
      assert forall i :: 0 <= i < |tail| ==> tail[i] == list[i + 1];
      WithoutByLastUse(history, tail, id);
      if first != id {
        forall x | x in Without(tail, id) ensures LastUse(history, first) < LastUse(history, x) {
          var k :| 0 <= k < |tail| && tail[k] == x;
          assert list[k + 1] == x;
        }
        ConsByLastUse(history, first, Without(tail, id));
      }
    }
  }

  lemma LastUseEarlier(before: seq<PageId>, last: PageId, x: PageId)
    requires x in before && x != last
    ensures LastUse(before + [last], x) == LastUse(before, x)
  {
    assert (before + [last])[..|before|] == before;
  }

  lemma UsedLast(before: seq<PageId>, list: seq<PageId>, last: PageId)
    requires ByLastUse(before, list) && last !in list
    ensures ByLastUse(before + [last], list + [last])
  {
    var history := before + [last];
    forall x | x in list ensures LastUse(history, x) == LastUse(before, x) { LastUseEarlier(before, last, x); }
    assert LastUse(history, last) == |before|;
    assert forall i :: 0 <= i < |list| ==> list[i] in list;
  }

  /** Recent lists each page used, once, in the order of last uses. */
  lemma {:induction false} RecentIsByLastUse(history: seq<PageId>)
    ensures NoRepeats(Recent(history)) && (forall x :: x in history ==> x in Recent(history))
    ensures ByLastUse(history, Recent(history))
  {
    if history != [] {
      var before, last := history[..|history| - 1], history[|history| - 1];
      assert history == before + [last];
      RecentIsByLastUse(before);
      WithoutRepeats(Recent(before), last);
      WithoutByLastUse(before, Recent(before), last);
      AppendNew(Without(Recent(before), last), last);
      UsedLast(before, Without(Recent(before), last), last);
    }
  }

  /** The list is the most recently used distinct pages, as many as there are frames. */
  lemma {:induction false} LruIsRecency(n: nat, history: seq<PageId>)
    requires n > 0
    ensures LruAfter(n, history) == LastN(Recent(history), n)
  {
    if history != [] {
      var before, last := history[..|history| - 1], history[|history| - 1];
      LruIsRecency(n, before);
      RecentIsByLastUse(before);
      RecencyStep(n, Recent(before), last);
    }
  }

  lemma LastOfSuffix(front: seq<PageId>, back: seq<PageId>, n: nat)
    requires |back| >= n || front == []
    ensures LastN(front + back, n) == LastN(back, n)
  {
    if front == [] {
      assert front + back == back;
    } else if |back| == n {
      assert (front + back)[|front|..] == back;
    }
  }

  /** One use when nothing has been dropped yet but the list is at most n long. */
  lemma StepOnKept(n: nat, kept: seq<PageId>, id: PageId)
    requires n > 0 && NoRepeats(kept) && |kept| <= n
    ensures LruStep(n, kept, id) == LastN(Without(kept, id) + [id], n)
    ensures |Without(kept, id) + [id]| >= |kept|
  {
    if id in kept {
      WithoutOne(kept, id);
    } else {
      WithoutAbsent(kept, id);
    }
  }

  lemma RecencyStep(n: nat, recent: seq<PageId>, id: PageId)
    requires n > 0 && NoRepeats(recent)
    ensures LruStep(n, LastN(recent, n), id) == LastN(Without(recent, id) + [id], n)
  {
    var kept := LastN(recent, n);
    var gone := recent[..|recent| - |kept|];
    assert recent == gone + kept;
    assert NoRepeats(kept) by {
      assert forall k :: 0 <= k < |kept| ==> recent[|gone| + k] == kept[k];
    }
    StepOnKept(n, kept, id);
    WithoutConcat(gone, kept, id);
    SuffixDecides(Without(gone, id), Without(kept, id), id, n);
  }

  lemma SuffixDecides(front: seq<PageId>, back: seq<PageId>, id: PageId, n: nat)
    requires |back + [id]| >= n || front == []
    ensures LastN(front + back + [id], n) == LastN(back + [id], n)
  {
    assert front + back + [id] == front + (back + [id]);
    LastOfSuffix(front, back + [id], n);
  }

  // ------------------------------------------------------------------ more frames

  function Misses(n: nat, history: seq<PageId>): nat {
    if history == [] then 0 else
    var before := history[..|history| - 1];
    Misses(n, before) + if history[|history| - 1] in LruAfter(n, before) then 0 else 1
  }

  lemma LastNGrows(list: seq<PageId>, n: nat, more: nat, id: PageId)
    requires n <= more && id in LastN(list, n)
    ensures id in LastN(list, more)
  {
    var a := LastN(list, n);
    var i :| 0 <= i < |a| && a[i] == id;
    assert list[|list| - |a| + i] == id;
    if |list| > more { assert list[|list| - more..][more - |a| + i] == id; }
  }

  /** Resident pages are nested as frames grow. */
  lemma LruIsNested(n: nat, more: nat, history: seq<PageId>, id: PageId)
    requires 0 < n <= more && id in LruAfter(n, history)
    ensures id in LruAfter(more, history)
  {
    LruIsRecency(n, history);
    LruIsRecency(more, history);
    LastNGrows(Recent(history), n, more, id);
  }

  /** More frames never cause more misses. */
  lemma {:induction false} MoreFramesNeverMoreMisses(n: nat, more: nat, history: seq<PageId>)
    requires 0 < n <= more
    ensures Misses(more, history) <= Misses(n, history)
  {
    if history != [] {
      var before, last := history[..|history| - 1], history[|history| - 1];
      MoreFramesNeverMoreMisses(n, more, before);
      if last in LruAfter(n, before) { LruIsNested(n, more, before, last); }
    }
  }

  // ------------------------------------------------------------- the cache's list

  function Residents(slots: seq<Slot>): seq<PageId> {
    if slots == [] then [] else
    (if slots[0].Holds? then [slots[0].id] else []) + Residents(slots[1..])
  }

  lemma {:induction false} ResidentsAreResident(slots: seq<Slot>)
    requires NoPageTwice(slots)
    ensures NoRepeats(Residents(slots)) && forall id :: id in Residents(slots) <==> Resident(slots, id)
    ensures |Residents(slots)| <= |slots| && (|Residents(slots)| == |slots| <==> FirstFree(slots) == |slots|)
  {
    if slots != [] {
      var rest := slots[1..];
      ResidentsAreResident(rest);
      forall i | 0 <= i < |Residents(rest)| && slots[0].Holds? ensures Residents(rest)[i] != slots[0].id {
        assert Residents(rest)[i] in Residents(rest);
        assert Has(rest[Find(rest, Residents(rest)[i])], Residents(rest)[i]);
      }
      forall id ensures id in Residents(slots) <==> Resident(slots, id) {}
    }
  }

  lemma {:induction false} CountsDistinct(list: seq<PageId>)
    requires NoRepeats(list)
    ensures |set x | x in list| == |list|
  {
    if list != [] {
      var rest := list[1..];
      CountsDistinct(rest);
      assert (set x | x in list) == (set x | x in rest) + {list[0]};
    }
  }

  lemma ListedFills(slots: seq<Slot>, lru: seq<PageId>)
    requires NoPageTwice(slots) && Listed(slots, lru)
    ensures |lru| <= |slots| && (|lru| == |slots| <==> FirstFree(slots) == |slots|)
  {
    ResidentsAreResident(slots);
    CountsDistinct(lru);
    CountsDistinct(Residents(slots));
    assert (set x | x in lru) == (set x | x in Residents(slots));
  }

  /** A use that does not fail makes exactly one step of the list. */
  lemma UseIsLruStep(ps: nat, m: Memory, id: PageId)
    requires Consistent(Lru, ps, m) && Resident(Use(Lru, m, id).slots, id)
    ensures Use(Lru, m, id).lru == LruStep(|m.slots|, m.lru, id)
  {
    if !Resident(m.slots, id) {
      ListedFills(m.slots, m.lru);
      LoadIsConsistent(Lru, ps, m, id);
      UseIsConsistent(Lru, ps, m, id);
      var filled := Load(Lru, m, id).lru;
      WithoutConcat(filled[..|filled| - 1], [id], id);
      assert [id][1..] == [];
      WithoutAbsent(filled[..|filled| - 1], id);
      assert filled == filled[..|filled| - 1] + [id];
    }
  }

  // --------------------------------------------------------------- runs of the worker

  function Ids(key: Key, pages: seq<nat>): (ids: seq<PageId>)
    ensures |ids| == |pages|
  {
    seq(|pages|, i requires 0 <= i < |pages| => PageId(key, pages[i]))
  }

  /** Pages a request that succeeds uses, in order. */
  function Uses(ps: nat, q: Request): seq<PageId>
    requires ps > 0
  {
    match q
    case ReadOf(key, offset, len) => Ids(key, Touched(ps, offset / ps, offset % ps, len))
    case WriteTo(key, offset, data) => Ids(key, Touched(ps, offset / ps, offset % ps, |data|))
    case FlushOf(_) => []
  }

  function History(ps: nat, qs: seq<Request>): seq<PageId>
    requires ps > 0
  {
    if qs == [] then [] else Uses(ps, qs[0]) + History(ps, qs[1..])
  }

  predicate Succeeded(reply: Reply) {
    match reply
    case Content(f) => f.Data?
    case Written(ok) => ok
    case Flushed => true
  }

  /** The list is what the uses so far make it. */
  ghost predicate Tracks(ps: nat, n: nat, m: Memory, history: seq<PageId>) {
    Consistent(Lru, ps, m) && |m.slots| == n && m.lru == LruAfter(n, history)
  }

  ghost function Tracking(ps: nat, n: nat, key: Key, history: seq<PageId>): (Memory, seq<nat>) -> bool {
    (m: Memory, pages: seq<nat>) => Tracks(ps, n, m, history + Ids(key, pages))
  }

  lemma OneMoreUse(key: Key, history: seq<PageId>, pages: seq<nat>, p: nat)
    ensures history + Ids(key, pages + [p]) == (history + Ids(key, pages)) + [PageId(key, p)]
  {
  }

  lemma UseTracks(ps: nat, n: nat, m: Memory, history: seq<PageId>, id: PageId)
    requires Tracks(ps, n, m, history) && Resident(Use(Lru, m, id).slots, id)
    ensures Tracks(ps, n, Use(Lru, m, id), history + [id])
  {
    UseIsConsistent(Lru, ps, m, id);
    UseIsLruStep(ps, m, id);
    assert (history + [id])[..|history|] == history;
  }

  lemma MemoryFollows(ps: nat, n: nat, key: Key, history: seq<PageId>)
    ensures Follows(PagerFor(Lru, key), ps, Tracking(ps, n, key, history))
  {
    var g, rel := PagerFor(Lru, key), Tracking(ps, n, key, history);
    forall m, pages, p: nat ensures FollowsUse(g, rel, m, pages, p) {
      var before := history + Ids(key, pages);
      if Tracks(ps, n, m, before) && FrameFor(key, UseFor(Lru, key, m, p), p).Data? {
        UseTracks(ps, n, m, before, PageId(key, p));
        OneMoreUse(key, history, pages, p);
      }
    }
    forall m, pages, p: nat, off: nat, data ensures FollowsPut(g, ps, rel, m, pages, p, off, data) {
      if Tracks(ps, n, m, history + Ids(key, pages)) && off + |data| <= ps && Ready(m, PageId(key, p)) {
        PutIsConsistent(Lru, ps, m, Find(m.slots, PageId(key, p)), off, data);
      }
    }
  }

  lemma ReadTracks(ps: nat, n: nat, m: Memory, history: seq<PageId>, key: Key, offset: nat, len: nat)
    requires ps > 0 && Tracks(ps, n, m, history) && Read(Lru, ps, m, key, offset, len).1.Data?
    ensures Tracks(ps, n, Read(Lru, ps, m, key, offset, len).0,
        history + Ids(key, Touched(ps, offset / ps, offset % ps, len)))
  {
    MemoryFollows(ps, n, key, history);
    assert history + Ids(key, []) == history;
    ReadFromStart(PagerFor(Lru, key), Tracking(ps, n, key, history), ps, m, offset / ps, offset % ps, len);
  }

  lemma WriteTracks(ps: nat, n: nat, m: Memory, history: seq<PageId>, key: Key, offset: nat, data: seq<byte>)
    requires ps > 0 && Tracks(ps, n, m, history) && Write(Lru, ps, m, key, offset, data).1
    ensures Tracks(ps, n, Write(Lru, ps, m, key, offset, data).0,
        history + Ids(key, Touched(ps, offset / ps, offset % ps, |data|)))
  {
    MemoryFollows(ps, n, key, history);
    assert history + Ids(key, []) == history;
    WriteFromStart(PagerFor(Lru, key), Tracking(ps, n, key, history), ps, m, offset / ps, offset % ps, data);
  }

  lemma ServeTracks(ps: nat, n: nat, m: Memory, history: seq<PageId>, q: Request)
    requires ps > 0 && Tracks(ps, n, m, history) && Succeeded(Serve(Lru, ps, m, q).1)
    ensures Tracks(ps, n, Serve(Lru, ps, m, q).0, history + Uses(ps, q))
  {
    match q
    case ReadOf(key, offset, len) => ReadTracks(ps, n, m, history, key, offset, len);
    case WriteTo(key, offset, data) => WriteTracks(ps, n, m, history, key, offset, data);
    case FlushOf(key) =>
      WriteBackIsConsistent(Lru, ps, m, key);
      assert history + [] == history;
  }

  lemma Regroup(a: seq<PageId>, b: seq<PageId>, c: seq<PageId>)
    ensures a + b + c == a + (b + c)
  {
  }

  /** Every request of the run is answered with success. */
  predicate AllSucceed(ps: nat, m: Memory, qs: seq<Request>)
    requires ps > 0
    decreases |qs|
  {
    qs == [] || (Succeeded(Serve(Lru, ps, m, qs[0]).1) && AllSucceed(ps, Serve(Lru, ps, m, qs[0]).0, qs[1..]))
  }

  lemma {:induction false} RunTracks(ps: nat, n: nat, m: Memory, history: seq<PageId>, qs: seq<Request>)
    requires ps > 0 && Tracks(ps, n, m, history) && AllSucceed(ps, m, qs)
    ensures Tracks(ps, n, After(Lru, ps, m, qs), history + History(ps, qs))
    decreases |qs|
  {
    if qs == [] {
      assert history + [] == history;
    } else {
      var m', first := Serve(Lru, ps, m, qs[0]).0, Uses(ps, qs[0]);
      ServeTracks(ps, n, m, history, qs[0]);
      RunTracks(ps, n, m', history + first, qs[1..]);
      Regroup(history, first, History(ps, qs[1..]));
    }
  }

  /** From a fresh memory, after any requests that all succeed: the list, and so the set of
      resident pages, is exactly the min(frames, distinct) most recently used pages. */
  lemma LruListIsExact(ps: nat, n: nat, pages: map<PageId, Block>, refuses: set<Key>, qs: seq<Request>)
    requires ps > 0 && n > 0 && forall id :: id in pages ==> |pages[id]| == ps
    requires AllSucceed(ps, Fresh(n, ps, pages, refuses), qs)
    ensures var m := After(Lru, ps, Fresh(n, ps, pages, refuses), qs);
      && m.lru == LastN(Recent(History(ps, qs)), n)
      && forall id :: Resident(m.slots, id) <==> id in LastN(Recent(History(ps, qs)), n)
  {
    FreshIsConsistent(Lru, n, ps, pages, refuses);
    RunTracks(ps, n, Fresh(n, ps, pages, refuses), [], qs);
    assert [] + History(ps, qs) == History(ps, qs);
    LruIsRecency(n, History(ps, qs));
  }

  /** With more frames the same requests leave every page resident that fewer frames do. */
  lemma ResidentSetsAreNested(ps: nat, n: nat, more: nat, pages: map<PageId, Block>, refuses: set<Key>,
                      qs: seq<Request>, id: PageId)
    requires ps > 0 && 0 < n <= more && (forall x :: x in pages ==> |pages[x]| == ps)
    requires AllSucceed(ps, Fresh(n, ps, pages, refuses), qs)
    requires Resident(After(Lru, ps, Fresh(n, ps, pages, refuses), qs).slots, id)
    ensures Resident(After(Lru, ps, Fresh(more, ps, pages, refuses), qs).slots, id)
  {
    SuccessIgnoresFrames(ps, n, more, pages, refuses, qs);
    LruListIsExact(ps, n, pages, refuses, qs);
    LruListIsExact(ps, more, pages, refuses, qs);
    LastNGrows(Recent(History(ps, qs)), n, more, id);
  }

  // ------------------------------------------------- success depends on Storage alone

  /** Storage has exactly the pages of `stored`, and no other page is resident. */
  ghost predicate Holding(ps: nat, stored: set<PageId>, m: Memory) {
    && Consistent(Lru, ps, m) && m.pages.Keys == stored
    && forall id :: Resident(m.slots, id) ==> id in stored
  }

  ghost function HoldingOf(ps: nat, stored: set<PageId>): Memory -> bool {
    (m: Memory) => Holding(ps, stored, m)
  }

  ghost function StoredPages(stored: set<PageId>, key: Key): nat -> bool {
    (p: nat) => PageId(key, p) in stored
  }

  lemma LoadHolds(ps: nat, stored: set<PageId>, m: Memory, id: PageId)
    requires Holding(ps, stored, m) && !Resident(m.slots, id)
    ensures Holding(ps, stored, Load(Lru, m, id))
  {
    MakeRoomIsConsistent(Lru, ps, m);
    LoadIsConsistent(Lru, ps, m, id);
    var (w, v) := MakeRoom(Lru, m);
    forall x | Resident(Load(Lru, m, id).slots, x) ensures x in stored {
      if id in w.pages { ResidentAfter(w.slots, v, Holds(id, false), x); }
    }
  }

  lemma UseHolds(ps: nat, stored: set<PageId>, m: Memory, id: PageId)
    requires Holding(ps, stored, m)
    ensures Holding(ps, stored, Use(Lru, m, id)) && (Resident(Use(Lru, m, id).slots, id) <==> id in stored)
  {
    UseIsConsistent(Lru, ps, m, id);
    if !Resident(m.slots, id) { LoadHolds(ps, stored, m, id); }
  }

  lemma PutHolds(ps: nat, stored: set<PageId>, m: Memory, i: nat, off: nat, data: seq<byte>)
    requires Holding(ps, stored, m) && i < |m.slots| && m.slots[i].Holds? && off + |data| <= ps
    ensures Holding(ps, stored, Put(Lru, m, i, off, data))
  {
    PutIsConsistent(Lru, ps, m, i, off, data);
    var m' := Put(Lru, m, i, off, data);
    forall id | Resident(m'.slots, id) ensures id in stored { SamePagesFind(m.slots, m'.slots, id); }
  }

  lemma MemoryFinds(ps: nat, stored: set<PageId>, key: Key)
    ensures FindsAll(PagerFor(Lru, key), ps, HoldingOf(ps, stored), StoredPages(stored, key))
  {
    var g, inv := PagerFor(Lru, key), HoldingOf(ps, stored);
    forall m, p: nat ensures Finds(g, inv, StoredPages(stored, key), m, p) {
      if Holding(ps, stored, m) { UseHolds(ps, stored, m, PageId(key, p)); }
    }
    forall m, p: nat, off: nat, data ensures KeepsPut(g, ps, inv, m, p, off, data) {
      if Holding(ps, stored, m) && off + |data| <= ps && Ready(m, PageId(key, p)) {
        PutHolds(ps, stored, m, Find(m.slots, PageId(key, p)), off, data);
      }
    }
  }

  /** A request succeeds when Storage has all the pages it touches. */
  ghost predicate Satisfiable(ps: nat, stored: set<PageId>, q: Request)
    requires ps > 0
  {
    match q
    case ReadOf(key, offset, len) => len > 0 && HasTouched(StoredPages(stored, key), ps, offset / ps, offset % ps, len)
    case WriteTo(key, offset, data) =>
        data != [] && HasTouched(StoredPages(stored, key), ps, offset / ps, offset % ps, |data|)
    case FlushOf(_) => true
  }

  lemma FlushHolds(ps: nat, stored: set<PageId>, m: Memory, key: Key)
    requires Holding(ps, stored, m)
    ensures Holding(ps, stored, WriteBack(Lru, m, key))
  {
    WriteBackIsConsistent(Lru, ps, m, key);
    var m' := WriteBack(Lru, m, key);
    forall id | Resident(m'.slots, id) ensures id in stored { SamePagesFind(m.slots, m'.slots, id); }
  }

  lemma ServeSucceedsIff(ps: nat, stored: set<PageId>, m: Memory, q: Request)
    requires ps > 0 && Holding(ps, stored, m)
    ensures Holding(ps, stored, Serve(Lru, ps, m, q).0)
    ensures Succeeded(Serve(Lru, ps, m, q).1) <==> Satisfiable(ps, stored, q)
  {
    var g, inv, has := PagerFor(Lru, q.key), HoldingOf(ps, stored), StoredPages(stored, q.key);
    MemoryFinds(ps, stored, q.key);
    match q
    case ReadOf(key, offset, len) => ReadFromSucceedsIff(g, inv, has, ps, m, offset / ps, offset % ps, len);
    case WriteTo(key, offset, data) => WriteFromSucceedsIff(g, inv, has, ps, m, offset / ps, offset % ps, data);
    case FlushOf(key) => FlushHolds(ps, stored, m, key);
  }

  lemma {:induction false} AllSucceedIff(ps: nat, stored: set<PageId>, m: Memory, qs: seq<Request>)
    requires ps > 0 && Holding(ps, stored, m)
    ensures AllSucceed(ps, m, qs) <==> forall q :: q in qs ==> Satisfiable(ps, stored, q)
    decreases |qs|
  {
    if qs != [] {
      ServeSucceedsIff(ps, stored, m, qs[0]);
      AllSucceedIff(ps, stored, Serve(Lru, ps, m, qs[0]).0, qs[1..]);
      assert qs == [qs[0]] + qs[1..];
    }
  }

  /** Whether all requests succeed does not depend on the number of frames. */
  lemma SuccessIgnoresFrames(ps: nat, n: nat, more: nat, pages: map<PageId, Block>, refuses: set<Key>, qs: seq<Request>)
    requires ps > 0 && n > 0 && more > 0 && (forall id :: id in pages ==> |pages[id]| == ps)
    ensures AllSucceed(ps, Fresh(n, ps, pages, refuses), qs) <==> AllSucceed(ps, Fresh(more, ps, pages, refuses), qs)
  {
    FreshIsConsistent(Lru, n, ps, pages, refuses);
    FreshIsConsistent(Lru, more, ps, pages, refuses);
    AllSucceedIff(ps, pages.Keys, Fresh(n, ps, pages, refuses), qs);
    AllSucceedIff(ps, pages.Keys, Fresh(more, ps, pages, refuses), qs);
  }

  // ------------------------------------------------------------- loads of a run

  datatype Counted = Counted(memory: Memory, loads: nat)

  /** The page loop of the memory with a count of the uses that find their page missing. */
  function Counting(key: Key): Pager<Counted> {
    Pager((s: Counted, p: nat) =>
            Counted(UseFor(Lru, key, s.memory, p), s.loads + if Resident(s.memory.slots, PageId(key, p)) then 0 else 1),
          (s: Counted, p: nat) => FrameFor(key, s.memory, p),
          (s: Counted, p: nat, off: nat, data: seq<byte>) => Counted(PutFor(Lru, key, s.memory, p, off, data), s.loads))
  }

  /** The loads one request makes. */
  function Loads(ps: nat, m: Memory, q: Request): nat
    requires ps > 0
  {
    match q
    case ReadOf(key, offset, len) => ReadFrom(Counting(key), ps, Counted(m, 0), offset / ps, offset % ps, len).0.loads
    case WriteTo(key, offset, data) =>
        WriteFrom(Counting(key), ps, Counted(m, 0), offset / ps, offset % ps, data).0.loads
    case FlushOf(_) => 0
  }

  /** The loads of a run. */
  function RunLoads(ps: nat, m: Memory, qs: seq<Request>): nat
    requires ps > 0
    decreases |qs|
  {
    if qs == [] then 0 else Loads(ps, m, qs[0]) + RunLoads(ps, Serve(Lru, ps, m, qs[0]).0, qs[1..])
  }

  /** Counting changes neither the memory nor the answer. */
  lemma CountingSimulates(key: Key)
    ensures Simulates(Counting(key), PagerFor(Lru, key), (s: Counted) => s.memory)
  {
  }

  lemma CountingReads(key: Key, ps: nat, m: Memory, page: nat, off: nat, len: nat)
    requires off < ps
    ensures ReadFrom(Counting(key), ps, Counted(m, 0), page, off, len).1
         == ReadFrom(PagerFor(Lru, key), ps, m, page, off, len).1
  {
    CountingSimulates(key);
    SimulatedRead(Counting(key), PagerFor(Lru, key), (s: Counted) => s.memory, ps, Counted(m, 0), page, off, len);
  }

  lemma CountingWrites(key: Key, ps: nat, m: Memory, page: nat, off: nat, data: seq<byte>)
    requires off < ps
    ensures WriteFrom(Counting(key), ps, Counted(m, 0), page, off, data).1
         == WriteFrom(PagerFor(Lru, key), ps, m, page, off, data).1
  {
    CountingSimulates(key);
    SimulatedWrite(Counting(key), PagerFor(Lru, key), (s: Counted) => s.memory, ps, Counted(m, 0), page, off, data);
  }

  /** The list is what the uses so far make it, and the count their misses. */
  ghost predicate TracksLoads(ps: nat, n: nat, s: Counted, start: seq<PageId>, history: seq<PageId>) {
    Tracks(ps, n, s.memory, history) && Misses(n, start) + s.loads == Misses(n, history)
  }

  ghost function TrackingLoads(ps: nat, n: nat, key: Key, start: seq<PageId>): (Counted, seq<nat>) -> bool {
    (s: Counted, pages: seq<nat>) => TracksLoads(ps, n, s, start, start + Ids(key, pages))
  }

  lemma UseTracksLoads(ps: nat, n: nat, m: Memory, c: nat, start: seq<PageId>, history: seq<PageId>, id: PageId)
    requires TracksLoads(ps, n, Counted(m, c), start, history) && Resident(Use(Lru, m, id).slots, id)
    ensures TracksLoads(ps, n,
        Counted(Use(Lru, m, id), c + if Resident(m.slots, id) then 0 else 1), start, history + [id])
  {
    UseTracks(ps, n, m, history, id);
    assert (history + [id])[..|history|] == history;
    assert Resident(m.slots, id) <==> id in LruAfter(n, history);
  }

  lemma CountingFollowsUse(ps: nat, n: nat, key: Key, start: seq<PageId>, s: Counted, pages: seq<nat>, p: nat)
    ensures FollowsUse(Counting(key), TrackingLoads(ps, n, key, start), s, pages, p)
  {
    var before := start + Ids(key, pages);
    if TracksLoads(ps, n, s, start, before) && FrameFor(key, UseFor(Lru, key, s.memory, p), p).Data? {
      UseTracksLoads(ps, n, s.memory, s.loads, start, before, PageId(key, p));
      OneMoreUse(key, start, pages, p);
    }
  }

  lemma CountingFollowsPut(ps: nat, n: nat, key: Key, start: seq<PageId>, s: Counted, pages: seq<nat>, p: nat, off: nat,
                           data: seq<byte>)
    ensures FollowsPut(Counting(key), ps, TrackingLoads(ps, n, key, start), s, pages, p, off, data)
  {
    if Tracks(ps, n, s.memory, start + Ids(key, pages)) && off + |data| <= ps && Ready(s.memory, PageId(key, p)) {
      PutIsConsistent(Lru, ps, s.memory, Find(s.memory.slots, PageId(key, p)), off, data);
    }
  }

  lemma CountingFollows(ps: nat, n: nat, key: Key, start: seq<PageId>)
    ensures Follows(Counting(key), ps, TrackingLoads(ps, n, key, start))
  {
    var g, rel := Counting(key), TrackingLoads(ps, n, key, start);
    forall s, pages, p: nat ensures FollowsUse(g, rel, s, pages, p) {
      CountingFollowsUse(ps, n, key, start, s, pages, p);
    }
    forall s, pages, p: nat, off: nat, data ensures FollowsPut(g, ps, rel, s, pages, p, off, data) {
      CountingFollowsPut(ps, n, key, start, s, pages, p, off, data);
    }
  }

  lemma ReadLoads(ps: nat, n: nat, m: Memory, history: seq<PageId>, key: Key, offset: nat, len: nat)
    requires ps > 0 && Tracks(ps, n, m, history) && Read(Lru, ps, m, key, offset, len).1.Data?
    ensures Misses(n, history) + Loads(ps, m, ReadOf(key, offset, len))
      == Misses(n, history + Ids(key, Touched(ps, offset / ps, offset % ps, len)))
  {
    CountingFollows(ps, n, key, history);
    assert history + Ids(key, []) == history;
    CountingReads(key, ps, m, offset / ps, offset % ps, len);
    ReadFromStart(Counting(key), TrackingLoads(ps, n, key, history), ps, Counted(m, 0), offset / ps, offset % ps, len);
  }

  lemma WriteLoads(ps: nat, n: nat, m: Memory, history: seq<PageId>, key: Key, offset: nat, data: seq<byte>)
    requires ps > 0 && Tracks(ps, n, m, history) && Write(Lru, ps, m, key, offset, data).1
    ensures Misses(n, history) + Loads(ps, m, WriteTo(key, offset, data))
      == Misses(n, history + Ids(key, Touched(ps, offset / ps, offset % ps, |data|)))
  {
    CountingFollows(ps, n, key, history);
    assert history + Ids(key, []) == history;
    CountingWrites(key, ps, m, offset / ps, offset % ps, data);
    WriteFromStart(Counting(key), TrackingLoads(ps, n, key, history), ps,
        Counted(m, 0), offset / ps, offset % ps, data);
  }

  lemma ServeLoads(ps: nat, n: nat, m: Memory, history: seq<PageId>, q: Request)
    requires ps > 0 && Tracks(ps, n, m, history) && Succeeded(Serve(Lru, ps, m, q).1)
    ensures Misses(n, history) + Loads(ps, m, q) == Misses(n, history + Uses(ps, q))
  {
    match q
    case ReadOf(key, offset, len) => ReadLoads(ps, n, m, history, key, offset, len);
    case WriteTo(key, offset, data) => WriteLoads(ps, n, m, history, key, offset, data);
    case FlushOf(_) => assert history + [] == history;
  }

  lemma {:induction false} RunLoadsAreMisses(ps: nat, n: nat, m: Memory, history: seq<PageId>, qs: seq<Request>)
    requires ps > 0 && Tracks(ps, n, m, history) && AllSucceed(ps, m, qs)
    ensures Misses(n, history) + RunLoads(ps, m, qs) == Misses(n, history + History(ps, qs))
    decreases |qs|
  {
    if qs == [] {
      assert history + [] == history;
    } else {
      var m', first := Serve(Lru, ps, m, qs[0]).0, Uses(ps, qs[0]);
      ServeTracks(ps, n, m, history, qs[0]);
      ServeLoads(ps, n, m, history, qs[0]);
      RunLoadsAreMisses(ps, n, m', history + first, qs[1..]);
      Regroup(history, first, History(ps, qs[1..]));
    }
  }

  /** From a fresh memory, the loads of a run are the misses of its history. */
  lemma LoadsAreMisses(ps: nat, n: nat, pages: map<PageId, Block>, refuses: set<Key>, qs: seq<Request>)
    requires ps > 0 && n > 0 && (forall id :: id in pages ==> |pages[id]| == ps)
    requires AllSucceed(ps, Fresh(n, ps, pages, refuses), qs)
    ensures RunLoads(ps, Fresh(n, ps, pages, refuses), qs) == Misses(n, History(ps, qs))
  {
    FreshIsConsistent(Lru, n, ps, pages, refuses);
    RunLoadsAreMisses(ps, n, Fresh(n, ps, pages, refuses), [], qs);
    assert [] + History(ps, qs) == History(ps, qs);
  }

  /** A memory with more frames never loads more pages on the same requests. */
  lemma MoreFramesNeverMoreLoads(ps: nat, n: nat, more: nat, pages: map<PageId, Block>, refuses: set<Key>,
                      qs: seq<Request>)
    requires ps > 0 && 0 < n <= more && (forall id :: id in pages ==> |pages[id]| == ps)
    requires AllSucceed(ps, Fresh(n, ps, pages, refuses), qs)
    ensures RunLoads(ps, Fresh(more, ps, pages, refuses), qs) <= RunLoads(ps, Fresh(n, ps, pages, refuses), qs)
  {
    SuccessIgnoresFrames(ps, n, more, pages, refuses, qs);
    LoadsAreMisses(ps, n, pages, refuses, qs);
    LoadsAreMisses(ps, more, pages, refuses, qs);
    MoreFramesNeverMoreMisses(n, more, History(ps, qs));
  }
}
