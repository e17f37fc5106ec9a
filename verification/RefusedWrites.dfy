/** Writes to a File:Tag whose FLUSH Storage refuses never stay: whatever was written, some
    READs of other pages push the page out of memory, and READ then answers Storage's old
    block.  So a WRITE is sure to be seen by every later READ exactly when its File:Tag
    accepts FLUSH. */
module RefusedWrites {
  import opened Bytes
  import opened FlatFile
  import opened Paging
  import opened Cache
  import opened CacheInvariant
  import opened CacheViews
  import opened CacheFiles
  import opened FlushPackets

  // --------------------------------------------------------- a page that is not there

  /** Of as many pages as there are frames one is not resident, if yet another one is. */
  lemma SomeAbsent(slots: seq<Slot>, v: PageId, others: set<PageId>) returns (x: PageId)
    requires Resident(slots, v) && v !in others && |others| >= |slots|
    ensures x in others && !Resident(slots, x)
  {
    if forall y :: y in others ==> Resident(slots, y) {
      forall y | y in others + {v} ensures y in Residents(slots) { assert Has(slots[Find(slots, y)], y); }
      SubsetIsSmaller(others + {v}, Residents(slots));
      ResidentsFit(slots);
      assert false;
    }
    x :| x in others && !Resident(slots, x);
  }

  // ------------------------------------------------------ one use of such a page

  /** What Storage holds of the File:Tags that refuse FLUSH, and how much memory there is. */
  ghost predicate SameRefused(m: Memory, m': Memory) {
    && m'.refuses == m.refuses && m'.pages.Keys == m.pages.Keys && |m'.slots| == |m.slots|
    && forall id {:trigger m'.pages[id]} :: id in m.pages && id.key in m.refuses ==> m'.pages[id] == m.pages[id]
  }

  lemma MakeRoomKeepsRefused(r: Replacement, m: Memory)
    requires Shaped(m)
    ensures SameRefused(m, MakeRoom(r, m).0)
  {
  }

  lemma UseKeepsRefused(r: Replacement, m: Memory, id: PageId)
    requires Shaped(m)
    ensures SameRefused(m, Use(r, m, id))
  {
    MakeRoomKeepsRefused(r, m);
  }

  /** The use of a page that has to be brought in. */
  lemma UseOfAbsent(r: Replacement, ps: nat, m: Memory, x: PageId)
    requires Consistent(r, ps, m) && !Resident(m.slots, x) && x in m.pages
    ensures var (w, u) := MakeRoom(r, m); var m' := Use(r, m, x);
      && m'.slots == w.slots[u := Holds(x, false)] && m'.frames == w.frames[u := w.pages[x]]
      && Find(m'.slots, x) == u
      && (r.Lru? ==> m'.lru == Without(w.lru + [x], x) + [x])
      && (r.ClockM? ==> |w.referenced| == |w.modified| == |m.slots|
                        && m'.referenced == w.referenced[u := true] && m'.modified == w.modified[u := false])
  {
    MakeRoomIsConsistent(r, ps, m);
    var (w, u) := MakeRoom(r, m);
    FillIsConsistent(r, ps, w, u, x);
    FindsIt(Fill(r, w, u, x).slots, u);
  }

  function FreeFrames(slots: seq<Slot>): set<nat> {
    set i: nat | i < |slots| && slots[i].Free?
  }

  /** While a frame is free it is used, and the page in frame i stays where it is. */
  lemma FreeFrameIsUsed(r: Replacement, ps: nat, m: Memory, i: nat, x: PageId)
    requires Consistent(r, ps, m) && !Resident(m.slots, x) && x in m.pages
    requires i < |m.slots| && m.slots[i].Holds? && FirstFree(m.slots) < |m.slots|
    ensures var m' := Use(r, m, x);
      Has(m'.slots[i], m.slots[i].id) && |FreeFrames(m'.slots)| < |FreeFrames(m.slots)|
  {
    UseOfAbsent(r, ps, m, x);
    var f := FirstFree(m.slots);
    assert f in FreeFrames(m.slots);
    assert FreeFrames(Use(r, m, x).slots) == FreeFrames(m.slots) - {f};
  }

  lemma TakenFromIsGone(slots: seq<Slot>, slots': seq<Slot>, u: nat, x: PageId)
    requires NoPageTwice(slots) && u < |slots| == |slots'| && slots[u].Holds? && slots[u].id != x
    requires slots'[u] == Holds(x, false) && SamePages(slots[u := Free], slots'[u := Free])
    ensures !Resident(slots', slots[u].id)
  {
    forall j | 0 <= j < |slots| && j != u ensures !Has(slots'[j], slots[u].id) {
      assert slots[u := Free][j] == slots[j] && slots'[u := Free][j] == slots'[j];
    }
  }

  lemma SwappedPages(r: Replacement, m: Memory)
    requires Shaped(m)
    ensures SamePages(m.slots, Swapped(r, m).slots)
    ensures Evict(r, m).slots == Swapped(r, m).slots[Victim(r, m) := Free]
  {
  }

  lemma SamePagesReplaced(slots: seq<Slot>, swapped: seq<Slot>, u: nat, s: Slot)
    requires SamePages(slots, swapped) && u < |slots|
    ensures SamePages(slots[u := Free], swapped[u := Free][u := s][u := Free])
  {
  }

  lemma EvictedSlots(r: Replacement, ps: nat, m: Memory, x: PageId)
    requires Consistent(r, ps, m) && !Resident(m.slots, x) && x in m.pages && FirstFree(m.slots) == |m.slots|
    ensures var m', u := Use(r, m, x), Victim(r, m);
      && m.slots[u].Holds? && |m'.slots| == |m.slots| && m'.slots[u] == Holds(x, false)
      && SamePages(m.slots[u := Free], m'.slots[u := Free])
  {
    VictimIsFrame(r, ps, m);
    UseOfAbsent(r, ps, m, x);
    SwappedPages(r, m);
    SamePagesReplaced(m.slots, Swapped(r, m).slots, Victim(r, m), Holds(x, false));
  }

  /** With all frames taken, the page in frame i stays where it is unless it is the victim. */
  lemma OthersStay(r: Replacement, ps: nat, m: Memory, i: nat, x: PageId)
    requires Consistent(r, ps, m) && !Resident(m.slots, x) && x in m.pages
    requires i < |m.slots| && m.slots[i].Holds? && FirstFree(m.slots) == |m.slots|
    ensures var m' := Use(r, m, x);
      && FreeFrames(m'.slots) == FreeFrames(m.slots)
      && if Victim(r, m) == i then !Resident(m'.slots, m.slots[i].id) else Has(m'.slots[i], m.slots[i].id)
  {
    EvictedSlots(r, ps, m, x);
    var slots', u := Use(r, m, x).slots, Victim(r, m);
    assert !Has(m.slots[u], x);
    if u == i {
      TakenFromIsGone(m.slots, slots', u, x);
    } else {
      assert m.slots[u := Free][i] == m.slots[i] && slots'[u := Free][i] == slots'[i];
    }
    forall j: nat ensures j in FreeFrames(slots') <==> j in FreeFrames(m.slots) {
      if j < |slots'| && j != u { assert m.slots[u := Free][j] == m.slots[j] && slots'[u := Free][j] == slots'[j]; }
    }
  }

  // -------------------------------------------------------------- LRU draws nearer

  /** How many pages of the list come before v. */
  function Ahead(list: seq<PageId>, v: PageId): nat {
    if list == [] || list[0] == v then 0 else 1 + Ahead(list[1..], v)
  }

  lemma {:induction false} AheadWithout(list: seq<PageId>, x: PageId, v: PageId, tail: seq<PageId>)
    requires v in list && v != x
    ensures Ahead(Without(list, x) + tail, v) <= Ahead(list, v)
  {
    if list[0] != v {
      AheadWithout(list[1..], x, v, tail);
      assert ([list[0]] + Without(list[1..], x) + tail)[1..] == Without(list[1..], x) + tail;
      assert [] + Without(list[1..], x) == Without(list[1..], x);
    } else {
      assert (Without(list, x) + tail)[0] == v;
    }
  }

  lemma {:induction false} AheadAppend(list: seq<PageId>, v: PageId, tail: seq<PageId>)
    requires v in list
    ensures Ahead(list + tail, v) == Ahead(list, v)
  {
    if list[0] != v {
      assert (list + tail)[1..] == list[1..] + tail;
      AheadAppend(list[1..], v, tail);
    }
  }

  /** Under LRU each page that takes the place of another brings v nearer to its turn. */
  lemma LruDrawsNearer(ps: nat, m: Memory, i: nat, x: PageId)
    requires Consistent(Lru, ps, m) && !Resident(m.slots, x) && x in m.pages
    requires i < |m.slots| && m.slots[i].Holds? && FirstFree(m.slots) == |m.slots| && Victim(Lru, m) != i
    ensures Ahead(Use(Lru, m, x).lru, m.slots[i].id) < Ahead(m.lru, m.slots[i].id)
  {
    VictimIsFrame(Lru, ps, m);
    UseOfAbsent(Lru, ps, m, x);
    var v := m.slots[i].id;
    FindsIt(m.slots, i);
    assert v in m.lru && m.lru[0] != v;
    var rest := m.lru[1..];
    assert v in rest;
    AheadAppend(rest, v, [x]);
    AheadWithout(rest + [x], x, v, [x]);
  }

  // ---------------------------------------------------------- CLOCK-M draws nearer

  /** Frames but i with the M bit set. */
  function DirtyBut(m: Memory, i: nat): set<nat> {
    set j: nat | j < |m.modified| && j != i && m.modified[j]
  }

  /** Frames but i that are in class (0,0). */
  function UntouchedBut(m: Memory, i: nat): set<nat>
    requires |m.referenced| == |m.modified|
  {
    set j: nat | j < |m.modified| && j != i && !m.referenced[j] && !m.modified[j]
  }

  function RankOf(m: Memory, i: nat): nat {
    if i < |m.referenced| && m.referenced[i] then 1 else 0
  }

  /** Frame i is nearer to being the victim: its R bit went, or fewer other frames are modified,
      or fewer others are in class (0,0). */
  ghost predicate Nearer(m: Memory, m': Memory, i: nat)
    requires |m.referenced| == |m.modified| && |m'.referenced| == |m'.modified|
  {
    || RankOf(m', i) < RankOf(m, i)
    || (RankOf(m', i) == RankOf(m, i)
        && (|DirtyBut(m', i)| < |DirtyBut(m, i)|
            || (|DirtyBut(m', i)| == |DirtyBut(m, i)| && |UntouchedBut(m', i)| < |UntouchedBut(m, i)|)))
  }

  /** The victim is of the lowest class there is. */
  lemma VictimIsLowest(m: Memory, j: nat)
    requires Shaped(m) && j < |m.slots|
    ensures var u := Victim(ClockM, m); Class(m.referenced[u], m.modified[u]) <= Class(m.referenced[j], m.modified[j])
  {
    var n := |m.slots|;
    assert Around(m.pointer, Steps(m.pointer, j, n), n) == j;
  }

  /** The clock's bits in m' after frame u of m was given to another page. */
  ghost predicate Passed(m: Memory, m': Memory, u: nat)
    requires Shaped(m) && u < |m.slots|
  {
    && |m'.referenced| == |m'.modified| == |m.slots|
    && m'.referenced == Swept(m.referenced, m.modified, m.pointer)[u := true] && !m'.modified[u]
    && (forall j :: 0 <= j < |m.slots| && m'.modified[j] ==> m.modified[j])
    && (!m.modified[u] ==> m'.modified == m.modified)
  }

  lemma EvictBits(m: Memory)
    requires Shaped(m)
    ensures var e, u := Evict(ClockM, m), Victim(ClockM, m);
      && e.referenced == Swept(m.referenced, m.modified, m.pointer)[u := false] && |e.modified| == |m.slots|
      && (forall j :: 0 <= j < |m.slots| && e.modified[j] ==> m.modified[j])
      && (!Dirty(m.slots[u]) ==> e.modified == m.modified[u := false])
  {
  }

  lemma BitsPass(m: Memory, e: Memory, m': Memory, u: nat)
    requires Shaped(m) && u < |m.slots| && Dirty(m.slots[u]) == m.modified[u]
    requires e.referenced == Swept(m.referenced, m.modified, m.pointer)[u := false] && |e.modified| == |m.slots|
    requires forall j :: 0 <= j < |m.slots| && e.modified[j] ==> m.modified[j]
    requires !Dirty(m.slots[u]) ==> e.modified == m.modified[u := false]
    requires m'.referenced == e.referenced[u := true] && m'.modified == e.modified[u := false]
    ensures Passed(m, m', u)
  {
  }

  /** The clock's bits after a page took the victim's place. */
  lemma ClockBits(ps: nat, m: Memory, x: PageId)
    requires Consistent(ClockM, ps, m) && !Resident(m.slots, x) && x in m.pages && FirstFree(m.slots) == |m.slots|
    ensures Passed(m, Use(ClockM, m, x), Victim(ClockM, m))
  {
    UseOfAbsent(ClockM, ps, m, x);
    EvictBits(m);
    BitsPass(m, Evict(ClockM, m), Use(ClockM, m, x), Victim(ClockM, m));
  }

  /** The victim was in class (0,0), and nothing else changes. */
  lemma UntouchedGoes(m: Memory, m': Memory, i: nat)
    requires Shaped(m) && i < |m.slots| && Victim(ClockM, m) != i && !m.referenced[Victim(ClockM, m)]
    requires !m.modified[Victim(ClockM, m)] && m'.modified == m.modified && |m'.referenced| == |m.slots|
    requires m'.referenced == Swept(m.referenced, m.modified, m.pointer)[Victim(ClockM, m) := true]
    ensures Nearer(m, m', i)
  {
    var u := Victim(ClockM, m);
    assert Swept(m.referenced, m.modified, m.pointer) == m.referenced;
    assert DirtyBut(m', i) == DirtyBut(m, i);
    assert UntouchedBut(m', i) == UntouchedBut(m, i) - {u};
    assert u in UntouchedBut(m, i);
  }

  /** Under CLOCK-M each page that takes the place of another brings frame i nearer to its turn. */
  lemma ClockDrawsNearer(ps: nat, m: Memory, i: nat, x: PageId)
    requires Consistent(ClockM, ps, m) && !Resident(m.slots, x) && x in m.pages
    requires i < |m.slots| && FirstFree(m.slots) == |m.slots| && Victim(ClockM, m) != i
    ensures Shaped(Use(ClockM, m, x)) && Nearer(m, Use(ClockM, m, x), i)
  {
    ClockBits(ps, m, x);
    var m', u := Use(ClockM, m, x), Victim(ClockM, m);
    if m.referenced[u] {
      VictimIsLowest(m, i);
    } else if m.modified[u] {
      assert u in DirtyBut(m, i) && u !in DirtyBut(m', i);
      SubsetIsSmaller(DirtyBut(m', i), DirtyBut(m, i));
    } else {
      UntouchedGoes(m, m', i);
    }
  }

  // ------------------------------------------------------------ pushing a page out

  /** Page v, in frame i, has come nearer to being replaced. */
  ghost predicate Closer(r: Replacement, m: Memory, m': Memory, v: PageId, i: nat)
    requires Shaped(m) && Shaped(m')
  {
    || |FreeFrames(m'.slots)| < |FreeFrames(m.slots)|
    || (FreeFrames(m'.slots) == FreeFrames(m.slots)
        && if r.Lru? then Ahead(m'.lru, v) < Ahead(m.lru, v) else Nearer(m, m', i))
  }

  /** Bringing another page in pushes v out, or brings it nearer to that. */
  lemma AbsentPushes(r: Replacement, ps: nat, m: Memory, v: PageId, i: nat, x: PageId)
    requires Consistent(r, ps, m) && i < |m.slots| && Has(m.slots[i], v) && !Resident(m.slots, x) && x in m.pages
    ensures Consistent(r, ps, Use(r, m, x)) && SameRefused(m, Use(r, m, x))
    ensures !Resident(Use(r, m, x).slots, v) || (Has(Use(r, m, x).slots[i], v) && Closer(r, m, Use(r, m, x), v, i))
  {
    UseIsConsistent(r, ps, m, x);
    UseKeepsRefused(r, m, x);
    if FirstFree(m.slots) < |m.slots| {
      FreeFrameIsUsed(r, ps, m, i, x);
    } else {
      OthersStay(r, ps, m, i, x);
      if Victim(r, m) != i {
        if r.Lru? { LruDrawsNearer(ps, m, i, x); } else { ClockDrawsNearer(ps, m, i, x); }
      }
    }
  }

  /** READ of the first byte of a page. */
  function FirstByte(ps: nat, x: PageId): Request {
    ReadOf(x.key, x.number * ps, 1)
  }

  lemma PageOfOffset(ps: nat, p: nat)
    requires ps > 0
    ensures p * ps / ps == p && p * ps % ps == 0
  {
    var q, rest := p * ps / ps, p * ps % ps;
    assert (p - q) * ps == p * ps - q * ps == rest;
    assert p - q >= 1 ==> (p - q) * ps >= ps;
    assert p - q <= -1 ==> (p - q) * ps < 0;
  }

  lemma FirstByteUses(r: Replacement, ps: nat, m: Memory, x: PageId)
    requires ps > 0 && Consistent(r, ps, m) && x in m.pages
    ensures Serve(r, ps, m, FirstByte(ps, x)).0 == Use(r, m, x)
  {
    PageOfOffset(ps, x.number);
    UseIsConsistent(r, ps, m, x);
    var w := UseFor(r, x.key, m, x.number);
    assert ReadFrom(PagerFor(r, x.key), ps, w, x.number + 1, 0, 0) == (w, Data([]));
  }

  /** READs of single bytes, of pages among `pages`. */
  ghost predicate ReadsOf(ps: nat, pages: set<PageId>, qs: seq<Request>) {
    forall q :: q in qs ==> exists x :: x in pages && q == FirstByte(ps, x)
  }

  lemma SameRefusedThenSame(a: Memory, b: Memory, c: Memory)
    requires SameRefused(a, b) && SameRefused(b, c)
    ensures SameRefused(a, c)
  {
  }

  /** As many other pages as there are frames are enough to push v out, under either algorithm. */
  lemma {:induction false} PushOut(r: Replacement, ps: nat, m: Memory, v: PageId, i: nat, others: set<PageId>)
    returns (qs: seq<Request>)
    requires ps > 0 && Consistent(r, ps, m) && i < |m.slots| && Has(m.slots[i], v)
    requires v !in others && others <= m.pages.Keys && |others| >= |m.slots|
    ensures ReadsOf(ps, others, qs)
    ensures var m' := After(r, ps, m, qs); Consistent(r, ps, m') && SameRefused(m, m') && !Resident(m'.slots, v)
    decreases |FreeFrames(m.slots)|, if r.Lru? then Ahead(m.lru, v) else 0, RankOf(m, i), |DirtyBut(m, i)|,
              |UntouchedBut(m, i)|
  {
    FindsIt(m.slots, i);
    var x := SomeAbsent(m.slots, v, others);
    AbsentPushes(r, ps, m, v, i, x);
    FirstByteUses(r, ps, m, x);
    var m' := Use(r, m, x);
    var more: seq<Request> := [];
    if Resident(m'.slots, v) { more := PushOut(r, ps, m', v, i, others); }
    qs := [FirstByte(ps, x)] + more;
    assert qs[1..] == more;
    SameRefusedThenSame(m, m', After(r, ps, m', more));
  }

  /** READ of a page that is not resident answers what Storage holds. */
  lemma ReadOfAbsent(r: Replacement, ps: nat, m: Memory, v: PageId)
    requires ps > 0 && Consistent(r, ps, m) && !Resident(m.slots, v) && v in m.pages && v.key in m.refuses
    ensures Serve(r, ps, m, ReadOf(v.key, v.number * ps, ps)).1 == Content(Data(m.pages[v]))
  {
    PageOfOffset(ps, v.number);
    MakeRoomKeepsRefused(r, m);
    UseOfAbsent(r, ps, m, v);
    var w := UseFor(r, v.key, m, v.number);
    assert ReadFrom(PagerFor(r, v.key), ps, w, v.number + 1, 0, 0) == (w, Data([]));
    assert Part(m.pages[v], 0, ps) == m.pages[v] && m.pages[v] + [] == m.pages[v];
  }

  // ------------------------------------------------------------- after any history

  /** What every request keeps, from m on. */
  ghost function KeptFrom(r: Replacement, ps: nat, m: Memory): Memory -> bool {
    (x: Memory) => Consistent(r, ps, x) && SameRefused(m, x)
  }

  lemma UseKeepsKept(r: Replacement, ps: nat, m: Memory, key: Key, x: Memory, p: nat)
    ensures KeepsUse(PagerFor(r, key), KeptFrom(r, ps, m), x, p)
  {
    if Consistent(r, ps, x) && SameRefused(m, x) {
      UseIsConsistent(r, ps, x, PageId(key, p));
      UseKeepsRefused(r, x, PageId(key, p));
      SameRefusedThenSame(m, x, Use(r, x, PageId(key, p)));
    }
  }

  lemma PutKeepsKept(r: Replacement, ps: nat, m: Memory, key: Key, x: Memory, p: nat, off: nat, data: seq<byte>)
    ensures KeepsPut(PagerFor(r, key), ps, KeptFrom(r, ps, m), x, p, off, data)
  {
    if Consistent(r, ps, x) && off + |data| <= ps && Ready(x, PageId(key, p)) {
      PutIsConsistent(r, ps, x, Find(x.slots, PageId(key, p)), off, data);
    }
  }

  lemma PagerKeepsKept(r: Replacement, ps: nat, m: Memory, key: Key)
    ensures Keeps(PagerFor(r, key), ps, KeptFrom(r, ps, m))
  {
    var g, inv := PagerFor(r, key), KeptFrom(r, ps, m);
    forall x, p: nat ensures KeepsUse(g, inv, x, p) { UseKeepsKept(r, ps, m, key, x, p); }
    forall x, p: nat, off: nat, data ensures KeepsPut(g, ps, inv, x, p, off, data) {
      PutKeepsKept(r, ps, m, key, x, p, off, data);
    }
  }

  lemma AccessKeepsKept(r: Replacement, ps: nat, m: Memory, q: Request)
    requires ps > 0 && Consistent(r, ps, m) && !q.FlushOf?
    ensures KeptFrom(r, ps, m)(Serve(r, ps, m, q).0)
  {
    var g, inv := PagerFor(r, q.key), KeptFrom(r, ps, m);
    PagerKeepsKept(r, ps, m, q.key);
    assert inv(m);
    match q
    case ReadOf(_, offset, len) => ReadFromKeeps(g, inv, ps, m, offset / ps, offset % ps, len);
    case WriteTo(_, offset, data) => WriteFromKeeps(g, inv, ps, m, offset / ps, offset % ps, data);
  }

  lemma FlushKeepsRefused(r: Replacement, ps: nat, m: Memory, key: Key)
    requires ps > 0 && Consistent(r, ps, m)
    ensures Consistent(r, ps, WriteBack(r, m, key)) && SameRefused(m, WriteBack(r, m, key))
  {
    WriteBackIsConsistent(r, ps, m, key);
  }

  lemma ServeKeepsRefused(r: Replacement, ps: nat, m: Memory, q: Request)
    requires ps > 0 && Consistent(r, ps, m)
    ensures Consistent(r, ps, Serve(r, ps, m, q).0) && SameRefused(m, Serve(r, ps, m, q).0)
  {
    if q.FlushOf? { FlushKeepsRefused(r, ps, m, q.key); } else { AccessKeepsKept(r, ps, m, q); }
  }

  lemma {:induction false} RunKeepsRefused(r: Replacement, ps: nat, m: Memory, qs: seq<Request>)
    requires ps > 0 && Consistent(r, ps, m)
    ensures Consistent(r, ps, After(r, ps, m, qs)) && SameRefused(m, After(r, ps, m, qs))
    decreases |qs|
  {
    if qs != [] {
      ServeKeepsRefused(r, ps, m, qs[0]);
      RunKeepsRefused(r, ps, Serve(r, ps, m, qs[0]).0, qs[1..]);
      SameRefusedThenSame(m, Serve(r, ps, m, qs[0]).0, After(r, ps, m, qs));
    }
  }

  lemma {:induction false} AfterConcat(r: Replacement, ps: nat, m: Memory, a: seq<Request>, b: seq<Request>)
    requires ps > 0
    ensures After(r, ps, m, a + b) == After(r, ps, After(r, ps, m, a), b)
    decreases |a|
  {
    if a == [] {
      assert a + b == b;
    } else {
      assert (a + b)[1..] == a[1..] + b;
      AfterConcat(r, ps, Serve(r, ps, m, a[0]).0, a[1..], b);
    }
  }

  /** Nothing ever written to a File:Tag that refuses FLUSH stays: after any history of requests,
      some READs of other pages make READ of any of its pages answer the block Storage had. */
  lemma NothingWrittenStays(r: Replacement, ps: nat, m: Memory, history: seq<Request>, v: PageId, others: set<PageId>)
    returns (qs: seq<Request>)
    requires ps > 0 && Consistent(r, ps, m) && v in m.pages && v.key in m.refuses
    requires v !in others && others <= m.pages.Keys && |others| >= |m.slots|
    ensures ReadsOf(ps, others, qs)
    ensures Serve(r, ps, After(r, ps, m, history + qs), ReadOf(v.key, v.number * ps, ps)).1 == Content(Data(m.pages[v]))
  {
    RunKeepsRefused(r, ps, m, history);
    var w := After(r, ps, m, history);
    qs := [];
    assert After(r, ps, w, []) == w;
    if Resident(w.slots, v) { qs := PushOut(r, ps, w, v, Find(w.slots, v), others); }
    AfterConcat(r, ps, m, history, qs);
    var m' := After(r, ps, w, qs);
    SameRefusedThenSame(m, w, m');
    ReadOfAbsent(r, ps, m', v);
  }

  // ------------------------------------------------- which WRITEs every READ sees

  lemma {:induction false} LastReply(r: Replacement, ps: nat, m: Memory, qs: seq<Request>, q: Request)
    requires ps > 0
    ensures |Replies(r, ps, m, qs + [q])| == |qs| + 1
    ensures Replies(r, ps, m, qs + [q])[|qs|] == Serve(r, ps, After(r, ps, m, qs), q).1
    decreases |qs|
  {
    if qs == [] {
      assert [] + [q] == [q] && [q][1..] == [];
      assert Replies(r, ps, Serve(r, ps, m, q).0, []) == [];
    } else {
      assert (qs + [q])[1..] == qs[1..] + [q];
      LastReply(r, ps, Serve(r, ps, m, qs[0]).0, qs[1..], q);
    }
  }

  lemma {:induction false} LastFlatReply(files: map<Key, seq<byte>>, qs: seq<Request>, q: Request)
    requires forall x :: x in qs + [q] ==> x.key in files
    ensures forall x :: x in qs ==> x.key in files
    ensures q in qs + [q] && |FlatReplies(files, qs + [q])| == |qs| + 1
    ensures FlatReplies(files, qs + [q])[|qs|] == ServeFlat(FlatAfter(files, qs), q).1
    decreases |qs|
  {
    assert (qs + [q])[|qs|] == q;
    if qs == [] {
      assert [] + [q] == [q] && [q][1..] == [];
      assert FlatReplies(ServeFlat(files, q).0, []) == [];
    } else {
      assert (qs + [q])[1..] == qs[1..] + [q];
      LastFlatReply(ServeFlat(files, qs[0]).0, qs[1..], q);
    }
  }

  lemma {:induction false} ReadsKeepFiles(files: map<Key, seq<byte>>, qs: seq<Request>)
    requires forall q :: q in qs ==> q.ReadOf? && q.key in files
    ensures FlatAfter(files, qs) == files
    decreases |qs|
  {
    if qs != [] {
      assert qs[0] in qs;
      assert files[qs[0].key := files[qs[0].key]] == files;
      ReadsKeepFiles(files, qs[1..]);
    }
  }

  /** After the WRITE the run answers as plain byte sequences do. */
  ghost predicate AnswersAsFiles(r: Replacement, ps: nat, m: Memory, books: map<Key, seq<Block>>, q: Request,
                                 qs: seq<Request>)
    requires ps > 0
  {
    q.key in books && Permitted(m, books.Keys, qs) ==>
      Replies(r, ps, m, [q] + qs) == FlatReplies(FlatBooks(books), [q] + qs)
  }

  /** Whatever is written to the File:Tag, and whatever run comes then, every READ sees it. */
  ghost predicate WritesStay(r: Replacement, ps: nat, m: Memory, books: map<Key, seq<Block>>, key: Key)
    requires ps > 0
  {
    forall offset, data, qs :: AnswersAsFiles(r, ps, m, books, WriteTo(key, offset, data), qs)
  }

  /** A byte other than the first of the block. */
  function OtherByte(block: Block): byte {
    if block != [] && block[0] == 0 then 1 else 0
  }

  /** The plain file shows the byte, Storage's block does not. */
  lemma FileShowsByte(ps: nat, files: map<Key, seq<byte>>, key: Key, block: Block, qs: seq<Request>)
    requires ps > 0 && key in files && |files[key]| >= ps && |block| == ps
    requires forall q :: q in qs ==> q.ReadOf? && q.key in files
    ensures var write, read := WriteTo(key, 0, [OtherByte(block)]), ReadOf(key, 0, ps);
      && (forall q :: q in [write] + qs + [read] ==> q.key in files)
      && |FlatReplies(files, [write] + qs + [read])| == |qs| + 2
      && FlatReplies(files, [write] + qs + [read])[|qs| + 1] != Content(Data(block))
  {
    var write, read := WriteTo(key, 0, [OtherByte(block)]), ReadOf(key, 0, ps);
    LastFlatReply(files, [write] + qs, read);
    assert ([write] + qs)[0] == write && ([write] + qs)[1..] == qs;
    var files' := ServeFlat(files, write).0;
    ReadsKeepFiles(files', qs);
    assert FlatAfter(files, [write] + qs) == files';
    assert files'[key][..ps][0] == OtherByte(block);
  }

  /** The reply that shows it. */
  lemma RefusedReply(r: Replacement, ps: nat, m: Memory, write: Request, v: PageId, others: set<PageId>)
    returns (qs: seq<Request>)
    requires ps > 0 && Consistent(r, ps, m) && v in m.pages && v.key in m.refuses
    requires v !in others && others <= m.pages.Keys && |others| >= |m.slots|
    ensures forall q :: q in qs ==> q.ReadOf? && exists x :: x in others && q.key == x.key
    ensures var replies := Replies(r, ps, m, [write] + qs + [ReadOf(v.key, v.number * ps, ps)]);
      |replies| == |qs| + 2 && replies[|qs| + 1] == Content(Data(m.pages[v]))
  {
    qs := NothingWrittenStays(r, ps, m, [write], v, others);
    LastReply(r, ps, m, [write] + qs, ReadOf(v.key, v.number * ps, ps));
    forall q | q in qs ensures q.ReadOf? && exists x :: x in others && q.key == x.key {
      var x :| x in others && q == FirstByte(ps, x);
      assert q.key == x.key;
    }
  }

  lemma FirstPageIsFull(r: Replacement, ps: nat, m: Memory, books: map<Key, seq<Block>>, key: Key)
    requires Consistent(r, ps, m) && Mirrors(m, books) && key in books && books[key] != []
    ensures PageId(key, 0) in m.pages && |m.pages[PageId(key, 0)]| == ps && |FlatBooks(books)[key]| >= ps
  {
    assert Shows(m, key, books[key]);
    ShownPagesAreSized(r, ps, m, key, books[key]);
    FlattenSplits(books[key], 0);
  }

  lemma DifferentReply(r: Replacement, ps: nat, m: Memory, books: map<Key, seq<Block>>, write: Request,
                       pushing: seq<Request>, read: Request, k: nat)
    requires ps > 0 && write.key in books && read.ReadOf? && read.key in books
    requires forall q :: q in pushing ==> q.ReadOf? && q.key in books
    requires forall q :: q in [write] + pushing + [read] ==> q.key in FlatBooks(books)
    requires k < |Replies(r, ps, m, [write] + pushing + [read])|
    requires k < |FlatReplies(FlatBooks(books), [write] + pushing + [read])|
    requires Replies(r, ps, m, [write] + pushing + [read])[k]
          != FlatReplies(FlatBooks(books), [write] + pushing + [read])[k]
    ensures !AnswersAsFiles(r, ps, m, books, write, pushing + [read])
  {
    assert [write] + pushing + [read] == [write] + (pushing + [read]);
  }

  /** The run that shows it. */
  lemma RefusedWriteShows(r: Replacement, ps: nat, m: Memory, books: map<Key, seq<Block>>, key: Key,
                          others: set<PageId>)
    returns (data: seq<byte>, qs: seq<Request>)
    requires ps > 0 && Consistent(r, ps, m) && Mirrors(m, books) && key in books && books[key] != []
    requires key in m.refuses && PageId(key, 0) !in others && others <= m.pages.Keys && |others| >= |m.slots|
    requires forall x :: x in others ==> x.key in books
    ensures !AnswersAsFiles(r, ps, m, books, WriteTo(key, 0, data), qs)
  {
    FirstPageIsFull(r, ps, m, books, key);
    var block, read := m.pages[PageId(key, 0)], ReadOf(key, 0, ps);
    data := [OtherByte(block)];
    var write := WriteTo(key, 0, data);
    var pushing := RefusedReply(r, ps, m, write, PageId(key, 0), others);
    FileShowsByte(ps, FlatBooks(books), key, block, pushing);
    DifferentReply(r, ps, m, books, write, pushing, read, |pushing| + 1);
    qs := pushing + [read];
  }

  /** In a memory that has lost nothing yet, every WRITE to a File:Tag is seen by all READs of every
      run that comes after exactly when Storage accepts its FLUSH, provided there are as many
      other pages as frames. */
  lemma WritesStayIff(r: Replacement, ps: nat, m: Memory, books: map<Key, seq<Block>>, key: Key, others: set<PageId>)
    requires ps > 0 && Faithful(r, ps, m) && Mirrors(m, books) && key in books && books[key] != []
    requires PageId(key, 0) !in others && others <= m.pages.Keys && |others| >= |m.slots|
    requires forall x :: x in others ==> x.key in books
    ensures WritesStay(r, ps, m, books, key) <==> key !in m.refuses
  {
    if key in m.refuses {
      var data, qs := RefusedWriteShows(r, ps, m, books, key, others);
    } else {
      forall offset, data, qs ensures AnswersAsFiles(r, ps, m, books, WriteTo(key, offset, data), qs) {
        if Permitted(m, books.Keys, qs) { CacheIsInvisible(r, ps, m, books, [WriteTo(key, offset, data)] + qs); }
      }
    }
  }
}
