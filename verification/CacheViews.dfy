/** The bytes a worker sees of a page, and which steps of the cache keep them. */
module CacheViews {
  import opened Bytes
  import opened FlatFile
  import opened Cache
  import opened CacheInvariant

  /** The page as the worker sees it: its frame when resident, else Storage's block. */
  function View(m: Memory, id: PageId): Block
    requires |m.frames| == |m.slots| && id in m.pages
  {
    if Resident(m.slots, id) then m.frames[Find(m.slots, id)] else m.pages[id]
  }

  /** Resident pages exist in Storage, and the clean ones hold what Storage holds. */
  ghost predicate Coherent(m: Memory) {
    && |m.frames| == |m.slots|
    && (forall i :: 0 <= i < |m.slots| && m.slots[i].Holds? ==> m.slots[i].id in m.pages)
    && (forall i :: 0 <= i < |m.slots| && m.slots[i].Holds? && !m.slots[i].dirty ==>
        m.frames[i] == m.pages[m.slots[i].id])
  }

  /** No dirty page belongs to a File:Tag whose FLUSH Storage refuses. */
  ghost predicate Accepting(m: Memory) {
    forall i :: 0 <= i < |m.slots| && Dirty(m.slots[i]) ==> m.slots[i].id.key !in m.refuses
  }

  ghost predicate SameViews(m: Memory, m': Memory) {
    && |m.frames| == |m.slots| && |m'.frames| == |m'.slots|
    && m'.pages.Keys == m.pages.Keys && m'.refuses == m.refuses
    && forall id {:trigger View(m', id)} :: id in m.pages ==> View(m', id) == View(m, id)
  }

  // --------------------------------------------------------------------- write-back

  /** A flush never changes what the worker sees, accepted or not. */
  lemma WriteBackKeepsViews(r: Replacement, ps: nat, m: Memory, key: Key)
    requires Consistent(r, ps, m)
    ensures SameViews(m, WriteBack(r, m, key))
  {
    var m' := WriteBack(r, m, key);
    forall id | id in m.pages ensures View(m', id) == View(m, id) {
      SamePagesFind(m.slots, m'.slots, id);
    }
  }

  /** When Storage accepts a flush it then holds what the worker sees of the File:Tag, which
      has no dirty page left; refused, Storage stays as it was. */
  lemma WriteBackDelivers(r: Replacement, ps: nat, m: Memory, key: Key)
    requires Consistent(r, ps, m) && Coherent(m)
    ensures var m' := WriteBack(r, m, key);
      && (forall i :: 0 <= i < |m'.slots| ==> !DirtyOf(m'.slots[i], key))
      && m'.pages.Keys == m.pages.Keys
      && forall id :: id in m.pages ==>
           m'.pages[id] == if id.key == key && key !in m.refuses then View(m, id) else m.pages[id]
  {
  }

  lemma WriteBackIsCoherent(r: Replacement, ps: nat, m: Memory, key: Key)
    requires Consistent(r, ps, m) && Coherent(m) && key !in m.refuses
    ensures Coherent(WriteBack(r, m, key))
    ensures Accepting(m) ==> Accepting(WriteBack(r, m, key))
  {
    var m' := WriteBack(r, m, key);
    forall i | 0 <= i < |m'.slots| && m'.slots[i].Holds? && !m'.slots[i].dirty
      ensures m'.frames[i] == m'.pages[m'.slots[i].id]
    {
      FindsIt(m.slots, i);
    }
  }

  // ---------------------------------------------------------------------- eviction

  /** What the worker sees after frame v was freed. */
  lemma ReleasedView(slots: seq<Slot>, v: nat, id: PageId)
    requires NoPageTwice(slots) && v < |slots|
    ensures Resident(slots[v := Free], id) ==> Find(slots[v := Free], id) == Find(slots, id)
    ensures Resident(slots[v := Free], id) <==> Resident(slots, id) && Find(slots, id) != v
  {
    ResidentAfter(slots, v, Free, id);
    var j := Find(slots[v := Free], id);
    if j < |slots| {
      assert Has(slots[j], id);
      FindsIt(slots, j);
    }
    if Resident(slots, id) && slots[v].Holds? { FindsIt(slots, v); }
  }

  /** Only the victim's page can look different afterwards: it shows Storage's block. */
  lemma EvictShowsStorage(r: Replacement, ps: nat, m: Memory, id: PageId)
    requires Consistent(r, ps, m) && FirstFree(m.slots) == |m.slots| && id in m.pages
    ensures m.slots[Victim(r, m)].Holds?
    ensures View(Evict(r, m), id)
      == if id == m.slots[Victim(r, m)].id then Swapped(r, m).pages[id] else View(m, id)
  {
    VictimIsFrame(r, ps, m);
    var v, w := Victim(r, m), Swapped(r, m);
    if Dirty(m.slots[v]) {
      WriteBackKeepsViews(r, ps, m, m.slots[v].id.key);
      WriteBackIsConsistent(r, ps, m, m.slots[v].id.key);
    }
    assert View(w, id) == View(m, id);
    ReleasedView(w.slots, v, id);
    FindsIt(w.slots, v);
    SamePagesFind(m.slots, w.slots, id);
  }

  /** The page whose bytes an eviction loses: its frame differs from Storage's block, and it is
      not written back, either because Storage refuses the FLUSH or because a FLUSH
      refused before has already marked it clean.  Refusals are received and ignored. */
  ghost predicate LosesBytes(r: Replacement, m: Memory)
    requires Shaped(m)
  {
    var v := Victim(r, m);
    && m.slots[v].Holds? && m.slots[v].id in m.pages && m.frames[v] != m.pages[m.slots[v].id]
    && !(m.slots[v].dirty && m.slots[v].id.key !in m.refuses)
  }

  /** Eviction keeps what the worker sees exactly when it loses no bytes. */
  lemma EvictKeepsViewsIff(r: Replacement, ps: nat, m: Memory)
    requires Consistent(r, ps, m) && FirstFree(m.slots) == |m.slots|
    ensures SameViews(m, Evict(r, m)) <==> !LosesBytes(r, m)
  {
    EvictIsConsistent(r, ps, m);
    VictimIsFrame(r, ps, m);
    var v := Victim(r, m);
    var id := m.slots[v].id;
    FindsIt(m.slots, v);
    if id in m.pages { EvictShowsStorage(r, ps, m, id); }
    forall x | x in m.pages && x != id ensures View(Evict(r, m), x) == View(m, x) {
      EvictShowsStorage(r, ps, m, x);
    }
    assert id in m.pages ==> View(m, id) == m.frames[v];
  }

  /** What an eviction sends: nothing when the victim is clean, and else all the dirty pages of the
      victim's File:Tag, which become clean and, if Storage accepts, are its blocks.  Only the
      victim leaves its frame. */
  lemma EvictWritesBack(r: Replacement, ps: nat, m: Memory, i: nat)
    requires Consistent(r, ps, m) && FirstFree(m.slots) == |m.slots| && i < |m.slots|
    ensures m.slots[Victim(r, m)].Holds? && m.slots[i].Holds?
    ensures var v, m' := Victim(r, m), Evict(r, m);
      var id, x := m.slots[v].id, m.slots[i].id;
      var sent := m.slots[v].dirty && m.slots[i].dirty && x.key == id.key;
      && m'.slots[i] == (if i == v then Free else Holds(x, m.slots[i].dirty && !sent)) && m'.frames == m.frames
      && m'.pages.Keys == m.pages.Keys
      && (x in m.pages ==> m'.pages[x] == if sent && x.key !in m.refuses then m.frames[i] else m.pages[x])
      && (!m.slots[v].dirty ==> m'.pages == m.pages)
  {
    VictimIsFrame(r, ps, m);
    FindsIt(m.slots, i);
  }

  lemma EvictIsCoherent(r: Replacement, ps: nat, m: Memory)
    requires Consistent(r, ps, m) && Coherent(m) && Accepting(m) && FirstFree(m.slots) == |m.slots|
    ensures Coherent(Evict(r, m)) && Accepting(Evict(r, m))
  {
    VictimIsFrame(r, ps, m);
    var v := Victim(r, m);
    if Dirty(m.slots[v]) { WriteBackIsCoherent(r, ps, m, m.slots[v].id.key); }
    ReleaseIsCoherent(Swapped(r, m), v, Evict(r, m));
  }

  lemma ReleaseIsCoherent(m: Memory, v: nat, m': Memory)
    requires Coherent(m) && Accepting(m) && v < |m.slots| && m'.slots == m.slots[v := Free]
    requires m'.frames == m.frames && m'.pages == m.pages && m'.refuses == m.refuses
    ensures Coherent(m') && Accepting(m')
  {
  }

  // ------------------------------------------------------------------ whole accesses

  /** Coherent, and so that no eviction can lose bytes. */
  ghost predicate Faithful(r: Replacement, ps: nat, m: Memory) {
    Consistent(r, ps, m) && Coherent(m) && Accepting(m)
  }

  lemma MakeRoomKeepsViews(r: Replacement, ps: nat, m: Memory)
    requires Faithful(r, ps, m)
    ensures Faithful(r, ps, MakeRoom(r, m).0) && SameViews(m, MakeRoom(r, m).0)
  {
    MakeRoomIsConsistent(r, ps, m);
    if FirstFree(m.slots) == |m.slots| {
      EvictKeepsViewsIff(r, ps, m);
      EvictIsCoherent(r, ps, m);
    }
  }

  lemma FillKeepsViews(r: Replacement, ps: nat, m: Memory, v: nat, id: PageId)
    requires Faithful(r, ps, m) && v < |m.slots| && m.slots[v].Free? && !Resident(m.slots, id) && id in m.pages
    ensures Faithful(r, ps, Fill(r, m, v, id)) && SameViews(m, Fill(r, m, v, id))
  {
    FillIsConsistent(r, ps, m, v, id);
    forall x | x in m.pages ensures View(Fill(r, m, v, id), x) == View(m, x) {
      FilledView(r, ps, m, v, id, x);
    }
  }

  lemma FilledView(r: Replacement, ps: nat, m: Memory, v: nat, id: PageId, x: PageId)
    requires Consistent(r, ps, m) && v < |m.slots| && m.slots[v].Free? && !Resident(m.slots, id) && id in m.pages
    requires x in m.pages
    ensures View(Fill(r, m, v, id), x) == View(m, x)
  {
    var slots' := m.slots[v := Holds(id, false)];
    FilledHasNoPageTwice(m.slots, v, id);
    ResidentAfter(m.slots, v, Holds(id, false), x);
    if x == id {
      FindsIt(slots', v);
    } else if Resident(m.slots, x) {
      FindsIt(slots', Find(m.slots, x));
    }
  }

  lemma TouchKeepsViews(r: Replacement, ps: nat, m: Memory, i: nat)
    requires Faithful(r, ps, m) && i < |m.slots| && m.slots[i].Holds?
    ensures Faithful(r, ps, Touch(r, m, i)) && SameViews(m, Touch(r, m, i))
  {
    TouchIsConsistent(r, ps, m, i);
  }

  /** Bringing a page in, evictions included, never changes what the worker sees. */
  lemma UseKeepsViews(r: Replacement, ps: nat, m: Memory, id: PageId)
    requires Faithful(r, ps, m)
    ensures Faithful(r, ps, Use(r, m, id)) && SameViews(m, Use(r, m, id))
    ensures Resident(Use(r, m, id).slots, id) <==> id in m.pages
  {
    UseIsConsistent(r, ps, m, id);
    var w := m;
    if !Resident(m.slots, id) {
      MakeRoomIsConsistent(r, ps, m);
      MakeRoomKeepsViews(r, ps, m);
      var (room, v) := MakeRoom(r, m);
      if id in m.pages { FillKeepsViews(r, ps, room, v, id); }
      w := Load(r, m, id);
    }
    if Resident(w.slots, id) { TouchKeepsViews(r, ps, w, Find(w.slots, id)); }
  }

  /** Storing bytes in a resident page changes that page's view there and nothing else. */
  lemma PutChangesView(r: Replacement, ps: nat, m: Memory, i: nat, at: nat, data: seq<byte>)
    requires Faithful(r, ps, m) && i < |m.slots| && m.slots[i].Holds? && at + |data| <= ps
    requires m.slots[i].id.key !in m.refuses
    ensures var m' := Put(r, m, i, at, data);
      && Faithful(r, ps, m') && m'.pages == m.pages && m'.refuses == m.refuses
      && View(m', m.slots[i].id) == Patch(View(m, m.slots[i].id), at, data)
      && forall id :: id in m.pages && id != m.slots[i].id ==> View(m', id) == View(m, id)
  {
    var m' := Put(r, m, i, at, data);
    PutIsConsistent(r, ps, m, i, at, data);
    FindsIt(m.slots, i);
    forall id ensures Find(m'.slots, id) == Find(m.slots, id) { SamePagesFind(m.slots, m'.slots, id); }
  }
}
