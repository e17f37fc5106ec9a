/** CLOCK-M by its bits: which frame is replaced, what is left of the R bits, what a use of a
    page sets, and why the page just used is spared. */
module ClockLaws {
  import opened Bytes
  import opened FlatFile
  import opened Paging
  import opened Cache
  import opened CacheInvariant
  import opened CacheFiles

  /** The R bit of the frame seen after d steps from the pointer. */
  predicate Referenced(m: Memory, d: nat)
    requires Shaped(m) && d < |m.slots|
  {
    m.referenced[Around(m.pointer, d, |m.slots|)]
  }

  predicate Modified(m: Memory, d: nat)
    requires Shaped(m) && d < |m.slots|
  {
    m.modified[Around(m.pointer, d, |m.slots|)]
  }

  /** The frame that is replaced, d steps from the pointer: the first with neither bit set; if
      there is none, the first with only M set; if none, the first with only R set; and if all
      frames have both, the one at the pointer. */
  lemma VictimLaw(m: Memory) returns (d: nat)
    requires Shaped(m)
    ensures d < |m.slots| && Victim(ClockM, m) == Around(m.pointer, d, |m.slots|)
    ensures !Referenced(m, d) && !Modified(m, d) ==>
      forall e :: 0 <= e < d ==> Referenced(m, e) || Modified(m, e)
    ensures !Referenced(m, d) && Modified(m, d) ==>
      && (forall e :: 0 <= e < |m.slots| ==> Referenced(m, e) || Modified(m, e))
      && (forall e :: 0 <= e < d ==> Referenced(m, e))
    ensures Referenced(m, d) && !Modified(m, d) ==>
      && (forall e :: 0 <= e < |m.slots| ==> Referenced(m, e))
      && (forall e :: 0 <= e < d ==> Modified(m, e))
    ensures Referenced(m, d) && Modified(m, d) ==>
      d == 0 && forall e :: 0 <= e < |m.slots| ==> Referenced(m, e) && Modified(m, e)
  {
    d := ClockSteps(m.referenced, m.modified, m.pointer);
    var first := Around(m.pointer, 0, |m.slots|);
    assert Class(m.referenced[first], m.modified[first]) <= Class(true, true);
  }

  /** The R bits afterwards: none changes when a frame without either bit was found; those of the
      frames seen before it are cleared when one with only M was, and all otherwise.  The
      pointer stops just after the frame that was replaced, which has neither bit. */
  lemma SweepLaw(m: Memory) returns (d: nat)
    requires Shaped(m)
    ensures d < |m.slots| && Victim(ClockM, m) == Around(m.pointer, d, |m.slots|)
    ensures var v, m' := Victim(ClockM, m), Evict(ClockM, m);
      && m'.pointer == (if v + 1 < |m.slots| then v + 1 else 0) && !m'.referenced[v] && !m'.modified[v]
      && forall e :: 0 <= e < |m.slots| && e != d ==>
           m'.referenced[Around(m.pointer, e, |m.slots|)]
           == (Referenced(m, e) && !Referenced(m, d) && !(Modified(m, d) && e < d))
  {
    d := ClockSteps(m.referenced, m.modified, m.pointer);
    forall e | 0 <= e < |m.slots| ensures Steps(m.pointer, Around(m.pointer, e, |m.slots|), |m.slots|) == e {
      StepsOfAround(m.pointer, e, |m.slots|);
    }
  }

  /** Frame i holds page `id`, and its R bit is set. */
  ghost predicate InUse(m: Memory, i: nat, id: PageId) {
    i < |m.slots| && i < |m.referenced| && Has(m.slots[i], id) && m.referenced[i]
  }

  /** A use of a page that is resident sets the R bit of its frame and changes nothing else. */
  lemma UseOfResident(m: Memory, id: PageId)
    requires Shaped(m) && Resident(m.slots, id)
    ensures var m' := Use(ClockM, m, id);
      && (exists i: nat :: InUse(m', i, id))
      && m' == m.(referenced := m'.referenced) && |m'.referenced| == |m.referenced|
      && (forall i :: 0 <= i < |m.slots| && !Has(m.slots[i], id) ==> m'.referenced[i] == m.referenced[i])
  {
    assert InUse(Use(ClockM, m, id), Find(m.slots, id), id);
  }

  /** A use that ends with the page resident leaves the R bit of its frame set. */
  lemma UseSetsBit(ps: nat, m: Memory, id: PageId)
    requires Consistent(ClockM, ps, m) && Resident(Use(ClockM, m, id).slots, id)
    ensures exists i: nat :: InUse(Use(ClockM, m, id), i, id)
  {
    var w := if Resident(m.slots, id) then m else Load(ClockM, m, id);
    assert InUse(Use(ClockM, m, id), Find(w.slots, id), id);
  }

  /** The frame a page is brought into: the lowest free one, or when none is that of the page
      replaced. */
  function FrameGiven(m: Memory): (v: nat)
    requires Shaped(m)
    ensures v < |m.slots|
    ensures m.slots[v].Free? || forall i :: 0 <= i < |m.slots| ==> m.slots[i].Holds?
  {
    if FirstFree(m.slots) < |m.slots| then FirstFree(m.slots) else Victim(ClockM, m)
  }

  /** It holds the page with Storage's bytes, R set and M clear; the pointer and the other R bits
      are those the replacement leaves, and as they were when a frame was free. */
  lemma UseOfAbsent(ps: nat, m: Memory, id: PageId)
    requires Consistent(ClockM, ps, m) && !Resident(m.slots, id) && id in m.pages
    ensures var v, m' := FrameGiven(m), Use(ClockM, m, id); var w := if m.slots[v].Free? then m else Evict(ClockM, m);
      && InUse(m', v, id) && m'.slots[v] == Holds(id, false) && !m'.modified[v] && m'.frames[v] == m'.pages[id]
      && m'.pointer == w.pointer && m'.referenced == w.referenced[v := true]
  {
    MakeRoomIsConsistent(ClockM, ps, m);
    var (w, v) := MakeRoom(ClockM, m);
    FillIsConsistent(ClockM, ps, w, v, id);
    FindsIt(Fill(ClockM, w, v, id).slots, v);
  }

  /** Slots of the same page, or both free. */
  predicate SamePage(s: Slot, s': Slot) {
    s'.Holds? == s.Holds? && (s.Holds? ==> s'.id == s.id)
  }

  lemma EvictKeepsPage(m: Memory, i: nat)
    requires Shaped(m) && i < |m.slots| && i != Victim(ClockM, m)
    ensures SamePage(m.slots[i], Evict(ClockM, m).slots[i])
  {
    var w := Swapped(ClockM, m);
    assert Evict(ClockM, m).slots[i] == w.slots[i];
  }

  lemma LoadKeepsPage(m: Memory, id: PageId, i: nat)
    requires Shaped(m) && i < |m.slots| && i != FrameGiven(m)
    ensures SamePage(m.slots[i], Load(ClockM, m, id).slots[i])
  {
    if FirstFree(m.slots) == |m.slots| { EvictKeepsPage(m, i); }
    var (w, v) := MakeRoom(ClockM, m);
    assert Load(ClockM, m, id).slots[i] == w.slots[i];
  }

  /** Every other frame keeps its page, whether or not Storage has the one asked for. */
  lemma UseKeepsOthers(m: Memory, id: PageId, i: nat)
    requires Shaped(m) && i < |m.slots| && (Resident(m.slots, id) || i != FrameGiven(m))
    ensures SamePage(m.slots[i], Use(ClockM, m, id).slots[i])
  {
    if Resident(m.slots, id) {
      assert Use(ClockM, m, id).slots == m.slots;
    } else {
      LoadKeepsPage(m, id, i);
      assert Use(ClockM, m, id).slots == Load(ClockM, m, id).slots;
    }
  }

  // ------------------------------------------------------------ the page just used

  /** A frame whose R bit is set is not replaced while another one's is clear. */
  lemma VictimIsUnreferenced(m: Memory, j: nat)
    requires Shaped(m) && j < |m.slots| && !m.referenced[j]
    ensures !m.referenced[Victim(ClockM, m)]
  {
    var d := VictimLaw(m);
    assert Around(m.pointer, Steps(m.pointer, j, |m.slots|), |m.slots|) == j;
    assert !Referenced(m, Steps(m.pointer, j, |m.slots|));
  }

  /** The next load spares the page just used, as long as some frame has a clear R bit. */
  lemma SparedByNextLoad(ps: nat, m: Memory, i: nat, id: PageId, j: nat, other: PageId)
    requires Consistent(ClockM, ps, m) && InUse(m, i, id) && j < |m.slots| && !m.referenced[j]
    ensures var m' := Use(ClockM, m, other); i < |m'.slots| && Has(m'.slots[i], id)
  {
    VictimIsUnreferenced(m, j);
    UseKeepsOthers(m, other, i);
  }

  /** Page `id` is in use, and its frame is not the next one replaced unless every R bit is set. */
  ghost predicate Spared(m: Memory, id: PageId) {
    Shaped(m) && exists i: nat :: InUse(m, i, id) && (Victim(ClockM, m) == i ==> false !in m.referenced)
  }

  lemma InUseIsSpared(m: Memory, i: nat, id: PageId)
    requires Shaped(m) && InUse(m, i, id)
    ensures Spared(m, id)
  {
    if false in m.referenced {
      var j :| 0 <= j < |m.referenced| && !m.referenced[j];
      VictimIsUnreferenced(m, j);
    }
  }

  /** A use of page p that finds it leaves it `done`, as does storing in it. */
  ghost predicate Leaves<S>(g: Pager<S>, inv: S -> bool, done: (S, nat) -> bool, s: S, p: nat) {
    inv(s) ==> inv(g.use(s, p)) && (g.frame(g.use(s, p), p).Data? ==> done(g.use(s, p), p))
  }

  ghost predicate LeavesPut<S>(g: Pager<S>, ps: nat, inv: S -> bool, done: (S, nat) -> bool, s: S, p: nat, off: nat,
                               data: seq<byte>) {
    inv(s) && done(s, p) && off + |data| <= ps ==> inv(g.put(s, p, off, data)) && done(g.put(s, p, off, data), p)
  }

  lemma {:induction false} ReadLeavesLast<S(!new)>(g: Pager<S>, inv: S -> bool, done: (S, nat) -> bool, ps: nat, s: S,
                                                   page: nat, off: nat, len: nat, last: nat)
    requires (forall x, p: nat :: Leaves(g, inv, done, x, p)) && inv(s)
    requires off < ps && len > 0 && page + PagesLeft(ps, off, len) == last + 1
    ensures var (end, res) := ReadFrom(g, ps, s, page, off, len); res.Data? ==> done(end, last)
    decreases len
  {
    var n := Min(ps - off, len);
    assert Leaves(g, inv, done, s, page) && PagesLeft(ps, off, len) == 1 + PagesLeft(ps, 0, len - n);
    if n < len && g.frame(g.use(s, page), page).Data? {
      ReadLeavesLast(g, inv, done, ps, g.use(s, page), page + 1, 0, len - n, last);
    }
  }

  lemma {:induction false} WriteLeavesLast<S(!new)>(g: Pager<S>, inv: S -> bool, done: (S, nat) -> bool, ps: nat, s: S,
                                                    page: nat, off: nat, data: seq<byte>, last: nat)
    requires (forall x, p: nat :: Leaves(g, inv, done, x, p)) && inv(s)
    requires forall x, p: nat, o: nat, d :: LeavesPut(g, ps, inv, done, x, p, o, d)
    requires off < ps && data != [] && page + PagesLeft(ps, off, |data|) == last + 1
    ensures var (end, ok) := WriteFrom(g, ps, s, page, off, data); ok ==> done(end, last)
    decreases |data|
  {
    var n, w := Min(ps - off, |data|), g.use(s, page);
    assert Leaves(g, inv, done, s, page) && PagesLeft(ps, off, |data|) == 1 + PagesLeft(ps, 0, |data| - n);
    assert LeavesPut(g, ps, inv, done, w, page, off, data[..n]);
    if n < |data| && g.frame(w, page).Data? {
      WriteLeavesLast(g, inv, done, ps, g.put(w, page, off, data[..n]), page + 1, 0, data[n..], last);
    }
  }

  lemma MemoryLeaves(ps: nat, key: Key, m: Memory, p: nat)
    requires Consistent(ClockM, ps, m)
    ensures var w := UseFor(ClockM, key, m, p);
      Consistent(ClockM, ps, w) && (FrameFor(key, w, p).Data? ==> Spared(w, PageId(key, p)))
  {
    UseIsConsistent(ClockM, ps, m, PageId(key, p));
    var w := Use(ClockM, m, PageId(key, p));
    if Resident(w.slots, PageId(key, p)) {
      UseSetsBit(ps, m, PageId(key, p));
      var i: nat :| InUse(w, i, PageId(key, p));
      InUseIsSpared(w, i, PageId(key, p));
    }
  }

  lemma MemoryLeavesPut(ps: nat, key: Key, m: Memory, p: nat, off: nat, data: seq<byte>)
    requires Consistent(ClockM, ps, m) && Spared(m, PageId(key, p)) && off + |data| <= ps
    ensures var w := PutFor(ClockM, key, m, p, off, data);
      Consistent(ClockM, ps, w) && Spared(w, PageId(key, p))
  {
    var i: nat :| InUse(m, i, PageId(key, p));
    FindsIt(m.slots, i);
    PutIsConsistent(ClockM, ps, m, i, off, data);
    InUseIsSpared(PutFor(ClockM, key, m, p, off, data), i, PageId(key, p));
  }

  ghost function ConsistentIn(ps: nat): Memory -> bool {
    (m: Memory) => Consistent(ClockM, ps, m)
  }

  ghost function SparedIn(key: Key): (Memory, nat) -> bool {
    (m: Memory, p: nat) => Spared(m, PageId(key, p))
  }

  lemma ClockLeaves(ps: nat, key: Key)
    ensures forall m, p: nat :: Leaves(PagerFor(ClockM, key), ConsistentIn(ps), SparedIn(key), m, p)
    ensures forall m, p: nat, off: nat, data ::
      LeavesPut(PagerFor(ClockM, key), ps, ConsistentIn(ps), SparedIn(key), m, p, off, data)
  {
    var g, inv, done := PagerFor(ClockM, key), ConsistentIn(ps), SparedIn(key);
    forall m, p: nat ensures Leaves(g, inv, done, m, p) {
      if Consistent(ClockM, ps, m) { MemoryLeaves(ps, key, m, p); }
    }
    forall m, p: nat, off: nat, data ensures LeavesPut(g, ps, inv, done, m, p, off, data) {
      if Consistent(ClockM, ps, m) && Spared(m, PageId(key, p)) && off + |data| <= ps {
        MemoryLeavesPut(ps, key, m, p, off, data);
      }
    }
  }

  lemma ReadSparesLast(ps: nat, m: Memory, key: Key, offset: nat, len: nat)
    requires ps > 0 && Consistent(ClockM, ps, m) && len > 0
    ensures var (m', res) := Read(ClockM, ps, m, key, offset, len);
      res.Data? ==> SparedIn(key)(m', (offset + len - 1) / ps)
  {
    PageBoundHolds(ps, offset, len);
    ClockLeaves(ps, key);
    ReadLeavesLast(PagerFor(ClockM, key), ConsistentIn(ps), SparedIn(key), ps, m, offset / ps, offset % ps, len,
        (offset + len - 1) / ps);
  }

  lemma WriteSparesLast(ps: nat, m: Memory, key: Key, offset: nat, data: seq<byte>)
    requires ps > 0 && Consistent(ClockM, ps, m) && data != []
    ensures var (m', ok) := Write(ClockM, ps, m, key, offset, data);
      ok ==> SparedIn(key)(m', (offset + |data| - 1) / ps)
  {
    PageBoundHolds(ps, offset, |data|);
    ClockLeaves(ps, key);
    WriteLeavesLast(PagerFor(ClockM, key), ConsistentIn(ps), SparedIn(key), ps, m, offset / ps, offset % ps, data,
        (offset + |data| - 1) / ps);
  }

  /** After a READ or WRITE that succeeds, the page with its last byte is in a frame, with the R
      bit set, and that frame is not the next one replaced while some other R bit is clear. */
  lemma LastUsedIsSpared(ps: nat, m: Memory, q: Request, last: nat)
    requires ps > 0 && Consistent(ClockM, ps, m)
    requires match q
      case ReadOf(_, offset, len) =>
        len > 0 && last == (offset + len - 1) / ps && Serve(ClockM, ps, m, q).1 != Content(Failed)
      case WriteTo(_, offset, data) =>
        data != [] && last == (offset + |data| - 1) / ps && Serve(ClockM, ps, m, q).1 == Written(true)
      case FlushOf(_) => false
    ensures Spared(Serve(ClockM, ps, m, q).0, PageId(q.key, last))
  {
    match q
    case ReadOf(key, offset, len) => ReadSparesLast(ps, m, key, offset, len);
    case WriteTo(key, offset, data) => WriteSparesLast(ps, m, key, offset, data);
  }
}
