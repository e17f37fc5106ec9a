/** What every operation of the internal memory keeps, also when a load fails after it
    has evicted a page: no page sits in two frames, the LRU list names exactly the
    resident pages, and the clock's M bits equal the entries' dirty flags. */
module CacheInvariant {
  import opened Bytes
  import opened Cache

  ghost predicate NoPageTwice(slots: seq<Slot>) {
    forall i, j :: 0 <= i < j < |slots| && slots[i].Holds? && slots[j].Holds? ==> slots[i].id != slots[j].id
  }

  ghost predicate NoRepeats(list: seq<PageId>) {
    forall i, j :: 0 <= i < j < |list| ==> list[i] != list[j]
  }

  /** The LRU list holds each resident page once. */
  ghost predicate Listed(slots: seq<Slot>, lru: seq<PageId>) {
    NoRepeats(lru) && forall id :: id in lru <==> Resident(slots, id)
  }

  /** An M bit is set exactly on the frames whose page is dirty. */
  ghost predicate BitsAgree(slots: seq<Slot>, modified: seq<bool>) {
    |modified| == |slots| && forall i :: 0 <= i < |slots| ==> modified[i] == Dirty(slots[i])
  }

  ghost predicate BlockSized(ps: nat, m: Memory) {
    && (forall id :: id in m.pages ==> |m.pages[id]| == ps)
    && (forall i :: 0 <= i < |m.frames| ==> |m.frames[i]| == ps)
  }

  ghost predicate Consistent(r: Replacement, ps: nat, m: Memory) {
    && Shaped(m) && BlockSized(ps, m) && NoPageTwice(m.slots)
    && (r.Lru? ==> Listed(m.slots, m.lru))
    && (r.ClockM? ==> BitsAgree(m.slots, m.modified))
  }

  lemma FindsIt(slots: seq<Slot>, i: nat)
    requires NoPageTwice(slots) && i < |slots| && slots[i].Holds?
    ensures Find(slots, slots[i].id) == i
  {
    var j := Find(slots, slots[i].id);
    assert j <= i;
  }

  lemma VictimIsFrame(r: Replacement, ps: nat, m: Memory)
    requires Consistent(r, ps, m)
    ensures FirstFree(m.slots) == |m.slots| ==> m.slots[Victim(r, m)].Holds?
    ensures r.Lru? && FirstFree(m.slots) == |m.slots| ==> m.lru != [] && m.slots[Victim(r, m)].id == m.lru[0]
  {
    if r.Lru? {
      if m.slots[0].Holds? {
        FindsIt(m.slots, 0);
        assert Resident(m.slots, m.slots[0].id);
      }
      assert m.lru != [] ==> m.lru[0] in m.lru;
    }
  }

  /** Two frame tables that hold the same pages. */
  ghost predicate SamePages(slots: seq<Slot>, slots': seq<Slot>) {
    && |slots'| == |slots|
    && forall i :: 0 <= i < |slots| ==>
         slots'[i].Holds? == slots[i].Holds? && (slots[i].Holds? ==> slots'[i].id == slots[i].id)
  }

  lemma {:induction false} SamePagesFind(slots: seq<Slot>, slots': seq<Slot>, id: PageId)
    requires SamePages(slots, slots')
    ensures Find(slots', id) == Find(slots, id)
  {
    if slots != [] && !Has(slots[0], id) {
      SamePagesFind(slots[1..], slots'[1..], id);
    }
  }

  lemma SamePagesListed(slots: seq<Slot>, slots': seq<Slot>, lru: seq<PageId>)
    requires SamePages(slots, slots') && Listed(slots, lru)
    ensures Listed(slots', lru)
  {
    forall id ensures Resident(slots', id) == Resident(slots, id) { SamePagesFind(slots, slots', id); }
  }

  /** Residence after frame v's slot was replaced. */
  lemma ResidentAfter(slots: seq<Slot>, v: nat, s: Slot, id: PageId)
    requires NoPageTwice(slots) && v < |slots|
    ensures Resident(slots[v := s], id) <==> Has(s, id) || (Resident(slots, id) && !Has(slots[v], id))
  {
    var i, j := Find(slots, id), Find(slots[v := s], id);
    if i < |slots| && i != v { assert Has(slots[v := s][i], id); }
    if j < |slots| && j != v { assert Has(slots[j], id); FindsIt(slots, j); }
    if Has(s, id) { assert Has(slots[v := s][v], id); }
  }

  lemma WriteBackIsConsistent(r: Replacement, ps: nat, m: Memory, key: Key)
    requires Consistent(r, ps, m)
    ensures Consistent(r, ps, WriteBack(r, m, key)) && SamePages(m.slots, WriteBack(r, m, key).slots)
  {
    if r.Lru? { SamePagesListed(m.slots, WriteBack(r, m, key).slots, m.lru); }
  }

  lemma ReleasedIsListed(slots: seq<Slot>, lru: seq<PageId>)
    requires NoPageTwice(slots) && Listed(slots, lru) && lru != [] && Resident(slots, lru[0])
    ensures Listed(slots[Find(slots, lru[0]) := Free], lru[1..])
  {
    var v := Find(slots, lru[0]);
    forall id ensures id in lru[1..] <==> Resident(slots[v := Free], id) {
      ResidentAfter(slots, v, Free, id);
      if id in lru && id != lru[0] {
        var i :| 0 <= i < |lru| && lru[i] == id;
        assert lru[1..][i - 1] == id;
      }
    }
  }

  lemma ReleaseIsConsistent(r: Replacement, ps: nat, m: Memory, v: nat, m': Memory)
    requires Consistent(r, ps, m) && v < |m.slots| && m'.slots == m.slots[v := Free]
    requires m'.frames == m.frames && m'.pages == m.pages && Shaped(m')
    requires if r.Lru? then Listed(m'.slots, m'.lru) else m'.modified == m.modified[v := false]
    ensures Consistent(r, ps, m')
  {
  }

  lemma EvictIsConsistent(r: Replacement, ps: nat, m: Memory)
    requires Consistent(r, ps, m) && FirstFree(m.slots) == |m.slots|
    ensures Consistent(r, ps, Evict(r, m)) && Evict(r, m).slots[Victim(r, m)].Free?
  {
    VictimIsFrame(r, ps, m);
    var v, w := Victim(r, m), Swapped(r, m);
    if Dirty(m.slots[v]) { WriteBackIsConsistent(r, ps, m, m.slots[v].id.key); }
    if r.Lru? {
      FindsIt(w.slots, v);
      ReleasedIsListed(w.slots, w.lru);
    }
    ReleaseIsConsistent(r, ps, w, v, Evict(r, m));
  }

  lemma FilledIsListed(slots: seq<Slot>, lru: seq<PageId>, v: nat, id: PageId)
    requires NoPageTwice(slots) && Listed(slots, lru) && v < |slots| && slots[v].Free? && !Resident(slots, id)
    ensures Listed(slots[v := Holds(id, false)], lru + [id]) && NoPageTwice(slots[v := Holds(id, false)])
  {
    forall x ensures x in lru + [id] <==> Resident(slots[v := Holds(id, false)], x) {
      ResidentAfter(slots, v, Holds(id, false), x);
    }
    assert id !in lru;
    FilledHasNoPageTwice(slots, v, id);
  }

  lemma FilledHasNoPageTwice(slots: seq<Slot>, v: nat, id: PageId)
    requires NoPageTwice(slots) && v < |slots| && !Resident(slots, id)
    ensures NoPageTwice(slots[v := Holds(id, false)])
  {
    forall i | 0 <= i < |slots| ensures !Has(slots[i], id) {}
  }

  lemma FillIsConsistent(r: Replacement, ps: nat, m: Memory, v: nat, id: PageId)
    requires Consistent(r, ps, m) && v < |m.slots| && m.slots[v].Free? && !Resident(m.slots, id) && id in m.pages
    ensures Consistent(r, ps, Fill(r, m, v, id)) && Resident(Fill(r, m, v, id).slots, id)
  {
    FilledHasNoPageTwice(m.slots, v, id);
    if r.Lru? { FilledIsListed(m.slots, m.lru, v, id); }
    FindsIt(Fill(r, m, v, id).slots, v);
  }

  /** Making room never brings a page in. */
  lemma MakeRoomIsConsistent(r: Replacement, ps: nat, m: Memory)
    requires Consistent(r, ps, m)
    ensures var (w, v) := MakeRoom(r, m);
      Consistent(r, ps, w) && w.slots[v].Free? && forall id :: Resident(w.slots, id) ==> Resident(m.slots, id)
  {
    VictimIsFrame(r, ps, m);
    if FirstFree(m.slots) == |m.slots| {
      EvictIsConsistent(r, ps, m);
      var w, v := Evict(r, m), Victim(r, m);
      forall id | Resident(w.slots, id) ensures Resident(m.slots, id) {
        var i := Find(w.slots, id);
        assert Has(m.slots[i], id);
        FindsIt(m.slots, i);
      }
    }
  }

  /** A load that fails keeps the memory consistent too, with one more free frame. */
  lemma LoadIsConsistent(r: Replacement, ps: nat, m: Memory, id: PageId)
    requires Consistent(r, ps, m) && !Resident(m.slots, id)
    ensures Consistent(r, ps, Load(r, m, id))
    ensures Resident(Load(r, m, id).slots, id) <==> id in m.pages
    ensures id !in m.pages ==> FirstFree(Load(r, m, id).slots) < |m.slots|
  {
    MakeRoomIsConsistent(r, ps, m);
    var (w, v) := MakeRoom(r, m);
    if id in w.pages { FillIsConsistent(r, ps, w, v, id); }
  }

  lemma {:induction false} WithoutRepeats(list: seq<PageId>, id: PageId)
    requires NoRepeats(list)
    ensures NoRepeats(Without(list, id))
  {
    if list != [] {
      WithoutRepeats(list[1..], id);
      var rest := Without(list[1..], id);
      forall i | 0 <= i < |rest| ensures rest[i] != list[0] {
        assert rest[i] in rest;
      }
      assert Without(list, id) == if list[0] == id then rest else [list[0]] + rest;
    }
  }

  lemma AppendNew(list: seq<PageId>, id: PageId)
    requires NoRepeats(list) && id !in list
    ensures NoRepeats(list + [id])
  {
  }

  lemma {:induction false} WithoutAbsent(a: seq<PageId>, id: PageId)
    requires id !in a
    ensures Without(a, id) == a
  {
    if a != [] { WithoutAbsent(a[1..], id); }
  }

  lemma ConsWithout(list: seq<PageId>, i: nat)
    requires 0 < i < |list|
    ensures [list[0]] + (list[1..][..i - 1] + list[1..][i..]) == list[..i] + list[i + 1..]
  {
  }

  lemma {:induction false} WithoutAt(list: seq<PageId>, i: nat)
    requires NoRepeats(list) && i < |list|
    ensures Without(list, list[i]) == list[..i] + list[i + 1..]
  {
    if i == 0 {
      WithoutAbsent(list[1..], list[0]);
    } else {
      WithoutAt(list[1..], i - 1);
      ConsWithout(list, i);
    }
  }

  lemma TouchIsConsistent(r: Replacement, ps: nat, m: Memory, i: nat)
    requires Consistent(r, ps, m) && i < |m.slots| && m.slots[i].Holds?
    ensures Consistent(r, ps, Touch(r, m, i))
  {
    if r.Lru? {
      WithoutRepeats(m.lru, m.slots[i].id);
      AppendNew(Without(m.lru, m.slots[i].id), m.slots[i].id);
      FindsIt(m.slots, i);
    }
  }

  lemma UseIsConsistent(r: Replacement, ps: nat, m: Memory, id: PageId)
    requires Consistent(r, ps, m)
    ensures Consistent(r, ps, Use(r, m, id))
    ensures Resident(Use(r, m, id).slots, id) <==> Resident(m.slots, id) || id in m.pages
  {
    VictimIsFrame(r, ps, m);
    var w := if Resident(m.slots, id) then m else Load(r, m, id);
    if !Resident(m.slots, id) { LoadIsConsistent(r, ps, m, id); }
    if Resident(w.slots, id) { TouchIsConsistent(r, ps, w, Find(w.slots, id)); }
  }

  lemma PutIsConsistent(r: Replacement, ps: nat, m: Memory, i: nat, at: nat, data: seq<byte>)
    requires Consistent(r, ps, m) && i < |m.slots| && m.slots[i].Holds? && at + |data| <= ps
    ensures Consistent(r, ps, Put(r, m, i, at, data)) && SamePages(m.slots, Put(r, m, i, at, data).slots)
  {
    if r.Lru? { SamePagesListed(m.slots, Put(r, m, i, at, data).slots, m.lru); }
  }

  lemma FreshIsConsistent(r: Replacement, n: nat, ps: nat, pages: map<PageId, Block>, refuses: set<Key>)
    requires n > 0 && forall id :: id in pages ==> |pages[id]| == ps
    ensures Consistent(r, ps, Fresh(n, ps, pages, refuses))
  {
  }
}
