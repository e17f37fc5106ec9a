/** The packet of a flush: which pages it lists, in any order, and that Storage, given them, holds
    what the write-back of the cache says. */
module FlushPackets {
  import opened Bytes
  import opened Cache
  import opened CacheInvariant

  /** The packet lists the dirty pages of `key`, each with the bytes of its frame. */
  ghost predicate ListsDirty(m: Memory, key: Key, packet: seq<(PageId, Block)>)
    requires |m.frames| == |m.slots|
  {
    && (forall j :: 0 <= j < |packet| ==> packet[j].0.key == key && DirtyIn(m, packet[j].0))
    && (forall j :: 0 <= j < |packet| ==> packet[j].1 == m.frames[Find(m.slots, packet[j].0)])
    && (forall id: PageId :: id.key == key && DirtyIn(m, id) ==> Sends(packet, id))
  }

  predicate DirtyIn(m: Memory, id: PageId) {
    Resident(m.slots, id) && Dirty(m.slots[Find(m.slots, id)])
  }

  ghost predicate Sends(packet: seq<(PageId, Block)>, id: PageId) {
    exists j :: 0 <= j < |packet| && packet[j].0 == id
  }

  lemma {:induction false} DeliverOfDirty(m: Memory, packet: seq<(PageId, Block)>, id: PageId)
    requires |m.frames| == |m.slots| && id in m.pages
    requires forall j :: 0 <= j < |packet| ==>
        Resident(m.slots, packet[j].0) && packet[j].1 == m.frames[Find(m.slots, packet[j].0)]
    ensures Deliver(m.pages, packet)[id] ==
      if Sends(packet, id) && Resident(m.slots, id) then m.frames[Find(m.slots, id)] else m.pages[id]
  {
    if packet != [] {
      var before := packet[..|packet| - 1];
      DeliverOfDirty(m, before, id);
      assert Sends(packet, id) <==> Sends(before, id) || packet[|packet| - 1].0 == id by {
        if Sends(before, id) {
          var j :| 0 <= j < |before| && before[j].0 == id;
          assert packet[j].0 == id;
        }
        if packet[|packet| - 1].0 == id { assert Sends(packet, id); }
        if Sends(packet, id) && packet[|packet| - 1].0 != id {
          var j :| 0 <= j < |packet| && packet[j].0 == id;
          assert before[j].0 == id;
        }
      }
    }
  }

  /** Any packet that lists the dirty pages delivers what the write-back delivers. */
  lemma PacketDelivers(m: Memory, key: Key, packet: seq<(PageId, Block)>)
    requires |m.frames| == |m.slots| && ListsDirty(m, key, packet)
    ensures Deliver(m.pages, packet) == Delivered(m, key)
  {
    forall id | id in m.pages ensures Deliver(m.pages, packet)[id] == Delivered(m, key)[id] {
      DeliverOfDirty(m, packet, id);
      if Resident(m.slots, id) { SendsIffDirty(m, key, packet, id); }
    }
  }

  lemma SendsIffDirty(m: Memory, key: Key, packet: seq<(PageId, Block)>, id: PageId)
    requires |m.frames| == |m.slots| && ListsDirty(m, key, packet) && Resident(m.slots, id)
    ensures Sends(packet, id) <==> DirtyOf(m.slots[Find(m.slots, id)], key)
  {
    if Sends(packet, id) {
      var j :| 0 <= j < |packet| && packet[j].0 == id;
    }
  }

  // -------------------------------------------------------- how long a packet is

  function Residents(slots: seq<Slot>): set<PageId> {
    set i | 0 <= i < |slots| && slots[i].Holds? :: slots[i].id
  }

  lemma {:induction false} ResidentsFit(slots: seq<Slot>)
    ensures |Residents(slots)| <= |slots|
  {
    if slots != [] {
      var n := |slots| - 1;
      ResidentsFit(slots[..n]);
      var more: set<PageId> := if slots[n].Holds? then {slots[n].id} else {};
      assert Residents(slots) == Residents(slots[..n]) + more;
    }
  }

  lemma SubsetIsSmaller<T>(a: set<T>, b: set<T>)
    requires a <= b
    ensures |a| <= |b| && (a != b ==> |a| < |b|)
  {
    assert b == a + (b - a);
    if a != b { var y :| y in b - a; }
  }

  /** No page is listed twice. */
  ghost predicate EachOnce(packet: seq<(PageId, Block)>) {
    forall i, j :: 0 <= i < j < |packet| ==> packet[i].0 != packet[j].0
  }

  function IdsOf(packet: seq<(PageId, Block)>): set<PageId> {
    set j | 0 <= j < |packet| :: packet[j].0
  }

  lemma {:induction false} IdsCount(packet: seq<(PageId, Block)>)
    requires EachOnce(packet)
    ensures |IdsOf(packet)| == |packet|
  {
    if packet != [] {
      var n := |packet| - 1;
      IdsCount(packet[..n]);
      assert IdsOf(packet) == IdsOf(packet[..n]) + {packet[n].0};
    }
  }

  /** A packet has no more pages than the memory has frames. */
  lemma PacketFits(m: Memory, key: Key, packet: seq<(PageId, Block)>)
    requires |m.frames| == |m.slots| && ListsDirty(m, key, packet) && EachOnce(packet)
    ensures |packet| <= |m.slots|
  {
    forall id | id in IdsOf(packet) ensures id in Residents(m.slots) { assert Has(m.slots[Find(m.slots, id)], id); }
    SubsetIsSmaller(IdsOf(packet), Residents(m.slots));
    ResidentsFit(m.slots);
    IdsCount(packet);
  }

  // --------------------------------------------------------- packets page by page

  /** The packet lists, once each, the dirty pages of `key` in the frames `done`. */
  ghost predicate ListsDone(m: Memory, key: Key, done: set<nat>, packet: seq<(PageId, Block)>)
    requires |m.frames| == |m.slots|
  {
    && EachOnce(packet)
    && (forall j :: 0 <= j < |packet| ==>
        packet[j].0.key == key && DirtyIn(m, packet[j].0) && Find(m.slots, packet[j].0) in done)
    && (forall j :: 0 <= j < |packet| ==> packet[j].1 == m.frames[Find(m.slots, packet[j].0)])
    && (forall f: nat :: f in done && f < |m.slots| && DirtyOf(m.slots[f], key) ==> Sends(packet, m.slots[f].id))
  }

  /** The dirty page of one more frame joins the packet. */
  lemma OneMoreListed(m: Memory, key: Key, done: set<nat>, packet: seq<(PageId, Block)>, f: nat)
    requires |m.frames| == |m.slots| && NoPageTwice(m.slots) && f < |m.slots| && f !in done
    requires DirtyOf(m.slots[f], key) && ListsDone(m, key, done, packet)
    ensures ListsDone(m, key, done + {f}, packet + [(m.slots[f].id, m.frames[f])])
  {
    FindsIt(m.slots, f);
    var more := packet + [(m.slots[f].id, m.frames[f])];
    assert more[|packet|].0 == m.slots[f].id;
    forall x: nat | x in done && x < |m.slots| && DirtyOf(m.slots[x], key) ensures Sends(more, m.slots[x].id) {
      var j :| 0 <= j < |packet| && packet[j].0 == m.slots[x].id;
      assert more[j].0 == m.slots[x].id;
    }
  }

  /** A frame that has no dirty page of `key`, or is done, adds nothing. */
  lemma NothingMoreListed(m: Memory, key: Key, done: set<nat>, packet: seq<(PageId, Block)>, f: nat)
    requires |m.frames| == |m.slots| && f < |m.slots| && (f in done || !DirtyOf(m.slots[f], key))
    requires ListsDone(m, key, done, packet)
    ensures ListsDone(m, key, done + {f}, packet)
  {
    assert f in done ==> done + {f} == done;
  }

  /** With every dirty page done the packet lists them all. */
  lemma DoneLists(m: Memory, key: Key, done: set<nat>, packet: seq<(PageId, Block)>)
    requires |m.frames| == |m.slots| && ListsDone(m, key, done, packet)
    requires forall f: nat :: f < |m.slots| && DirtyOf(m.slots[f], key) ==> f in done
    ensures ListsDirty(m, key, packet) && EachOnce(packet)
  {
    forall id: PageId | id.key == key && DirtyIn(m, id) ensures Sends(packet, id) {
      assert DirtyOf(m.slots[Find(m.slots, id)], key);
    }
  }

  function FramesTo(n: nat): (s: set<nat>)
    ensures forall f: nat :: f in s <==> f < n
  {
    if n == 0 then {} else FramesTo(n - 1) + {n - 1}
  }

  /** The dirty pages of `key` in the first i frames, in the order of the frames. */
  function DirtyPacket(m: Memory, key: Key, i: nat): (packet: seq<(PageId, Block)>)
    requires |m.frames| == |m.slots| && i <= |m.slots|
  {
    if i == 0 then [] else
    DirtyPacket(m, key, i - 1) + if DirtyOf(m.slots[i - 1], key) then [(m.slots[i - 1].id, m.frames[i - 1])] else []
  }

  lemma {:induction false} DirtyPacketLists(m: Memory, key: Key, i: nat)
    requires |m.frames| == |m.slots| && NoPageTwice(m.slots) && i <= |m.slots|
    ensures ListsDone(m, key, FramesTo(i), DirtyPacket(m, key, i))
  {
    if i > 0 {
      var before, done := DirtyPacket(m, key, i - 1), FramesTo(i - 1);
      DirtyPacketLists(m, key, i - 1);
      assert done + {i - 1} == FramesTo(i);
      if DirtyOf(m.slots[i - 1], key) {
        OneMoreListed(m, key, done, before, i - 1);
      } else {
        NothingMoreListed(m, key, done, before, i - 1);
        assert before + [] == before;
      }
    }
  }
}
