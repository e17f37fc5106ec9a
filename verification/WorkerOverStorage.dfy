/** The worker's memory over the real block store: what the cache takes Storage to be is
    what READ and FLUSH of the block engine do. */
module WorkerOverStorage {
  import opened Bytes
  import opened Cache
  import opened CacheInvariant
  import opened CacheViews
  import opened FlushPackets
  import D = Disk
  import DiskInvariant
  import FlushSteps
  import StorageRuns

  /** The blocks a worker can read, each with the bytes READ answers. */
  ghost function Served(g: D.Geometry, d: D.Disk): map<PageId, Block>
    requires g.blockSize > 0
  {
    map k, i | k in d.tags && 0 <= i < |d.tags[k].blocks| && D.Read(g, d, k, i).ReadOk? ::
        PageId(k, i) := D.Read(g, d, k, i).content
  }

  /** The File:Tags whose FLUSH is refused outright. */
  ghost function Refusing(d: D.Disk): set<Key> {
    set k | k in d.tags && D.Frozen(d, k)
  }

  function PagesOf(packet: seq<(PageId, Block)>): (pages: seq<D.Page>)
    ensures |pages| == |packet| && forall j :: 0 <= j < |pages| ==> pages[j] == D.Page(packet[j].0.number, packet[j].1)
  {
    seq(|packet|, j requires 0 <= j < |packet| => D.Page(packet[j].0.number, packet[j].1))
  }

  /** What the cache holds of Storage is what the block store serves. */
  ghost predicate Linked(g: D.Geometry, d: D.Disk, m: Memory) {
    DiskInvariant.RunInv(g, d) && m.pages == Served(g, d) && m.refuses == Refusing(d)
  }

  lemma ServedIsRead(g: D.Geometry, d: D.Disk, id: PageId)
    requires g.blockSize > 0
    ensures id in Served(g, d) <==>
      id.key in d.tags && id.number < |d.tags[id.key].blocks| && D.Read(g, d, id.key, id.number).ReadOk?
    ensures id in Served(g, d) ==> Served(g, d)[id] == D.Read(g, d, id.key, id.number).content
  {
    assert id == PageId(id.key, id.number);
  }

  lemma ReadIsWholeBlock(g: D.Geometry, d: D.Disk, k: Key, i: nat)
    requires g.blockSize > 0 && D.Read(g, d, k, i).ReadOk?
    ensures |D.Read(g, d, k, i).content| == g.blockSize
  {
  }

  lemma InitialFileHasNoPages(g: D.Geometry, d: D.Disk, i: nat)
    requires DiskInvariant.RunInv(g, d)
    ensures D.Read(g, d, D.INITIAL_KEY, i).ReadError?
  {
  }

  /** A reader of a page gets the viewed bytes, one block long. */
  lemma ServedIsView(g: D.Geometry, d: D.Disk, id: PageId)
    requires DiskInvariant.RunInv(g, d)
    ensures id in Served(g, d) <==> id.key in d.tags && id.key != D.INITIAL_KEY && id.number < |d.tags[id.key].blocks|
    ensures id in Served(g, d) ==>
      Served(g, d)[id] == StorageRuns.ViewOf(g, d, id.key).content[id.number] && |Served(g, d)[id]| == g.blockSize
  {
    ServedIsRead(g, d, id);
    if id.key == D.INITIAL_KEY {
      InitialFileHasNoPages(g, d, id.number);
    } else if id.key in d.tags {
      StorageRuns.ReadMatchesView(g, d, id.key, id.number);
      if id.number < |d.tags[id.key].blocks| { ReadIsWholeBlock(g, d, id.key, id.number); }
    }
  }

  lemma {:induction false} DeliverIsLastPage(pages: map<PageId, Block>, packet: seq<(PageId, Block)>, id: PageId)
    requires id in pages && forall j :: 0 <= j < |packet| ==> packet[j].0.key == id.key
    ensures Deliver(pages, packet)[id] == FlushSteps.LastPage(PagesOf(packet), id.number, pages[id])
  {
    if packet != [] {
      var before := packet[..|packet| - 1];
      DeliverIsLastPage(pages, before, id);
      assert PagesOf(before) == PagesOf(packet)[..|packet| - 1];
    }
  }

  lemma {:induction false} DeliverKeepsOthers(pages: map<PageId, Block>, packet: seq<(PageId, Block)>, id: PageId)
    requires id in pages && forall j :: 0 <= j < |packet| ==> packet[j].0.key != id.key
    ensures Deliver(pages, packet)[id] == pages[id]
  {
    if packet != [] { DeliverKeepsOthers(pages, packet[..|packet| - 1], id); }
  }

  /** A packet the block store accepts: pages of one writable File:Tag that exist, whole, and
      no more of them than there are free blocks. */
  ghost predicate Fits(g: D.Geometry, d: D.Disk, key: Key, packet: seq<(PageId, Block)>)
    requires g.blockSize > 0
  {
    && key in d.tags && !D.Frozen(d, key) && |packet| <= |FlushSteps.FreeBlocks(d.bits)|
    && forall j :: 0 <= j < |packet| ==>
         packet[j].0.key == key && packet[j].0 in Served(g, d) && |packet[j].1| == g.blockSize
  }

  lemma FitsFlushes(g: D.Geometry, d: D.Disk, key: Key, packet: seq<(PageId, Block)>)
    requires DiskInvariant.RunInv(g, d) && Fits(g, d, key, packet)
    ensures FlushSteps.WholeBlocks(g, PagesOf(packet)) && D.Flush(g, d, key, PagesOf(packet)).ok
    ensures FlushSteps.Flushable(g, d, key, PagesOf(packet))
    ensures DiskInvariant.RunInv(g, D.Flush(g, d, key, PagesOf(packet)).disk)
  {
    var pages := PagesOf(packet);
    forall p | p in pages ensures |p.data| == g.blockSize && D.InRange(g, d.tags[key], p.number) {
      var j :| 0 <= j < |pages| && pages[j] == p;
      assert packet[j].0 == PageId(key, packet[j].0.number);
    }
    FlushSteps.FlushSucceedsIff(g, d, key, pages);
    FlushSteps.FlushKeepsRunInvIff(g, d, key, pages);
  }

  lemma SamePages(a: map<PageId, Block>, b: map<PageId, Block>)
    requires forall id :: id in a <==> id in b
    requires forall id :: id in a ==> b[id] == a[id]
    ensures a == b
  {
  }

  lemma FlushKeepsRefusals(g: D.Geometry, d: D.Disk, key: Key, pages: seq<D.Page>)
    requires g.blockSize > 0 && |d.bits| > 0
    ensures Refusing(D.Flush(g, d, key, pages).disk) == Refusing(d)
  {
    var d' := D.Flush(g, d, key, pages).disk;
    assert forall k :: k in d'.tags <==> k in d.tags;
    assert forall k :: k in d.tags ==> d'.tags[k].committed == d.tags[k].committed;
  }

  /** FLUSH of the block store does to what is served what the cache takes it to do. */
  lemma FlushDelivers(g: D.Geometry, d: D.Disk, key: Key, packet: seq<(PageId, Block)>)
    requires DiskInvariant.RunInv(g, d) && Fits(g, d, key, packet)
    ensures var d' := D.Flush(g, d, key, PagesOf(packet)).disk;
      DiskInvariant.RunInv(g, d') && Served(g, d') == Deliver(Served(g, d), packet) && Refusing(d') == Refusing(d)
  {
    FitsFlushes(g, d, key, packet);
    FlushKeepsRefusals(g, d, key, PagesOf(packet));
    var before, after := Served(g, d), Served(g, D.Flush(g, d, key, PagesOf(packet)).disk);
    forall id | id in before ensures id in after && after[id] == Deliver(before, packet)[id] {
      PageAfterFlush(g, d, key, packet, id);
    }
    forall id | id in after ensures id in before {
      NoNewPages(g, d, key, packet, id);
    }
    SamePages(Deliver(before, packet), after);
  }

  lemma NoNewPages(g: D.Geometry, d: D.Disk, key: Key, packet: seq<(PageId, Block)>, id: PageId)
    requires DiskInvariant.RunInv(g, d) && Fits(g, d, key, packet)
    requires id in Served(g, D.Flush(g, d, key, PagesOf(packet)).disk)
    ensures id in Served(g, d)
  {
    FitsFlushes(g, d, key, packet);
    ServedIsView(g, d, id);
    ServedIsView(g, D.Flush(g, d, key, PagesOf(packet)).disk, id);
  }

  lemma PageAfterFlush(g: D.Geometry, d: D.Disk, key: Key, packet: seq<(PageId, Block)>, id: PageId)
    requires DiskInvariant.RunInv(g, d) && Fits(g, d, key, packet) && id in Served(g, d)
    ensures var d' := D.Flush(g, d, key, PagesOf(packet)).disk;
      DiskInvariant.RunInv(g, d') && id in Served(g, d') && Served(g, d')[id] == Deliver(Served(g, d), packet)[id]
  {
    FitsFlushes(g, d, key, packet);
    var pages := PagesOf(packet);
    var d' := D.Flush(g, d, key, pages).disk;
    ServedIsView(g, d, id);
    ServedIsView(g, d', id);
    if id.key == key {
      StorageRuns.FlushThenRead(g, d, key, pages, id.number);
      DeliverIsLastPage(Served(g, d), packet, id);
    } else {
      StorageRuns.StepKeepsOtherViews(g, d, StorageRuns.FlushOp(key, pages), id.key);
      DeliverKeepsOthers(Served(g, d), packet, id);
    }
  }

  // ------------------------------------------------------------------- write-back

  /** The write-back of the cache is a FLUSH of the block store: sent any packet that lists the
      dirty pages of `key`, Storage ends up serving what the cache believes it serves. */
  lemma WriteBackIsFlush(r: Replacement, g: D.Geometry, d: D.Disk, m: Memory, key: Key, packet: seq<(PageId, Block)>)
    requires Linked(g, d, m) && Consistent(r, g.blockSize, m) && Coherent(m) && key in d.tags
    requires ListsDirty(m, key, packet)
    requires D.Frozen(d, key) || |packet| <= |FlushSteps.FreeBlocks(d.bits)|
    ensures Linked(g, D.Flush(g, d, key, PagesOf(packet)).disk, WriteBack(r, m, key))
  {
    if !D.Frozen(d, key) {
      DirtyPagesFit(r, g, d, m, key, packet);
      FlushDelivers(g, d, key, packet);
      PacketDelivers(m, key, packet);
    }
  }

  lemma DirtyPagesFit(r: Replacement, g: D.Geometry, d: D.Disk, m: Memory, key: Key, packet: seq<(PageId, Block)>)
    requires Linked(g, d, m) && Consistent(r, g.blockSize, m) && Coherent(m) && key in d.tags
    requires ListsDirty(m, key, packet)
    requires !D.Frozen(d, key) && |packet| <= |FlushSteps.FreeBlocks(d.bits)|
    ensures Fits(g, d, key, packet)
  {
    forall j | 0 <= j < |packet| ensures packet[j].0 in Served(g, d) && |packet[j].1| == g.blockSize {
      var i := Find(m.slots, packet[j].0);
      assert m.slots[i].id in m.pages;
    }
  }
}
