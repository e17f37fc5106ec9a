/** A worker and the block store it talks to: pages come in by READ of the store, dirty pages go
    out by FLUSH to it.  Over whole runs every FLUSH the worker sends is accepted, and together
    the two are plain files. */
module WorkerRuns {
  import opened Bytes
  import opened FlatFile
  import opened Paging
  import opened Cache
  import opened CacheInvariant
  import opened CacheViews
  import opened CacheFiles
  import opened FlushPackets
  import opened WorkerOverStorage
  import D = Disk
  import DiskInvariant
  import FlushSteps
  import StorageRuns

  // ------------------------------------------------------- the worker and its store

  /** The memory, the store behind it, the FLUSHes the worker has sent, and whether the store
      has accepted them all.  `memory.pages` and `memory.refuses` are what the store answered
      when it was last asked. */
  datatype Worker = Worker(memory: Memory, disk: D.Disk, sent: seq<StorageRuns.Op>, accepted: bool)

  /** The packet a flush sends: the dirty pages of a File:Tag in the order of its page table,
      which is any order, and may be another one at each flush. */
  type Packer = (Worker, Key) -> seq<(PageId, Block)>

  ghost predicate Packs(pack: Packer) {
    forall w: Worker, key {:trigger pack(w, key)} ::
      |w.memory.frames| == |w.memory.slots| && NoPageTwice(w.memory.slots) ==>
      ListsDirty(w.memory, key, pack(w, key)) && EachOnce(pack(w, key))
  }

  function FrameOrder(w: Worker, key: Key): seq<(PageId, Block)> {
    if |w.memory.frames| == |w.memory.slots| then DirtyPacket(w.memory, key, |w.memory.slots|) else []
  }

  /** For one, the order of the frames. */
  lemma FrameOrderPacks()
    ensures Packs(FrameOrder)
  {
    forall w: Worker, key | |w.memory.frames| == |w.memory.slots| && NoPageTwice(w.memory.slots)
      ensures ListsDirty(w.memory, key, FrameOrder(w, key)) && EachOnce(FrameOrder(w, key))
    {
      DirtyPacketLists(w.memory, key, |w.memory.slots|);
      DoneLists(w.memory, key, FramesTo(|w.memory.slots|), FrameOrder(w, key));
    }
  }

  /** flush_paginas_modificadas as the store sees it: one FLUSH of the dirty pages of `key`. */
  function Send(g: D.Geometry, pack: Packer, w: Worker, key: Key): Worker
    requires g.blockSize > 0 && |w.disk.bits| > 0
  {
    var pages := PagesOf(pack(w, key));
    var o := D.Flush(g, w.disk, key, pages);
    Worker(w.memory, o.disk, w.sent + [StorageRuns.FlushOp(key, pages)], w.accepted && o.ok)
  }

  /** The memory with `d` behind it: a page is what READ of `d` answers, a refusal what FLUSH does. */
  ghost function InFrontOf(g: D.Geometry, d: D.Disk, m: Memory): Memory
    requires g.blockSize > 0
  {
    m.(pages := Served(g, d), refuses := Refusing(d))
  }

  predicate EvictsDirty(r: Replacement, m: Memory)
    requires Shaped(m)
  {
    FirstFree(m.slots) == |m.slots| && Dirty(m.slots[Victim(r, m)])
  }

  /** Room for one page, after the FLUSH that a modified victim costs. */
  ghost function Emptied(r: Replacement, g: D.Geometry, pack: Packer, w: Worker): Worker
    requires g.blockSize > 0 && |w.disk.bits| > 0 && Shaped(w.memory)
  {
    var s := if EvictsDirty(r, w.memory) then Send(g, pack, w, w.memory.slots[Victim(r, w.memory)].id.key) else w;
    s.(memory := InFrontOf(g, s.disk, MakeRoom(r, w.memory).0))
  }

  /** cargar_pagina: makes room, then asks the store for the block. */
  ghost function LoadOn(r: Replacement, g: D.Geometry, pack: Packer, w: Worker, id: PageId): (w': Worker)
    requires g.blockSize > 0 && |w.disk.bits| > 0 && Shaped(w.memory)
    ensures Shaped(w'.memory)
  {
    var s, v := Emptied(r, g, pack, w), MakeRoom(r, w.memory).1;
    if id in s.memory.pages then s.(memory := Fill(r, s.memory, v, id)) else s
  }

  /** One page of an access. */
  ghost function UseOn(r: Replacement, g: D.Geometry, pack: Packer, w: Worker, id: PageId): Worker
    requires g.blockSize > 0 && |w.disk.bits| > 0 && Shaped(w.memory)
  {
    var s := if Resident(w.memory.slots, id) then w else LoadOn(r, g, pack, w, id);
    if Resident(s.memory.slots, id) then s.(memory := Touch(r, s.memory, Find(s.memory.slots, id))) else s
  }

  /** The worker as the page loop uses it for one File:Tag. */
  ghost function WorkerPager(r: Replacement, g: D.Geometry, pack: Packer, key: Key): Pager<Worker>
    requires g.blockSize > 0
  {
    Pager((w: Worker, p: nat) =>
            if |w.disk.bits| > 0 && Shaped(w.memory) then UseOn(r, g, pack, w, PageId(key, p)) else w,
          (w: Worker, p: nat) => FrameFor(key, w.memory, p),
          (w: Worker, p: nat, off: nat, data: seq<byte>) => w.(memory := PutFor(r, key, w.memory, p, off, data)))
  }

  /** An explicit FLUSH: the pages are clean afterwards, whatever the store answers. */
  ghost function FlushOn(r: Replacement, g: D.Geometry, pack: Packer, w: Worker, key: Key): Worker
    requires g.blockSize > 0
  {
    if |w.disk.bits| > 0 && Shaped(w.memory) then
      var s := Send(g, pack, w, key);
      s.(memory := InFrontOf(g, s.disk, WriteBack(r, w.memory, key)))
    else w
  }

  /** The worker answers a request. */
  ghost function ServeOn(r: Replacement, g: D.Geometry, pack: Packer, w: Worker, q: Request): (Worker, Reply)
    requires g.blockSize > 0
  {
    var ps, pager := g.blockSize, WorkerPager(r, g, pack, q.key);
    match q
    case ReadOf(_, offset, len) =>
      if len == 0 then (w, Content(Failed)) else
      var (w', f) := ReadFrom(pager, ps, w, offset / ps, offset % ps, len); (w', Content(f))
    case WriteTo(_, offset, data) =>
      if data == [] then (w, Written(false)) else
      var (w', ok) := WriteFrom(pager, ps, w, offset / ps, offset % ps, data); (w', Written(ok))
    case FlushOf(key) => (FlushOn(r, g, pack, w, key), Flushed)
  }

  /** A whole run, and its replies. */
  ghost function RunOn(r: Replacement, g: D.Geometry, pack: Packer, w: Worker, qs: seq<Request>): (Worker, seq<Reply>)
    requires g.blockSize > 0
    decreases |qs|
  {
    if qs == [] then (w, []) else
    var (w', reply) := ServeOn(r, g, pack, w, qs[0]);
    var (end, replies) := RunOn(r, g, pack, w', qs[1..]);
    (end, [reply] + replies)
  }

  // ------------------------------------------------------------- what a run keeps

  ghost predicate OnlyFlushes(ops: seq<StorageRuns.Op>) {
    forall i :: 0 <= i < |ops| ==> ops[i].FlushOp?
  }

  /** The store is the one that the FLUSHes the worker has sent, all accepted, make of d0. */
  ghost predicate Traced(g: D.Geometry, d0: D.Disk, w: Worker)
    requires g.blockSize > 0 && |d0.bits| > 0
  {
    && w.accepted && OnlyFlushes(w.sent) && StorageRuns.AdmissibleRun(g, d0, w.sent)
    && w.disk == StorageRuns.After(g, d0, w.sent)
    && w.disk.tags.Keys == d0.tags.Keys && Refusing(w.disk) == Refusing(d0)
  }

  /** The memory of n frames has the store behind it, with n free blocks for each of `left` uses. */
  ghost predicate Backed(r: Replacement, g: D.Geometry, d0: D.Disk, n: nat, w: Worker, left: nat)
    requires g.blockSize > 0 && |d0.bits| > 0
  {
    && Traced(g, d0, w) && Linked(g, w.disk, w.memory) && Faithful(r, g.blockSize, w.memory)
    && |w.memory.slots| == n && Start(n, left) <= |FlushSteps.FreeBlocks(w.disk.bits)|
  }

  lemma FlushCost(g: D.Geometry, d: D.Disk, key: Key, packet: seq<(PageId, Block)>)
    requires DiskInvariant.RunInv(g, d) && WorkerOverStorage.Fits(g, d, key, packet)
    ensures StorageRuns.WellFormed(g, StorageRuns.FlushOp(key, PagesOf(packet)))
    ensures StorageRuns.Admissible(g, d, StorageRuns.FlushOp(key, PagesOf(packet)))
    ensures |FlushSteps.FreeBlocks(D.Flush(g, d, key, PagesOf(packet)).disk.bits)|
      == |FlushSteps.FreeBlocks(d.bits)| - |packet|
  {
    FitsFlushes(g, d, key, packet);
    FlushSteps.FlushPagesKeepInv(g, d, key, PagesOf(packet));
    FlushSteps.FlushSucceedsIff(g, d, key, PagesOf(packet));
  }

  /** One accepted FLUSH more. */
  lemma OneMoreFlush(g: D.Geometry, d0: D.Disk, pack: Packer, w: Worker, key: Key)
    requires g.blockSize > 0 && |d0.bits| > 0 && Traced(g, d0, w) && DiskInvariant.RunInv(g, w.disk)
    requires WorkerOverStorage.Fits(g, w.disk, key, pack(w, key))
    ensures Traced(g, d0, Send(g, pack, w, key))
    ensures |FlushSteps.FreeBlocks(Send(g, pack, w, key).disk.bits)|
      == |FlushSteps.FreeBlocks(w.disk.bits)| - |pack(w, key)|
  {
    var packet := pack(w, key);
    FlushCost(g, w.disk, key, packet);
    FitsFlushes(g, w.disk, key, packet);
    FlushKeepsRefusals(g, w.disk, key, PagesOf(packet));
    StorageRuns.AdmissibleOneMore(g, d0, w.sent, StorageRuns.FlushOp(key, PagesOf(packet)));
  }

  /** The FLUSH of a File:Tag that accepts it is accepted while the store has n free blocks, and
      leaves the store that the cache's write-back expects. */
  lemma SendIsWriteBack(r: Replacement, g: D.Geometry, d0: D.Disk, pack: Packer, n: nat, w: Worker, left: nat, key: Key)
    requires g.blockSize > 0 && |d0.bits| > 0 && Packs(pack) && Backed(r, g, d0, n, w, left + 1)
    requires key in w.disk.tags && key !in w.memory.refuses
    ensures var s := Send(g, pack, w, key);
      && Traced(g, d0, s) && Linked(g, s.disk, WriteBack(r, w.memory, key))
      && Start(n, left) <= |FlushSteps.FreeBlocks(s.disk.bits)|
      && |FlushSteps.FreeBlocks(s.disk.bits)| == |FlushSteps.FreeBlocks(w.disk.bits)| - |pack(w, key)|
  {
    assert !D.Frozen(w.disk, key);
    assert ListsDirty(w.memory, key, pack(w, key));
    PacketFits(w.memory, key, pack(w, key));
    DirtyPagesFit(r, g, w.disk, w.memory, key, pack(w, key));
    WriteBackIsFlush(r, g, w.disk, w.memory, key, pack(w, key));
    OneMoreFlush(g, d0, pack, w, key);
  }

  /** A page that is dirty is of a File:Tag that the store has and that accepts FLUSH. */
  lemma VictimIsStored(r: Replacement, g: D.Geometry, d: D.Disk, m: Memory)
    requires Linked(g, d, m) && Faithful(r, g.blockSize, m) && EvictsDirty(r, m)
    ensures var key := m.slots[Victim(r, m)].id.key; key in d.tags && key !in m.refuses
  {
    ServedIsRead(g, d, m.slots[Victim(r, m)].id);
  }

  lemma RoomPages(r: Replacement, m: Memory)
    requires Shaped(m)
    ensures var w := if EvictsDirty(r, m) then WriteBack(r, m, m.slots[Victim(r, m)].id.key) else m;
      MakeRoom(r, m).0.pages == w.pages && MakeRoom(r, m).0.refuses == w.refuses
  {
  }

  /** Making room on the store is making room in the cache. */
  lemma EmptiedIsMakeRoom(r: Replacement, g: D.Geometry, d0: D.Disk, pack: Packer, n: nat, w: Worker, left: nat)
    requires g.blockSize > 0 && |d0.bits| > 0 && Packs(pack) && Backed(r, g, d0, n, w, left + 1)
    ensures var s := Emptied(r, g, pack, w);
      && s.memory == MakeRoom(r, w.memory).0 && Traced(g, d0, s) && Linked(g, s.disk, s.memory)
      && Start(n, left) <= |FlushSteps.FreeBlocks(s.disk.bits)|
  {
    RoomPages(r, w.memory);
    if EvictsDirty(r, w.memory) {
      VictimIsStored(r, g, w.disk, w.memory);
      SendIsWriteBack(r, g, d0, pack, n, w, left, w.memory.slots[Victim(r, w.memory)].id.key);
    }
  }

  /** Backed but for what the memory keeps by itself. */
  ghost predicate Behind(g: D.Geometry, d0: D.Disk, n: nat, w: Worker, left: nat)
    requires g.blockSize > 0 && |d0.bits| > 0
  {
    Traced(g, d0, w) && Linked(g, w.disk, w.memory) && Start(n, left) <= |FlushSteps.FreeBlocks(w.disk.bits)|
  }

  lemma SameStore(g: D.Geometry, d0: D.Disk, n: nat, w: Worker, m: Memory, left: nat)
    requires g.blockSize > 0 && |d0.bits| > 0 && Behind(g, d0, n, w, left)
    requires m.pages == w.memory.pages && m.refuses == w.memory.refuses
    ensures Behind(g, d0, n, w.(memory := m), left)
  {
  }

  /** Loading a page on the store is loading it in the cache. */
  lemma LoadIsCache(r: Replacement, g: D.Geometry, pack: Packer, w: Worker, id: PageId)
    requires g.blockSize > 0 && |w.disk.bits| > 0 && Shaped(w.memory)
    requires Emptied(r, g, pack, w).memory == MakeRoom(r, w.memory).0
    ensures LoadOn(r, g, pack, w, id) == Emptied(r, g, pack, w).(memory := Load(r, w.memory, id))
    ensures Load(r, w.memory, id).pages == Emptied(r, g, pack, w).memory.pages
    ensures Load(r, w.memory, id).refuses == Emptied(r, g, pack, w).memory.refuses
  {
  }

  lemma LoadIsBehind(r: Replacement, g: D.Geometry, d0: D.Disk, pack: Packer, n: nat, w: Worker, left: nat, id: PageId)
    requires g.blockSize > 0 && |d0.bits| > 0 && Packs(pack) && Backed(r, g, d0, n, w, left + 1)
    ensures LoadOn(r, g, pack, w, id).memory == Load(r, w.memory, id)
    ensures Behind(g, d0, n, LoadOn(r, g, pack, w, id), left)
  {
    EmptiedIsMakeRoom(r, g, d0, pack, n, w, left);
    LoadIsCache(r, g, pack, w, id);
    SameStore(g, d0, n, Emptied(r, g, pack, w), Load(r, w.memory, id), left);
  }

  lemma UseAfterLoad(r: Replacement, g: D.Geometry, pack: Packer, w: Worker, id: PageId)
    requires g.blockSize > 0 && |w.disk.bits| > 0 && Shaped(w.memory)
    requires LoadOn(r, g, pack, w, id).memory == Load(r, w.memory, id)
    ensures var s := if Resident(w.memory.slots, id) then w else LoadOn(r, g, pack, w, id);
      && UseOn(r, g, pack, w, id) == s.(memory := Use(r, w.memory, id))
      && Use(r, w.memory, id).pages == s.memory.pages && Use(r, w.memory, id).refuses == s.memory.refuses
  {
  }

  /** The memory of a use is the cache's, and the store stays behind it. */
  lemma UseIsCache(r: Replacement, g: D.Geometry, d0: D.Disk, pack: Packer, n: nat, w: Worker, left: nat, id: PageId)
    requires g.blockSize > 0 && |d0.bits| > 0 && Packs(pack) && Backed(r, g, d0, n, w, left + 1)
    ensures UseOn(r, g, pack, w, id).memory == Use(r, w.memory, id)
    ensures Behind(g, d0, n, UseOn(r, g, pack, w, id), left)
  {
    LoadIsBehind(r, g, d0, pack, n, w, left, id);
    UseAfterLoad(r, g, pack, w, id);
    var s := if Resident(w.memory.slots, id) then w else LoadOn(r, g, pack, w, id);
    SameStore(g, d0, n, s, Use(r, w.memory, id), left);
  }

  /** A use sends nothing, or the one FLUSH of the dirty pages of a modified victim's File:Tag,
      and nothing else happens to the store. */
  ghost predicate SendsAtMostOne(r: Replacement, g: D.Geometry, pack: Packer, n: nat, w: Worker, w': Worker, id: PageId)
    requires g.blockSize > 0 && |w.disk.bits| > 0 && Shaped(w.memory)
  {
    if Resident(w.memory.slots, id) || !EvictsDirty(r, w.memory) then w'.disk == w.disk && w'.sent == w.sent
    else
      var key := w.memory.slots[Victim(r, w.memory)].id.key;
      var pages := PagesOf(pack(w, key));
      && D.Flush(g, w.disk, key, pages) == D.Outcome(w'.disk, true) && |pages| <= n
      && w'.sent == w.sent + [StorageRuns.FlushOp(key, pages)]
  }

  /** Of all that a use does only that FLUSH reaches the store. */
  lemma StoreAfterUse(r: Replacement, g: D.Geometry, pack: Packer, w: Worker, id: PageId)
    requires g.blockSize > 0 && |w.disk.bits| > 0 && Shaped(w.memory)
    ensures var w' := UseOn(r, g, pack, w, id);
      var s := if Resident(w.memory.slots, id) || !EvictsDirty(r, w.memory) then w
               else Send(g, pack, w, w.memory.slots[Victim(r, w.memory)].id.key);
      w'.disk == s.disk && w'.sent == s.sent
  {
  }

  lemma SendIsAccepted(r: Replacement, g: D.Geometry, d0: D.Disk, pack: Packer, n: nat, w: Worker, left: nat, key: Key)
    requires g.blockSize > 0 && |d0.bits| > 0 && Packs(pack) && Backed(r, g, d0, n, w, left + 1)
    requires key in w.disk.tags && key !in w.memory.refuses
    ensures var pages := PagesOf(pack(w, key)); var s := Send(g, pack, w, key);
      && D.Flush(g, w.disk, key, pages) == D.Outcome(s.disk, true) && |pages| <= n
      && s.sent == w.sent + [StorageRuns.FlushOp(key, pages)]
  {
    SendIsWriteBack(r, g, d0, pack, n, w, left, key);
    assert ListsDirty(w.memory, key, pack(w, key));
    PacketFits(w.memory, key, pack(w, key));
    assert Send(g, pack, w, key).accepted;
  }

  lemma UseSends(r: Replacement, g: D.Geometry, d0: D.Disk, pack: Packer, n: nat, w: Worker, left: nat, id: PageId)
    requires g.blockSize > 0 && |d0.bits| > 0 && Packs(pack) && Backed(r, g, d0, n, w, left + 1)
    ensures SendsAtMostOne(r, g, pack, n, w, UseOn(r, g, pack, w, id), id)
  {
    StoreAfterUse(r, g, pack, w, id);
    if !Resident(w.memory.slots, id) && EvictsDirty(r, w.memory) {
      VictimIsStored(r, g, w.disk, w.memory);
      SendIsAccepted(r, g, d0, pack, n, w, left, w.memory.slots[Victim(r, w.memory)].id.key);
    }
  }

  /** One use: its memory is the cache's, its store is still behind it, and it has sent nothing,
      or the one FLUSH of the dirty pages of a modified victim, which was accepted. */
  lemma UseIsBacked(r: Replacement, g: D.Geometry, d0: D.Disk, pack: Packer, n: nat, w: Worker, left: nat, id: PageId)
    requires g.blockSize > 0 && |d0.bits| > 0 && Packs(pack) && Backed(r, g, d0, n, w, left + 1)
    ensures var w' := UseOn(r, g, pack, w, id);
      && w'.memory == Use(r, w.memory, id) && Backed(r, g, d0, n, w', left)
      && SendsAtMostOne(r, g, pack, n, w, w', id)
  {
    UseKeepsViews(r, g.blockSize, w.memory, id);
    UseIsCache(r, g, d0, pack, n, w, left, id);
    UseSends(r, g, d0, pack, n, w, left, id);
  }

  lemma PutIsBacked(r: Replacement, g: D.Geometry, d0: D.Disk, n: nat, w: Worker, left: nat, i: nat, off: nat,
                    data: seq<byte>)
    requires g.blockSize > 0 && |d0.bits| > 0 && Backed(r, g, d0, n, w, left)
    requires i < |w.memory.slots| && w.memory.slots[i].Holds? && w.memory.slots[i].id.key !in w.memory.refuses
    requires off + |data| <= g.blockSize
    ensures Backed(r, g, d0, n, w.(memory := Put(r, w.memory, i, off, data)), left)
  {
    PutChangesView(r, g.blockSize, w.memory, i, off, data);
  }

  lemma FlushIsBacked(r: Replacement, g: D.Geometry, d0: D.Disk, pack: Packer, n: nat, w: Worker, left: nat, key: Key)
    requires g.blockSize > 0 && |d0.bits| > 0 && Packs(pack) && Backed(r, g, d0, n, w, left + 1)
    requires key in d0.tags && key !in w.memory.refuses
    ensures var w' := FlushOn(r, g, pack, w, key);
      w'.memory == WriteBack(r, w.memory, key) && Backed(r, g, d0, n, w', left)
  {
    SendIsWriteBack(r, g, d0, pack, n, w, left, key);
    WriteBackIsConsistent(r, g.blockSize, w.memory, key);
    WriteBackIsCoherent(r, g.blockSize, w.memory, key);
  }

  // -------------------------------------------------------------------- whole runs

  ghost function BackedFor(r: Replacement, g: D.Geometry, d0: D.Disk, n: nat): (Worker, nat) -> bool
    requires g.blockSize > 0 && |d0.bits| > 0
  {
    (w: Worker, left: nat) => Backed(r, g, d0, n, w, left)
  }

  function MemoryOf(w: Worker): Memory { w.memory }

  /** The use of a page by the page loop. */
  lemma UseInLoop(r: Replacement, g: D.Geometry, d0: D.Disk, pack: Packer, n: nat, key: Key, w: Worker, left: nat,
                  p: nat)
    requires g.blockSize > 0 && |d0.bits| > 0 && Packs(pack) && Backed(r, g, d0, n, w, left + 1)
    ensures var w' := WorkerPager(r, g, pack, key).use(w, p);
      BackedFor(r, g, d0, n)(w', left) && MemoryOf(w') == UseFor(r, key, MemoryOf(w), p)
  {
    UseIsBacked(r, g, d0, pack, n, w, left, PageId(key, p));
    assert WorkerPager(r, g, pack, key).use(w, p) == UseOn(r, g, pack, w, PageId(key, p));
  }

  lemma UseSpends(r: Replacement, g: D.Geometry, d0: D.Disk, pack: Packer, n: nat, key: Key, w: Worker, left: nat,
                  p: nat)
    requires g.blockSize > 0 && |d0.bits| > 0 && Packs(pack)
    ensures SpendsUse(WorkerPager(r, g, pack, key), PagerFor(r, key), MemoryOf, BackedFor(r, g, d0, n), w, left, p)
  {
    if BackedFor(r, g, d0, n)(w, left + 1) { UseInLoop(r, g, d0, pack, n, key, w, left, p); }
  }

  lemma UsesAreSpare(r: Replacement, g: D.Geometry, d0: D.Disk, n: nat, w: Worker, left: nat)
    requires g.blockSize > 0 && |d0.bits| > 0
    ensures Spares(BackedFor(r, g, d0, n), w, left)
  {
  }

  /** The page loop on the worker does to its memory what it does on the cache alone. */
  lemma WorkerSpends(r: Replacement, g: D.Geometry, d0: D.Disk, pack: Packer, n: nat, key: Key)
    requires g.blockSize > 0 && |d0.bits| > 0 && Packs(pack)
    ensures Spends(WorkerPager(r, g, pack, key), PagerFor(r, key), MemoryOf, BackedFor(r, g, d0, n))
  {
    var pager, h, rel := WorkerPager(r, g, pack, key), PagerFor(r, key), BackedFor(r, g, d0, n);
    forall w, left: nat, p: nat ensures SpendsUse(pager, h, MemoryOf, rel, w, left, p) {
      UseSpends(r, g, d0, pack, n, key, w, left, p);
    }
    forall w, left: nat ensures Spares(rel, w, left) { UsesAreSpare(r, g, d0, n, w, left); }
    forall w, p: nat ensures pager.frame(w, p) == h.frame(MemoryOf(w), p) { }
  }

  lemma PutInLoop(r: Replacement, g: D.Geometry, d0: D.Disk, n: nat, key: Key, w: Worker, left: nat, p: nat, off: nat,
                  data: seq<byte>)
    requires g.blockSize > 0 && |d0.bits| > 0 && key !in Refusing(d0) && off + |data| <= g.blockSize
    requires Backed(r, g, d0, n, w, left)
    ensures BackedFor(r, g, d0, n)(w.(memory := PutFor(r, key, w.memory, p, off, data)), left)
  {
    if Ready(w.memory, PageId(key, p)) {
      PutIsBacked(r, g, d0, n, w, left, Find(w.memory.slots, PageId(key, p)), off, data);
    }
  }

  lemma PutSpares(r: Replacement, g: D.Geometry, d0: D.Disk, pack: Packer, n: nat, key: Key, w: Worker, left: nat,
                  p: nat, off: nat, data: seq<byte>)
    requires g.blockSize > 0 && |d0.bits| > 0 && key !in Refusing(d0)
    ensures SparesPut(WorkerPager(r, g, pack, key), PagerFor(r, key), g.blockSize, MemoryOf, BackedFor(r, g, d0, n),
                      w, left, p, off, data)
  {
    if BackedFor(r, g, d0, n)(w, left) && off + |data| <= g.blockSize {
      PutInLoop(r, g, d0, n, key, w, left, p, off, data);
    }
  }

  lemma WorkerSparesPuts(r: Replacement, g: D.Geometry, d0: D.Disk, pack: Packer, n: nat, key: Key)
    requires g.blockSize > 0 && |d0.bits| > 0 && key !in Refusing(d0)
    ensures SparesPuts(WorkerPager(r, g, pack, key), PagerFor(r, key), g.blockSize, MemoryOf, BackedFor(r, g, d0, n))
  {
    var pager, h, rel := WorkerPager(r, g, pack, key), PagerFor(r, key), BackedFor(r, g, d0, n);
    forall w, left: nat, p: nat, off: nat, data
      ensures SparesPut(pager, h, g.blockSize, MemoryOf, rel, w, left, p, off, data)
    {
      PutSpares(r, g, d0, pack, n, key, w, left, p, off, data);
    }
  }

  /** How many times a request can make the memory write back: once for each page it
      touches, and once for a FLUSH. */
  function Uses(ps: nat, q: Request): nat
    requires ps > 0
  {
    match q
    case ReadOf(_, offset, len) => |Touched(ps, offset / ps, offset % ps, len)|
    case WriteTo(_, offset, data) => |Touched(ps, offset / ps, offset % ps, |data|)|
    case FlushOf(_) => 1
  }

  function TotalUses(ps: nat, qs: seq<Request>): nat
    requires ps > 0
  {
    if qs == [] then 0 else Uses(ps, qs[0]) + TotalUses(ps, qs[1..])
  }

  lemma ReadIsCache(r: Replacement, g: D.Geometry, d0: D.Disk, pack: Packer, n: nat, w: Worker, left: nat, q: Request)
    requires g.blockSize > 0 && |d0.bits| > 0 && Packs(pack) && Backed(r, g, d0, n, w, left + Uses(g.blockSize, q))
    requires q.ReadOf?
    ensures var (w', reply) := ServeOn(r, g, pack, w, q);
      BackedFor(r, g, d0, n)(w', left) && (w'.memory, reply) == Serve(r, g.blockSize, w.memory, q)
  {
    var ps, pager, rel := g.blockSize, WorkerPager(r, g, pack, q.key), BackedFor(r, g, d0, n);
    WorkerSpends(r, g, d0, pack, n, q.key);
    SpendingRead(pager, PagerFor(r, q.key), MemoryOf, rel, ps, w, left, q.offset / ps, q.offset % ps, q.len);
  }

  lemma WriteIsCache(r: Replacement, g: D.Geometry, d0: D.Disk, pack: Packer, n: nat, w: Worker, left: nat, q: Request)
    requires g.blockSize > 0 && |d0.bits| > 0 && Packs(pack) && Backed(r, g, d0, n, w, left + Uses(g.blockSize, q))
    requires q.WriteTo? && q.key !in Refusing(d0)
    ensures var (w', reply) := ServeOn(r, g, pack, w, q);
      BackedFor(r, g, d0, n)(w', left) && (w'.memory, reply) == Serve(r, g.blockSize, w.memory, q)
  {
    var ps, pager, rel := g.blockSize, WorkerPager(r, g, pack, q.key), BackedFor(r, g, d0, n);
    WorkerSpends(r, g, d0, pack, n, q.key);
    WorkerSparesPuts(r, g, d0, pack, n, q.key);
    SpendingWrite(pager, PagerFor(r, q.key), MemoryOf, rel, ps, w, left, q.offset / ps, q.offset % ps, q.data);
  }

  /** One request: the worker answers what the cache answers, and its store stays behind it. */
  lemma ServeIsCache(r: Replacement, g: D.Geometry, d0: D.Disk, pack: Packer, n: nat, w: Worker, left: nat, q: Request)
    returns (w': Worker, reply: Reply)
    requires g.blockSize > 0 && |d0.bits| > 0 && Packs(pack) && Backed(r, g, d0, n, w, left + Uses(g.blockSize, q))
    requires q.key in d0.tags && (q.ReadOf? || q.key !in Refusing(d0))
    ensures ServeOn(r, g, pack, w, q) == (w', reply) && Serve(r, g.blockSize, w.memory, q) == (w'.memory, reply)
    ensures BackedFor(r, g, d0, n)(w', left)
  {
    w', reply := ServeOn(r, g, pack, w, q).0, ServeOn(r, g, pack, w, q).1;
    match q
    case ReadOf(_, _, _) => ReadIsCache(r, g, d0, pack, n, w, left, q);
    case WriteTo(_, _, _) => WriteIsCache(r, g, d0, pack, n, w, left, q);
    case FlushOf(key) => FlushIsBacked(r, g, d0, pack, n, w, left, key);
  }

  /** Requests on File:Tags of d0, writing only to those that accept FLUSH. */
  ghost predicate Allowed(d0: D.Disk, qs: seq<Request>) {
    forall q :: q in qs ==> q.key in d0.tags && (q.ReadOf? || q.key !in Refusing(d0))
  }

  /** The run ends with the memory and the replies of the cache alone. */
  ghost predicate RunsAsCache(r: Replacement, g: D.Geometry, pack: Packer, w: Worker, qs: seq<Request>)
    requires g.blockSize > 0
  {
    RunOn(r, g, pack, w, qs).0.memory == After(r, g.blockSize, w.memory, qs)
    && RunOn(r, g, pack, w, qs).1 == Replies(r, g.blockSize, w.memory, qs)
  }

  lemma RunOnFirst(r: Replacement, g: D.Geometry, pack: Packer, w: Worker, qs: seq<Request>, w': Worker, reply: Reply)
    requires g.blockSize > 0 && qs != [] && ServeOn(r, g, pack, w, qs[0]) == (w', reply)
    requires Serve(r, g.blockSize, w.memory, qs[0]) == (w'.memory, reply) && RunsAsCache(r, g, pack, w', qs[1..])
    ensures RunOn(r, g, pack, w, qs).0 == RunOn(r, g, pack, w', qs[1..]).0 && RunsAsCache(r, g, pack, w, qs)
  {
  }

  /** With the uses of q to spare, the worker answers q as the cache does. */
  ghost predicate ServesAsCache(r: Replacement, g: D.Geometry, pack: Packer, rel: (Worker, nat) -> bool, w: Worker,
                                left: nat, q: Request)
    requires g.blockSize > 0
  {
    rel(w, left + Uses(g.blockSize, q)) ==>
      && rel(ServeOn(r, g, pack, w, q).0, left)
      && Serve(r, g.blockSize, w.memory, q) == (ServeOn(r, g, pack, w, q).0.memory, ServeOn(r, g, pack, w, q).1)
  }

  lemma {:induction false} RunFollows(r: Replacement, g: D.Geometry, pack: Packer, rel: (Worker, nat) -> bool,
                                      w: Worker, left: nat, qs: seq<Request>)
    requires g.blockSize > 0 && rel(w, left + TotalUses(g.blockSize, qs))
    requires forall w, left: nat, q :: q in qs ==> ServesAsCache(r, g, pack, rel, w, left, q)
    ensures rel(RunOn(r, g, pack, w, qs).0, left) && RunsAsCache(r, g, pack, w, qs)
    decreases |qs|
  {
    if qs != [] {
      assert qs[0] in qs;
      assert ServesAsCache(r, g, pack, rel, w, left + TotalUses(g.blockSize, qs[1..]), qs[0]);
      var (w', reply) := ServeOn(r, g, pack, w, qs[0]);
      RunFollows(r, g, pack, rel, w', left, qs[1..]);
      RunOnFirst(r, g, pack, w, qs, w', reply);
    }
  }

  /** A run: the memory and the replies are those of the cache alone, every FLUSH sent was
      accepted, and the store they lead to is the one the memory takes it for. */
  lemma RunIsCache(r: Replacement, g: D.Geometry, d0: D.Disk, pack: Packer, n: nat, w: Worker, left: nat,
                   qs: seq<Request>)
    requires g.blockSize > 0 && |d0.bits| > 0 && Packs(pack) && Allowed(d0, qs)
    requires Backed(r, g, d0, n, w, left + TotalUses(g.blockSize, qs))
    ensures Backed(r, g, d0, n, RunOn(r, g, pack, w, qs).0, left) && RunsAsCache(r, g, pack, w, qs)
  {
    var rel := BackedFor(r, g, d0, n);
    forall w, left: nat, q | q in qs ensures ServesAsCache(r, g, pack, rel, w, left, q) {
      AllowedServes(r, g, d0, pack, n, w, left, q);
    }
    RunFollows(r, g, pack, rel, w, left, qs);
  }

  lemma AllowedServes(r: Replacement, g: D.Geometry, d0: D.Disk, pack: Packer, n: nat, w: Worker, left: nat, q: Request)
    requires g.blockSize > 0 && |d0.bits| > 0 && Packs(pack)
    requires q.key in d0.tags && (q.ReadOf? || q.key !in Refusing(d0))
    ensures ServesAsCache(r, g, pack, BackedFor(r, g, d0, n), w, left, q)
  {
    if BackedFor(r, g, d0, n)(w, left + Uses(g.blockSize, q)) {
      var w', reply := ServeIsCache(r, g, d0, pack, n, w, left, q);
    }
  }

  // ----------------------------------------------------- a worker on a block store

  /** The blocks of each File:Tag as readers of the block store see them. */
  ghost function Books(g: D.Geometry, d: D.Disk): map<Key, seq<Block>>
    requires DiskInvariant.RunInv(g, d)
  {
    map key | key in d.tags && key != D.INITIAL_KEY :: StorageRuns.ViewOf(g, d, key).content
  }

  ghost function WorkerOn(g: D.Geometry, d: D.Disk, n: nat): Memory
    requires g.blockSize > 0
  {
    Fresh(n, g.blockSize, Served(g, d), Refusing(d))
  }

  lemma FreshMirrors(g: D.Geometry, d: D.Disk, n: nat)
    requires DiskInvariant.RunInv(g, d)
    ensures Mirrors(WorkerOn(g, d, n), Books(g, d))
  {
    var m, books := WorkerOn(g, d, n), Books(g, d);
    forall key | key in books ensures Shows(m, key, books[key]) {
      forall i: nat ensures PageId(key, i) in m.pages <==> i < |books[key]| {
        ServedIsView(g, d, PageId(key, i));
      }
      forall i: nat | i < |books[key]| ensures View(m, PageId(key, i)) == books[key][i] {
        ServedIsView(g, d, PageId(key, i));
      }
    }
  }

  /** A worker that has sent nothing yet. */
  ghost function NewWorker(g: D.Geometry, d: D.Disk, n: nat): Worker
    requires g.blockSize > 0
  {
    Worker(WorkerOn(g, d, n), d, [], true)
  }

  lemma NewWorkerIsBacked(r: Replacement, g: D.Geometry, d: D.Disk, n: nat, left: nat)
    requires DiskInvariant.RunInv(g, d) && |d.bits| > 0 && n > 0 && Start(n, left) <= |FlushSteps.FreeBlocks(d.bits)|
    ensures Backed(r, g, d, n, NewWorker(g, d, n), left)
  {
    forall id | id in Served(g, d) ensures |Served(g, d)[id]| == g.blockSize { ServedIsView(g, d, id); }
    FreshIsConsistent(r, n, g.blockSize, Served(g, d), Refusing(d));
  }

  /** A fresh worker on any block store in the run invariant, over any run of READ, WRITE and
      FLUSH of its File:Tags and in whatever order its page tables list the pages, answers as
      plain byte sequences do, as long as the store has n blocks for each page the run touches.
      The store has accepted every FLUSH the worker has sent, is what these FLUSHes make of it,
      and serves what the memory takes it to serve. */
  lemma WorkerAndStoreAreFiles(r: Replacement, g: D.Geometry, d: D.Disk, pack: Packer, n: nat, qs: seq<Request>)
    requires DiskInvariant.RunInv(g, d) && |d.bits| > 0 && n > 0 && Packs(pack)
    requires Permitted(WorkerOn(g, d, n), Books(g, d).Keys, qs)
    requires Start(n, TotalUses(g.blockSize, qs)) <= |FlushSteps.FreeBlocks(d.bits)|
    ensures var (end, replies) := RunOn(r, g, pack, NewWorker(g, d, n), qs);
      && replies == FlatReplies(FlatBooks(Books(g, d)), qs)
      && end.memory == After(r, g.blockSize, WorkerOn(g, d, n), qs)
      && end.accepted && OnlyFlushes(end.sent) && StorageRuns.AdmissibleRun(g, d, end.sent)
      && end.disk == StorageRuns.After(g, d, end.sent) && Linked(g, end.disk, end.memory)
  {
    NewWorkerIsBacked(r, g, d, n, TotalUses(g.blockSize, qs));
    FreshMirrors(g, d, n);
    RunIsCache(r, g, d, pack, n, NewWorker(g, d, n), 0, qs);
    CacheIsInvisible(r, g.blockSize, WorkerOn(g, d, n), Books(g, d), qs);
  }

  /** READ of the block store answers exactly the blocks of `file`, and no more. */
  ghost predicate HoldsFile(g: D.Geometry, d: D.Disk, key: Key, file: seq<Block>)
    requires g.blockSize > 0
  {
    forall i: nat :: D.Read(g, d, key, i) == if i < |file| then D.ReadOk(file[i]) else D.ReadError
  }

  lemma ServedFileIsStored(g: D.Geometry, d: D.Disk, m: Memory, key: Key, file: seq<Block>)
    requires Linked(g, d, m) && key != D.INITIAL_KEY && Shows(m, key, file)
    requires forall i: nat :: i < |file| ==> PageId(key, i) in m.pages && m.pages[PageId(key, i)] == file[i]
    ensures HoldsFile(g, d, key, file)
  {
    forall i: nat ensures D.Read(g, d, key, i) == if i < |file| then D.ReadOk(file[i]) else D.ReadError {
      ServedIsRead(g, d, PageId(key, i));
      ServedIsView(g, d, PageId(key, i));
      if key in d.tags { StorageRuns.ReadMatchesView(g, d, key, i); }
    }
  }

  /** The plain file as the worker sees it after the run, page by page. */
  lemma FileAfterRun(r: Replacement, ps: nat, m: Memory, books: map<Key, seq<Block>>, qs: seq<Request>, key: Key)
    returns (file: seq<Block>)
    requires ps > 0 && Faithful(r, ps, m) && Mirrors(m, books) && Permitted(m, books.Keys, qs) && key in books
    ensures Faithful(r, ps, After(r, ps, m, qs)) && After(r, ps, m, qs).refuses == m.refuses
    ensures Shows(After(r, ps, m, qs), key, file)
    ensures Flatten(file) == FlatAfter(FlatBooks(books), qs)[key]
  {
    var books' := RunMirrors(r, ps, m, books, qs);
    assert key in FlatBooks(books');
    file := books'[key];
  }

  lemma {:induction false} UsesOfOneMore(ps: nat, qs: seq<Request>, q: Request)
    requires ps > 0
    ensures TotalUses(ps, qs + [q]) == TotalUses(ps, qs) + Uses(ps, q)
  {
    if qs == [] {
      assert [] + [q] == [q] && [q][1..] == [];
    } else {
      assert (qs + [q])[1..] == qs[1..] + [q];
      UsesOfOneMore(ps, qs[1..], q);
    }
  }

  lemma {:induction false} AfterOneMore(r: Replacement, ps: nat, m: Memory, qs: seq<Request>, q: Request)
    requires ps > 0
    ensures After(r, ps, m, qs + [q]) == Serve(r, ps, After(r, ps, m, qs), q).0
    decreases |qs|
  {
    if qs == [] {
      assert [] + [q] == [q] && [q][1..] == [];
      assert After(r, ps, Serve(r, ps, m, q).0, []) == Serve(r, ps, m, q).0;
    } else {
      assert (qs + [q])[1..] == qs[1..] + [q];
      AfterOneMore(r, ps, Serve(r, ps, m, qs[0]).0, qs[1..], q);
    }
  }

  /** A store behind the memory after an accepted FLUSH of `key` holds what the worker saw of it. */
  lemma FlushStores(r: Replacement, g: D.Geometry, d: D.Disk, m: Memory, key: Key, file: seq<Block>)
    requires Faithful(r, g.blockSize, m) && Shows(m, key, file) && key !in m.refuses && key != D.INITIAL_KEY
    requires Linked(g, d, WriteBack(r, m, key))
    ensures HoldsFile(g, d, key, file)
  {
    FlushMakesDurable(r, g.blockSize, m, key, file);
    ServedFileIsStored(g, d, WriteBack(r, m, key), key, file);
  }

  /** The file a worker sees after the run. */
  lemma FileOfWorker(r: Replacement, g: D.Geometry, d: D.Disk, n: nat, qs: seq<Request>, key: Key)
    returns (file: seq<Block>)
    requires DiskInvariant.RunInv(g, d) && |d.bits| > 0 && n > 0 && key in Books(g, d) && !D.Frozen(d, key)
    requires Permitted(WorkerOn(g, d, n), Books(g, d).Keys, qs)
    ensures var m := After(r, g.blockSize, WorkerOn(g, d, n), qs);
      Faithful(r, g.blockSize, m) && Shows(m, key, file) && key !in m.refuses
    ensures Flatten(file) == FlatAfter(FlatBooks(Books(g, d)), qs)[key]
  {
    NewWorkerIsBacked(r, g, d, n, 0);
    FreshMirrors(g, d, n);
    file := FileAfterRun(r, g.blockSize, WorkerOn(g, d, n), Books(g, d), qs, key);
  }

  /** The store after a run that ends in a FLUSH is the one the write-back makes. */
  lemma StoreAfterFlush(r: Replacement, g: D.Geometry, d: D.Disk, pack: Packer, n: nat, qs: seq<Request>, key: Key)
    requires DiskInvariant.RunInv(g, d) && |d.bits| > 0 && n > 0 && Packs(pack)
    requires Permitted(WorkerOn(g, d, n), Books(g, d).Keys, qs + [FlushOf(key)])
    requires Start(n, TotalUses(g.blockSize, qs) + 1) <= |FlushSteps.FreeBlocks(d.bits)|
    ensures var m := After(r, g.blockSize, WorkerOn(g, d, n), qs);
      |m.frames| == |m.modified| == |m.slots| ==>
        Linked(g, RunOn(r, g, pack, NewWorker(g, d, n), qs + [FlushOf(key)]).0.disk, WriteBack(r, m, key))
  {
    UsesOfOneMore(g.blockSize, qs, FlushOf(key));
    WorkerAndStoreAreFiles(r, g, d, pack, n, qs + [FlushOf(key)]);
    AfterOneMore(r, g.blockSize, WorkerOn(g, d, n), qs, FlushOf(key));
  }

  /** Whatever the worker read and wrote before, once it flushes a File:Tag its block store
      itself holds the bytes the plain file has. */
  lemma FlushedFileIsInTheStore(r: Replacement, g: D.Geometry, d: D.Disk, pack: Packer, n: nat, qs: seq<Request>,
                                key: Key)
    returns (file: seq<Block>)
    requires DiskInvariant.RunInv(g, d) && |d.bits| > 0 && n > 0 && Packs(pack)
    requires key in Books(g, d) && !D.Frozen(d, key)
    requires Permitted(WorkerOn(g, d, n), Books(g, d).Keys, qs)
    requires Start(n, TotalUses(g.blockSize, qs) + 1) <= |FlushSteps.FreeBlocks(d.bits)|
    ensures HoldsFile(g, RunOn(r, g, pack, NewWorker(g, d, n), qs + [FlushOf(key)]).0.disk, key, file)
    ensures Flatten(file) == FlatAfter(FlatBooks(Books(g, d)), qs)[key]
  {
    file := FileOfWorker(r, g, d, n, qs, key);
    StoreAfterFlush(r, g, d, pack, n, qs, key);
    FlushStores(r, g, RunOn(r, g, pack, NewWorker(g, d, n), qs + [FlushOf(key)]).0.disk,
                After(r, g.blockSize, WorkerOn(g, d, n), qs), key, file);
  }
}
