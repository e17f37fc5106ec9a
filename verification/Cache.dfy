/** The worker's page cache: what each operation of the internal memory does to frames,
    page entries, replacement state and the Storage behind it.

    A page resides in at most one frame.  The functions here give the state after each
    operation; the class in InternalMemory.dfy performs the same operations on arrays,
    page tables and entry objects and is proved equal to them. */
module Cache {
  import opened Bytes
  import opened FlatFile
  import Disk

  type Key = Disk.Key

  type Block = seq<byte>

  datatype PageId = PageId(key: Key, number: nat)

  datatype Replacement = Lru | ClockM

  /** A frame of the memory: free, or holding a page that may have been modified. */
  datatype Slot = Free | Holds(id: PageId, dirty: bool)

  /** Frames and their bytes, the LRU list (oldest first), the clock pointer with its R and
      M bits, and the Storage: the blocks it serves and the File:Tags whose FLUSH it refuses. */
  datatype Memory = Memory(slots: seq<Slot>, frames: seq<Block>, lru: seq<PageId>,
                           pointer: nat, referenced: seq<bool>, modified: seq<bool>,
                           pages: map<PageId, Block>, refuses: set<Key>)

  predicate Has(s: Slot, id: PageId) {
    s.Holds? && s.id == id
  }

  predicate Dirty(s: Slot) {
    s.Holds? && s.dirty
  }

  /** The frame that holds `id`, or the number of frames when none does. */
  function Find(slots: seq<Slot>, id: PageId): (i: nat)
    ensures i <= |slots| && (i < |slots| ==> Has(slots[i], id))
    ensures forall j :: 0 <= j < i ==> !Has(slots[j], id)
  {
    if slots == [] || Has(slots[0], id) then 0 else 1 + Find(slots[1..], id)
  }

  predicate Resident(slots: seq<Slot>, id: PageId) {
    Find(slots, id) < |slots|
  }

  /** encontrar_marco_libre: the lowest free frame, or the number of frames. */
  function FirstFree(slots: seq<Slot>): (i: nat)
    ensures i <= |slots| && (i < |slots| ==> slots[i].Free?)
    ensures forall j :: 0 <= j < i ==> slots[j].Holds?
  {
    if slots == [] || slots[0].Free? then 0 else 1 + FirstFree(slots[1..])
  }

  // -------------------------------------------------------------------- write-back

  predicate DirtyOf(s: Slot, key: Key) {
    Dirty(s) && s.id.key == key
  }

  function Clean(slots: seq<Slot>, key: Key): (r: seq<Slot>)
    ensures |r| == |slots|
    ensures forall i :: 0 <= i < |r| ==> r[i] == if DirtyOf(slots[i], key) then Holds(slots[i].id, false) else slots[i]
  {
    seq(|slots|, i requires 0 <= i < |slots| =>
      if DirtyOf(slots[i], key) then Holds(slots[i].id, false) else slots[i])
  }

  /** The blocks of Storage after it accepted the dirty pages of `key`. */
  function Delivered(m: Memory, key: Key): map<PageId, Block>
    requires |m.frames| == |m.slots|
  {
    map id | id in m.pages ::
      if Resident(m.slots, id) && DirtyOf(m.slots[Find(m.slots, id)], key)
      then m.frames[Find(m.slots, id)] else m.pages[id]
  }

  /** The blocks of Storage after the pages of a FLUSH packet were written in order. */
  function Deliver(pages: map<PageId, Block>, packet: seq<(PageId, Block)>): (r: map<PageId, Block>)
    ensures r.Keys == pages.Keys
  {
    if packet == [] then pages else
    var before := Deliver(pages, packet[..|packet| - 1]);
    var (id, block) := packet[|packet| - 1];
    if id in before then before[id := block] else before
  }

  /** flush_paginas_modificadas: all dirty pages of `key` go out and become clean, whether
      or not Storage accepts them. */
  function WriteBack(r: Replacement, m: Memory, key: Key): Memory
    requires |m.frames| == |m.modified| == |m.slots|
  {
    m.(slots := Clean(m.slots, key),
       modified := if r.Lru? then m.modified else
         seq(|m.slots|, i requires 0 <= i < |m.slots| => m.modified[i] && !DirtyOf(m.slots[i], key)),
       pages := if key in m.refuses then m.pages else Delivered(m, key))
  }

  // -------------------------------------------------------------------- replacement

  /** Frame reached from `p` after d steps around n frames. */
  function Around(p: nat, d: nat, n: nat): (i: nat)
    requires p < n && d < n
    ensures i < n && (i == p + d || i == p + d - n)
  {
    if p + d < n then p + d else p + d - n
  }

  /** How many steps from `p` reach frame i. */
  function Steps(p: nat, i: nat, n: nat): (d: nat)
    requires p < n && i < n
    ensures d < n && Around(p, d, n) == i
  {
    if p <= i then i - p else i + n - p
  }

  lemma StepsOfAround(p: nat, d: nat, n: nat)
    requires p < n && d < n
    ensures Steps(p, Around(p, d, n), n) == d
  {
  }

  /** The code's way of going round. */
  lemma AroundIsModulo(p: nat, d: nat, n: nat)
    requires p < n && d < n
    ensures (p + d) % n == Around(p, d, n)
  {
    var q, r := (p + d) / n, (p + d) % n;
    assert p + d == n * q + r;
    assert q >= 2 ==> n * q == n * 2 + n * (q - 2) >= n * 2;
  }

  /** Rank of the pair (R, M): (0,0) < (0,1) < (1,0) < (1,1). */
  function Class(referenced: bool, modified: bool): nat {
    (if referenced then 2 else 0) + (if modified then 1 else 0)
  }

  /** Steps from `p` to the first frame, going round, of the lowest class present. */
  function ClockSteps(referenced: seq<bool>, modified: seq<bool>, p: nat): (d: nat)
    requires |referenced| == |modified| && p < |referenced|
    ensures d < |referenced|
  {
    LowestWithin(referenced, modified, p, |referenced|)
  }

  /** The same among the first k frames looked at. */
  function LowestWithin(referenced: seq<bool>, modified: seq<bool>, p: nat, k: nat): (d: nat)
    requires |referenced| == |modified| && p < |referenced| && 0 < k <= |referenced|
    ensures d < k
    ensures var n := |referenced|; var v := Around(p, d, n);
      && (forall e :: 0 <= e < k ==>
            Class(referenced[v], modified[v]) <= Class(referenced[Around(p, e, n)], modified[Around(p, e, n)]))
      && (forall e :: 0 <= e < d ==>
            Class(referenced[v], modified[v]) < Class(referenced[Around(p, e, n)], modified[Around(p, e, n)]))
  {
    if k == 1 then 0 else
    var d := LowestWithin(referenced, modified, p, k - 1);
    var n := |referenced|;
    var i, v := Around(p, k - 1, n), Around(p, d, n);
    if Class(referenced[i], modified[i]) < Class(referenced[v], modified[v]) then k - 1 else d
  }

  /** The R bits after the scans: untouched when a (0,0) frame was found, cleared on the
      frames passed over when a (0,1) frame was, and all cleared otherwise. */
  function Swept(referenced: seq<bool>, modified: seq<bool>, p: nat): (r: seq<bool>)
    requires |referenced| == |modified| && p < |referenced|
    ensures |r| == |referenced|
  {
    var n := |referenced|;
    var d := ClockSteps(referenced, modified, p);
    var v := Around(p, d, n);
    seq(n, i requires 0 <= i < n => referenced[i] && !referenced[v] && (modified[v] ==> Steps(p, i, n) > d))
  }

  predicate Shaped(m: Memory) {
    && |m.slots| == |m.frames| == |m.referenced| == |m.modified|
    && m.pointer < |m.slots|
  }

  /** Frame of the page the algorithm replaces when no frame is free. */
  function Victim(r: Replacement, m: Memory): (v: nat)
    requires Shaped(m)
    ensures v < |m.slots|
  {
    match r
    case Lru => if m.lru == [] || !Resident(m.slots, m.lru[0]) then 0 else Find(m.slots, m.lru[0])
    case ClockM => Around(m.pointer, ClockSteps(m.referenced, m.modified, m.pointer), |m.slots|)
  }

  /** A dirty victim first sends every dirty page of its File:Tag. */
  function Swapped(r: Replacement, m: Memory): Memory
    requires Shaped(m)
  {
    var s := m.slots[Victim(r, m)];
    if Dirty(s) then WriteBack(r, m, s.id.key) else m
  }

  /** aplicar_lru and aplicar_clock_m with all frames taken: the victim is written back if
      it needs to be, then its frame becomes free. */
  function Evict(r: Replacement, m: Memory): (m': Memory)
    requires Shaped(m)
    ensures Shaped(m') && |m'.slots| == |m.slots| && m'.pages.Keys == m.pages.Keys
  {
    var v, w := Victim(r, m), Swapped(r, m);
    match r
    case Lru => w.(slots := w.slots[v := Free], lru := if m.lru == [] then [] else m.lru[1..])
    case ClockM =>
      w.(slots := w.slots[v := Free],
         pointer := if v + 1 < |m.slots| then v + 1 else 0,
         referenced := Swept(m.referenced, m.modified, m.pointer)[v := false],
         modified := w.modified[v := false])
  }

  // ----------------------------------------------------------------------- accesses

  function Without(list: seq<PageId>, id: PageId): (r: seq<PageId>)
    ensures forall x :: x in r <==> x in list && x != id
  {
    if list == [] then [] else
    (if list[0] == id then [] else [list[0]]) + Without(list[1..], id)
  }

  /** A use of the page in frame i. */
  function Touch(r: Replacement, m: Memory, i: nat): Memory
    requires Shaped(m) && i < |m.slots| && m.slots[i].Holds?
  {
    match r
    case Lru => m.(lru := Without(m.lru, m.slots[i].id) + [m.slots[i].id])
    case ClockM => m.(referenced := m.referenced[i := true])
  }

  function Fill(r: Replacement, m: Memory, v: nat, id: PageId): Memory
    requires Shaped(m) && v < |m.slots| && id in m.pages
  {
    var w := m.(slots := m.slots[v := Holds(id, false)], frames := m.frames[v := m.pages[id]]);
    match r
    case Lru => w.(lru := m.lru + [id])
    case ClockM => w.(referenced := m.referenced[v := true], modified := m.modified[v := false])
  }

  /** The memory with a free frame, and which one is used. */
  function MakeRoom(r: Replacement, m: Memory): (room: (Memory, nat))
    requires Shaped(m)
    ensures Shaped(room.0) && room.1 < |room.0.slots| == |m.slots| && room.0.pages.Keys == m.pages.Keys
  {
    if FirstFree(m.slots) < |m.slots| then (m, FirstFree(m.slots)) else (Evict(r, m), Victim(r, m))
  }

  /** cargar_pagina.  A block Storage does not have leaves the frame it made room in free. */
  function Load(r: Replacement, m: Memory, id: PageId): (m': Memory)
    requires Shaped(m)
    ensures Shaped(m') && |m'.slots| == |m.slots| && m'.pages.Keys == m.pages.Keys
  {
    var (w, v) := MakeRoom(r, m);
    if id in w.pages then Fill(r, w, v, id) else w
  }

  /** One page of an access: find it or load it, then mark it used. */
  function Use(r: Replacement, m: Memory, id: PageId): (m': Memory)
    requires Shaped(m)
    ensures Shaped(m') && |m'.slots| == |m.slots| && m'.pages.Keys == m.pages.Keys
  {
    var w := if Resident(m.slots, id) then m else Load(r, m, id);
    if Resident(w.slots, id) then Touch(r, w, Find(w.slots, id)) else w
  }

  function Put(r: Replacement, m: Memory, i: nat, at: nat, data: seq<byte>): Memory
    requires Shaped(m) && i < |m.slots| && m.slots[i].Holds?
  {
    m.(slots := m.slots[i := Holds(m.slots[i].id, true)],
       frames := m.frames[i := Patch(m.frames[i], at, data)],
       modified := if r.Lru? then m.modified else m.modified[i := true])
  }

  /** crear_memoria: all frames free and zeroed. */
  function Fresh(n: nat, ps: nat, pages: map<PageId, Block>, refuses: set<Key>): Memory {
    Memory(seq(n, _ => Free), seq(n, _ => seq(ps, _ => 0)), [], 0,
           seq(n, _ => false), seq(n, _ => false), pages, refuses)
  }
}
