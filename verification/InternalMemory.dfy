/** The worker's internal memory as the code keeps it: one arena of frames, an entry object
    per resident page, a page table per File:Tag, the LRU list and the clock.  Each method
    is proved to do what the function of the same step in Cache.dfy says. */
module InternalMemory {
  import opened Bytes
  import opened FlatFile
  import opened Paging
  import opened Cache
  import opened CacheInvariant
  import opened CacheFiles
  import opened FlushPackets

  /** t_entrada_pagina. */
  class Entry {
    const id: PageId
    const frame: nat
    var dirty: bool

    constructor (id: PageId, frame: nat)
      ensures this.id == id && this.frame == frame && !dirty
    {
      this.id := id;
      this.frame := frame;
      dirty := false;
    }
  }

  class Memory {
    const replacement: Replacement
    const pageSize: nat
    const arena: array2<byte>       // one row per frame
    const free: array<bool>         // marcos[i]->libre
    const entries: array<Entry?>    // marcos[i]->entrada_pagina
    var tables: map<Key, seq<Entry>>
    var lru: seq<Entry>
    var pointer: nat
    const referenced: array<bool>
    const modified: array<bool>
    var pages: map<PageId, Block>   // what Storage serves
    var refuses: set<Key>           // File:Tags whose FLUSH it refuses

    // -------------------------------------------------------------- what it stands for

    ghost function Live(): set<Entry?>
      reads entries
    {
      set e | e in entries[..] && e != null
    }

    static function SlotOf(e: Entry?): Slot
      reads e
    {
      if e == null then Free else Holds(e.id, e.dirty)
    }

    ghost function Slots(): (s: seq<Slot>)
      reads entries, Live()
      ensures |s| == entries.Length
      ensures forall i :: 0 <= i < |s| ==> s[i] == SlotOf(entries[i])
    {
      seq(entries.Length, i requires 0 <= i < entries.Length reads entries, Live() =>
        assert entries[i] != null ==> entries[i] in Live(); SlotOf(entries[i]))
    }

    ghost function Row(i: nat): (b: Block)
      requires i < arena.Length0
      reads arena
      ensures |b| == arena.Length1 && forall j :: 0 <= j < |b| ==> b[j] == arena[i, j]
    {
      seq(arena.Length1, j requires 0 <= j < arena.Length1 reads arena => arena[i, j])
    }

    ghost function Rows(): (f: seq<Block>)
      reads arena
      ensures |f| == arena.Length0 && forall i :: 0 <= i < |f| ==> f[i] == Row(i)
    {
      seq(arena.Length0, i requires 0 <= i < arena.Length0 reads arena => Row(i))
    }

    static function IdsOf(list: seq<Entry>): (ids: seq<PageId>)
      ensures |ids| == |list| && forall i :: 0 <= i < |ids| ==> ids[i] == list[i].id
    {
      seq(|list|, i requires 0 <= i < |list| => list[i].id)
    }

    /** The value-level memory this object stands for. */
    ghost function Abs(): Cache.Memory
      reads this, arena, entries, Live(), referenced, modified
    {
      Cache.Memory(Slots(), Rows(), IdsOf(lru), pointer, referenced[..], modified[..], pages, refuses)
    }

    /** Entries and taken frames correspond one to one through the entry's frame number. */
    ghost predicate FramesOk()
      reads free, entries
    {
      && free.Length == entries.Length
      && forall i :: 0 <= i < entries.Length ==>
           free[i] == (entries[i] == null) && (entries[i] != null ==> entries[i].frame == i)
    }

    predicate InFrame(e: Entry)
      reads entries
    {
      e.frame < entries.Length && entries[e.frame] == e
    }

    /** The page tables list every entry once, under its File:Tag. */
    ghost predicate TablesOk()
      reads this, entries
    {
      && (forall key :: key in tables ==> tables[key] != [])
      && (forall key, j :: key in tables && 0 <= j < |tables[key]| ==>
          InFrame(tables[key][j]) && tables[key][j].id.key == key)
      && (forall key, i, j :: key in tables && 0 <= i < j < |tables[key]| ==> tables[key][i] != tables[key][j])
      && (forall i :: 0 <= i < entries.Length && entries[i] != null ==>
            entries[i].id.key in tables && entries[i] in tables[entries[i].id.key])
    }

    ghost predicate Layout() {
      && pageSize > 0 && entries.Length > 0
      && arena.Length0 == free.Length == referenced.Length == modified.Length == entries.Length
      && arena.Length1 == pageSize
      && free != referenced && free != modified && referenced != modified
    }

    /** The LRU list names entries in use; CLOCK-M has no list. */
    ghost predicate ListOk()
      reads this, entries
    {
      (forall i :: 0 <= i < |lru| ==> InFrame(lru[i])) && (replacement.ClockM? ==> lru == [])
    }

    /** What holds even while a page is being replaced. */
    ghost predicate Sound()
      reads this, free, entries, Live()
    {
      Layout() && FramesOk() && TablesOk() && NoPageTwice(Slots())
    }

    ghost predicate Valid()
      reads this, arena, free, entries, Live(), referenced, modified
    {
      && Sound()
      && ListOk()
      && Consistent(replacement, pageSize, Abs())
    }

    constructor (r: Replacement, pageSize: nat, frames: nat, pages: map<PageId, Block>, refuses: set<Key>)
      requires pageSize > 0 && frames > 0 && forall id :: id in pages ==> |pages[id]| == pageSize
      ensures replacement == r && this.pageSize == pageSize && fresh(arena) && fresh(free) && fresh(entries)
      ensures fresh(referenced) && fresh(modified)
      ensures Valid() && Abs() == Fresh(frames, pageSize, pages, refuses)
      ensures lru == [] && pointer == 0 && referenced[..] == modified[..] == seq(frames, _ => false)
    {
      this.replacement := r;
      this.pageSize := pageSize;
      arena := new byte[frames, pageSize]((_, _) => 0);
      free := new bool[frames](_ => true);
      entries := new Entry?[frames](_ => null);
      tables := map[];
      lru := [];
      pointer := 0;
      referenced := new bool[frames](_ => false);
      modified := new bool[frames](_ => false);
      this.pages := pages;
      this.refuses := refuses;
      new;
      FreshIsConsistent(r, frames, pageSize, pages, refuses);
      assert forall i, j :: 0 <= i < frames && 0 <= j < pageSize ==> arena[i, j] == 0;
      assert forall i :: 0 <= i < frames ==> Row(i) == seq(pageSize, _ => 0 as byte);
      assert Rows() == Fresh(frames, pageSize, pages, refuses).frames;
      assert Abs() == Fresh(frames, pageSize, pages, refuses);
    }

    /** encontrar_marco_libre: the first free frame, or -1. */
    method FirstFreeFrame() returns (frame: int)
      requires Valid()
      ensures Valid() && Slots() == old(Slots()) && Abs() == old(Abs()) && Live() == old(Live())
      ensures frame == if FirstFree(Slots()) < entries.Length then FirstFree(Slots()) else -1
    {
      var i := 0;
      while i < free.Length
        invariant 0 <= i <= free.Length && forall j :: 0 <= j < i ==> !free[j]
      {
        if free[i] { return i; }
        i := i + 1;
      }
      return -1;
    }

    // ------------------------------------------------------------------- looking up

    /** A resident page is in the table of its File:Tag, and only there. */
    lemma TableFinds(id: PageId)
      requires Sound()
      ensures Resident(Slots(), id) ==>
        id.key in tables && entries[Find(Slots(), id)] != null && entries[Find(Slots(), id)] in tables[id.key]
      ensures id.key in tables ==> forall j :: 0 <= j < |tables[id.key]| && tables[id.key][j].id.number == id.number ==>
        tables[id.key][j].frame == Find(Slots(), id) < |Slots()|
    {
      if id.key in tables {
        forall j | 0 <= j < |tables[id.key]| && tables[id.key][j].id.number == id.number
          ensures tables[id.key][j].frame == Find(Slots(), id) < |Slots()|
        {
          var e := tables[id.key][j];
          assert InFrame(e) && Has(Slots()[e.frame], id);
          FindsIt(Slots(), e.frame);
        }
      }
    }

    /** list_remove_element: the list without that entry. */
    static method RemoveElement(list: seq<Entry>, e: Entry) returns (r: seq<Entry>)
      requires NoRepeats(IdsOf(list)) && e in list
      ensures IdsOf(r) == Without(IdsOf(list), e.id) && forall x :: x in r ==> x in list
    {
      var i := 0;
      while list[i] != e
        invariant 0 <= i < |list| && e !in list[..i]
        decreases |list| - i
      {
        i := i + 1;
      }
      r := list[..i] + list[i + 1..];
      WithoutAt(IdsOf(list), i);
      assert IdsOf(r) == IdsOf(list)[..i] + IdsOf(list)[i + 1..];
    }

    lemma ListedEntry(e: Entry)
      requires Valid() && replacement.Lru? && InFrame(e)
      ensures e in lru && NoRepeats(IdsOf(lru))
    {
      assert Has(Slots()[e.frame], e.id);
      FindsIt(Slots(), e.frame);
      assert e.id in IdsOf(lru);
      var j :| 0 <= j < |lru| && IdsOf(lru)[j] == e.id;
      assert InFrame(lru[j]) && Has(Slots()[lru[j].frame], e.id);
      FindsIt(Slots(), lru[j].frame);
    }

    /** list_find over the page table of the File:Tag. */
    method LookUp(id: PageId) returns (e: Entry?)
      requires Valid()
      ensures Valid() && Slots() == old(Slots()) && Abs() == old(Abs())
      ensures e == null <==> !Resident(Slots(), id)
      ensures e != null ==> e.id == id && InFrame(e) && e.frame == Find(Slots(), id)
    {
      TableFinds(id);
      if id.key !in tables { return null; }
      var table := tables[id.key];
      var i := 0;
      while i < |table|
        invariant 0 <= i <= |table| && forall j :: 0 <= j < i ==> table[j].id.number != id.number
      {
        if table[i].id.number == id.number { return table[i]; }
        i := i + 1;
      }
      return null;
    }

    /** The list without that entry. */
    method Others(e: Entry) returns (others: seq<Entry>)
      requires Valid() && replacement.Lru? && InFrame(e)
      ensures Valid() && Slots() == old(Slots()) && Abs() == old(Abs())
      ensures IdsOf(others) == Without(IdsOf(lru), e.id) && forall k :: 0 <= k < |others| ==> others[k] in lru
    {
      ListedEntry(e);
      others := RemoveElement(lru, e);
    }

    /** The entry moves to the most recently used end of the list. */
    method Promote(e: Entry)
      requires Valid() && replacement.Lru? && InFrame(e)
      modifies this`lru
      ensures Valid() && Slots() == old(Slots()) && Abs() == Touch(Lru, old(Abs()), e.frame)
    {
      ghost var touched := Touch(Lru, Abs(), e.frame);
      TouchIsConsistent(Lru, pageSize, Abs(), e.frame);
      var others := Others(e);
      lru := others + [e];
      assert IdsOf(lru) == IdsOf(others) + [e.id];
      assert Abs() == touched;
    }

    /** buscar_pagina: under LRU a page that is found becomes the most recently used. */
    method FindPage(id: PageId) returns (e: Entry?)
      requires Valid()
      modifies this`lru
      ensures Valid() && Slots() == old(Slots())
      ensures e == null <==> !Resident(old(Slots()), id)
      ensures e != null ==> e.id == id && InFrame(e) && e.frame == Find(old(Slots()), id)
      ensures Abs() == if e != null && replacement.Lru? then Touch(Lru, old(Abs()), e.frame) else old(Abs())
    {
      e := LookUp(id);
      if e != null {
        if replacement.Lru? { Promote(e); }
      }
    }

    // ---------------------------------------------------------------------- flushing

    /** The bytes of a stretch of a frame. */
    function CopyOut(frame: nat, off: nat, n: nat): (bytes: seq<byte>)
      requires frame < arena.Length0 && off + n <= arena.Length1
      reads arena
      ensures bytes == Part(Row(frame), off, n)
    {
      seq(n, j requires 0 <= j < n && off + n <= arena.Length1 && frame < arena.Length0 reads arena =>
        arena[frame, off + j])
    }

    /** One entry loses its dirty flag and, under CLOCK-M, its frame the M bit. */
    method CleanEntry(e: Entry)
      requires Layout() && FramesOk() && InFrame(e)
      modifies e`dirty, modified
      ensures Slots() == old(Slots())[e.frame := Holds(e.id, false)]
      ensures modified[..] == if replacement.Lru? then old(modified[..]) else old(modified[..])[e.frame := false]
    {
      e.dirty := false;
      if replacement.ClockM? {
        modified[e.frame] := false;
      }
    }

    /** A write-back that has got as far as the frames in `done`. */
    static ghost function CleanOf(slots: seq<Slot>, key: Key, done: set<nat>): seq<Slot> {
      seq(|slots|, i requires 0 <= i < |slots| =>
          if i in done && DirtyOf(slots[i], key) then Holds(slots[i].id, false) else slots[i])
    }

    static ghost function BitsOf(r: Replacement, slots: seq<Slot>, modified: seq<bool>, key: Key,
                        done: set<nat>): seq<bool>
      requires |modified| == |slots|
    {
      seq(|slots|, i requires 0 <= i < |slots| => modified[i] && (r.ClockM? ==> !(i in done && DirtyOf(slots[i], key))))
    }

    static lemma AllFlushed(r: Replacement, m: Cache.Memory, key: Key, done: set<nat>, packet: seq<(PageId, Block)>)
      requires |m.frames| == |m.slots| == |m.modified| && ListsDirty(m, key, packet)
      requires forall i: nat :: i < |m.slots| && DirtyOf(m.slots[i], key) ==> i in done
      ensures WriteBack(r, m, key)
        == m.(slots := CleanOf(m.slots, key, done), modified := BitsOf(r, m.slots, m.modified, key, done),
              pages := if key in m.refuses then m.pages else Deliver(m.pages, packet))
    {
      PacketDelivers(m, key, packet);
      assert WriteBack(r, m, key).slots == CleanOf(m.slots, key, done);
      assert WriteBack(r, m, key).modified == BitsOf(r, m.slots, m.modified, key, done);
    }

    /** The memory is m with a write-back of `key` done as far as the frames in `done`. */
    ghost predicate Flushing(m: Cache.Memory, key: Key, done: set<nat>, packet: seq<(PageId, Block)>)
      reads this, arena, entries, Live(), modified
    {
      && |m.frames| == |m.slots| == |m.modified| == entries.Length && NoPageTwice(m.slots)
      && Slots() == CleanOf(m.slots, key, done) && Rows() == m.frames
      && modified[..] == BitsOf(replacement, m.slots, m.modified, key, done)
      && ListsDone(m, key, done, packet)
    }

    static lemma OneMoreClean(r: Replacement, m: Cache.Memory, key: Key, done: set<nat>, f: nat)
      requires |m.slots| == |m.modified| && f < |m.slots| && DirtyOf(m.slots[f], key)
      ensures CleanOf(m.slots, key, done + {f}) == CleanOf(m.slots, key, done)[f := Holds(m.slots[f].id, false)]
      ensures BitsOf(r, m.slots, m.modified, key, done + {f}) ==
        if r.ClockM? then BitsOf(r, m.slots, m.modified, key, done)[f := false]
        else BitsOf(r, m.slots, m.modified, key, done)
    {
    }

    static lemma NothingToClean(r: Replacement, m: Cache.Memory, key: Key, done: set<nat>, f: nat)
      requires |m.frames| == |m.slots| == |m.modified| && NoPageTwice(m.slots) && f < |m.slots|
      requires f in done || !DirtyOf(m.slots[f], key)
      ensures CleanOf(m.slots, key, done + {f}) == CleanOf(m.slots, key, done)
      ensures BitsOf(r, m.slots, m.modified, key, done + {f}) == BitsOf(r, m.slots, m.modified, key, done)
    {
    }

    /** The page's number and bytes join the packet. */
    method PackEntry(e: Entry, packet: seq<(PageId, Block)>, ghost m: Cache.Memory, ghost done: set<nat>)
      returns (sent: seq<(PageId, Block)>)
      requires Layout() && |m.frames| == |m.slots| == entries.Length && NoPageTwice(m.slots) && Rows() == m.frames
      requires e.frame < entries.Length && m.slots[e.frame] == Holds(e.id, true)
      requires e.frame !in done && ListsDone(m, e.id.key, done, packet)
      ensures ListsDone(m, e.id.key, done + {e.frame}, sent)
    {
      var block := CopyOut(e.frame, 0, pageSize);
      assert block == Row(e.frame);
      sent := packet + [(e.id, block)];
      OneMoreListed(m, e.id.key, done, packet, e.frame);
    }

    /** The page becomes clean. */
    method MarkSent(e: Entry, ghost m: Cache.Memory, ghost done: set<nat>)
      requires Layout() && FramesOk() && InFrame(e) && |m.slots| == |m.modified| == entries.Length
      requires DirtyOf(m.slots[e.frame], e.id.key) && m.slots[e.frame].id == e.id
      requires Slots() == CleanOf(m.slots, e.id.key, done)
      requires modified[..] == BitsOf(replacement, m.slots, m.modified, e.id.key, done)
      modifies e`dirty, modified
      ensures Slots() == CleanOf(m.slots, e.id.key, done + {e.frame})
      ensures modified[..] == BitsOf(replacement, m.slots, m.modified, e.id.key, done + {e.frame})
    {
      OneMoreClean(replacement, m, e.id.key, done, e.frame);
      CleanEntry(e);
    }

    /** A dirty page joins the packet and becomes clean. */
    method SendEntry(e: Entry, packet: seq<(PageId, Block)>, ghost m: Cache.Memory, ghost done: set<nat>)
      returns (sent: seq<(PageId, Block)>)
      requires Layout() && FramesOk() && InFrame(e) && e.dirty && Flushing(m, e.id.key, done, packet)
      modifies e`dirty, modified
      ensures Flushing(m, e.id.key, done + {e.frame}, sent)
    {
      assert Slots()[e.frame] == Holds(e.id, true);
      sent := PackEntry(e, packet, m, done);
      MarkSent(e, m, done);
    }

    /** One turn of the flush loop. */
    method FlushEntry(e: Entry, packet: seq<(PageId, Block)>, ghost m: Cache.Memory, ghost done: set<nat>)
      returns (sent: seq<(PageId, Block)>)
      requires Layout() && FramesOk() && InFrame(e) && Flushing(m, e.id.key, done, packet)
      modifies e`dirty, modified
      ensures Flushing(m, e.id.key, done + {e.frame}, sent)
    {
      sent := packet;
      if e.dirty {
        sent := SendEntry(e, packet, m, done);
      } else {
        assert Slots()[e.frame] == Holds(e.id, false);
        NothingToClean(replacement, m, e.id.key, done, e.frame);
        NothingMoreListed(m, e.id.key, done, packet, e.frame);
      }
    }

    static lemma NothingDone(r: Replacement, m: Cache.Memory, key: Key)
      requires |m.frames| == |m.slots| == |m.modified|
      ensures CleanOf(m.slots, key, {}) == m.slots && BitsOf(r, m.slots, m.modified, key, {}) == m.modified
    {
    }

    lemma FlushStarts(key: Key)
      requires Layout() && NoPageTwice(Slots())
      ensures Flushing(Abs(), key, {}, [])
    {
      NothingDone(replacement, Abs(), key);
    }

    /** The flush loop over a page table. */
    method FlushTable(table: seq<Entry>, ghost key: Key) returns (packet: seq<(PageId, Block)>, ghost done: set<nat>)
      requires Layout() && FramesOk() && NoPageTwice(Slots())
      requires forall j :: 0 <= j < |table| ==> InFrame(table[j]) && table[j].id.key == key
      modifies modified, Live()
      ensures Live() == old(Live()) && FramesOk()
      ensures forall j :: 0 <= j < |table| ==> table[j].frame in done
      ensures Flushing(old(Abs()), key, done, packet)
    {
      ghost var m := Abs();
      done := {};
      packet := [];
      FlushStarts(key);
      var i := 0;
      while i < |table|
        invariant 0 <= i <= |table| && Live() == old(Live()) && FramesOk()
        invariant forall j :: 0 <= j < i ==> table[j].frame in done
        invariant Flushing(m, key, done, packet)
      {
        packet := FlushEntry(table[i], packet, m, done);
        done := done + {table[i].frame};
        i := i + 1;
      }
    }

    /** Storage takes the pages of the packet, unless it refuses it. */
    method SendPacket(key: Key, packet: seq<(PageId, Block)>)
      modifies this`pages
      ensures Slots() == old(Slots())
      ensures Abs() == old(Abs()).(pages := if key in refuses then old(pages) else Deliver(old(pages), packet))
    {
      if key !in refuses {
        pages := Deliver(pages, packet);
      }
    }

    /** With every dirty page in the packet, the write-back is done but for sending it. */
    lemma FlushedAll(m: Cache.Memory, key: Key, packet: seq<(PageId, Block)>, done: set<nat>)
      requires Flushing(m, key, done, packet)
      requires forall i: nat :: i < |m.slots| && DirtyOf(m.slots[i], key) ==> i in done
      ensures ListsDirty(m, key, packet) && EachOnce(packet)
      ensures WriteBack(replacement, m, key)
           == m.(slots := Slots(), modified := modified[..],
                 pages := if key in m.refuses then m.pages else Deliver(m.pages, packet))
    {
      DoneLists(m, key, done, packet);
      AllFlushed(replacement, m, key, done, packet);
    }

    /** flush_paginas_modificadas: one packet with every dirty page of the File:Tag, sent
        even when empty; the flags are cleared before Storage answers. */
    method FlushModified(key: Key) returns (ghost sent: seq<(PageId, Block)>)
      requires Sound()
      modifies this`pages, modified, Live()
      ensures Sound() && Live() == old(Live()) && Abs() == WriteBack(replacement, old(Abs()), key)
      ensures var m := old(Abs()); |m.frames| == |m.slots| && ListsDirty(m, key, sent) && EachOnce(sent)
    {
      ghost var m := Abs();
      var table := if key in tables then tables[key] else [];
      var packet, done := FlushTable(table, key);
      AllInTable(m, key, done);
      FlushedAll(m, key, packet, done);
      SendPacket(key, packet);
      sent := packet;
    }

    /** Every dirty page of the File:Tag is in its page table. */
    lemma AllInTable(m: Cache.Memory, key: Key, done: set<nat>)
      requires TablesOk() && |m.slots| == entries.Length
      requires forall i :: 0 <= i < |m.slots| ==> m.slots[i].Holds? == (entries[i] != null)
      requires forall i :: 0 <= i < |m.slots| && entries[i] != null ==>
          m.slots[i].id == entries[i].id && entries[i].frame == i
      requires key in tables ==> forall j :: 0 <= j < |tables[key]| ==> tables[key][j].frame in done
      ensures forall i: nat :: i < |m.slots| && DirtyOf(m.slots[i], key) ==> i in done
    {
      forall i: nat | i < |m.slots| && DirtyOf(m.slots[i], key) ensures i in done {
        var j :| 0 <= j < |tables[key]| && tables[key][j] == entries[i];
      }
    }

    // -------------------------------------------------------------------- replacement

    static lemma WithoutOneEntry(table: seq<Entry>, e: Entry, k: nat)
      requires k < |table| && table[k] == e && forall i, j :: 0 <= i < j < |table| ==> table[i] != table[j]
      ensures var rest := table[..k] + table[k + 1..];
        && (forall x :: x in rest <==> x in table && x != e)
        && (forall i, j :: 0 <= i < j < |rest| ==> rest[i] != rest[j])
    {
      var rest := table[..k] + table[k + 1..];
      forall x | x in table && x != e ensures x in rest {
        var j :| 0 <= j < |table| && table[j] == x;
        assert rest[if j < k then j else j - 1] == x;
      }
    }

    /** The entry leaves its page table; a table left empty is removed. */
    method RemoveFromTable(e: Entry)
      requires TablesOk() && InFrame(e)
      modifies this`tables
      ensures e.id.key in old(tables) && tables.Keys <= old(tables).Keys
      ensures forall key :: key in old(tables) && key != e.id.key ==> key in tables && tables[key] == old(tables)[key]
      ensures e.id.key in tables ==> tables[e.id.key] != []
      ensures e.id.key in tables ==>
        forall i, j :: 0 <= i < j < |tables[e.id.key]| ==> tables[e.id.key][i] != tables[e.id.key][j]
      ensures forall x :: x in old(tables)[e.id.key] && x != e <==> e.id.key in tables && x in tables[e.id.key]
      ensures forall key, j :: key in tables && 0 <= j < |tables[key]| ==>
        InFrame(tables[key][j]) && tables[key][j].id.key == key && tables[key][j] != e
    {
      ghost var before := tables;
      var table := tables[e.id.key];
      var k := 0;
      while table[k] != e
        invariant 0 <= k < |table| && e !in table[..k]
        decreases |table| - k
      {
        k := k + 1;
      }
      WithoutOneEntry(table, e, k);
      var rest := table[..k] + table[k + 1..];
      if rest == [] {
        tables := tables - {e.id.key};
      } else {
        tables := tables[e.id.key := rest];
      }
      forall key, j | key in tables && 0 <= j < |tables[key]|
        ensures InFrame(tables[key][j]) && tables[key][j].id.key == key && tables[key][j] != e
      {
        var x := tables[key][j];
        assert x in before[key];
        var k :| 0 <= k < |before[key]| && before[key][k] == x;
      }
    }

    /** The page tables list every entry but e. */
    ghost predicate TablesBut(e: Entry)
      reads this, entries
    {
      && (forall key :: key in tables ==> tables[key] != [])
      && (forall key, j :: key in tables && 0 <= j < |tables[key]| ==>
          InFrame(tables[key][j]) && tables[key][j].id.key == key && tables[key][j] != e)
      && (forall key, i, j :: key in tables && 0 <= i < j < |tables[key]| ==> tables[key][i] != tables[key][j])
      && (forall i :: 0 <= i < entries.Length && entries[i] != null && entries[i] != e ==>
            entries[i].id.key in tables && entries[i] in tables[entries[i].id.key])
    }

    method LeaveTable(e: Entry)
      requires TablesOk() && InFrame(e)
      modifies this`tables
      ensures TablesBut(e)
    {
      RemoveFromTable(e);
    }

    /** An entry that no table lists can be taken out of its frame. */
    method ClearFrame(e: Entry)
      requires Layout() && FramesOk() && InFrame(e) && TablesBut(e)
      modifies free, entries
      ensures Layout() && FramesOk() && TablesOk() && entries[e.frame] == null
      ensures forall i :: 0 <= i < entries.Length && i != e.frame ==> entries[i] == old(entries[i])
    {
      free[e.frame] := true;
      entries[e.frame] := null;
    }

    /** The frame becomes free and its page is forgotten. */
    method ReleaseFrame(e: Entry)
      requires Sound() && InFrame(e)
      modifies this`tables, free, entries
      ensures Layout() && FramesOk() && TablesOk() && Live() <= old(Live())
      ensures Slots() == old(Slots())[e.frame := Free]
      ensures forall i :: 0 <= i < entries.Length && i != e.frame ==> entries[i] == old(entries[i])
    {
      LeaveTable(e);
      ClearFrame(e);
    }

    /** The common part of both algorithms: a modified victim has its File:Tag flushed, and
        its frame becomes free. */
    method SwapOut(victim: Entry)
      requires Sound() && InFrame(victim)
      modifies this`tables, this`pages, free, entries, modified, Live()
      ensures Layout() && FramesOk() && TablesOk() && Live() <= old(Live())
      ensures forall i :: 0 <= i < entries.Length && i != victim.frame ==> entries[i] == old(entries[i])
      ensures var w := if old(victim.dirty) then WriteBack(replacement, old(Abs()), victim.id.key) else old(Abs());
        Abs() == w.(slots := w.slots[victim.frame := Free])
    {
      if victim.dirty { ghost var sent := FlushModified(victim.id.key); }
      ReleaseFrame(victim);
    }

    lemma LruEntry(k: nat)
      requires Valid() && k < |lru|
      ensures InFrame(lru[k]) && Slots()[lru[k].frame] == Holds(lru[k].id, lru[k].dirty)
      ensures lru[k].frame == Find(Slots(), lru[k].id)
    {
      FindsIt(Slots(), lru[k].frame);
    }

    /** The entries after the first of the list are in other frames. */
    lemma LruOthers()
      requires Valid() && replacement.Lru? && lru != []
      ensures forall k :: 0 < k < |lru| ==> InFrame(lru[k]) && lru[k].frame != lru[0].frame
    {
      forall k | 0 < k < |lru| ensures InFrame(lru[k]) && lru[k].frame != lru[0].frame {
        assert IdsOf(lru)[k] == lru[k].id && IdsOf(lru)[0] == lru[0].id;
      }
    }

    /** What replacing the first entry of the list amounts to. */
    lemma LruVictim()
      requires Valid() && replacement.Lru? && FirstFree(Slots()) == entries.Length
      ensures lru != [] && InFrame(lru[0]) && lru[0].frame == Victim(Lru, Abs())
      ensures Consistent(Lru, pageSize, Evict(Lru, Abs()))
      ensures var w := if lru[0].dirty then WriteBack(Lru, Abs(), lru[0].id.key) else Abs();
        Evict(Lru, Abs()) == w.(slots := w.slots[lru[0].frame := Free], lru := Abs().lru[1..])
    {
      VictimIsFrame(Lru, pageSize, Abs());
      EvictIsConsistent(Lru, pageSize, Abs());
      LruEntry(0);
    }

    /** The least recently used entry leaves the list. */
    method DropOldest() returns (e: Entry)
      requires Sound() && lru != []
      modifies this`lru
      ensures Sound() && Live() == old(Live()) && e == old(lru)[0] && lru == old(lru)[1..]
      ensures Slots() == old(Slots()) && Abs() == old(Abs()).(lru := old(Abs()).lru[1..])
    {
      e := lru[0];
      ghost var ids := IdsOf(lru);
      lru := lru[1..];
      assert IdsOf(lru) == ids[1..];
    }

    /** The first entry of the list is swapped out. */
    method SwapOldest() returns (victim: Entry)
      requires Valid() && replacement.Lru? && FirstFree(Slots()) == entries.Length
      modifies this`tables, this`lru, this`pages, free, entries, modified, Live()
      ensures Layout() && FramesOk() && TablesOk() && Live() <= old(Live())
      ensures old(lru) != [] && victim == old(lru)[0] && lru == old(lru)[1..]
      ensures victim.frame == Victim(Lru, old(Abs()))
      ensures forall i :: 0 <= i < entries.Length && i != victim.frame ==> entries[i] == old(entries[i])
      ensures Abs() == Evict(Lru, old(Abs()))
    {
      ghost var m := Abs();
      LruVictim();
      victim := DropOldest();
      SwapOut(victim);
      assert Abs() == Evict(Lru, m);
    }

    /** aplicar_lru.  With every frame taken the list is not empty, so the code's answer of
        frame 0 for an empty list is never given. */
    method ApplyLru() returns (frame: nat)
      requires Valid() && replacement.Lru? && FirstFree(Slots()) == entries.Length
      modifies this`tables, this`lru, this`pages, free, entries, modified, Live()
      ensures Valid() && Live() <= old(Live())
      ensures frame == Victim(Lru, old(Abs())) && Abs() == Evict(Lru, old(Abs()))
    {
      LruVictim();
      LruOthers();
      var victim := SwapOldest();
      frame := victim.frame;
      assert forall k :: 0 <= k < |lru| ==> InFrame(lru[k]);
    }

    /** The d-th frame a scan from `start` looks at. */
    method FrameAt(start: nat, d: nat) returns (idx: nat)
      requires start < entries.Length && d < entries.Length
      ensures idx < entries.Length && Steps(start, idx, entries.Length) == d
      ensures forall i :: 0 <= i < entries.Length && Steps(start, i, entries.Length) == d ==> i == idx
    {
      AroundIsModulo(start, d, entries.Length);
      StepsOfAround(start, d, entries.Length);
      idx := (start + d) % entries.Length;
    }

    /** A scan from `start` that ended at v (-1: at no frame) has passed over frame i. */
    static predicate PassedOver(start: nat, v: int, i: nat, n: nat)
      requires start < n && i < n && -1 <= v < n
    {
      v == -1 || Steps(start, i, n) < Steps(start, v, n)
    }

    /** First and third scan: the first frame from `start` with R = 0 and M = 0. */
    method ScanClean(start: nat) returns (v: int)
      requires Layout() && start < entries.Length
      ensures -1 <= v < entries.Length
      ensures v >= 0 ==> !referenced[v] && !modified[v]
      ensures forall i :: 0 <= i < entries.Length && PassedOver(start, v, i, entries.Length) ==>
          referenced[i] || modified[i]
    {
      var n := entries.Length;
      var d := 0;
      while d < n
        invariant 0 <= d <= n
        invariant forall i :: 0 <= i < n && Steps(start, i, n) < d ==> referenced[i] || modified[i]
      {
        var idx := FrameAt(start, d);
        if !referenced[idx] && !modified[idx] { return idx; }
        d := d + 1;
      }
      return -1;
    }

    /** Second scan: the first frame with R = 0 and M = 1, clearing R on those passed over. */
    method ScanModified(start: nat) returns (v: int)
      requires Layout() && start < entries.Length
      modifies referenced
      ensures -1 <= v < entries.Length
      ensures v >= 0 ==> !old(referenced[v]) && modified[v]
      ensures forall i :: 0 <= i < entries.Length && PassedOver(start, v, i, entries.Length) ==>
          old(referenced[i]) || !modified[i]
      ensures forall i :: 0 <= i < entries.Length ==>
        referenced[i] == (old(referenced[i]) && !PassedOver(start, v, i, entries.Length))
    {
      var n := entries.Length;
      var d := 0;
      while d < n
        invariant 0 <= d <= n
        invariant forall i :: 0 <= i < n && Steps(start, i, n) < d ==>
            (old(referenced[i]) || !modified[i]) && !referenced[i]
        invariant forall i :: 0 <= i < n && Steps(start, i, n) >= d ==> referenced[i] == old(referenced[i])
      {
        var idx := FrameAt(start, d);
        if !referenced[idx] && modified[idx] {
          return idx;
        } else {
          referenced[idx] := false;
        }
        d := d + 1;
      }
      return -1;
    }

    /** Fourth scan: the first frame with R = 0. */
    method ScanUnreferenced(start: nat) returns (v: int)
      requires Layout() && start < entries.Length
      ensures -1 <= v < entries.Length
      ensures v >= 0 ==> !referenced[v]
      ensures forall i :: 0 <= i < entries.Length && PassedOver(start, v, i, entries.Length) ==> referenced[i]
    {
      var n := entries.Length;
      var d := 0;
      while d < n
        invariant 0 <= d <= n
        invariant forall i :: 0 <= i < n && Steps(start, i, n) < d ==> referenced[i]
      {
        var idx := FrameAt(start, d);
        if !referenced[idx] { return idx; }
        d := d + 1;
      }
      return -1;
    }

    /** v is the first frame, going round from p, of the lowest class present. */
    static ghost predicate Lowest(referenced: seq<bool>, modified: seq<bool>, p: nat, v: nat)
      requires |referenced| == |modified| && p < |referenced| && v < |referenced|
    {
      && (forall i :: 0 <= i < |referenced| ==> Class(referenced[v], modified[v]) <= Class(referenced[i], modified[i]))
      && (forall i :: 0 <= i < |referenced| && PassedOver(p, v, i, |referenced|) ==>
            Class(referenced[v], modified[v]) < Class(referenced[i], modified[i]))
    }

    /** Such a frame is the one the specification picks, with the R bits it leaves. */
    static lemma LowestIsPicked(referenced: seq<bool>, modified: seq<bool>, p: nat, v: nat, after: seq<bool>)
      requires |referenced| == |modified| == |after| && p < |referenced| && v < |referenced|
      requires Lowest(referenced, modified, p, v)
      requires forall i :: 0 <= i < |after| ==>
        after[i] == (referenced[i] && !referenced[v] && (modified[v] ==> !PassedOver(p, v, i, |referenced|)))
      ensures Around(p, ClockSteps(referenced, modified, p), |referenced|) == v
      ensures Swept(referenced, modified, p) == after
    {
      LowestIsAround(referenced, modified, p, v);
    }

    static lemma LowestIsAround(referenced: seq<bool>, modified: seq<bool>, p: nat, v: nat)
      requires |referenced| == |modified| && p < |referenced| && v < |referenced|
      requires Lowest(referenced, modified, p, v)
      ensures Around(p, ClockSteps(referenced, modified, p), |referenced|) == v
      ensures Steps(p, v, |referenced|) == ClockSteps(referenced, modified, p)
    {
      var n, d := |referenced|, ClockSteps(referenced, modified, p);
      StepsOfAround(p, d, n);
      assert Around(p, d, n) == v;
    }

    /** The scans after the first: no frame is in class (0,0). */
    method ChooseUnclean(start: nat) returns (v: nat)
      requires Layout() && start < entries.Length && forall i :: 0 <= i < entries.Length ==>
          referenced[i] || modified[i]
      modifies referenced
      ensures v < entries.Length && Lowest(old(referenced[..]), modified[..], start, v)
      ensures forall i :: 0 <= i < entries.Length ==>
        referenced[i] ==
          (old(referenced[i]) && !old(referenced[v]) && (modified[v] ==> !PassedOver(start, v, i, entries.Length)))
    {
      var found := ScanModified(start);
      if found == -1 {
        assert forall i :: 0 <= i < entries.Length ==> PassedOver(start, -1, i, entries.Length);
        found := ScanClean(start);
        if found == -1 {
          assert forall i :: 0 <= i < entries.Length ==> PassedOver(start, -1, i, entries.Length);
          found := ScanUnreferenced(start);
          assert PassedOver(start, -1, start, entries.Length);
        }
      }
      v := found;
    }

    method MovePointerPast(v: nat)
      requires v < entries.Length
      modifies this`pointer
      ensures pointer == if v + 1 < entries.Length then v + 1 else 0
    {
      pointer := (v + 1) % entries.Length;
    }

    /** The four scans of aplicar_clock_m.  They always find a frame: the first, going round
        from the pointer, of the lowest class (R, M) present on entry. */
    method ChooseVictim() returns (v: nat)
      requires Layout() && pointer < entries.Length
      modifies referenced, this`pointer
      ensures v == Around(old(pointer), ClockSteps(old(referenced[..]), modified[..], old(pointer)), entries.Length)
      ensures referenced[..] == Swept(old(referenced[..]), modified[..], old(pointer))
      ensures pointer == if v + 1 < entries.Length then v + 1 else 0
    {
      ghost var before := referenced[..];
      var start := pointer;
      var found := ScanClean(start);
      if found == -1 {
        assert forall i :: 0 <= i < entries.Length ==> PassedOver(start, -1, i, entries.Length);
        v := ChooseUnclean(start);
      } else {
        v := found;
      }
      MovePointerPast(v);
      LowestIsPicked(before, modified[..], start, v, referenced[..]);
    }

    /** The first free frame going round from `start`, or -1. */
    method ScanFree(start: nat) returns (v: int)
      requires Layout() && start < entries.Length
      ensures -1 <= v < entries.Length && (v >= 0 ==> free[v])
      ensures forall i :: 0 <= i < entries.Length && PassedOver(start, v, i, entries.Length) ==> !free[i]
    {
      var n := entries.Length;
      var d := 0;
      while d < n
        invariant 0 <= d <= n
        invariant forall i :: 0 <= i < n && Steps(start, i, n) < d ==> !free[i]
      {
        var idx := FrameAt(start, d);
        if free[idx] { return idx; }
        d := d + 1;
      }
      return -1;
    }

    /** The chosen frame is freed and its two bits cleared. */
    method FreeChosen(frame: nat)
      requires Sound() && replacement.ClockM? && frame < entries.Length && entries[frame] != null
      modifies this`tables, this`pages, free, entries, referenced, modified, Live()
      ensures Layout() && FramesOk() && TablesOk() && Live() <= old(Live())
      ensures var s := old(Slots())[frame]; var m := old(Abs());
        var w := if Dirty(s) then WriteBack(ClockM, m, s.id.key) else m;
        Abs() == w.(slots := w.slots[frame := Free], referenced := m.referenced[frame := false],
            modified := w.modified[frame := false])
    {
      var victim := entries[frame];
      SwapOut(victim);
      referenced[frame] := false;
      modified[frame] := false;
    }

    /** The memory once the scans are over. */
    static ghost function Scanned(m: Cache.Memory): Cache.Memory
      requires Shaped(m)
    {
      var v := Victim(ClockM, m);
      m.(referenced := Swept(m.referenced, m.modified, m.pointer), pointer := if v + 1 < |m.slots| then v + 1 else 0)
    }

    static lemma ScannedThenFreed(m: Cache.Memory)
      requires Shaped(m)
      ensures var c, v := Scanned(m), Victim(ClockM, m);
        var w := if Dirty(m.slots[v]) then WriteBack(ClockM, c, m.slots[v].id.key) else c;
        Evict(ClockM, m) == w.(slots := w.slots[v := Free], referenced := c.referenced[v := false],
            modified := w.modified[v := false])
    {
    }

    method Scan() returns (frame: nat)
      requires Valid()
      modifies referenced, this`pointer
      ensures Sound() && Slots() == old(Slots()) && frame == Victim(ClockM, old(Abs())) && Abs() == Scanned(old(Abs()))
    {
      ghost var m := Abs();
      frame := ChooseVictim();
      assert Abs() == Scanned(m);
    }

    /** aplicar_clock_m with every frame taken. */
    method ReplaceByClock() returns (frame: nat)
      requires Valid() && replacement.ClockM? && FirstFree(Slots()) == entries.Length
      modifies this`tables, this`pointer, this`pages, free, entries, referenced, modified, Live()
      ensures Valid() && Live() <= old(Live())
      ensures frame == Victim(ClockM, old(Abs())) && Abs() == Evict(ClockM, old(Abs()))
    {
      ghost var m := Abs();
      VictimIsFrame(ClockM, pageSize, m);
      EvictIsConsistent(ClockM, pageSize, m);
      ScannedThenFreed(m);
      frame := Scan();
      FreeChosen(frame);
    }

    /** A free frame found by the scan is used as it is, and the pointer moves past it. */
    method UseFree(frame: nat)
      requires Valid() && frame < entries.Length
      modifies this`pointer
      ensures Valid() && Abs() == old(Abs()).(pointer := if frame + 1 < entries.Length then frame + 1 else 0)
    {
      ghost var m := Abs();
      MovePointerPast(frame);
      PointerIsFree(replacement, pageSize, m, pointer);
      assert Abs() == m.(pointer := pointer);
    }

    static lemma PointerIsFree(r: Replacement, ps: nat, m: Cache.Memory, p: nat)
      requires Consistent(r, ps, m) && p < |m.slots|
      ensures Consistent(r, ps, m.(pointer := p))
    {
    }

    /** aplicar_clock_m.  A free frame, when there is one, is used without replacing. */
    method ApplyClockM() returns (frame: nat)
      requires Valid() && replacement.ClockM?
      modifies this`tables, this`pointer, this`pages, free, entries, referenced, modified, Live()
      ensures Valid() && Live() <= old(Live()) && frame < entries.Length
      ensures FirstFree(old(Slots())) == entries.Length ==>
          frame == Victim(ClockM, old(Abs())) && Abs() == Evict(ClockM, old(Abs()))
      ensures FirstFree(old(Slots())) < entries.Length ==>
        old(free[frame]) && Abs() == old(Abs()).(pointer := if frame + 1 < entries.Length then frame + 1 else 0)
    {
      var v := ScanFree(pointer);
      if v != -1 {
        frame := v;
        UseFree(frame);
      } else {
        assert forall i :: 0 <= i < entries.Length ==> PassedOver(pointer, -1, i, entries.Length);
        frame := ReplaceByClock();
      }
    }

    // --------------------------------------------------------------------- loading

    /** memcpy into a frame. */
    method CopyIn(frame: nat, off: nat, bytes: seq<byte>)
      requires frame < arena.Length0 && off + |bytes| <= arena.Length1
      modifies arena
      ensures Rows() == old(Rows())[frame := Patch(old(Row(frame)), off, bytes)]
    {
      forall j | 0 <= j < |bytes| {
        arena[frame, off + j] := bytes[j];
      }
      assert Row(frame) == Patch(old(Row(frame)), off, bytes);
      assert forall i :: 0 <= i < arena.Length0 && i != frame ==> Row(i) == old(Row(i));
    }

    /** The entry for a page just loaded into a free frame: in the frame and in its table. */
    method AddEntry(id: PageId, frame: nat) returns (e: Entry)
      requires Layout() && FramesOk() && TablesOk() && frame < entries.Length && free[frame]
      modifies this`tables, free, entries
      ensures Layout() && FramesOk() && TablesOk() && fresh(e) && Live() <= old(Live()) + {e}
      ensures e.id == id && e.frame == frame && InFrame(e)
      ensures Slots() == old(Slots())[frame := Holds(id, false)]
      ensures forall i :: 0 <= i < entries.Length && i != frame ==> entries[i] == old(entries[i])
    {
      e := new Entry(id, frame);
      free[frame] := false;
      entries[frame] := e;
      var table := if id.key in tables then tables[id.key] else [];
      tables := tables[id.key := table + [e]];
    }

    /** Makes room when no frame is free. */
    method RoomFor() returns (frame: nat)
      requires Valid()
      modifies this`tables, this`lru, this`pointer, this`pages, free, entries, referenced, modified, Live()
      ensures Valid() && Live() <= old(Live()) && (Abs(), frame) == MakeRoom(replacement, old(Abs()))
    {
      var m := FirstFreeFrame();
      if m != -1 {
        frame := m;
      } else if replacement.Lru? {
        frame := ApplyLru();
      } else {
        frame := ApplyClockM();
      }
    }

    /** The new entry is registered with the replacement algorithm. */
    method Register(e: Entry)
      requires Layout() && FramesOk() && InFrame(e) && ListOk()
      modifies this`lru, referenced, modified
      ensures ListOk()
      ensures Abs() == if replacement.Lru? then old(Abs()).(lru := old(Abs()).lru + [e.id])
        else old(Abs()).(referenced := old(Abs()).referenced[e.frame := true],
            modified := old(Abs()).modified[e.frame := false])
    {
      if replacement.Lru? {
        assert IdsOf(lru + [e]) == IdsOf(lru) + [e.id];
        lru := lru + [e];
      } else {
        referenced[e.frame] := true;
        modified[e.frame] := false;
      }
    }

    /** The page goes into the frame. */
    method FillFrame(id: PageId, frame: nat)
      requires Valid() && frame < entries.Length && free[frame] && id in pages && !Resident(Slots(), id)
      modifies this`tables, this`lru, arena, free, entries, referenced, modified
      ensures Valid() && fresh(Live() - old(Live())) && Abs() == Fill(replacement, old(Abs()), frame, id)
    {
      ghost var m := Abs();
      FillIsConsistent(replacement, pageSize, m, frame, id);
      assert Patch(Row(frame), 0, pages[id]) == pages[id];
      CopyIn(frame, 0, pages[id]);
      var e := AddEntry(id, frame);
      assert Abs() == m.(slots := m.slots[frame := Holds(id, false)], frames := m.frames[frame := m.pages[id]]);
      Register(e);
    }

    /** cargar_pagina: makes room first, then asks Storage; answers -1 when Storage does not
        have the block, and the frame stays free. */
    method LoadPage(id: PageId) returns (frame: int)
      requires Valid() && !Resident(Slots(), id)
      modifies this`tables, this`lru, this`pointer, this`pages, arena, free, entries, referenced, modified, Live()
      ensures Valid() && fresh(Live() - old(Live())) && Abs() == Load(replacement, old(Abs()), id)
      ensures frame == if id in old(pages) then MakeRoom(replacement, old(Abs())).1 else -1
    {
      MakeRoomIsConsistent(replacement, pageSize, Abs());
      var room := RoomFor();
      if id !in pages { return -1; }
      FillFrame(id, room);
      frame := room;
    }

    /** A miss: load, then look up again. */
    method LoadAndFind(id: PageId) returns (e: Entry?)
      requires Valid() && !Resident(Slots(), id)
      modifies this`tables, this`lru, this`pointer, this`pages, arena, free, entries, referenced, modified, Live()
      ensures Valid() && fresh(Live() - old(Live())) && (e == null <==> !Resident(Slots(), id))
      ensures e != null ==> e.id == id && InFrame(e) && e.frame == Find(Slots(), id)
      ensures var w := Load(replacement, old(Abs()), id);
        Abs() == if Resident(w.slots, id) && replacement.Lru? then Touch(Lru, w, Find(w.slots, id)) else w
    {
      LoadIsConsistent(replacement, pageSize, Abs(), id);
      var frame := LoadPage(id);
      if frame == -1 { return null; }
      e := FindPage(id);
    }

    /** Finds the page or loads it. */
    method BringIn(id: PageId) returns (e: Entry?)
      requires Valid()
      modifies this`tables, this`lru, this`pointer, this`pages, arena, free, entries, referenced, modified, Live()
      ensures Valid() && fresh(Live() - old(Live())) && (e == null <==> !Resident(Slots(), id))
      ensures e != null ==> e.id == id && InFrame(e) && e.frame == Find(Slots(), id)
      ensures var m := old(Abs()); var w := if Resident(m.slots, id) then m else Load(replacement, m, id);
        Abs() == if Resident(w.slots, id) && replacement.Lru? then Touch(Lru, w, Find(w.slots, id)) else w
    {
      e := FindPage(id);
      if e == null {
        e := LoadAndFind(id);
      }
    }

    /** Under CLOCK-M a page in use has its R bit set. */
    method MarkReferenced(e: Entry)
      requires Valid() && replacement.ClockM? && InFrame(e)
      modifies referenced
      ensures Valid() && Slots() == old(Slots()) && Abs() == Touch(ClockM, old(Abs()), e.frame)
      ensures e.frame < referenced.Length && referenced[..] == old(referenced[..])[e.frame := true]
    {
      ghost var m := Abs();
      TouchIsConsistent(ClockM, pageSize, m, e.frame);
      referenced[e.frame] := true;
      assert Abs() == Touch(ClockM, m, e.frame);
    }

    /** Finds the page or loads it, and marks it used. */
    method UsePage(id: PageId) returns (e: Entry?)
      requires Valid()
      modifies this`tables, this`lru, this`pointer, this`pages, arena, free, entries, referenced, modified, Live()
      ensures Valid() && fresh(Live() - old(Live())) && Abs() == Use(replacement, old(Abs()), id)
      ensures e == null <==> !Resident(Slots(), id)
      ensures e != null ==> e.id == id && InFrame(e) && e.frame == Find(Slots(), id)
      ensures e != null && replacement.ClockM? ==> e.frame < referenced.Length && referenced[e.frame]
    {
      e := BringIn(id);
      if e != null {
        if replacement.ClockM? { MarkReferenced(e); }
      }
    }

    /** Stores bytes in a resident page, which becomes modified. */
    method PutBytes(e: Entry, off: nat, bytes: seq<byte>)
      requires Valid() && InFrame(e) && off + |bytes| <= pageSize
      modifies arena, modified, Live()
      ensures Valid() && Live() == old(Live()) && Abs() == Put(replacement, old(Abs()), e.frame, off, bytes)
    {
      PutIsConsistent(replacement, pageSize, Abs(), e.frame, off, bytes);
      ghost var m := Abs();
      e.dirty := true;
      if replacement.ClockM? {
        modified[e.frame] := true;
      }
      CopyIn(e.frame, off, bytes);
      assert Abs() == Put(replacement, m, e.frame, off, bytes);
    }

    // ------------------------------------------------------------- acceder_memoria

    /** The page of the File:Tag, used once more; null when Storage does not have it. */
    method Reach(key: Key, page: nat) returns (e: Entry?)
      requires Valid()
      modifies this`tables, this`lru, this`pointer, this`pages, arena, free, entries, referenced, modified, Live()
      ensures Valid() && fresh(Live() - old(Live())) && Abs() == UseFor(replacement, key, old(Abs()), page)
      ensures e == null <==> FrameFor(key, Abs(), page).Failed?
      ensures e != null ==> e.id == PageId(key, page) && InFrame(e) && e.frame == Find(Slots(), e.id)
    {
      e := UsePage(PageId(key, page));
      assert Abs().slots == Slots();
    }

    /** memcpy out of the frame that holds the page. */
    method FetchFrom(e: Entry, ghost key: Key, ghost page: nat, off: nat, n: nat) returns (bytes: seq<byte>)
      requires Valid() && InFrame(e) && e.id == PageId(key, page) && e.frame == Find(Slots(), e.id)
      requires off + n <= pageSize
      ensures Valid() && Live() == old(Live()) && Abs() == old(Abs())
      ensures var f := FrameFor(key, Abs(), page); f.Data? && bytes == Part(f.bytes, off, n)
    {
      bytes := CopyOut(e.frame, off, n);
    }

    /** One turn of the page loop of a READ. */
    method ReadPage(key: Key, page: nat, off: nat, n: nat) returns (bytes: Fetched)
      requires Valid() && off + n <= pageSize
      modifies this`tables, this`lru, this`pointer, this`pages, arena, free, entries, referenced, modified, Live()
      ensures Valid() && fresh(Live() - old(Live())) && Abs() == UseFor(replacement, key, old(Abs()), page)
      ensures bytes.Failed? <==> FrameFor(key, Abs(), page).Failed?
      ensures bytes.Data? ==> bytes.bytes == Part(FrameFor(key, Abs(), page).bytes, off, n)
    {
      var e := Reach(key, page);
      if e == null {
        bytes := Failed;
      } else {
        var b := FetchFrom(e, key, page, off, n);
        bytes := Data(b);
      }
    }

    /** One turn of the page loop of a WRITE. */
    method WritePage(key: Key, page: nat, off: nat, bytes: seq<byte>) returns (ok: bool)
      requires Valid() && off + |bytes| <= pageSize
      modifies this`tables, this`lru, this`pointer, this`pages, arena, free, entries, referenced, modified, Live()
      ensures Valid() && fresh(Live() - old(Live()))
      ensures var w := UseFor(replacement, key, old(Abs()), page);
        && ok == FrameFor(key, w, page).Data?
        && Abs() == if ok then PutFor(replacement, key, w, page, off, bytes) else w
    {
      var e := Reach(key, page);
      ok := e != null;
      if ok {
        PutBytes(e, off, bytes);
      }
    }

    /** g does what this memory does for `key`. */
    ghost predicate Acts(g: Pager<Cache.Memory>, key: Key) {
      && (forall m, p: nat {:trigger UseFor(replacement, key, m, p)} :: g.use(m, p) == UseFor(replacement, key, m, p))
      && (forall m, p: nat {:trigger FrameFor(key, m, p)} :: g.frame(m, p) == FrameFor(key, m, p))
      && (forall m, p: nat, off: nat, data {:trigger PutFor(replacement, key, m, p, off, data)} ::
            g.put(m, p, off, data) == PutFor(replacement, key, m, p, off, data))
    }

    /** One turn of the page loop of a READ that is to end in `end` with `res`. */
    method ReadTurn(key: Key, page: nat, off: nat, left: nat, ghost last: nat, data: seq<byte>,
                    ghost g: Pager<Cache.Memory>, ghost end: Cache.Memory, ghost res: Fetched)
      returns (ok: bool, gathered: seq<byte>)
      requires Valid() && Acts(g, key) && off < pageSize && left > 0 && page <= last
      requires ReadsTo(g, pageSize, Abs(), page, off, left, last, data, end, res)
      modifies this`tables, this`lru, this`pointer, this`pages, arena, free, entries, referenced, modified, Live()
      ensures Valid() && forall e :: e in Live() && e !in old(Live()) ==> fresh(e)
      ensures
        StillReadsTo(ok, g, pageSize, Abs(), page + 1, 0, LeftAfter(pageSize, off, left), last, gathered, end, res)
    {
      var n := if off + left > pageSize then pageSize - off else left;
      var here := ReadPage(key, page, off, n);
      ok, gathered := here.Data?, data + if here.Data? then here.bytes else [];
    }

    /** One turn of the page loop of a WRITE that is to end in `end` with `res`. */
    method WriteTurn(key: Key, page: nat, off: nat, content: seq<byte>, ghost last: nat,
                     ghost g: Pager<Cache.Memory>, ghost end: Cache.Memory, ghost res: bool) returns (ok: bool)
      requires Valid() && Acts(g, key) && off < pageSize && content != [] && page <= last
      requires WritesTo(g, pageSize, Abs(), page, off, content, last, end, res)
      modifies this`tables, this`lru, this`pointer, this`pages, arena, free, entries, referenced, modified, Live()
      ensures Valid() && forall e :: e in Live() && e !in old(Live()) ==> fresh(e)
      ensures !ok ==> Abs() == end && !res
      ensures ok ==> WritesTo(g, pageSize, Abs(), page + 1, 0, RestAfter(pageSize, off, content), last, end, res)
    {
      var n := if off + |content| > pageSize then pageSize - off else |content|;
      ok := WritePage(key, page, off, content[..n]);
    }

    /** The page loop of a READ.  Its second guard, on the page number, never ends it early. */
    method ReadLoop(key: Key, start: nat, off0: nat, len: nat, last: nat,
                    ghost g: Pager<Cache.Memory>, ghost end: Cache.Memory, ghost res: Fetched)
      returns (ok: bool, data: seq<byte>)
      requires Valid() && Acts(g, key) && off0 < pageSize
      requires StillReadsTo(true, g, pageSize, Abs(), start, off0, len, last, [], end, res)
      modifies this`tables, this`lru, this`pointer, this`pages, arena, free, entries, referenced, modified, Live()
      ensures Valid() && fresh(Live() - old(Live())) && Abs() == end
      ensures res == if ok then Data(data) else Failed
    {
      var page: nat, off: nat, left: nat := start, off0, len;
      ok, data := true, [];
      while ok && left > 0 && page <= last
        invariant Valid() && off < pageSize
        invariant forall e :: e in Live() && e !in old(Live()) ==> fresh(e)
        invariant StillReadsTo(ok, g, pageSize, Abs(), page, off, left, last, data, end, res)
        decreases left
      {
        ok, data := ReadTurn(key, page, off, left, last, data, g, end, res);
        page, off, left := page + 1, 0, LeftAfter(pageSize, off, left);
      }
    }

    /** The page loop of a WRITE. */
    method WriteLoop(key: Key, start: nat, off0: nat, data: seq<byte>, last: nat,
                     ghost g: Pager<Cache.Memory>, ghost end: Cache.Memory, ghost res: bool) returns (ok: bool)
      requires Valid() && Acts(g, key) && off0 < pageSize
      requires WritesTo(g, pageSize, Abs(), start, off0, data, last, end, res)
      modifies this`tables, this`lru, this`pointer, this`pages, arena, free, entries, referenced, modified, Live()
      ensures Valid() && fresh(Live() - old(Live())) && Abs() == end && ok == res
    {
      var page: nat, off: nat, content := start, off0, data;
      while content != [] && page <= last
        invariant Valid() && off < pageSize
        invariant forall e :: e in Live() && e !in old(Live()) ==> fresh(e)
        invariant WritesTo(g, pageSize, Abs(), page, off, content, last, end, res)
        decreases |content|
      {
        ok := WriteTurn(key, page, off, content, last, g, end, res);
        if !ok { return; }
        page, off, content := page + 1, 0, RestAfter(pageSize, off, content);
      }
      ok := true;
    }

    method ReadAccess(key: Key, offset: nat, len: nat) returns (bytes: Fetched)
      requires Valid()
      modifies this`tables, this`lru, this`pointer, this`pages, arena, free, entries, referenced, modified, Live()
      ensures Valid() && fresh(Live() - old(Live()))
      ensures (Abs(), bytes) == Read(replacement, pageSize, old(Abs()), key, offset, len)
    {
      if len == 0 { return Failed; }
      var page, off, last, end, res := LocateRead(key, offset, len);
      var ok, data := ReadLoop(key, page, off, len, last, PagerFor(replacement, key), end, res);
      bytes := if ok then Data(data) else Failed;
    }

    method WriteAccess(key: Key, offset: nat, content: seq<byte>) returns (ok: bool)
      requires Valid()
      modifies this`tables, this`lru, this`pointer, this`pages, arena, free, entries, referenced, modified, Live()
      ensures Valid() && fresh(Live() - old(Live()))
      ensures (Abs(), ok) == Write(replacement, pageSize, old(Abs()), key, offset, content)
    {
      if content == [] { return false; }
      var page, off, last, end, res := LocateWrite(key, offset, content);
      ok := WriteLoop(key, page, off, content, last, PagerFor(replacement, key), end, res);
    }

    /** The loops, bounded by the page of the last byte, do what READ and WRITE say. */
    static lemma ReadEnds(g: Pager<Cache.Memory>, ps: nat, m: Cache.Memory, page: nat, off: nat, len: nat, last: nat)
      returns (end: Cache.Memory, res: Fetched)
      requires off < ps && page + PagesLeft(ps, off, len) == last + 1
      ensures ReadsTo(g, ps, m, page, off, len, last, [], end, res)
      ensures (end, res) == ReadFrom(g, ps, m, page, off, len)
    {
      end, res := ReadFrom(g, ps, m, page, off, len).0, ReadFrom(g, ps, m, page, off, len).1;
      ReadsToReadFrom(g, ps, m, page, off, len, last, []);
      assert Joined([], res) == res;
    }

    static lemma WriteEnds(g: Pager<Cache.Memory>, ps: nat, m: Cache.Memory, page: nat, off: nat, content: seq<byte>,
                        last: nat)
      returns (end: Cache.Memory, res: bool)
      requires off < ps && page + PagesLeft(ps, off, |content|) == last + 1
      ensures WritesTo(g, ps, m, page, off, content, last, end, res)
      ensures (end, res) == WriteFrom(g, ps, m, page, off, content)
    {
      end, res := WriteFrom(g, ps, m, page, off, content).0, WriteFrom(g, ps, m, page, off, content).1;
      WritesToWriteFrom(g, ps, m, page, off, content, last);
    }

    /** First page, offset in it and last page of an access. */
    method LocateRead(ghost key: Key, offset: nat, len: nat)
      returns (page: nat, off: nat, last: nat, ghost end: Cache.Memory, ghost res: Fetched)
      requires Valid() && len > 0
      ensures Valid() && Abs() == old(Abs()) && Live() == old(Live())
      ensures off < pageSize && ReadsTo(PagerFor(replacement, key), pageSize, Abs(), page, off, len, last, [], end, res)
      ensures (end, res) == Read(replacement, pageSize, Abs(), key, offset, len)
    {
      page, off, last := offset / pageSize, offset % pageSize, (offset + len - 1) / pageSize;
      PageBoundHolds(pageSize, offset, len);
      end, res := ReadEnds(PagerFor(replacement, key), pageSize, Abs(), page, off, len, last);
    }

    method LocateWrite(ghost key: Key, offset: nat, content: seq<byte>)
      returns (page: nat, off: nat, last: nat, ghost end: Cache.Memory, ghost res: bool)
      requires Valid() && content != []
      ensures Valid() && Abs() == old(Abs()) && Live() == old(Live())
      ensures off < pageSize
      ensures WritesTo(PagerFor(replacement, key), pageSize, Abs(), page, off, content, last, end, res)
      ensures (end, res) == Write(replacement, pageSize, Abs(), key, offset, content)
    {
      page, off, last := offset / pageSize, offset % pageSize, (offset + |content| - 1) / pageSize;
      PageBoundHolds(pageSize, offset, |content|);
      end, res := WriteEnds(PagerFor(replacement, key), pageSize, Abs(), page, off, content, last);
    }

    /** What the worker's interpreter asks of the memory. */
    method Execute(q: Request) returns (reply: Reply)
      requires Valid()
      modifies this`tables, this`lru, this`pointer, this`pages, arena, free, entries, referenced, modified, Live()
      ensures Valid() && fresh(Live() - old(Live())) && (Abs(), reply) == Serve(replacement, pageSize, old(Abs()), q)
    {
      match q
      case ReadOf(key, offset, len) =>
        var bytes := ReadAccess(key, offset, len);
        reply := Content(bytes);
      case WriteTo(key, offset, data) =>
        var ok := WriteAccess(key, offset, data);
        reply := Written(ok);
      case FlushOf(key) =>
        WriteBackIsConsistent(replacement, pageSize, Abs(), key);
        ghost var sent := FlushModified(key);
        reply := Flushed;
    }
  }
}
