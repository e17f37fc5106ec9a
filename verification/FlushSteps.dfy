/** FLUSH: what it does page by page, when it succeeds, and when it leaves metadata
    and links in disagreement. */
module FlushSteps {
  import opened Bytes
  import opened Disk
  import opened DiskInvariant
  import opened StorageSteps

  /** Blocks the allocator can still hand out. */
  ghost function FreeBlocks(bits: seq<bool>): set<nat> {
    set b: nat | 1 <= b < |bits| && !bits[b]
  }

  ghost predicate WholeBlocks(g: Geometry, pages: seq<Page>) {
    forall p :: p in pages ==> |p.data| == g.blockSize
  }

  /** Page numbers the FLUSH accepts. */
  function Accepted(g: Geometry, t: Tag, pages: seq<Page>): seq<Page>
    requires g.blockSize > 0
  {
    if pages == [] then []
    else Accepted(g, t, pages[..|pages| - 1]) +
         (if InRange(g, t, pages[|pages| - 1].number) then [pages[|pages| - 1]] else [])
  }

  /** A FLUSH in progress has only used blocks that were free when it started. */
  ghost predicate OnlyFreeBlocksUsed(d: Disk, k: Key, f: Flushing)
    requires k in d.tags
  {
    && |f.bits| == |d.bits| && |f.blocks| == |d.tags[k].blocks|
    && (forall b: nat :: b < |d.bits| && d.bits[b] ==> f.bits[b])
    && (forall i :: 0 <= i < |f.blocks| && f.blocks[i] != d.tags[k].blocks[i]
          ==> 1 <= f.blocks[i] < |d.bits| && !d.bits[f.blocks[i]])
    && (forall b: nat :: b in d.phys && (b == 0 || (b < |d.bits| && d.bits[b])) ==>
          b in f.phys && f.phys[b] == d.phys[b])
  }

  /** The "only link" test of FLUSH never succeeds. */
  lemma FlushSeesTwoNames(g: Geometry, d: Disk, k: Key, f: Flushing, i: int)
    requires k in d.tags && LinkInv(g, Saved(d, k, f)) && 0 <= i < |f.blocks|
    ensures i in f.dir && f.dir[i] == f.blocks[i] && NLink(InProgress(d, k, f), f.dir[i]) >= 2
  {
    LiveBlockHasTwoNames(g, Saved(d, k, f), k, i);
    assert Refs(InProgress(d, k, f).tags, f.dir[i]) == Refs(Saved(d, k, f).tags, f.dir[i]);
  }

  lemma SavedRedirects(d: Disk, k: Key, f: Flushing, i: nat, n: nat, data: seq<byte>, ok: bool)
    requires k in d.tags && |f.blocks| == |d.tags[k].blocks| && i < |f.blocks| && n < |f.bits|
    ensures Saved(d, k, Flushing(f.bits[n := true], f.phys[n := data], f.dir[i := n], f.blocks[i := n], ok))
      == Redirect(Saved(d, k, f), k, i, n, data)
  {
  }

  /** An accepted page while a block is free redirects its position to that block. */
  lemma FlushPageRedirects(g: Geometry, d: Disk, k: Key, f: Flushing, p: Page)
    requires |f.bits| > 0 && k in d.tags && LinkInv(g, Saved(d, k, f)) && |f.blocks| == |d.tags[k].blocks|
    requires InRange(g, d.tags[k], p.number) && FirstFree(f.bits, 1) < |f.bits|
    ensures var n := FirstFree(f.bits, 1);
      && FlushPage(g, d, k, f, p)
         == Flushing(f.bits[n := true], f.phys[n := p.data], f.dir[p.number := n], f.blocks[p.number := n], f.ok)
      && Saved(d, k, FlushPage(g, d, k, f, p)) == Redirect(Saved(d, k, f), k, p.number, n, p.data)
  {
    FlushSeesTwoNames(g, d, k, f, p.number);
    SavedRedirects(d, k, f, p.number, FirstFree(f.bits, 1), p.data, f.ok);
  }

  lemma FirstFreeIsFree(bits: seq<bool>)
    requires |bits| > 0
    ensures var n := FirstFree(bits, 1);
      && (n < |bits| <==> FreeBlocks(bits) != {})
      && (n < |bits| ==> |FreeBlocks(bits[n := true])| == |FreeBlocks(bits)| - 1)
  {
    var n := FirstFree(bits, 1);
    if n < |bits| {
      assert n in FreeBlocks(bits);
      assert FreeBlocks(bits[n := true]) == FreeBlocks(bits) - {n};
    }
  }

  lemma RedirectUsesFreeBlock(d: Disk, k: Key, f: Flushing, i: int, n: nat, data: seq<byte>, ok: bool)
    requires k in d.tags && OnlyFreeBlocksUsed(d, k, f) && 0 <= i < |f.blocks| && 1 <= n < |f.bits| && !f.bits[n]
    requires d.tags[k].blocks[i] == 0 || (d.tags[k].blocks[i] < |d.bits| && d.bits[d.tags[k].blocks[i]])
    ensures OnlyFreeBlocksUsed(d, k,
        Flushing(f.bits[n := true], f.phys[n := data], f.dir[i := n], f.blocks[i := n], ok))
    ensures n != d.tags[k].blocks[i]
  {
  }

  /** Each page of a FLUSH keeps the link invariant of the disk with BLOCKS saved. */
  lemma FlushPageKeepsLinks(g: Geometry, d: Disk, k: Key, f: Flushing, p: Page)
    requires |f.bits| > 0 && !Frozen(d, k) && |f.blocks| == |d.tags[k].blocks|
    requires LinkInv(g, Saved(d, k, f)) && |p.data| >= g.blockSize
    ensures LinkInv(g, Saved(d, k, FlushPage(g, d, k, f, p)))
  {
    if InRange(g, d.tags[k], p.number) {
      FlushSeesTwoNames(g, d, k, f, p.number);
      var n := FirstFree(f.bits, 1);
      if n < |f.bits| {
        FlushPageRedirects(g, d, k, f, p);
        RedirectLinks(g, Saved(d, k, f), k, p.number, n, p.data);
      }
    }
  }

  lemma {:induction false} FlushPagesKeepLinks(g: Geometry, d: Disk, k: Key, pages: seq<Page>)
    requires LinkInv(g, d) && !Frozen(d, k) && WholeBlocks(g, pages)
    ensures LinkInv(g, Saved(d, k, FlushPages(g, d, k, pages)))
  {
    if pages == [] {
      assert Saved(d, k, FlushPages(g, d, k, [])) == d;
    } else {
      var before, p := pages[..|pages| - 1], pages[|pages| - 1];
      assert p in pages && forall q :: q in before ==> q in pages;
      FlushPagesKeepLinks(g, d, k, before);
      FlushPageKeepsLinks(g, d, k, FlushPages(g, d, k, before), p);
    }
  }

  lemma FlushPageKeepsInv(g: Geometry, d: Disk, k: Key, f: Flushing, p: Page)
    requires |f.bits| > 0 && Allocated(d) && !Frozen(d, k)
    requires OnlyFreeBlocksUsed(d, k, f) && RunInv(g, Saved(d, k, f)) && |p.data| == g.blockSize
    ensures var f' := FlushPage(g, d, k, f, p);
      && OnlyFreeBlocksUsed(d, k, f') && RunInv(g, Saved(d, k, f'))
      && if InRange(g, d.tags[k], p.number) && FreeBlocks(f.bits) != {}
         then f'.ok == f.ok && f'.blocks[p.number] != d.tags[k].blocks[p.number]
              && |FreeBlocks(f'.bits)| == |FreeBlocks(f.bits)| - 1
              && (forall i :: 0 <= i < |f.blocks| && i != p.number ==> f'.blocks[i] == f.blocks[i])
         else f' == f.(ok := false)
  {
    FirstFreeIsFree(f.bits);
    if InRange(g, d.tags[k], p.number) {
      FlushSeesTwoNames(g, d, k, f, p.number);
      var n := FirstFree(f.bits, 1);
      if n < |f.bits| {
        FlushPageRedirects(g, d, k, f, p);
        RedirectKeepsRunInv(g, Saved(d, k, f), k, p.number, n, p.data);
        assert Holds(d, k, p.number, d.tags[k].blocks[p.number]);
        RedirectUsesFreeBlock(d, k, f, p.number, n, p.data, f.ok);
      }
    }
  }

  // --------------------------------------------------------------- whole FLUSH

  ghost predicate AllInRange(g: Geometry, t: Tag, pages: seq<Page>)
    requires g.blockSize > 0
  {
    forall p :: p in pages ==> InRange(g, t, p.number)
  }

  ghost predicate NoneInRange(g: Geometry, t: Tag, pages: seq<Page>)
    requires g.blockSize > 0
  {
    forall p :: p in pages ==> !InRange(g, t, p.number)
  }

  lemma RangesOfMore(g: Geometry, t: Tag, before: seq<Page>, p: Page)
    requires g.blockSize > 0
    ensures AllInRange(g, t, before + [p]) <==> AllInRange(g, t, before) && InRange(g, t, p.number)
    ensures NoneInRange(g, t, before + [p]) <==> NoneInRange(g, t, before) && !InRange(g, t, p.number)
  {
    assert p in before + [p] && forall q :: q in before ==> q in before + [p];
  }

  lemma {:induction false} AcceptedCounts(g: Geometry, t: Tag, pages: seq<Page>)
    requires g.blockSize > 0
    ensures |Accepted(g, t, pages)| <= |pages|
    ensures |Accepted(g, t, pages)| == |pages| <==> AllInRange(g, t, pages)
    ensures Accepted(g, t, pages) == [] <==> NoneInRange(g, t, pages)
  {
    if pages != [] {
      var before, p := pages[..|pages| - 1], pages[|pages| - 1];
      AcceptedCounts(g, t, before);
      RangesOfMore(g, t, before, p);
      assert pages == before + [p];
    }
  }

  /** A FLUSH after n pages, of which `good` were in range. */
  ghost predicate FlushedSoFar(g: Geometry, d: Disk, k: Key, f: Flushing, good: seq<Page>, n: nat)
    requires k in d.tags
  {
    && OnlyFreeBlocksUsed(d, k, f) && RunInv(g, Saved(d, k, f))
    && |FreeBlocks(f.bits)| == (if |good| <= |FreeBlocks(d.bits)| then |FreeBlocks(d.bits)| - |good| else 0)
    && (f.ok <==> |good| == n && |good| <= |FreeBlocks(d.bits)|)
    && (good == [] || FreeBlocks(d.bits) == {} ==> InProgress(d, k, f) == d)
    && (good != [] && FreeBlocks(d.bits) != {} ==> f.blocks != d.tags[k].blocks)
  }

  lemma OnePageMore(g: Geometry, d: Disk, k: Key, f: Flushing, p: Page, good: seq<Page>, n: nat)
    requires g.blockSize > 0 && |f.bits| > 0 && Allocated(d) && !Frozen(d, k) && |p.data| == g.blockSize
    requires FlushedSoFar(g, d, k, f, good, n) && |good| <= n
    ensures FlushedSoFar(g, d, k, FlushPage(g, d, k, f, p),
        good + (if InRange(g, d.tags[k], p.number) then [p] else []), n + 1)
  {
    FlushPageKeepsInv(g, d, k, f, p);
  }

  lemma {:induction false} FlushPagesKeepInv(g: Geometry, d: Disk, k: Key, pages: seq<Page>)
    requires RunInv(g, d) && !Frozen(d, k) && WholeBlocks(g, pages)
    ensures FlushedSoFar(g, d, k, FlushPages(g, d, k, pages), Accepted(g, d.tags[k], pages), |pages|)
  {
    if pages == [] {
      assert Saved(d, k, FlushPages(g, d, k, [])) == d;
    } else {
      var before := pages[..|pages| - 1];
      var p := pages[|pages| - 1];
      assert p in pages && forall q :: q in before ==> q in pages;
      FlushPagesKeepInv(g, d, k, before);
      AcceptedCounts(g, d.tags[k], before);
      OnePageMore(g, d, k, FlushPages(g, d, k, before), p, Accepted(g, d.tags[k], before), |before|);
    }
  }

  /** A FLUSH that changes nothing, or succeeds: every page is in range and there are
      blocks for all of them, or no page is in range, or no block is free. */
  ghost predicate Flushable(g: Geometry, d: Disk, k: Key, pages: seq<Page>)
    requires g.blockSize > 0 && k in d.tags
  {
    || (AllInRange(g, d.tags[k], pages) && |pages| <= |FreeBlocks(d.bits)|)
    || NoneInRange(g, d.tags[k], pages)
    || FreeBlocks(d.bits) == {}
  }

  /** FLUSH returns true exactly when all its pages are in range and fit. */
  lemma FlushSucceedsIff(g: Geometry, d: Disk, k: Key, pages: seq<Page>)
    requires RunInv(g, d) && WholeBlocks(g, pages)
    ensures Flush(g, d, k, pages).ok <==>
      (!Frozen(d, k) && AllInRange(g, d.tags[k], pages) && |pages| <= |FreeBlocks(d.bits)|)
  {
    if !Frozen(d, k) {
      FlushPagesKeepInv(g, d, k, pages);
      AcceptedCounts(g, d.tags[k], pages);
    }
  }

  /** FLUSH keeps the run invariant exactly when it is flushable: a FLUSH that fails
      after relinking a page leaves links that BLOCKS does not record. */
  lemma FlushKeepsRunInvIff(g: Geometry, d: Disk, k: Key, pages: seq<Page>)
    requires RunInv(g, d) && WholeBlocks(g, pages)
    ensures RunInv(g, Flush(g, d, k, pages).disk) <==> Frozen(d, k) || Flushable(g, d, k, pages)
  {
    if !Frozen(d, k) {
      var f := FlushPages(g, d, k, pages);
      FlushPagesKeepInv(g, d, k, pages);
      AcceptedCounts(g, d.tags[k], pages);
      if !Flushable(g, d, k, pages) {
        HalfFlushedTagDisagrees(g, d, k, f);
      }
    }
  }

  lemma HalfFlushedTagDisagrees(g: Geometry, d: Disk, k: Key, f: Flushing)
    requires k in d.tags && LinkInv(g, Saved(d, k, f))
    requires |f.blocks| == |d.tags[k].blocks| && f.blocks != d.tags[k].blocks
    ensures !LinkInv(g, InProgress(d, k, f))
  {
    assert TagOk(g, Saved(d, k, f), k);
    var i :| 0 <= i < |f.blocks| && f.blocks[i] != d.tags[k].blocks[i];
    assert DirOf(f.blocks)[i] != DirOf(d.tags[k].blocks)[i];
    assert !TagOk(g, InProgress(d, k, f), k);
  }

  // ----------------------------------------------------- what FLUSH leaves behind

  /** The bytes position i should hold: those of its last page, else the old ones. */
  function LastPage(pages: seq<Page>, i: nat, otherwise: seq<byte>): seq<byte> {
    if pages == [] then otherwise
    else if pages[|pages| - 1].number == i then pages[|pages| - 1].data
    else LastPage(pages[..|pages| - 1], i, otherwise)
  }

  /** A page that is taken: its position holds it, the others keep theirs. */
  lemma FlushPageDelivers(g: Geometry, d: Disk, k: Key, f: Flushing, p: Page, i: nat)
    requires k in d.tags && |f.blocks| == |d.tags[k].blocks| && |f.bits| > 0 && RunInv(g, Saved(d, k, f))
    requires i < |f.blocks| && f.blocks[i] in f.phys
    requires InRange(g, d.tags[k], p.number) && FreeBlocks(f.bits) != {}
    ensures var f' := FlushPage(g, d, k, f, p);
      f'.blocks[i] in f'.phys && f'.phys[f'.blocks[i]] == if p.number == i then p.data else f.phys[f.blocks[i]]
  {
    FlushSeesTwoNames(g, d, k, f, p.number);
    var n := FirstFree(f.bits, 1);
    FirstFreeIsFree(f.bits);
    FreeBlockIsUnused(g, Saved(d, k, f), n);
    assert !Holds(Saved(d, k, f), k, i, n);
  }

  /** The pages a FLUSH takes: those in range, as long as there are free blocks. */
  ghost function Taken(g: Geometry, d: Disk, k: Key, pages: seq<Page>): seq<Page>
    requires g.blockSize > 0 && k in d.tags
  {
    var good, n := Accepted(g, d.tags[k], pages), |FreeBlocks(d.bits)|;
    if |good| <= n then good else good[..n]
  }

  /** What one more page adds. */
  lemma TakenGrows(g: Geometry, d: Disk, k: Key, before: seq<Page>, p: Page)
    requires g.blockSize > 0 && k in d.tags
    ensures Taken(g, d, k, before + [p]) == Taken(g, d, k, before) +
      if InRange(g, d.tags[k], p.number) && |Accepted(g, d.tags[k], before)| < |FreeBlocks(d.bits)| then [p] else []
  {
    assert (before + [p])[..|before|] == before;
  }

  /** One page more, taken or not, of a FLUSH whose position i holds its last page. */
  lemma OnePageStored(g: Geometry, d: Disk, k: Key, f: Flushing, p: Page, i: nat, taken: seq<Page>, before: seq<byte>)
    requires k in d.tags && |f.blocks| == |d.tags[k].blocks| && |f.bits| > 0 && RunInv(g, Saved(d, k, f))
    requires i < |f.blocks| && f.blocks[i] in f.phys && f.phys[f.blocks[i]] == LastPage(taken, i, before)
    ensures var f' := FlushPage(g, d, k, f, p);
      var more := if InRange(g, d.tags[k], p.number) && FreeBlocks(f.bits) != {} then [p] else [];
      f'.blocks[i] in f'.phys && f'.phys[f'.blocks[i]] == LastPage(taken + more, i, before)
  {
    if InRange(g, d.tags[k], p.number) && FreeBlocks(f.bits) != {} {
      FlushPageDelivers(g, d, k, f, p, i);
      assert (taken + [p])[..|taken|] == taken;
    } else {
      FirstFreeIsFree(f.bits);
      if InRange(g, d.tags[k], p.number) { FlushSeesTwoNames(g, d, k, f, p.number); }
      assert taken + [] == taken;
    }
  }

  lemma RoomLeft(g: Geometry, d: Disk, k: Key, pages: seq<Page>)
    requires RunInv(g, d) && !Frozen(d, k) && WholeBlocks(g, pages)
    ensures var f := FlushPages(g, d, k, pages);
      && RunInv(g, Saved(d, k, f))
      && (FreeBlocks(f.bits) != {} <==> |Accepted(g, d.tags[k], pages)| < |FreeBlocks(d.bits)|)
  {
    FlushPagesKeepInv(g, d, k, pages);
  }

  /** Whatever a FLUSH answers, each position holds the last page taken for it, and positions
      without one hold what they held before. */
  lemma {:induction false} FlushDelivers(g: Geometry, d: Disk, k: Key, pages: seq<Page>, i: nat)
    requires RunInv(g, d) && !Frozen(d, k) && WholeBlocks(g, pages)
    requires i < |d.tags[k].blocks| && d.tags[k].blocks[i] in d.phys
    ensures var f := FlushPages(g, d, k, pages);
      f.blocks[i] in f.phys && f.phys[f.blocks[i]] == LastPage(Taken(g, d, k, pages), i, d.phys[d.tags[k].blocks[i]])
  {
    if pages != [] {
      var before, p := pages[..|pages| - 1], pages[|pages| - 1];
      assert before + [p] == pages && p in pages && forall q :: q in before ==> q in pages;
      RoomLeft(g, d, k, before);
      FlushDelivers(g, d, k, before, i);
      TakenGrows(g, d, k, before, p);
      OnePageStored(g, d, k, FlushPages(g, d, k, before), p, i, Taken(g, d, k, before), d.phys[d.tags[k].blocks[i]]);
    }
  }

  /** A FLUSH that succeeds takes all its pages. */
  lemma {:induction false} AllTaken(g: Geometry, d: Disk, k: Key, pages: seq<Page>)
    requires g.blockSize > 0 && k in d.tags && AllInRange(g, d.tags[k], pages) && |pages| <= |FreeBlocks(d.bits)|
    ensures Taken(g, d, k, pages) == pages
  {
    if pages != [] {
      var before, p := pages[..|pages| - 1], pages[|pages| - 1];
      assert before + [p] == pages && p in pages && forall q :: q in before ==> q in pages;
      AllTaken(g, d, k, before);
      TakenGrows(g, d, k, before, p);
      AcceptedCounts(g, d.tags[k], before);
    }
  }
}
