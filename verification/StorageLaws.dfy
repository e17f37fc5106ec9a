/** What each Storage operation answers and what it leaves behind, said of the fields of the disk
    alone: whom it refuses, which position it links where, what the blocks hold, whose bits it
    clears. */
module StorageLaws {
  import opened Bytes
  import opened Disk
  import opened DiskInvariant
  import opened StorageSteps
  import opened FlushSteps
  import opened StorageRuns

  /** Some File:Tag has a hard link to b. */
  ghost predicate Linked(d: Disk, b: nat) {
    exists k, i :: k in d.tags && i in d.tags[k].dir && d.tags[k].dir[i] == b
  }

  /** No File:Tag but `k` is touched. */
  ghost predicate OthersKept(d: Disk, d': Disk, k: Key) {
    forall k' :: k' != k ==> (k' in d'.tags <==> k' in d.tags) && (k' in d.tags ==> d'.tags[k'] == d.tags[k'])
  }

  /** Logical block i is a link to blocks[i], and there are no other links. */
  ghost predicate LinksAre(dir: map<nat, nat>, blocks: seq<nat>) {
    (forall i: nat :: i in dir <==> i < |blocks|) && (forall i: nat :: i in dir && i < |blocks| ==> dir[i] == blocks[i])
  }

  lemma LinkedIsRefs(d: Disk, b: nat)
    ensures Linked(d, b) <==> Refs(d.tags, b) != {}
  {
    if k, i :| k in d.tags && i in d.tags[k].dir && d.tags[k].dir[i] == b {
      assert (k, i) in Refs(d.tags, b);
    }
  }

  lemma TimesGrows(a: int, b: int, m: nat)
    requires a <= b
    ensures a * m <= b * m
  {
  }

  /** The last of CeilDiv(n, m) blocks of m bytes holds the last of n bytes. */
  lemma CeilDivBounds(n: nat, m: nat, i: nat)
    requires m > 0
    ensures (CeilDiv(n, m) - 1) * m < n <= CeilDiv(n, m) * m
    ensures i < CeilDiv(n, m) <==> i * m < n
  {
    var c := CeilDiv(n, m);
    assert n + m - 1 == m * c + (n + m - 1) % m;
    assert (c - 1) * m == c * m - m;
    if i < c { TimesGrows(i, c - 1, m); } else { TimesGrows(c, i, m); }
  }

  lemma RefusedOrNot(d: Disk, k: Key)
    ensures Frozen(d, k) <==> !(k in d.tags && !d.tags[k].committed && !SpellsInitial(k))
    ensures k in d.tags && !SpellsInitial(k) ==> k != INITIAL_KEY
  {
    ProtectedIsSpelling(k);
    ProtectedIsSpelling(INITIAL_KEY);
  }

  lemma OwnBlockIsLinked(g: Geometry, d: Disk, k: Key, b: nat)
    requires LinkInv(g, d) && k in d.tags
    ensures b in d.tags[k].blocks ==> Refs(d.tags, b) != {}
  {
    if b in d.tags[k].blocks {
      var i :| 0 <= i < |d.tags[k].blocks| && d.tags[k].blocks[i] == b;
      assert Holds(d, k, i, b);
      NoRefsIff(g, d, b);
    }
  }

  // --------------------------------------------------------------------- TRUNCATE

  /** TRUNCATE answers true exactly when the File:Tag exists, is not COMMITED and is not written
      like initial_file:BASE; else it leaves no trace. */
  lemma TruncateAnswers(g: Geometry, d: Disk, k: Key, size: nat)
    requires g.blockSize > 0
    ensures var o := Truncate(g, d, k, size);
      && (o.ok <==> k in d.tags && !d.tags[k].committed && !SpellsInitial(k))
      && (!o.ok ==> o.disk == d)
  {
    RefusedOrNot(d, k);
  }

  /** It records the size asked for and gives exactly the blocks that size needs: the old ones as
      far as they go, then links to block 0.  The bits cleared are those of the old blocks to
      which no link is left. */
  lemma TruncateLaw(g: Geometry, d: Disk, k: Key, size: nat)
    requires LinkInv(g, d) && Truncate(g, d, k, size).ok
    ensures var d' := Truncate(g, d, k, size).disk; var old', t' := d.tags[k].blocks, d'.tags[k];
      && d'.phys == d.phys && d'.index == d.index && OthersKept(d, d', k)
      && t'.size == size && !t'.committed && LinksAre(t'.dir, t'.blocks)
      && (|t'.blocks| - 1) * g.blockSize < size <= |t'.blocks| * g.blockSize
      && (forall i :: 0 <= i < |t'.blocks| ==> t'.blocks[i] == if i < |old'| then old'[i] else 0)
      && |d'.bits| == |d.bits|
      && (forall b: nat :: b < |d.bits| ==> d'.bits[b] == (d.bits[b] && !(b in old' && !Linked(d', b))))
  {
    TruncateFreesPrecisely(g, d, k, size);
    CeilDivBounds(size, g.blockSize, 0);
    var d' := Truncate(g, d, k, size).disk;
    forall b: nat | b < |d.bits| ensures LostLastLink(d, d', b) <==> b in d.tags[k].blocks && !Linked(d', b) {
      TruncateOrphans(g, d, k, size, b);
      LinkedIsRefs(d', b);
      OwnBlockIsLinked(g, d, k, b);
    }
  }

  // -------------------------------------------------------------------------- TAG

  /** TAG answers true exactly when its source exists, is not written like initial_file:BASE and
      the new name is not taken.  The copy has the source's size, BLOCKS and links, is not
      COMMITED, and nothing else changes. */
  lemma TagLaw(d: Disk, src: Key, dst: Key)
    ensures var o := TagFrom(d, src, dst);
      && (o.ok <==> src in d.tags && !SpellsInitial(src) && dst !in d.tags)
      && (!o.ok ==> o.disk == d)
      && (o.ok ==>
            var s := d.tags[src];
            o.disk == Disk(d.bits, d.phys, d.tags[dst := Tag(s.size, false, s.blocks, s.dir)], d.index))
  {
    ProtectedIsSpelling(src);
  }

  // ------------------------------------------------------------------------- READ

  /** READ answers exactly on the positions that TAMANIO and BLOCKS both reach, and then with one
      block's worth of the bytes of the block listed there. */
  lemma ReadLaw(g: Geometry, d: Disk, k: Key, i: nat)
    requires LinkInv(g, d)
    ensures var r := Read(g, d, k, i);
      && (r.ReadOk? <==> k in d.tags && i < |d.tags[k].blocks| && i * g.blockSize < d.tags[k].size)
      && (r.ReadOk? ==>
            var b := d.tags[k].blocks[i];
            && b in d.phys && |d.phys[b]| >= |r.content| == g.blockSize
            && forall j :: 0 <= j < |r.content| ==> r.content[j] == d.phys[b][j])
  {
    if k in d.tags {
      assert TagOk(g, d, k);
      CeilDivBounds(d.tags[k].size, g.blockSize, i);
      BlocksExist(g, d, k);
      if i < |d.tags[k].blocks| { assert d.tags[k].blocks[i] in d.tags[k].blocks; }
    }
  }

  // ------------------------------------------------------------------------ WRITE

  /** WRITE answers true exactly when the File:Tag exists, is not COMMITED and is not written like
      initial_file:BASE, the position is one it has, and a block from 1 on is free. */
  lemma WriteAnswers(g: Geometry, d: Disk, k: Key, i: int, data: seq<byte>)
    requires LinkInv(g, d)
    ensures var o := Write(g, d, k, i, data);
      && (o.ok <==> k in d.tags && !d.tags[k].committed && !SpellsInitial(k) && 0 <= i < |d.tags[k].blocks|
                    && exists b :: 1 <= b < |d.bits| && !d.bits[b])
      && (!o.ok ==> o.disk == d)
  {
    RefusedOrNot(d, k);
    WriteRedirects(g, d, k, i, data);
    if !Frozen(d, k) { assert TagOk(g, d, k); }
  }

  /** The position is then linked to the lowest free block, which holds the data followed by zero
      bytes up to the block size; nothing else changes. */
  lemma WriteLaw(g: Geometry, d: Disk, k: Key, i: nat, data: seq<byte>)
    requires LinkInv(g, d) && Write(g, d, k, i, data).ok
    ensures var d' := Write(g, d, k, i, data).disk; var t := d.tags[k];
      && i < |t.blocks| && k in d'.tags && i < |d'.tags[k].blocks|
      && var b := d'.tags[k].blocks[i];
      && 1 <= b < |d.bits| && !d.bits[b] && (forall c :: 1 <= c < b ==> d.bits[c]) && d'.bits == d.bits[b := true]
      && d'.tags == d.tags[k := Tag(t.size, false, t.blocks[i := b], t.dir[i := b])] && d'.index == d.index
      && b in d'.phys && d'.phys == d.phys[b := d'.phys[b]]
      && |d'.phys[b]| == (if |data| < g.blockSize then g.blockSize else |data|)
      && forall j :: 0 <= j < |d'.phys[b]| ==> d'.phys[b][j] == if j < |data| then data[j] else 0
  {
    WriteRedirects(g, d, k, i, data);
    assert TagOk(g, d, k);
  }

  /** Only a position whose link leads to a block without any other name is written in place: the
      data and the zero bytes after it replace the front of the file BLOCKS names. */
  lemma OneNameIsOverwritten(g: Geometry, d: Disk, k: Key, i: nat, data: seq<byte>)
    requires g.blockSize > 0 && |d.bits| > 0 && k in d.tags && !d.tags[k].committed && !SpellsInitial(k)
    requires i < |d.tags[k].blocks| && i * g.blockSize < d.tags[k].size && i in d.tags[k].dir
    requires NLink(d, d.tags[k].dir[i]) == 1 && d.tags[k].blocks[i] in d.phys
    ensures var o := Write(g, d, k, i, data); var b := d.tags[k].blocks[i];
      && o.ok && b in o.disk.phys && o.disk == d.(phys := d.phys[b := o.disk.phys[b]])
      && |o.disk.phys[b]| >= |d.phys[b]| && |o.disk.phys[b]| >= g.blockSize
      && forall j :: 0 <= j < |o.disk.phys[b]| ==>
           o.disk.phys[b][j] == if j < |data| then data[j] else if j < g.blockSize then 0 else d.phys[b][j]
  {
    RefusedOrNot(d, k);
    CeilDivBounds(d.tags[k].size, g.blockSize, i);
  }

  // ------------------------------------------------------------------------ FLUSH

  /** FLUSH is refused, and leaves no trace, on a File:Tag that does not exist, is COMMITED or is
      written like initial_file:BASE. */
  lemma FlushRefused(g: Geometry, d: Disk, k: Key, pages: seq<Page>)
    requires g.blockSize > 0 && |d.bits| > 0 && !(k in d.tags && !d.tags[k].committed && !SpellsInitial(k))
    ensures Flush(g, d, k, pages) == Outcome(d, false)
  {
    RefusedOrNot(d, k);
  }

  /** Otherwise it answers true exactly when the File:Tag has every position named and as many blocks
      from 1 on are free as there are pages. */
  lemma FlushAnswers(g: Geometry, d: Disk, k: Key, pages: seq<Page>)
    requires RunInv(g, d) && WholeBlocks(g, pages) && k in d.tags && !d.tags[k].committed && !SpellsInitial(k)
    ensures Flush(g, d, k, pages).ok <==>
      ((forall p :: p in pages ==> 0 <= p.number < |d.tags[k].blocks|)
       && |pages| <= |set b: nat | 1 <= b < |d.bits| && !d.bits[b]|)
  {
    RefusedOrNot(d, k);
    FlushSucceedsIff(g, d, k, pages);
    assert TagOk(g, d, k);
    assert FreeBlocks(d.bits) == set b: nat | 1 <= b < |d.bits| && !d.bits[b];
  }

  /** Page j is the last one sent for position i. */
  ghost predicate IsLastFor(pages: seq<Page>, i: nat, j: nat) {
    j < |pages| && pages[j].number == i && forall l :: j < l < |pages| ==> pages[l].number != i
  }

  lemma {:induction false} LastPageIs(pages: seq<Page>, i: nat, j: nat, otherwise: seq<byte>)
    requires IsLastFor(pages, i, j)
    ensures LastPage(pages, i, otherwise) == pages[j].data
  {
    if j < |pages| - 1 { LastPageIs(pages[..|pages| - 1], i, j, otherwise); }
  }

  lemma {:induction false} NoPageFor(pages: seq<Page>, i: nat, otherwise: seq<byte>)
    requires forall p :: p in pages ==> p.number != i
    ensures LastPage(pages, i, otherwise) == otherwise
  {
    if pages != [] {
      assert pages[|pages| - 1] in pages;
      NoPageFor(pages[..|pages| - 1], i, otherwise);
    }
  }

  /** What READ gives of a position after a FLUSH that was not refused. */
  lemma FlushedRead(g: Geometry, d: Disk, k: Key, pages: seq<Page>, i: nat)
    requires RunInv(g, d) && WholeBlocks(g, pages) && !Frozen(d, k) && i < |d.tags[k].blocks|
    ensures d.tags[k].blocks[i] in d.phys
    ensures var stored := LastPage(Taken(g, d, k, pages), i, d.phys[d.tags[k].blocks[i]]);
      Read(g, Flush(g, d, k, pages).disk, k, i) == ReadOk(Pad(g, Visible(g, stored)))
  {
    assert TagOk(g, d, k) && Holds(d, k, i, d.tags[k].blocks[i]);
    FlushDelivers(g, d, k, pages, i);
    RoomLeft(g, d, k, pages);
    FlushSeesTwoNames(g, d, k, FlushPages(g, d, k, pages), i);
  }

  lemma {:induction false} AcceptedAreSent(g: Geometry, t: Tag, pages: seq<Page>)
    requires g.blockSize > 0
    ensures forall p :: p in Accepted(g, t, pages) ==> p in pages
  {
    if pages != [] { AcceptedAreSent(g, t, pages[..|pages| - 1]); }
  }

  /** After a FLUSH that was not refused, READ gives at each position the data of the last page
      taken for it, and at positions without one what it gave before.  When the answer is true,
      all pages were taken; else those in range, as long as there were free blocks. */
  lemma FlushedPagesRead(g: Geometry, d: Disk, k: Key, pages: seq<Page>, i: nat)
    requires RunInv(g, d) && WholeBlocks(g, pages)
    requires k in d.tags && !d.tags[k].committed && !SpellsInitial(k) && i < |d.tags[k].blocks|
    ensures var d' := Flush(g, d, k, pages).disk; var taken := Taken(g, d, k, pages);
      && ((forall p :: p in taken ==> p.number != i) ==> Read(g, d', k, i) == Read(g, d, k, i))
      && (forall j: nat :: IsLastFor(taken, i, j) ==> Read(g, d', k, i) == ReadOk(taken[j].data))
      && (Flush(g, d, k, pages).ok ==> taken == pages)
  {
    RefusedOrNot(d, k);
    FlushedRead(g, d, k, pages, i);
    FlushedRead(g, d, k, [], i);
    var taken, before := Taken(g, d, k, pages), d.phys[d.tags[k].blocks[i]];
    if forall p :: p in taken ==> p.number != i { NoPageFor(taken, i, before); }
    forall j: nat | IsLastFor(taken, i, j) ensures Read(g, Flush(g, d, k, pages).disk, k, i) == ReadOk(taken[j].data) {
      LastPageIs(taken, i, j, before);
      AcceptedAreSent(g, d.tags[k], pages);
      assert taken[j] in taken && taken[j] in pages;
    }
    FlushSucceedsIff(g, d, k, pages);
    if Flush(g, d, k, pages).ok { AllTaken(g, d, k, pages); }
  }

  // ----------------------------------------------------------------------- COMMIT

  /** The digest COMMIT computes of block b: that of one block's worth of its bytes. */
  function BlockDigest(g: Geometry, d: Disk, b: nat): Digest {
    g.md5(if b in d.phys && |d.phys[b]| >= g.blockSize then d.phys[b][..g.blockSize] else [])
  }

  /** The block that digest is bound to. */
  function BoundTo(g: Geometry, d: Disk, index: map<Digest, nat>, b: nat): nat {
    if BlockDigest(g, d, b) in index then index[BlockDigest(g, d, b)] else b
  }

  /** COMMIT answers true exactly when the File:Tag exists and is not written like
      initial_file:BASE; on one that is COMMITED already it changes nothing.  Otherwise it marks
      it, and changes no other File:Tag, no size and no block file. */
  lemma CommitAnswers(g: Geometry, d: Disk, k: Key)
    ensures var o := Commit(g, d, k);
      && (o.ok <==> k in d.tags && !SpellsInitial(k))
      && (!o.ok || d.tags[k].committed ==> o.disk == d)
      && o.disk.phys == d.phys && OthersKept(d, o.disk, k) && o.disk.tags.Keys == d.tags.Keys
      && (o.ok ==> o.disk.tags[k].committed && o.disk.tags[k].size == d.tags[k].size)
  {
    ProtectedIsSpelling(k);
  }

  lemma DigestsAgree(g: Geometry, d: Disk, k: Key)
    requires LinkInv(g, d) && k in d.tags
    ensures forall b :: b in d.tags[k].blocks ==> b in d.phys && DigestOf(g, d.phys, b) == BlockDigest(g, d, b)
  {
    BlocksExist(g, d, k);
  }

  /** Position j is the first of `blocks` with digest h. */
  ghost predicate FirstToHave(g: Geometry, d: Disk, blocks: seq<nat>, j: nat, h: Digest) {
    j < |blocks| && BlockDigest(g, d, blocks[j]) == h && forall i :: 0 <= i < j ==> BlockDigest(g, d, blocks[i]) != h
  }

  /** The index keeps its entries, every digest of the File:Tag is bound afterwards, and one that
      was not bound before is bound to the first position that has it. */
  lemma CommitIndexLaw(g: Geometry, d: Disk, k: Key)
    requires LinkInv(g, d) && Commit(g, d, k).ok && !d.tags[k].committed
    ensures var d' := Commit(g, d, k).disk; var blocks := d.tags[k].blocks;
      && (forall h :: h in d.index ==> h in d'.index && d'.index[h] == d.index[h])
      && (forall i :: 0 <= i < |blocks| ==> BlockDigest(g, d, blocks[i]) in d'.index)
      && (forall h :: h in d'.index && h !in d.index ==>
            exists j: nat :: FirstToHave(g, d, blocks, j, h) && d'.index[h] == blocks[j])
  {
    var d', blocks := Commit(g, d, k).disk, d.tags[k].blocks;
    DigestsAgree(g, d, k);
    forall i | 0 <= i < |blocks| ensures BlockDigest(g, d, blocks[i]) in d'.index {
      assert blocks[i] in blocks;
    }
    forall h | h in d'.index && h !in d.index
      ensures exists j: nat :: FirstToHave(g, d, blocks, j, h) && d'.index[h] == blocks[j]
    {
      var j := FirstWith(g, d.phys, blocks, h);
      LearnBindsFirst(g, d.phys, d.index, blocks, j);
      assert blocks[j] in blocks;
      forall i | 0 <= i < j ensures BlockDigest(g, d, blocks[i]) != h { assert blocks[i] in blocks; }
      assert FirstToHave(g, d, blocks, j, h);
    }
  }

  /** Each position of the File:Tag ends linked to the block its digest is bound to, if that has
      its file, and else where it was; there are no other links. */
  lemma CommitLinksLaw(g: Geometry, d: Disk, k: Key)
    requires LinkInv(g, d) && Commit(g, d, k).ok && !d.tags[k].committed
    ensures var d' := Commit(g, d, k).disk; var blocks, dir' := d.tags[k].blocks, d'.tags[k].dir;
      && (forall i: nat :: i in dir' <==> i < |blocks|)
      && (forall i: nat :: i in dir' && i < |blocks| ==>
            var c := BoundTo(g, d, d'.index, blocks[i]); dir'[i] == if c in d.phys then c else blocks[i])
  {
    var d', blocks := Commit(g, d, k).disk, d.tags[k].blocks;
    var linked := LinkedAfter(g, d, k);
    assert d'.tags[k].dir == DirOf(linked);
    DigestsAgree(g, d, k);
    forall i: nat | i < |blocks|
      ensures var c := BoundTo(g, d, d'.index, blocks[i]); linked[i] == if c in d.phys then c else blocks[i]
    {
      CommitExchanges(g, d, k, i);
      assert blocks[i] in blocks;
    }
  }

  /** Some position that was linked to b no longer is. */
  ghost predicate LinkedAway(d: Disk, d': Disk, k: Key, b: nat)
    requires k in d.tags && k in d'.tags
  {
    exists i: nat :: i in d'.tags[k].dir && i < |d.tags[k].blocks| && d.tags[k].blocks[i] == b && d'.tags[k].dir[i] != b
  }

  /** The bits cleared are those of the blocks some position was linked away from. */
  lemma CommitBitsLaw(g: Geometry, d: Disk, k: Key)
    requires LinkInv(g, d) && Commit(g, d, k).ok && !d.tags[k].committed
    ensures var d' := Commit(g, d, k).disk;
      |d'.bits| == |d.bits| && forall b: nat :: b < |d.bits| ==> d'.bits[b] == (d.bits[b] && !LinkedAway(d, d', k, b))
  {
    var d', blocks := Commit(g, d, k).disk, d.tags[k].blocks;
    var linked := LinkedAfter(g, d, k);
    assert d'.tags[k].dir == DirOf(linked);
    assert d'.bits == ClearBits(d.bits, Replaced(blocks, linked, |linked|));
    forall b: nat | b < |d.bits| ensures b in Replaced(blocks, linked, |linked|) <==> LinkedAway(d, d', k, b) {
      if i :| 0 <= i < |linked| && linked[i] != blocks[i] && blocks[i] == b { assert i in d'.tags[k].dir; }
    }
  }

  /** The last position whose digest is bound to another block. */
  ghost predicate LastBoundAway(g: Geometry, d: Disk, index: map<Digest, nat>, blocks: seq<nat>, j: nat) {
    && j < |blocks| && BoundTo(g, d, index, blocks[j]) != blocks[j]
    && forall i :: j < i < |blocks| ==> BoundTo(g, d, index, blocks[i]) == blocks[i]
  }

  lemma LastMoveIs(g: Geometry, d: Disk, k: Key, index: map<Digest, nat>)
    requires LinkInv(g, d) && k in d.tags
    ensures var blocks := d.tags[k].blocks; MovesSaved(g, d.phys, index, blocks) <==>
      exists j: nat :: LastBoundAway(g, d, index, blocks, j) && BoundTo(g, d, index, blocks[j]) in d.phys
  {
    var blocks := d.tags[k].blocks;
    DigestsAgree(g, d, k);
    forall i | 0 <= i < |blocks|
      ensures blocks[i] in d.phys
      ensures BoundAway(g, d.phys, index, blocks[i]) <==> BoundTo(g, d, index, blocks[i]) != blocks[i]
    {
      assert blocks[i] in blocks;
    }
    var l := LastMove(g, d.phys, index, blocks);
    if l >= 0 { assert blocks[l] in blocks && LastBoundAway(g, d, index, blocks, l); }
  }

  /** BLOCKS is saved as the links are, exactly when the last position whose digest is bound to
      another block is bound to one that has its file; else it keeps its old value. */
  lemma CommitSavesLaw(g: Geometry, d: Disk, k: Key)
    requires LinkInv(g, d) && Commit(g, d, k).ok && !d.tags[k].committed
    ensures var d' := Commit(g, d, k).disk; var blocks, t' := d.tags[k].blocks, d'.tags[k];
      if exists j: nat :: LastBoundAway(g, d, d'.index, blocks, j) && BoundTo(g, d, d'.index, blocks[j]) in d.phys
      then LinksAre(t'.dir, t'.blocks) else t'.blocks == blocks
  {
    var d' := Commit(g, d, k).disk;
    LastMoveIs(g, d, k, d'.index);
    assert d'.tags[k].dir == DirOf(LinkedAfter(g, d, k));
  }

  // ----------------------------------------------------------------------- DELETE

  /** DELETE answers true exactly when the File:Tag exists and is not written like
      initial_file:BASE; else it leaves no trace. */
  lemma DeleteAnswers(d: Disk, k: Key)
    ensures var o := Delete(d, k);
      && (o.ok <==> k in d.tags && !SpellsInitial(k))
      && (!o.ok ==> o.disk == d)
  {
    ProtectedIsSpelling(k);
  }

  /** It removes the File:Tag and, with their bits, the blocks of its BLOCKS that nobody links
      any more; no other block, no File:Tag and no index entry changes. */
  lemma DeleteLaw(g: Geometry, d: Disk, k: Key)
    requires LinkInv(g, d) && Delete(d, k).ok
    ensures var d' := Delete(d, k).disk; var old' := d.tags[k].blocks;
      && k !in d'.tags && OthersKept(d, d', k) && d'.index == d.index && |d'.bits| == |d.bits|
      && (forall b: nat :: b < |d.bits| ==> d'.bits[b] == (d.bits[b] && !(b in old' && !Linked(d', b))))
      && (forall b: nat :: b in d'.phys <==> b in d.phys && !(b in old' && !Linked(d', b)))
      && (forall b: nat :: b in d'.phys ==> d'.phys[b] == d.phys[b])
  {
    DeleteFreesPrecisely(g, d, k);
    var d' := Delete(d, k).disk;
    forall b: nat ensures LostLastLink(d, d', b) <==> b in d.tags[k].blocks && !Linked(d', b) {
      DeleteOrphans(g, d, k, b);
      LinkedIsRefs(d', b);
      OwnBlockIsLinked(g, d, k, b);
    }
  }

  // ----------------------------------------------------------------- initial state

  /** A fresh format takes block 0 and no other, fills it with '0' characters and every other one
      with zero bytes, and has one File:Tag, initial_file:BASE, COMMITED, of no size, whose one
      logical block is block 0. */
  lemma FormatLaw(g: Geometry)
    requires g.blockSize > 0 && g.count > 0
    ensures var d := Format(g);
      && |d.bits| == g.count && (forall b :: 0 <= b < |d.bits| ==> (d.bits[b] <==> b == 0))
      && (forall b: nat :: b in d.phys <==> b < g.count)
      && (forall b: nat :: b in d.phys ==> |d.phys[b]| == g.blockSize)
      && (forall b: nat, j :: b in d.phys && 0 <= j < |d.phys[b]| ==> d.phys[b][j] == if b == 0 then 0x30 else 0)
      && d.tags == map[Key("initial_file", "BASE") := Tag(0, true, [0], map[0 := 0])] && d.index == map[]
  {
    assert forall b: nat :: b < g.count ==> BlockNumber(g, b);
  }

  /** In every admissible run from a fresh format, the positions a TRUNCATE adds read as '0'
      characters until they are written. */
  lemma GrownReadsZeroChars(g: Geometry, ops: seq<Op>, k: Key, size: nat, i: nat)
    requires g.blockSize > 0 && g.count > 0 && AdmissibleRun(g, Format(g), ops)
    requires var d := After(g, Format(g), ops); Truncate(g, d, k, size).ok && i >= |d.tags[k].blocks|
    requires i * g.blockSize < size
    ensures var r := Read(g, Truncate(g, After(g, Format(g), ops), k, size).disk, k, i);
      r.ReadOk? && |r.content| == g.blockSize && forall j :: 0 <= j < |r.content| ==> r.content[j] == 0x30
  {
    var d := After(g, Format(g), ops);
    var d' := Truncate(g, d, k, size).disk;
    BlockZeroStays(g, ops);
    TruncateFreesPrecisely(g, d, k, size);
    CeilDivBounds(size, g.blockSize, i);
    ReadLaw(g, d', k, i);
  }

  /** initial_file:BASE shows block 0. */
  lemma InitialShowsBlockZero(g: Geometry, d: Disk)
    requires LinkInv(g, d)
    ensures 0 in d.phys && |d.phys[0]| >= g.blockSize
    ensures ViewOf(g, d, INITIAL_KEY).content == [d.phys[0][..g.blockSize]]
  {
    assert Holds(d, INITIAL_KEY, 0, 0);
  }

  /** Admissible runs leave initial_file:BASE and the bytes of block 0 alone. */
  lemma BlockZeroStays(g: Geometry, ops: seq<Op>)
    requires g.blockSize > 0 && g.count > 0 && AdmissibleRun(g, Format(g), ops)
    ensures var d := After(g, Format(g), ops);
      && RunInv(g, d) && 0 in d.phys && |d.phys[0]| >= g.blockSize
      && forall j :: 0 <= j < g.blockSize ==> d.phys[0][j] == 0x30
  {
    var d := After(g, Format(g), ops);
    FormatHasRunInv(g);
    InitialStays(g, Format(g), ops);
    InitialShowsBlockZero(g, Format(g));
    InitialShowsBlockZero(g, d);
    assert d.phys[0][..g.blockSize] == Format(g).phys[0][..g.blockSize];
    forall j | 0 <= j < g.blockSize ensures d.phys[0][j] == 0x30 {
      assert d.phys[0][..g.blockSize][j] == Format(g).phys[0][..g.blockSize][j];
    }
  }

  lemma {:induction false} InitialStays(g: Geometry, d: Disk, ops: seq<Op>)
    requires RunInv(g, d) && AdmissibleRun(g, d, ops)
    ensures RunInv(g, After(g, d, ops))
    ensures ViewOf(g, After(g, d, ops), INITIAL_KEY) == ViewOf(g, d, INITIAL_KEY)
    decreases ops
  {
    if ops != [] {
      if ops[0].key == INITIAL_KEY {
        ProtectedIsSpelling(INITIAL_KEY);
        assert Step(g, d, ops[0]).disk == d;
      } else {
        StepKeepsOtherViews(g, d, ops[0], INITIAL_KEY);
      }
      InitialStays(g, Step(g, d, ops[0]).disk, ops[1..]);
    }
  }
}
