/** Which storage operations keep the run invariant, one operation at a time. */
module StorageSteps {
  import opened Bytes
  import opened Disk
  import opened DiskInvariant

  // ------------------------------------------------------------------- CREATE

  /** A new File:Tag links nothing. */
  lemma CreateHolds(d: Disk, k: Key)
    ensures forall k', i, b: nat :: Holds(Create(d, k).disk, k', i, b) <==> Holds(d, k', i, b)
  {
  }

  /** CREATE keeps the link invariant and every link. */
  lemma CreateLinks(g: Geometry, d: Disk, k: Key)
    requires LinkInv(g, d)
    ensures LinkInv(g, Create(d, k).disk)
    ensures forall k', i, b: nat :: Holds(Create(d, k).disk, k', i, b) <==> Holds(d, k', i, b)
  {
    var d' := Create(d, k).disk;
    CreateHolds(d, k);
    forall k' | k' in d'.tags ensures TagOk(g, d', k') {
      if k' in d.tags { assert TagOk(g, d, k'); } else { assert DirOf([]) == map[]; }
    }
    forall k', i, b: nat | Holds(d', k', i, b) ensures b in d'.phys { assert Holds(d, k', i, b); }
  }

  lemma CreateKeepsRunInv(g: Geometry, d: Disk, k: Key)
    requires RunInv(g, d)
    ensures RunInv(g, Create(d, k).disk)
  {
    var d' := Create(d, k).disk;
    CreateLinks(g, d, k);
    if d' != d {
      forall b: nat | b >= 1 && !Indexed(g, d', b) ensures AtMostOneLink(d', b) {
        assert !Indexed(g, d, b);
      }
      forall h | h in d'.index ensures Pinned(d', d'.index[h]) {
        var k', i :| Holds(d, k', i, d.index[h]) && Frozen(d, k');
        assert Holds(d', k', i, d.index[h]);
      }
    }
  }

  // -------------------------------------------------------------------- WRITE

  /** A free block is linked by nobody and is no index value. */
  lemma FreeBlockIsUnused(g: Geometry, d: Disk, n: nat)
    requires RunInv(g, d) && 1 <= n < |d.bits| && !d.bits[n]
    ensures forall k, i :: !Holds(d, k, i, n)
    ensures forall h :: h in d.index ==> d.index[h] != n
  {
    forall h | h in d.index ensures d.index[h] != n {
      var k, i :| Holds(d, k, i, d.index[h]) && Frozen(d, k);
    }
  }

  /** Linking position i of `k` to the unused block n and filling it. */
  ghost function Redirect(d: Disk, k: Key, i: nat, n: nat, data: seq<byte>): Disk
    requires k in d.tags && i < |d.tags[k].blocks| && n < |d.bits|
  {
    var t := d.tags[k];
    d.(bits := d.bits[n := true], phys := d.phys[n := data],
       tags := d.tags[k := t.(blocks := t.blocks[i := n], dir := t.dir[i := n])])
  }

  lemma RedirectLinks(g: Geometry, d: Disk, k: Key, i: nat, n: nat, data: seq<byte>)
    requires LinkInv(g, d) && k in d.tags && k != INITIAL_KEY && i < |d.tags[k].blocks|
    requires n < |d.bits| && |data| >= g.blockSize
    ensures forall k', i', b: nat :: Holds(Redirect(d, k, i, n, data), k', i', b) <==>
      if k' == k && i' == i then b == n else Holds(d, k', i', b)
    ensures LinkInv(g, Redirect(d, k, i, n, data))
  {
    var d' := Redirect(d, k, i, n, data);
    forall k' | k' in d'.tags ensures TagOk(g, d', k') {
      assert TagOk(g, d, k');
      if k' == k { assert d'.tags[k].dir == DirOf(d'.tags[k].blocks); }
    }
  }

  lemma RedirectKeepsRunInv(g: Geometry, d: Disk, k: Key, i: nat, n: nat, data: seq<byte>)
    requires RunInv(g, d) && !Frozen(d, k) && i < |d.tags[k].blocks|
    requires 1 <= n < |d.bits| && !d.bits[n] && |data| >= g.blockSize
    ensures RunInv(g, Redirect(d, k, i, n, data))
  {
    var d' := Redirect(d, k, i, n, data);
    FreeBlockIsUnused(g, d, n);
    RedirectLinks(g, d, k, i, n, data);
    assert forall b: nat :: Indexed(g, d', b) <==> b != n && Indexed(g, d, b);
    forall h | h in d'.index ensures Pinned(d', d'.index[h]) {
      var k', i' :| Holds(d, k', i', d.index[h]) && Frozen(d, k');
      assert Holds(d', k', i', d.index[h]);
    }
    forall b: nat | b >= 1 && !Indexed(g, d', b) ensures AtMostOneLink(d', b) {
      if b != n { assert AtMostOneLink(d, b); }
    }
  }

  /** What WRITE does, the one-link test never succeeding. */
  lemma WriteRedirects(g: Geometry, d: Disk, k: Key, i: int, data: seq<byte>)
    requires LinkInv(g, d)
    ensures var n := FirstFree(d.bits, 1);
      Write(g, d, k, i, data) ==
        if Frozen(d, k) || !InRange(g, d.tags[k], i) || n == |d.bits| then Outcome(d, false)
        else Outcome(Redirect(d, k, i, n, Pad(g, data)), true)
  {
    if !Frozen(d, k) && InRange(g, d.tags[k], i) { LiveBlockHasTwoNames(g, d, k, i); }
  }

  lemma WriteKeepsRunInv(g: Geometry, d: Disk, k: Key, i: int, data: seq<byte>)
    requires RunInv(g, d)
    ensures RunInv(g, Write(g, d, k, i, data).disk)
  {
    WriteRedirects(g, d, k, i, data);
    if Write(g, d, k, i, data).ok {
      RedirectKeepsRunInv(g, d, k, i, FirstFree(d.bits, 1), Pad(g, data));
    }
  }

  // ----------------------------------------------------------------- TRUNCATE

  /** Block b had a logical link before and has none after. */
  ghost predicate LostLastLink(d: Disk, d': Disk, b: nat) {
    Refs(d.tags, b) != {} && Refs(d'.tags, b) == {}
  }

  lemma TruncateLinks(g: Geometry, d: Disk, k: Key, size: nat)
    requires LinkInv(g, d) && Truncate(g, d, k, size).ok
    ensures LinkInv(g, Truncate(g, d, k, size).disk)
    ensures forall k', i, b: nat :: Holds(Truncate(g, d, k, size).disk, k', i, b) <==>
      (if k' == k && |d.tags[k].blocks| <= i then b == 0 && i < CeilDiv(size, g.blockSize)
       else Holds(d, k', i, b) && (k' == k ==> i < CeilDiv(size, g.blockSize)))
  {
    var d' := Truncate(g, d, k, size).disk;
    forall k' | k' in d'.tags ensures TagOk(g, d', k') { assert TagOk(g, d, k'); }
    assert Holds(d, INITIAL_KEY, 0, 0);
    forall k', i, b: nat | Holds(d', k', i, b) ensures b in d'.phys {
      assert Holds(d, k', i, b) || b == 0;
    }
  }

  /** The blocks TRUNCATE frees are exactly those it took the last link from. */
  lemma TruncateOrphans(g: Geometry, d: Disk, k: Key, size: nat, b: nat)
    requires LinkInv(g, d) && Truncate(g, d, k, size).ok
    ensures var d' := Truncate(g, d, k, size).disk; var n := CeilDiv(size, g.blockSize); var old' := d.tags[k].blocks;
      LostLastLink(d, d', b) <==> b in Orphans(d'.tags, if n <= |old'| then old'[n..] else [])
  {
    var d' := Truncate(g, d, k, size).disk;
    var n, old' := CeilDiv(size, g.blockSize), d.tags[k].blocks;
    var cut := if n <= |old'| then old'[n..] else [];
    TruncateLinks(g, d, k, size);
    NoRefsIff(g, d, b);
    NoRefsIff(g, d', b);
    if b in cut {
      var i :| n <= i < |old'| && old'[i] == b;
      assert Holds(d, k, i, b);
    }
    if LostLastLink(d, d', b) {
      var k', i :| Holds(d, k', i, b);
      assert !Holds(d', k', i, b);
      assert cut[i - n] == b;
    }
  }

  /** TRUNCATE keeps the common prefix, links every new position to block 0, and clears
      the bit of exactly the blocks whose last logical link it took away; block 0 is
      never among them and no physical file changes. */
  lemma TruncateFreesPrecisely(g: Geometry, d: Disk, k: Key, size: nat)
    requires LinkInv(g, d) && Truncate(g, d, k, size).ok
    ensures var d' := Truncate(g, d, k, size).disk; var old' := d.tags[k].blocks; var new' := d'.tags[k].blocks;
      && LinkInv(g, d') && d'.phys == d.phys && d'.index == d.index && d'.tags.Keys == d.tags.Keys
      && (forall k' :: k' in d.tags && k' != k ==> d'.tags[k'] == d.tags[k'])
      && d'.tags[k].size == size && |new'| == CeilDiv(size, g.blockSize)
      && (forall i :: 0 <= i < |new'| ==> new'[i] == if i < |old'| then old'[i] else 0)
      && (forall b: nat :: b < |d.bits| ==> d'.bits[b] == (d.bits[b] && !LostLastLink(d, d', b)))
      && !LostLastLink(d, d', 0)
  {
    var d' := Truncate(g, d, k, size).disk;
    TruncateLinks(g, d, k, size);
    assert Holds(d', INITIAL_KEY, 0, 0) by { assert Holds(d, INITIAL_KEY, 0, 0); }
    NoRefsIff(g, d', 0);
    forall b: nat | b < |d.bits| ensures d'.bits[b] == (d.bits[b] && !LostLastLink(d, d', b)) {
      TruncateOrphans(g, d, k, size, b);
    }
  }

  lemma TruncateAllocated(g: Geometry, d: Disk, k: Key, size: nat)
    requires LinkInv(g, d) && Allocated(d) && Truncate(g, d, k, size).ok
    ensures Allocated(Truncate(g, d, k, size).disk)
  {
    var d' := Truncate(g, d, k, size).disk;
    TruncateFreesPrecisely(g, d, k, size);
    TruncateLinks(g, d, k, size);
    forall k', i, b: nat | Holds(d', k', i, b) && b >= 1 ensures b < |d'.bits| && d'.bits[b] {
      assert Holds(d, k', i, b);
      NoRefsIff(g, d', b);
    }
  }

  lemma TruncateKeepsRunInv(g: Geometry, d: Disk, k: Key, size: nat)
    requires RunInv(g, d)
    ensures RunInv(g, Truncate(g, d, k, size).disk)
  {
    if !Frozen(d, k) {
      var d' := Truncate(g, d, k, size).disk;
      TruncateLinks(g, d, k, size);
      TruncateAllocated(g, d, k, size);
      forall h | h in d'.index ensures Pinned(d', d'.index[h]) {
        var k', i :| Holds(d, k', i, d.index[h]) && Frozen(d, k');
        assert Holds(d', k', i, d.index[h]);
      }
      forall b: nat | b >= 1 && !Indexed(g, d', b) ensures AtMostOneLink(d', b) {
        assert !Indexed(g, d, b) && AtMostOneLink(d, b);
        assert forall k', i :: Holds(d', k', i, b) ==> Holds(d, k', i, b);
      }
    }
  }

  // ---------------------------------------------------------------------- TAG

  /** Every block of `src` but block 0 is an index value. */
  ghost predicate Shareable(g: Geometry, d: Disk, src: Key)
    requires src in d.tags
  {
    forall b: nat :: b in d.tags[src].blocks && b >= 1 ==> Indexed(g, d, b)
  }

  lemma CommittedIsShareable(g: Geometry, d: Disk, src: Key)
    requires RunInv(g, d) && src in d.tags && d.tags[src].committed
    ensures Shareable(g, d, src)
  {
    forall b: nat | b in d.tags[src].blocks && b >= 1 ensures Indexed(g, d, b) {
      var i :| 0 <= i < |d.tags[src].blocks| && d.tags[src].blocks[i] == b;
      assert Holds(d, src, i, b);
    }
  }

  lemma TagLinks(g: Geometry, d: Disk, src: Key, dst: Key)
    requires LinkInv(g, d) && TagFrom(d, src, dst).ok
    ensures var d' := TagFrom(d, src, dst).disk;
      && LinkInv(g, d')
      && (forall k, i, b: nat :: Holds(d', k, i, b) <==>
            if k == dst then Holds(d, src, i, b) else Holds(d, k, i, b))
  {
    var d' := TagFrom(d, src, dst).disk;
    forall k | k in d'.tags ensures TagOk(g, d', k) {
      assert TagOk(g, d, if k == dst then src else k);
    }
    forall k, i, b: nat | Holds(d', k, i, b) ensures b in d'.phys {
      assert Holds(d, if k == dst then src else k, i, b);
    }
  }

  lemma TagOfShareable(g: Geometry, d: Disk, src: Key, dst: Key)
    requires RunInv(g, d) && TagFrom(d, src, dst).ok && Shareable(g, d, src)
    ensures RunInv(g, TagFrom(d, src, dst).disk)
  {
    var d' := TagFrom(d, src, dst).disk;
    TagLinks(g, d, src, dst);
    forall h | h in d'.index ensures Pinned(d', d'.index[h]) {
      var k, i :| Holds(d, k, i, d.index[h]) && Frozen(d, k);
      assert Holds(d', k, i, d.index[h]);
    }
    forall b: nat | b >= 1 && !Indexed(g, d', b) ensures AtMostOneLink(d', b) {
      assert !Indexed(g, d, b) && AtMostOneLink(d, b);
      assert b !in d.tags[src].blocks;
    }
    assert forall b: nat :: Indexed(g, d, b) ==> Indexed(g, d', b);
  }

  lemma TagOfUnshareable(g: Geometry, d: Disk, src: Key, dst: Key)
    requires RunInv(g, d) && TagFrom(d, src, dst).ok && !Shareable(g, d, src)
    ensures !Exclusive(g, TagFrom(d, src, dst).disk)
  {
    var d' := TagFrom(d, src, dst).disk;
    var b: nat :| b in d.tags[src].blocks && b >= 1 && !Indexed(g, d, b);
    var i :| 0 <= i < |d.tags[src].blocks| && d.tags[src].blocks[i] == b;
    assert Holds(d', src, i, b) && Holds(d', dst, i, b);
    assert !AtMostOneLink(d', b) && !Indexed(g, d', b);
  }

  /** TAG keeps the run invariant exactly when its source is shareable. */
  lemma TagKeepsRunInvIff(g: Geometry, d: Disk, src: Key, dst: Key)
    requires RunInv(g, d)
    ensures RunInv(g, TagFrom(d, src, dst).disk) <==> !TagFrom(d, src, dst).ok || Shareable(g, d, src)
  {
    if TagFrom(d, src, dst).ok {
      if Shareable(g, d, src) { TagOfShareable(g, d, src, dst); } else { TagOfUnshareable(g, d, src, dst); }
    }
  }

  // ------------------------------------------------------------------- DELETE

  /** Another File:Tag than `k` pins block b. */
  ghost predicate PinnedElsewhere(d: Disk, k: Key, b: nat) {
    exists k', i :: Holds(d, k', i, b) && Frozen(d, k') && k' != k
  }

  /** DELETE of a COMMITED File:Tag is harmless when others pin all its blocks. */
  ghost predicate Deletable(d: Disk, k: Key)
    requires k in d.tags
  {
    d.tags[k].committed ==> forall b: nat :: b in d.tags[k].blocks ==> PinnedElsewhere(d, k, b)
  }

  /** The links left after DELETE are those of the other File:Tags. */
  lemma DeleteLinks(g: Geometry, d: Disk, k: Key)
    requires LinkInv(g, d) && Delete(d, k).ok
    ensures var d0 := d.(tags := Delete(d, k).disk.tags);
      LinkInv(g, d0) && forall k', i, b: nat :: Holds(d0, k', i, b) <==> k' != k && Holds(d, k', i, b)
    ensures forall k', i, b: nat :: Holds(Delete(d, k).disk, k', i, b) <==> k' != k && Holds(d, k', i, b)
  {
    var d0 := d.(tags := Delete(d, k).disk.tags);
    forall k' | k' in d0.tags ensures TagOk(g, d0, k') { assert TagOk(g, d, k'); }
    forall k', i, b: nat | Holds(d0, k', i, b) ensures b in d0.phys { assert Holds(d, k', i, b); }
  }

  lemma DeleteOrphans(g: Geometry, d: Disk, k: Key, b: nat)
    requires LinkInv(g, d) && Delete(d, k).ok
    ensures LostLastLink(d, Delete(d, k).disk, b) <==> b in Orphans(Delete(d, k).disk.tags, d.tags[k].blocks)
    ensures Refs(Delete(d, k).disk.tags, b) == {} <==> forall k', i :: k' != k ==> !Holds(d, k', i, b)
  {
    DeleteLinks(g, d, k);
    NoRefsIff(g, d, b);
    NoRefsIff(g, d.(tags := Delete(d, k).disk.tags), b);
    if b in d.tags[k].blocks {
      var i :| 0 <= i < |d.tags[k].blocks| && d.tags[k].blocks[i] == b;
      assert Holds(d, k, i, b);
    }
  }

  /** DELETE frees precisely: it clears the bit of, and removes, exactly the blocks
      whose last logical link it took away; block 0 is never among them. */
  lemma DeleteFreesPrecisely(g: Geometry, d: Disk, k: Key)
    requires LinkInv(g, d) && Delete(d, k).ok
    ensures var d' := Delete(d, k).disk;
      && LinkInv(g, d')
      && (forall b: nat :: b < |d.bits| ==> d'.bits[b] == (d.bits[b] && !LostLastLink(d, d', b)))
      && (forall b: nat :: b in d'.phys <==> b in d.phys && !LostLastLink(d, d', b))
      && (forall b: nat :: b in d'.phys ==> d'.phys[b] == d.phys[b])
      && !LostLastLink(d, d', 0)
  {
    var d' := Delete(d, k).disk;
    DeleteLinks(g, d, k);
    forall b: nat ensures LostLastLink(d, d', b) <==> b in Orphans(d'.tags, d.tags[k].blocks) {
      DeleteOrphans(g, d, k, b);
    }
    assert Holds(d, INITIAL_KEY, 0, 0);
    DeleteOrphans(g, d, k, 0);
    forall k', i, b: nat | Holds(d', k', i, b) ensures b in d'.phys {
      assert Holds(d, k', i, b);
      DeleteOrphans(g, d, k, b);
    }
    forall k' | k' in d'.tags ensures TagOk(g, d', k') { assert TagOk(g, d, k'); }
  }

  /** A block that another File:Tag links keeps its file and its bit. */
  lemma DeleteKeepsLinked(g: Geometry, d: Disk, k: Key)
    requires LinkInv(g, d) && Delete(d, k).ok
    ensures forall k', i, b: nat :: Holds(Delete(d, k).disk, k', i, b) ==> !LostLastLink(d, Delete(d, k).disk, b)
  {
    DeleteLinks(g, d, k);
    forall k', i, b: nat | Holds(Delete(d, k).disk, k', i, b) ensures !LostLastLink(d, Delete(d, k).disk, b) {
      assert Holds(d, k', i, b);
      DeleteOrphans(g, d, k, b);
    }
  }

  lemma DeleteIndexSound(g: Geometry, d: Disk, k: Key)
    requires RunInv(g, d) && Delete(d, k).ok && Deletable(d, k)
    ensures IndexSound(g, Delete(d, k).disk)
  {
    var d' := Delete(d, k).disk;
    DeleteFreesPrecisely(g, d, k);
    DeleteLinks(g, d, k);
    DeleteKeepsLinked(g, d, k);
    forall h | h in d'.index
      ensures d'.index[h] in d'.phys && DigestOf(g, d'.phys, d'.index[h]) == h && Pinned(d', d'.index[h])
    {
      var b := d.index[h];
      var k1, i1 :| Holds(d, k1, i1, b) && Frozen(d, k1);
      assert k1 == k ==> b in d.tags[k].blocks;
      var k', i :| Holds(d, k', i, b) && Frozen(d, k') && k' != k;
      assert Holds(d', k', i, b);
    }
  }

  lemma DeleteOfDeletable(g: Geometry, d: Disk, k: Key)
    requires RunInv(g, d) && Delete(d, k).ok && Deletable(d, k)
    ensures RunInv(g, Delete(d, k).disk)
  {
    var d' := Delete(d, k).disk;
    DeleteFreesPrecisely(g, d, k);
    DeleteLinks(g, d, k);
    DeleteKeepsLinked(g, d, k);
    DeleteIndexSound(g, d, k);
    assert forall b: nat :: Indexed(g, d', b) <==> b in d'.phys && Indexed(g, d, b);
    forall b: nat | b >= 1 && !Indexed(g, d', b) ensures AtMostOneLink(d', b) {
      if b in d'.phys { assert AtMostOneLink(d, b); }
    }
  }

  lemma DeleteOfUndeletable(g: Geometry, d: Disk, k: Key)
    requires RunInv(g, d) && Delete(d, k).ok && !Deletable(d, k)
    ensures !IndexSound(g, Delete(d, k).disk)
  {
    var d' := Delete(d, k).disk;
    var b: nat :| b in d.tags[k].blocks && !PinnedElsewhere(d, k, b);
    var i :| 0 <= i < |d.tags[k].blocks| && d.tags[k].blocks[i] == b;
    assert Holds(d, k, i, b);
    assert Indexed(g, d, b);
    if Pinned(d', b) {
      var k', i' :| Holds(d', k', i', b) && Frozen(d', k');
      assert Holds(d, k', i', b);
    }
  }

  /** DELETE keeps the run invariant exactly when its target is deletable. */
  lemma DeleteKeepsRunInvIff(g: Geometry, d: Disk, k: Key)
    requires RunInv(g, d)
    ensures RunInv(g, Delete(d, k).disk) <==> !Delete(d, k).ok || Deletable(d, k)
  {
    if Delete(d, k).ok {
      if Deletable(d, k) { DeleteOfDeletable(g, d, k); } else { DeleteOfUndeletable(g, d, k); }
    }
  }

  // ------------------------------------------------------------------- COMMIT

  /** The block each position of `k` is linked to after COMMIT. */
  function LinkedAfter(g: Geometry, d: Disk, k: Key): (linked: seq<nat>)
    requires k in d.tags
    ensures |linked| == |d.tags[k].blocks|
  {
    CanonicalBlocks(g, d.phys, Learn(g, d.phys, d.index, d.tags[k].blocks), d.tags[k].blocks)
  }

  /** COMMIT relinks some position of `k` but does not save BLOCKS, because the last position
      whose digest is bound to another block is bound to one that has lost its file. */
  ghost predicate MovesUnsaved(g: Geometry, d: Disk, k: Key)
    requires k in d.tags
  {
    && (exists i :: 0 <= i < |d.tags[k].blocks| && LinkedAfter(g, d, k)[i] != d.tags[k].blocks[i])
    && !MovesSaved(g, d.phys, Learn(g, d.phys, d.index, d.tags[k].blocks), d.tags[k].blocks)
  }

  /** Every digest of a block of `k` that the index knows is bound to a block with its file. */
  ghost predicate IndexedFilesExist(g: Geometry, d: Disk, k: Key)
    requires k in d.tags
  {
    forall b :: b in d.tags[k].blocks && b in d.phys && DigestOf(g, d.phys, b) in d.index
      ==> d.index[DigestOf(g, d.phys, b)] in d.phys
  }

  /** Where COMMIT takes each position of the File:Tag: to the block its digest is bound to if
      that one has its file, and nowhere otherwise. */
  lemma CommitExchanges(g: Geometry, d: Disk, k: Key, i: nat)
    requires LinkInv(g, d) && !Frozen(d, k) && i < |d.tags[k].blocks|
    ensures var d' := Commit(g, d, k).disk; var b := d.tags[k].blocks[i]; var c := LinkedAfter(g, d, k)[i];
      && b in d.phys && DigestOf(g, d.phys, b) in d'.index && c in d.phys
      && c == (if d'.index[DigestOf(g, d.phys, b)] in d.phys then d'.index[DigestOf(g, d.phys, b)] else b)
      && (DigestOf(g, d.phys, b) !in d.index ==> d'.index[DigestOf(g, d.phys, b)] in d.phys)
  {
    assert Holds(d, k, i, d.tags[k].blocks[i]);
    assert d.tags[k].blocks[i] in d.tags[k].blocks;
  }

  /** With all files there, every move is saved. */
  lemma FilesExistSaves(g: Geometry, d: Disk, k: Key)
    requires LinkInv(g, d) && !Frozen(d, k) && IndexedFilesExist(g, d, k)
    ensures !MovesUnsaved(g, d, k)
  {
    var blocks := d.tags[k].blocks;
    var j := LastMove(g, d.phys, Learn(g, d.phys, d.index, blocks), blocks);
    if j >= 0 { CommitExchanges(g, d, k, j); }
  }

  /** On a File:Tag of one block a move is either saved or not made. */
  lemma OneBlockSaves(g: Geometry, d: Disk, k: Key)
    requires k in d.tags && |d.tags[k].blocks| == 1
    ensures !MovesUnsaved(g, d, k)
  {
    var blocks := d.tags[k].blocks;
    var j := LastMove(g, d.phys, Learn(g, d.phys, d.index, blocks), blocks);
    if LinkedAfter(g, d, k)[0] != blocks[0] { assert j == 0; }
  }

  lemma CommitLinks(g: Geometry, d: Disk, k: Key)
    requires LinkInv(g, d) && !Frozen(d, k) && !MovesUnsaved(g, d, k)
    ensures LinkInv(g, Commit(g, d, k).disk) && Commit(g, d, k).disk.tags[k].blocks == LinkedAfter(g, d, k)
    ensures forall k', i, b: nat :: k' != k ==> Holds(Commit(g, d, k).disk, k', i, b) == Holds(d, k', i, b)
    ensures forall b: nat :: Indexed(g, d, b) ==> Indexed(g, Commit(g, d, k).disk, b)
  {
    var d' := Commit(g, d, k).disk;
    assert TagOk(g, d, k);
    assert d'.tags[k].blocks == LinkedAfter(g, d, k);
    forall k' | k' in d'.tags ensures TagOk(g, d', k') { assert TagOk(g, d, k'); }
    forall k', i, b: nat | Holds(d', k', i, b) ensures b in d'.phys {
      if k' == k { CommitExchanges(g, d, k, i); } else { assert Holds(d, k', i, b); }
    }
  }

  /** COMMIT keeps the link invariant exactly when it leaves no move unsaved. */
  lemma CommitKeepsLinkInvIff(g: Geometry, d: Disk, k: Key)
    requires LinkInv(g, d)
    ensures LinkInv(g, Commit(g, d, k).disk) <==> Frozen(d, k) || !MovesUnsaved(g, d, k)
  {
    if !Frozen(d, k) {
      if MovesUnsaved(g, d, k) {
        var d' := Commit(g, d, k).disk;
        var i :| 0 <= i < |d.tags[k].blocks| && LinkedAfter(g, d, k)[i] != d.tags[k].blocks[i];
        assert d'.tags[k].dir[i] != DirOf(d'.tags[k].blocks)[i];
        assert !TagOk(g, d', k);
      } else {
        CommitLinks(g, d, k);
      }
    }
  }

  /** Every block of the new BLOCKS list is an index value. */
  lemma CommitCanonicalises(g: Geometry, d: Disk, k: Key)
    requires RunInv(g, d) && !Frozen(d, k)
    ensures var d' := Commit(g, d, k).disk; var old' := d.tags[k].blocks; var new' := d'.tags[k].blocks;
      && d'.phys == d.phys && |new'| == |old'| && !MovesUnsaved(g, d, k)
      && forall i :: 0 <= i < |new'| ==>
           old'[i] in d.phys && Indexed(g, d', new'[i]) && DigestOf(g, d.phys, new'[i]) == DigestOf(g, d.phys, old'[i])
  {
    var d' := Commit(g, d, k).disk;
    var old' := d.tags[k].blocks;
    FilesExistSaves(g, d, k);
    CommitLinks(g, d, k);
    forall i | 0 <= i < |old'|
      ensures old'[i] in d.phys && Indexed(g, d', d'.tags[k].blocks[i])
      ensures DigestOf(g, d.phys, d'.tags[k].blocks[i]) == DigestOf(g, d.phys, old'[i])
    {
      CommitExchanges(g, d, k, i);
    }
  }

  /** A block that COMMIT exchanges for another is, unless it is block 0, linked only by
      the position being exchanged; this is what makes clearing its bit harmless. */
  lemma ReplacedBlockIsDropped(g: Geometry, d: Disk, k: Key, i: int)
    requires RunInv(g, d) && !Frozen(d, k)
    requires 0 <= i < |d.tags[k].blocks| && d.tags[k].blocks[i] >= 1
    requires Commit(g, d, k).disk.tags[k].blocks[i] != d.tags[k].blocks[i]
    ensures var d' := Commit(g, d, k).disk; var b := d.tags[k].blocks[i];
      !Indexed(g, d', b) && forall k', i' :: !Holds(d', k', i', b)
  {
    CommitCanonicalises(g, d, k);
    var d' := Commit(g, d, k).disk;
    var b := d.tags[k].blocks[i];
    assert Holds(d, k, i, b);
    assert !Indexed(g, d', b);
    assert !Indexed(g, d, b) && AtMostOneLink(d, b);
    forall k', i' ensures !Holds(d', k', i', b) {
      if k' != k { assert Holds(d', k', i', b) == Holds(d, k', i', b); }
    }
  }

  /** The first position whose block has digest h. */
  function FirstWith(g: Geometry, phys: map<nat, seq<byte>>, blocks: seq<nat>, h: Digest): (j: nat)
    requires exists b :: b in blocks && b in phys && DigestOf(g, phys, b) == h
    ensures j < |blocks| && blocks[j] in phys && DigestOf(g, phys, blocks[j]) == h
    ensures forall i :: 0 <= i < j && blocks[i] in phys ==> DigestOf(g, phys, blocks[i]) != h
  {
    if blocks[0] in phys && DigestOf(g, phys, blocks[0]) == h then 0
    else
      assert blocks == [blocks[0]] + blocks[1..];
      1 + FirstWith(g, phys, blocks[1..], h)
  }

  /** A digest that no block has is not learnt. */
  lemma NotLearnt(g: Geometry, phys: map<nat, seq<byte>>, index: map<Digest, nat>, blocks: seq<nat>, h: Digest)
    requires h !in index && forall i :: 0 <= i < |blocks| && blocks[i] in phys ==> DigestOf(g, phys, blocks[i]) != h
    ensures h !in Learn(g, phys, index, blocks)
  {
  }

  /** What one more block adds. */
  lemma LearnLast(g: Geometry, phys: map<nat, seq<byte>>, index: map<Digest, nat>, before: seq<nat>, b: nat)
    ensures var r := Learn(g, phys, index, before);
      Learn(g, phys, index, before + [b])
      == if b !in phys || DigestOf(g, phys, b) in r then r else r[DigestOf(g, phys, b) := b]
  {
    var blocks := before + [b];
    assert blocks[..|blocks| - 1] == before;
  }

  /** A digest that was not bound is bound to the first block that has it. */
  lemma {:induction false} LearnBindsFirst(g: Geometry, phys: map<nat, seq<byte>>, index: map<Digest, nat>,
                      blocks: seq<nat>, j: nat)
    requires j < |blocks| && blocks[j] in phys && DigestOf(g, phys, blocks[j]) !in index
    requires forall i :: 0 <= i < j && blocks[i] in phys ==>
        DigestOf(g, phys, blocks[i]) != DigestOf(g, phys, blocks[j])
    ensures var h := DigestOf(g, phys, blocks[j]); var r := Learn(g, phys, index, blocks); h in r && r[h] == blocks[j]
  {
    var n := |blocks| - 1;
    assert blocks[..n] + [blocks[n]] == blocks;
    LearnLast(g, phys, index, blocks[..n], blocks[n]);
    if j < n {
      LearnBindsFirst(g, phys, index, blocks[..n], j);
    } else {
      NotLearnt(g, phys, index, blocks[..n], DigestOf(g, phys, blocks[j]));
    }
  }

  /** Entry j has the digest of b and comes before any b. */
  ghost predicate Precedes(g: Geometry, d: Disk, blocks: seq<nat>, j: nat, b: nat)
    requires j < |blocks| && b in d.phys
  {
    blocks[j] in d.phys && DigestOf(g, d.phys, blocks[j]) == DigestOf(g, d.phys, b) && b !in blocks[..j + 1]
  }

  /** The digest of b is bound to another block that has its file, beforehand or by an earlier
      entry of BLOCKS. */
  ghost predicate BoundElsewhere(g: Geometry, d: Disk, k: Key, b: nat)
    requires k in d.tags && b in d.phys
  {
    var h, blocks := DigestOf(g, d.phys, b), d.tags[k].blocks;
    if h in d.index then d.index[h] != b && d.index[h] in d.phys
    else exists j :: 0 <= j < |blocks| && Precedes(g, d, blocks, j, b)
  }

  lemma CommitExchangesIff(g: Geometry, d: Disk, k: Key, b: nat)
    requires LinkInv(g, d) && !Frozen(d, k) && b in d.tags[k].blocks && b in d.phys
    ensures Canonical(g, d.phys, Commit(g, d, k).disk.index, b) != b <==> BoundElsewhere(g, d, k, b)
  {
    var h, blocks := DigestOf(g, d.phys, b), d.tags[k].blocks;
    if h !in d.index {
      var j := FirstWith(g, d.phys, blocks, h);
      LearnBindsFirst(g, d.phys, d.index, blocks, j);
      if blocks[j] == b {
        forall i | 0 <= i < |blocks| ensures !Precedes(g, d, blocks, i, b) {
          if i >= j { assert blocks[..i + 1][j] == b; }
        }
      } else {
        assert forall i :: 0 <= i <= j ==> blocks[i] != b;
        assert Precedes(g, d, blocks, j, b);
      }
    }
  }

  /** COMMIT clears exactly the bits, of blocks in BLOCKS, whose digest is bound to another
      block that has its file, without looking at who else links them. */
  lemma CommitClearsBitIff(g: Geometry, d: Disk, k: Key, b: nat)
    requires LinkInv(g, d) && !Frozen(d, k) && b < |d.bits|
    ensures b in d.tags[k].blocks ==> b in d.phys
    ensures Commit(g, d, k).disk.bits[b] <==> d.bits[b] && !(b in d.tags[k].blocks && BoundElsewhere(g, d, k, b))
  {
    var old', new' := d.tags[k].blocks, LinkedAfter(g, d, k);
    if b in old' {
      var i :| 0 <= i < |old'| && old'[i] == b;
      CommitExchanges(g, d, k, i);
      CommitExchangesIff(g, d, k, b);
      assert new'[i] == Canonical(g, d.phys, Commit(g, d, k).disk.index, b);
      assert b in Replaced(old', new', |new'|) <==> new'[i] != b;
    }
  }

  /** In particular block 0, which initial_file:BASE always links, loses its bit exactly then. */
  lemma CommitFreesBlockZeroIff(g: Geometry, d: Disk, k: Key)
    requires LinkInv(g, d) && !Frozen(d, k) && d.bits[0]
    ensures var d' := Commit(g, d, k).disk;
      && 0 in d.phys && Holds(d', INITIAL_KEY, 0, 0)
      && (!d'.bits[0] <==> 0 in d.tags[k].blocks && BoundElsewhere(g, d, k, 0))
  {
    assert Holds(d, INITIAL_KEY, 0, 0);
    CommitClearsBitIff(g, d, k, 0);
  }

  lemma CommitIndexSound(g: Geometry, d: Disk, k: Key)
    requires RunInv(g, d) && !Frozen(d, k)
    ensures IndexSound(g, Commit(g, d, k).disk)
  {
    CommitCanonicalises(g, d, k);
    CommitLinks(g, d, k);
    var d' := Commit(g, d, k).disk;
    forall h | h in d'.index
      ensures d'.index[h] in d'.phys && DigestOf(g, d'.phys, d'.index[h]) == h && Pinned(d', d'.index[h])
    {
      var b := d'.index[h];
      if h in d.index {
        var k', i :| Holds(d, k', i, b) && Frozen(d, k');
        assert Holds(d', k', i, b);
      } else {
        var j :| 0 <= j < |d.tags[k].blocks| && d.tags[k].blocks[j] == b;
        assert Holds(d', k, j, b);
      }
    }
  }

  lemma CommitAllocated(g: Geometry, d: Disk, k: Key)
    requires RunInv(g, d) && !Frozen(d, k)
    ensures Allocated(Commit(g, d, k).disk)
  {
    CommitLinks(g, d, k);
    CommitIndexSound(g, d, k);
    var d' := Commit(g, d, k).disk;
    forall k', i, b: nat | Holds(d', k', i, b) && b >= 1 ensures b < |d'.bits| && d'.bits[b] {
      if k' == k {
        CommitCanonicalises(g, d, k);
        var h := DigestOf(g, d'.phys, b);
        assert Indexed(g, d', b);
        if h in d.index {
          var k1, i1 :| Holds(d, k1, i1, b) && Frozen(d, k1);
        } else {
          var j :| 0 <= j < |d.tags[k].blocks| && d.tags[k].blocks[j] == b;
          assert Holds(d, k, j, b);
        }
      } else {
        assert Holds(d, k', i, b);
      }
      forall i0 | 0 <= i0 < |d.tags[k].blocks| && d'.tags[k].blocks[i0] != d.tags[k].blocks[i0]
        ensures d.tags[k].blocks[i0] != b
      {
        if d.tags[k].blocks[i0] >= 1 { ReplacedBlockIsDropped(g, d, k, i0); }
      }
    }
  }

  lemma CommitKeepsRunInv(g: Geometry, d: Disk, k: Key)
    requires RunInv(g, d)
    ensures RunInv(g, Commit(g, d, k).disk)
  {
    if !Frozen(d, k) {
      var d' := Commit(g, d, k).disk;
      CommitLinks(g, d, k);
      CommitIndexSound(g, d, k);
      CommitAllocated(g, d, k);
      CommitCanonicalises(g, d, k);
      forall k', i, b: nat | Holds(d', k', i, b) && d'.tags[k'].committed && k' != INITIAL_KEY
        ensures Indexed(g, d', b)
      {
        if k' != k { assert Holds(d, k', i, b); }
      }
      forall b: nat | b >= 1 && !Indexed(g, d', b) ensures AtMostOneLink(d', b) {
        assert !Indexed(g, d, b) && AtMostOneLink(d, b);
        assert forall k', i :: Holds(d', k', i, b) ==> k' != k;
      }
    }
  }
}
