/** The invariant kept by whole runs of storage operations. */
module DiskInvariant {
  import opened Disk

  /** Logical block i of File:Tag k is recorded as living in physical block b. */
  ghost predicate Holds(d: Disk, k: Key, i: int, b: nat) {
    k in d.tags && 0 <= i < |d.tags[k].blocks| && d.tags[k].blocks[i] == b
  }

  /** Metadata and hard links of one File:Tag agree. */
  ghost predicate TagOk(g: Geometry, d: Disk, k: Key)
    requires g.blockSize > 0 && k in d.tags
  {
    && d.tags[k].dir == DirOf(d.tags[k].blocks)
    && (k != INITIAL_KEY ==> |d.tags[k].blocks| == CeilDiv(d.tags[k].size, g.blockSize))
  }

  /** The link invariant: every File:Tag agrees with its links, every linked block has
      its physical name, and physical files are whole blocks. */
  ghost predicate LinkInv(g: Geometry, d: Disk) {
    && g.blockSize > 0 && 0 < g.count == |d.bits|
    && INITIAL_KEY in d.tags && d.tags[INITIAL_KEY] == Tag(0, true, [0], DirOf([0]))
    && (forall k :: k in d.tags ==> TagOk(g, d, k))
    && (forall k, i, b: nat :: Holds(d, k, i, b) ==> b in d.phys)
    && (forall b :: b in d.phys ==> b < g.count && |d.phys[b]| >= g.blockSize)
  }

  /** Every block but 0 that some File:Tag links is marked as taken. */
  ghost predicate Allocated(d: Disk) {
    forall k, i, b: nat :: Holds(d, k, i, b) && b >= 1 ==> b < |d.bits| && d.bits[b]
  }

  /** A File:Tag that TRUNCATE, WRITE, FLUSH and COMMIT leave alone keeps the block linked:
      a COMMITED one, or one that only differs from initial_file:BASE in case. */
  ghost predicate Pinned(d: Disk, b: nat) {
    exists k, i :: Holds(d, k, i, b) && Frozen(d, k)
  }

  ghost predicate Indexed(g: Geometry, d: Disk, b: nat) {
    b in d.phys && DigestOf(g, d.phys, b) in d.index && d.index[DigestOf(g, d.phys, b)] == b
  }

  /** Index values are pinned and still hold the bytes they were indexed under. */
  ghost predicate IndexSound(g: Geometry, d: Disk) {
    forall h :: h in d.index ==>
      d.index[h] in d.phys && DigestOf(g, d.phys, d.index[h]) == h && Pinned(d, d.index[h])
  }

  /** Every block of a COMMITED File:Tag (but initial_file:BASE) is an index value. */
  ghost predicate CommittedIndexed(g: Geometry, d: Disk) {
    forall k, i, b: nat :: Holds(d, k, i, b) && d.tags[k].committed && k != INITIAL_KEY ==> Indexed(g, d, b)
  }

  ghost predicate AtMostOneLink(d: Disk, b: nat) {
    forall k, i, k', i' :: Holds(d, k, i, b) && Holds(d, k', i', b) ==> k == k' && i == i'
  }

  /** A block outside the index (and not block 0) has at most one logical link. */
  ghost predicate Exclusive(g: Geometry, d: Disk) {
    forall b: nat :: b >= 1 && !Indexed(g, d, b) ==> AtMostOneLink(d, b)
  }

  ghost predicate RunInv(g: Geometry, d: Disk) {
    LinkInv(g, d) && Allocated(d) && IndexSound(g, d) && CommittedIndexed(g, d) && Exclusive(g, d)
  }

  // ---------------------------------------------------------------- link counts

  /** Under the link invariant the hard links of b are exactly the positions of BLOCKS
      lists whose entry is b. */
  lemma RefsArePositions(g: Geometry, d: Disk, b: nat)
    requires LinkInv(g, d)
    ensures forall k, i :: (k, i) in Refs(d.tags, b) <==> Holds(d, k, i, b)
  {
    forall k, i ensures (k, i) in Refs(d.tags, b) <==> Holds(d, k, i, b) {
      if k in d.tags { assert TagOk(g, d, k); }
    }
  }

  /** Positions of BLOCKS lists whose entry is b. */
  ghost function Positions(d: Disk, b: nat): set<(Key, nat)> {
    set k, i: nat | k in d.tags && i < |d.tags[k].blocks| && d.tags[k].blocks[i] == b :: (k, i)
  }

  /** st_nlink of a block that has its file is one more than the positions that hold it. */
  lemma NLinkCountsPositions(g: Geometry, d: Disk, b: nat)
    requires LinkInv(g, d) && b in d.phys
    ensures NLink(d, b) == 1 + |Positions(d, b)|
  {
    RefsArePositions(g, d, b);
    forall k, i: nat ensures (k, i) in Refs(d.tags, b) <==> (k, i) in Positions(d, b) {
      assert (k, i) in Refs(d.tags, b) <==> Holds(d, k, i, b);
    }
    assert Refs(d.tags, b) == Positions(d, b);
  }

  /** No hard link to b is left exactly when no BLOCKS list mentions it. */
  lemma NoRefsIff(g: Geometry, d: Disk, b: nat)
    requires LinkInv(g, d)
    ensures Refs(d.tags, b) == {} <==> forall k, i :: !Holds(d, k, i, b)
  {
    RefsArePositions(g, d, b);
    if k, i :| Holds(d, k, i, b) {
      assert (k, i) in Refs(d.tags, b);
    }
    if Refs(d.tags, b) != {} {
      var r :| r in Refs(d.tags, b);
      assert Holds(d, r.0, r.1, b);
    }
  }

  /** A live logical block always has a second name, so the "only link" test of WRITE
      and FLUSH never succeeds. */
  lemma LiveBlockHasTwoNames(g: Geometry, d: Disk, k: Key, i: int)
    requires LinkInv(g, d) && k in d.tags && 0 <= i < |d.tags[k].blocks|
    ensures i in d.tags[k].dir && d.tags[k].dir[i] == d.tags[k].blocks[i]
    ensures NLink(d, d.tags[k].dir[i]) >= 2
  {
    assert TagOk(g, d, k);
    var b := d.tags[k].blocks[i];
    assert Holds(d, k, i, b);
    RefsArePositions(g, d, b);
    assert (k, i) in Refs(d.tags, b);
  }

  /** Only the physical name is left exactly when no BLOCKS list mentions the block. */
  lemma LastName(g: Geometry, d: Disk, b: nat)
    requires LinkInv(g, d) && b in d.phys
    ensures NLink(d, b) == 1 <==> !exists k, i :: Holds(d, k, i, b)
    ensures Refs(d.tags, b) == {} <==> !exists k, i :: Holds(d, k, i, b)
  {
    NoRefsIff(g, d, b);
  }

  lemma FormatHasRunInv(g: Geometry)
    requires g.blockSize > 0 && g.count > 0
    ensures RunInv(g, Format(g))
  {
    var d := Format(g);
    assert TagOk(g, d, INITIAL_KEY);
    assert forall b: nat :: b < g.count ==> BlockNumber(g, b);
    forall k, i, b: nat | Holds(d, k, i, b) ensures b == 0 { }
  }
}
