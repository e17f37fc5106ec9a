/** The link invariant over whole runs, whatever is shared or deleted: it needs nothing about
    bits, digests or how many File:Tags link a block, only that no COMMIT leaves a move
    unsaved; and none does while what the index names is kept by File:Tags that do not
    change. */
module LinkRuns {
  import opened Disk
  import opened DiskInvariant
  import opened StorageSteps
  import opened FlushSteps
  import opened StorageRuns

  /** A block with its file, pinned. */
  ghost predicate Stays(d: Disk, b: nat) {
    b in d.phys && Pinned(d, b)
  }

  /** The link invariant, and every block the index names pinned. */
  ghost predicate Kept(g: Geometry, d: Disk) {
    LinkInv(g, d) && forall h :: h in d.index ==> Stays(d, d.index[h])
  }

  /** The operation returns true, or is rejected without a trace; only a FLUSH that fails
      after its first page does neither. */
  ghost predicate Returned(g: Geometry, d: Disk, op: Op)
    requires g.blockSize > 0 && |d.bits| > 0
  {
    Step(g, d, op).ok || Step(g, d, op).disk == d
  }

  lemma OnlyFlushLeavesTraces(g: Geometry, d: Disk, op: Op)
    requires LinkInv(g, d)
    ensures !Returned(g, d, op) ==> op.FlushOp?
  {
    if op.WriteOp? { WriteRedirects(g, d, op.key, op.number, op.data); }
  }

  /** COMMIT leaves no move unsaved. */
  ghost predicate SavesMoves(g: Geometry, d: Disk, op: Op) {
    op.CommitOp? ==> Frozen(d, op.key) || !MovesUnsaved(g, d, op.key)
  }

  /** An operation that returns keeps the link invariant, unless it is a COMMIT that relinks a
      position while the last position it has to move is bound to a block that has lost its
      file, and then it breaks it. */
  lemma StepKeepsLinkInvIff(g: Geometry, d: Disk, op: Op)
    requires LinkInv(g, d) && WellFormed(g, op) && Returned(g, d, op)
    ensures LinkInv(g, Step(g, d, op).disk) <==> SavesMoves(g, d, op)
  {
    match op
    case CreateOp(k) => CreateLinks(g, d, k);
    case TruncateOp(k, size) => if !Frozen(d, k) { TruncateLinks(g, d, k, size); }
    case TagOp(src, dst) => if TagFrom(d, src, dst).ok { TagLinks(g, d, src, dst); }
    case WriteOp(k, i, data) =>
      WriteRedirects(g, d, k, i, data);
      if Write(g, d, k, i, data).ok { RedirectLinks(g, d, k, i, FirstFree(d.bits, 1), Pad(g, data)); }
    case FlushOp(k, pages) => if !Frozen(d, k) { FlushPagesKeepLinks(g, d, k, pages); }
    case CommitOp(k) => CommitKeepsLinkInvIff(g, d, k);
    case DeleteOp(k) => if Delete(d, k).ok { DeleteFreesPrecisely(g, d, k); }
  }

  // -------------------------------------------------------- what the index names

  /** DELETE leaves every block the index names pinned. */
  ghost predicate LeavesPinned(d: Disk, op: Op) {
    op.DeleteOp? && Delete(d, op.key).ok ==> forall h :: h in d.index ==> PinnedElsewhere(d, op.key, d.index[h])
  }

  /** A File:Tag that does not change keeps its blocks pinned. */
  lemma StillPinned(d: Disk, d': Disk, b: nat)
    requires Pinned(d, b)
    requires forall k :: k in d.tags && Frozen(d, k) ==> k in d'.tags && d'.tags[k] == d.tags[k]
    ensures Pinned(d', b)
  {
    var k, i :| Holds(d, k, i, b) && Frozen(d, k);
    assert Holds(d', k, i, b) && Frozen(d', k);
  }

  lemma FrozenTagsStay(g: Geometry, d: Disk, op: Op)
    requires g.blockSize > 0 && |d.bits| > 0 && !op.DeleteOp?
    ensures var d' := Step(g, d, op).disk;
      forall k :: k in d.tags && Frozen(d, k) ==> k in d'.tags && d'.tags[k] == d.tags[k]
  {
  }

  lemma {:induction false} FilesStayInFlush(g: Geometry, d: Disk, k: Key, pages: seq<Page>)
    requires g.blockSize > 0 && |d.bits| > 0 && k in d.tags
    ensures d.phys.Keys <= FlushPages(g, d, k, pages).phys.Keys
  {
    if pages != [] { FilesStayInFlush(g, d, k, pages[..|pages| - 1]); }
  }

  lemma FilesStay(g: Geometry, d: Disk, op: Op)
    requires g.blockSize > 0 && |d.bits| > 0 && !op.DeleteOp?
    ensures d.phys.Keys <= Step(g, d, op).disk.phys.Keys
  {
    if op.FlushOp? && !Frozen(d, op.key) { FilesStayInFlush(g, d, op.key, op.pages); }
  }

  /** A digest COMMIT binds names a block that the new COMMITED File:Tag links. */
  lemma LearntIsPinned(g: Geometry, d: Disk, k: Key, h: Digest)
    requires LinkInv(g, d) && !Frozen(d, k) && h in Commit(g, d, k).disk.index && h !in d.index
    ensures var d' := Commit(g, d, k).disk; Stays(d', d'.index[h])
  {
    var d' := Commit(g, d, k).disk;
    var j :| 0 <= j < |d.tags[k].blocks| && d.tags[k].blocks[j] == d'.index[h];
    CommitExchanges(g, d, k, j);
    assert Holds(d', k, j, d'.index[h]);
  }

  lemma DeleteKeepsPinnedIff(g: Geometry, d: Disk, k: Key, b: nat)
    requires LinkInv(g, d) && Delete(d, k).ok && b in d.phys
    ensures Stays(Delete(d, k).disk, b) <==> PinnedElsewhere(d, k, b)
  {
    var d' := Delete(d, k).disk;
    DeleteLinks(g, d, k);
    if PinnedElsewhere(d, k, b) {
      var k', i :| Holds(d, k', i, b) && Frozen(d, k') && k' != k;
      assert Holds(d', k', i, b) && Frozen(d', k');
      DeleteFreesPrecisely(g, d, k);
      DeleteKeepsLinked(g, d, k);
    }
    if Pinned(d', b) {
      var k', i :| Holds(d', k', i, b) && Frozen(d', k');
      assert Holds(d, k', i, b);
    }
  }

  /** The index only grows, and only a COMMIT makes it grow. */
  lemma IndexGrows(g: Geometry, d: Disk, op: Op)
    requires g.blockSize > 0 && |d.bits| > 0
    ensures var d' := Step(g, d, op).disk;
      && (forall h :: h in d.index ==> h in d'.index && d'.index[h] == d.index[h])
      && (forall h :: h in d'.index && h !in d.index ==> op.CommitOp? && !Frozen(d, op.key))
  {
  }

  lemma NamedBlockStays(g: Geometry, d: Disk, op: Op, b: nat)
    requires g.blockSize > 0 && |d.bits| > 0 && !op.DeleteOp? && Stays(d, b)
    ensures Stays(Step(g, d, op).disk, b)
  {
    FrozenTagsStay(g, d, op);
    FilesStay(g, d, op);
    StillPinned(d, Step(g, d, op).disk, b);
  }

  lemma NamedBlocksStay(g: Geometry, d: Disk, op: Op, h: Digest)
    requires Kept(g, d) && !op.DeleteOp? && h in Step(g, d, op).disk.index
    ensures var d' := Step(g, d, op).disk; Stays(d', d'.index[h])
  {
    IndexGrows(g, d, op);
    if h in d.index {
      NamedBlockStays(g, d, op, d.index[h]);
    } else {
      LearntIsPinned(g, d, op.key, h);
    }
  }

  /** What the index names has its file, so every move is saved. */
  lemma KeptSavesMoves(g: Geometry, d: Disk, op: Op)
    requires Kept(g, d)
    ensures g.blockSize > 0 && |d.bits| > 0 && SavesMoves(g, d, op)
  {
    if op.CommitOp? && !Frozen(d, op.key) { FilesExistSaves(g, d, op.key); }
  }

  /** An operation that returns keeps the link invariant with its index exactly when it
      is no DELETE that unpins a block the index names. */
  lemma StepKeepsKeptIff(g: Geometry, d: Disk, op: Op)
    requires Kept(g, d) && WellFormed(g, op) && Returned(g, d, op)
    ensures Kept(g, Step(g, d, op).disk) <==> LeavesPinned(d, op)
  {
    KeptSavesMoves(g, d, op);
    StepKeepsLinkInvIff(g, d, op);
    var d' := Step(g, d, op).disk;
    if !op.DeleteOp? {
      forall h | h in d'.index ensures Stays(d', d'.index[h]) {
        NamedBlocksStay(g, d, op, h);
      }
    } else if Delete(d, op.key).ok {
      forall h | h in d.index ensures Stays(d', d.index[h]) <==> PinnedElsewhere(d, op.key, d.index[h]) {
        DeleteKeepsPinnedIff(g, d, op.key, d.index[h]);
      }
    }
  }

  lemma DeleteOfUncommittedLeavesPinned(g: Geometry, d: Disk, k: Key)
    requires Kept(g, d) && (k in d.tags ==> !d.tags[k].committed)
    ensures LeavesPinned(d, DeleteOp(k))
  {
    if Delete(d, k).ok {
      forall h | h in d.index ensures PinnedElsewhere(d, k, d.index[h]) {
        var k', i :| Holds(d, k', i, d.index[h]) && Frozen(d, k');
      }
    }
  }

  // ------------------------------------------------------------------------ runs

  /** Operations that return true or are rejected without a trace, where no COMMIT leaves a
      move unsaved: TAG has any source, DELETE any target. */
  ghost predicate SavingRun(g: Geometry, d: Disk, ops: seq<Op>)
    requires g.blockSize > 0 && |d.bits| > 0
    decreases ops
  {
    ops != [] ==>
      && WellFormed(g, ops[0]) && Returned(g, d, ops[0]) && SavesMoves(g, d, ops[0])
      && SavingRun(g, Step(g, d, ops[0]).disk, ops[1..])
  }

  lemma {:induction false} RunKeepsLinkInv(g: Geometry, d: Disk, ops: seq<Op>)
    requires LinkInv(g, d) && SavingRun(g, d, ops)
    ensures LinkInv(g, After(g, d, ops))
    decreases ops
  {
    if ops != [] {
      StepKeepsLinkInvIff(g, d, ops[0]);
      RunKeepsLinkInv(g, Step(g, d, ops[0]).disk, ops[1..]);
    }
  }

  /** The storage link invariant: in every state that such a run reaches from a fresh format,
      BLOCKS is as long as the size says, logical link i points at BLOCKS[i], every linked
      block has its file, and st_nlink is one more than the positions that hold the block. */
  lemma LinksAgreeInEveryRun(g: Geometry, ops: seq<Op>)
    requires g.blockSize > 0 && g.count > 0 && SavingRun(g, Format(g), ops)
    ensures var d := After(g, Format(g), ops);
      && (forall k :: k in d.tags && k != INITIAL_KEY ==> |d.tags[k].blocks| == CeilDiv(d.tags[k].size, g.blockSize))
      && (forall k :: k in d.tags ==> d.tags[k].dir == DirOf(d.tags[k].blocks))
      && (forall k, i, b: nat :: Holds(d, k, i, b) ==> b in d.phys)
      && (forall b: nat :: b in d.phys ==> NLink(d, b) == 1 + |Positions(d, b)|)
  {
    FormatHasRunInv(g);
    RunKeepsLinkInv(g, Format(g), ops);
    var d := After(g, Format(g), ops);
    forall k | k in d.tags ensures TagOk(g, d, k) {}
    forall b: nat | b in d.phys ensures NLink(d, b) == 1 + |Positions(d, b)| { NLinkCountsPositions(g, d, b); }
  }

  /** The runs whose DELETEs are only of File:Tags that are not COMMITED; TAG has any source. */
  ghost predicate TidyRun(g: Geometry, d: Disk, ops: seq<Op>)
    requires g.blockSize > 0 && |d.bits| > 0
    decreases ops
  {
    ops != [] ==>
      && WellFormed(g, ops[0]) && Returned(g, d, ops[0])
      && (ops[0].DeleteOp? && ops[0].key in d.tags ==> !d.tags[ops[0].key].committed)
      && TidyRun(g, Step(g, d, ops[0]).disk, ops[1..])
  }

  /** Without DELETE of COMMITED File:Tags what the index names stays, and no COMMIT ever
      leaves a move unsaved. */
  lemma {:induction false} TidyRunsSaveMoves(g: Geometry, d: Disk, ops: seq<Op>)
    requires Kept(g, d) && TidyRun(g, d, ops)
    ensures SavingRun(g, d, ops) && Kept(g, After(g, d, ops))
    decreases ops
  {
    if ops != [] {
      KeptSavesMoves(g, d, ops[0]);
      if ops[0].DeleteOp? { DeleteOfUncommittedLeavesPinned(g, d, ops[0].key); }
      StepKeepsKeptIff(g, d, ops[0]);
      TidyRunsSaveMoves(g, Step(g, d, ops[0]).disk, ops[1..]);
    }
  }
}
