/** Whole runs of storage operations: allocator safety, isolation of snapshots,
    permanence of COMMITED File:Tags and sharing. */
module StorageRuns {
  import opened Bytes
  import opened Disk
  import opened DiskInvariant
  import opened StorageSteps
  import opened FlushSteps

  datatype Op =
    | CreateOp(key: Key)
    | TruncateOp(key: Key, size: nat)
    | TagOp(src: Key, key: Key)
    | WriteOp(key: Key, number: int, data: seq<byte>)
    | FlushOp(key: Key, pages: seq<Page>)
    | CommitOp(key: Key)
    | DeleteOp(key: Key)

  function Step(g: Geometry, d: Disk, op: Op): (o: Outcome)
    requires g.blockSize > 0 && |d.bits| > 0
    ensures |o.disk.bits| == |d.bits|
  {
    match op
    case CreateOp(k) => Create(d, k)
    case TruncateOp(k, size) => Truncate(g, d, k, size)
    case TagOp(src, dst) => TagFrom(d, src, dst)
    case WriteOp(k, i, data) => Write(g, d, k, i, data)
    case FlushOp(k, pages) => Flush(g, d, k, pages)
    case CommitOp(k) => Commit(g, d, k)
    case DeleteOp(k) => Delete(d, k)
  }

  /** Workers send FLUSH pages that are exactly one block long. */
  ghost predicate WellFormed(g: Geometry, op: Op) {
    op.FlushOp? ==> WholeBlocks(g, op.pages)
  }

  /** The guard, checkable before the call, under which an operation keeps the
      invariant: TAG of a source whose blocks are all indexed, a FLUSH that succeeds or
      changes nothing, DELETE of a File:Tag whose blocks stay pinned. */
  ghost predicate Admissible(g: Geometry, d: Disk, op: Op)
    requires g.blockSize > 0
  {
    match op
    case TagOp(src, dst) => Protected(src) || src !in d.tags || dst in d.tags || Shareable(g, d, src)
    case FlushOp(k, pages) => Frozen(d, k) || Flushable(g, d, k, pages)
    case DeleteOp(k) => Protected(k) || k !in d.tags || Deletable(d, k)
    case _ => true
  }

  /** The run invariant survives an operation exactly when the operation is admissible. */
  lemma StepKeepsRunInvIff(g: Geometry, d: Disk, op: Op)
    requires RunInv(g, d) && WellFormed(g, op)
    ensures RunInv(g, Step(g, d, op).disk) <==> Admissible(g, d, op)
  {
    match op
    case CreateOp(k) => CreateKeepsRunInv(g, d, k);
    case TruncateOp(k, size) => TruncateKeepsRunInv(g, d, k, size);
    case TagOp(src, dst) => TagKeepsRunInvIff(g, d, src, dst);
    case WriteOp(k, i, data) => WriteKeepsRunInv(g, d, k, i, data);
    case FlushOp(k, pages) => FlushKeepsRunInvIff(g, d, k, pages);
    case CommitOp(k) => CommitKeepsRunInv(g, d, k);
    case DeleteOp(k) => DeleteKeepsRunInvIff(g, d, k);
  }

  /** The operations named by the design: TAG from COMMITED sources, FLUSHes that
      succeed, DELETE of WORK_IN_PROGRESS File:Tags, and everything else freely. */
  ghost predicate Ordinary(g: Geometry, d: Disk, op: Op)
    requires g.blockSize > 0 && |d.bits| > 0
  {
    match op
    case TagOp(src, _) => src in d.tags ==> d.tags[src].committed
    case FlushOp(_, _) => Step(g, d, op).ok
    case DeleteOp(k) => k in d.tags ==> !d.tags[k].committed
    case _ => true
  }

  lemma OrdinaryIsAdmissible(g: Geometry, d: Disk, op: Op)
    requires RunInv(g, d) && WellFormed(g, op) && Ordinary(g, d, op)
    ensures Admissible(g, d, op)
  {
    match op
    case TagOp(src, dst) => if src in d.tags { CommittedIsShareable(g, d, src); }
    case FlushOp(k, pages) => FlushSucceedsIff(g, d, k, pages);
    case _ =>
  }

  // --------------------------------------------------------------------- runs

  function After(g: Geometry, d: Disk, ops: seq<Op>): (d': Disk)
    requires g.blockSize > 0 && |d.bits| > 0
    ensures |d'.bits| == |d.bits|
    decreases ops
  {
    if ops == [] then d else After(g, Step(g, d, ops[0]).disk, ops[1..])
  }

  lemma {:induction false} AfterConcat(g: Geometry, d: Disk, a: seq<Op>, b: seq<Op>)
    requires g.blockSize > 0 && |d.bits| > 0
    ensures After(g, d, a + b) == After(g, After(g, d, a), b)
    decreases a
  {
    if a == [] {
      assert a + b == b;
    } else {
      assert (a + b)[1..] == a[1..] + b;
      AfterConcat(g, Step(g, d, a[0]).disk, a[1..], b);
    }
  }

  lemma AfterOne(g: Geometry, d: Disk, op: Op)
    requires g.blockSize > 0 && |d.bits| > 0
    ensures After(g, d, [op]) == Step(g, d, op).disk
  {
    assert [op][1..] == [];
    assert After(g, Step(g, d, op).disk, []) == Step(g, d, op).disk;
  }

  ghost predicate AdmissibleRun(g: Geometry, d: Disk, ops: seq<Op>)
    requires g.blockSize > 0 && |d.bits| > 0
    decreases ops
  {
    ops != [] ==>
      WellFormed(g, ops[0]) && Admissible(g, d, ops[0]) && AdmissibleRun(g, Step(g, d, ops[0]).disk, ops[1..])
  }

  lemma {:induction false} AdmissibleOneMore(g: Geometry, d: Disk, ops: seq<Op>, op: Op)
    requires g.blockSize > 0 && |d.bits| > 0 && AdmissibleRun(g, d, ops)
    requires WellFormed(g, op) && Admissible(g, After(g, d, ops), op)
    ensures AdmissibleRun(g, d, ops + [op]) && After(g, d, ops + [op]) == Step(g, After(g, d, ops), op).disk
    decreases ops
  {
    if ops == [] {
      assert [] + [op] == [op] && [op][1..] == [];
    } else {
      assert (ops + [op])[1..] == ops[1..] + [op];
      AdmissibleOneMore(g, Step(g, d, ops[0]).disk, ops[1..], op);
    }
  }

  ghost predicate OrdinaryRun(g: Geometry, d: Disk, ops: seq<Op>)
    requires g.blockSize > 0 && |d.bits| > 0
    decreases ops
  {
    ops != [] ==>
      WellFormed(g, ops[0]) && Ordinary(g, d, ops[0]) && OrdinaryRun(g, Step(g, d, ops[0]).disk, ops[1..])
  }

  lemma {:induction false} OrdinaryRunIsAdmissible(g: Geometry, d: Disk, ops: seq<Op>)
    requires RunInv(g, d) && OrdinaryRun(g, d, ops)
    ensures AdmissibleRun(g, d, ops)
    decreases ops
  {
    if ops != [] {
      OrdinaryIsAdmissible(g, d, ops[0]);
      StepKeepsRunInvIff(g, d, ops[0]);
      OrdinaryRunIsAdmissible(g, Step(g, d, ops[0]).disk, ops[1..]);
    }
  }

  lemma {:induction false} RunKeepsRunInv(g: Geometry, d: Disk, ops: seq<Op>)
    requires RunInv(g, d) && AdmissibleRun(g, d, ops)
    ensures RunInv(g, After(g, d, ops))
    decreases ops
  {
    if ops != [] {
      StepKeepsRunInvIff(g, d, ops[0]);
      RunKeepsRunInv(g, Step(g, d, ops[0]).disk, ops[1..]);
    }
  }

  /** Allocator safety: from a fresh format, whatever admissible run came before, every
      linked block but 0 has its bit set, and the block that first-fit would hand out
      next is linked by no File:Tag and bound to no digest. */
  lemma AllocatorNeverHandsOutLiveBlock(g: Geometry, ops: seq<Op>)
    requires g.blockSize > 0 && g.count > 0 && AdmissibleRun(g, Format(g), ops)
    ensures var d := After(g, Format(g), ops); var n := FirstFree(d.bits, 1);
      && RunInv(g, d)
      && (forall k, i, b: nat :: Holds(d, k, i, b) && b >= 1 ==> b < |d.bits| && d.bits[b])
      && (n < |d.bits| ==> Refs(d.tags, n) == {} && n !in d.index.Values)
  {
    FormatHasRunInv(g);
    RunKeepsRunInv(g, Format(g), ops);
    var d := After(g, Format(g), ops);
    var n := FirstFree(d.bits, 1);
    if n < |d.bits| {
      FreeBlockIsUnused(g, d, n);
      RefsArePositions(g, d, n);
    }
  }

  // ---------------------------------------------------------------- isolation

  /** What a reader sees of one File:Tag. */
  datatype View = View(size: nat, committed: bool, blocks: seq<nat>, content: seq<seq<byte>>)

  ghost function Content(g: Geometry, d: Disk, blocks: seq<nat>): seq<seq<byte>>
    requires forall b :: b in blocks ==> b in d.phys
  {
    seq(|blocks|, i requires 0 <= i < |blocks| => assert blocks[i] in blocks; Visible(g, d.phys[blocks[i]]))
  }

  lemma BlocksExist(g: Geometry, d: Disk, k: Key)
    requires LinkInv(g, d) && k in d.tags
    ensures forall b :: b in d.tags[k].blocks ==> b in d.phys && b < |d.bits|
  {
    forall b | b in d.tags[k].blocks ensures b in d.phys {
      var i :| 0 <= i < |d.tags[k].blocks| && d.tags[k].blocks[i] == b;
      assert Holds(d, k, i, b);
    }
  }

  ghost function ViewOf(g: Geometry, d: Disk, k: Key): View
    requires LinkInv(g, d) && k in d.tags
  {
    BlocksExist(g, d, k);
    var t := d.tags[k];
    View(t.size, t.committed, t.blocks, Content(g, d, t.blocks))
  }

  /** READ through the links returns exactly the viewed bytes. */
  lemma ReadMatchesView(g: Geometry, d: Disk, k: Key, i: nat)
    requires LinkInv(g, d) && k in d.tags && k != INITIAL_KEY
    ensures var v := ViewOf(g, d, k);
      Read(g, d, k, i) == if i < |v.content| then ReadOk(v.content[i]) else ReadError
  {
    assert TagOk(g, d, k);
    BlocksExist(g, d, k);
    if i < |d.tags[k].blocks| { assert d.tags[k].blocks[i] in d.tags[k].blocks; }
  }

  /** The physical blocks `k` uses keep their bytes. */
  ghost predicate SameBytes(d: Disk, d': Disk, k: Key)
    requires k in d.tags
  {
    forall b: nat :: b in d.tags[k].blocks && b in d.phys ==> b in d'.phys && d'.phys[b] == d.phys[b]
  }

  lemma LinkedIsTaken(g: Geometry, d: Disk, k: Key, b: nat)
    requires RunInv(g, d) && k in d.tags && b in d.tags[k].blocks
    ensures b == 0 || (b < |d.bits| && d.bits[b])
  {
    var i :| 0 <= i < |d.tags[k].blocks| && d.tags[k].blocks[i] == b;
    assert Holds(d, k, i, b);
  }

  lemma WriteIsolatesOthers(g: Geometry, d: Disk, k': Key, i: int, data: seq<byte>, k: Key)
    requires RunInv(g, d) && k in d.tags && k != k'
    ensures var d' := Write(g, d, k', i, data).disk; k in d'.tags && d'.tags[k] == d.tags[k] && SameBytes(d, d', k)
  {
    WriteRedirects(g, d, k', i, data);
    forall b: nat | b in d.tags[k].blocks ensures b == 0 || (b < |d.bits| && d.bits[b]) { LinkedIsTaken(g, d, k, b); }
  }

  lemma FlushIsolatesOthers(g: Geometry, d: Disk, k': Key, pages: seq<Page>, k: Key)
    requires RunInv(g, d) && WholeBlocks(g, pages) && k in d.tags && k != k'
    ensures var d' := Flush(g, d, k', pages).disk; k in d'.tags && d'.tags[k] == d.tags[k] && SameBytes(d, d', k)
  {
    forall b: nat | b in d.tags[k].blocks ensures b == 0 || (b < |d.bits| && d.bits[b]) { LinkedIsTaken(g, d, k, b); }
    if !Frozen(d, k') { FlushPagesKeepInv(g, d, k', pages); }
  }

  lemma StepIsolatesOthers(g: Geometry, d: Disk, op: Op, k: Key)
    requires RunInv(g, d) && WellFormed(g, op) && k in d.tags && k != op.key
    ensures var d' := Step(g, d, op).disk; k in d'.tags && d'.tags[k] == d.tags[k] && SameBytes(d, d', k)
  {
    match op
    case WriteOp(k', i, data) => WriteIsolatesOthers(g, d, k', i, data, k);
    case FlushOp(k', pages) => FlushIsolatesOthers(g, d, k', pages, k);
    case DeleteOp(k') => DeleteIsolatesOthers(g, d, k', k);
    case _ =>
  }

  lemma DeleteIsolatesOthers(g: Geometry, d: Disk, k': Key, k: Key)
    requires RunInv(g, d) && k in d.tags && k != k'
    ensures var d' := Delete(d, k').disk; k in d'.tags && d'.tags[k] == d.tags[k] && SameBytes(d, d', k)
  {
    if Delete(d, k').ok {
      var d' := Delete(d, k').disk;
      DeleteFreesPrecisely(g, d, k');
      DeleteKeepsLinked(g, d, k');
      forall b: nat | b in d.tags[k].blocks ensures !LostLastLink(d, d', b) {
        var i :| 0 <= i < |d.tags[k].blocks| && d.tags[k].blocks[i] == b;
        assert Holds(d', k, i, b);
      }
    }
  }

  /** Isolation: an operation on another File:Tag leaves the view of `k` as it was. */
  lemma StepKeepsOtherViews(g: Geometry, d: Disk, op: Op, k: Key)
    requires RunInv(g, d) && WellFormed(g, op) && Admissible(g, d, op) && k in d.tags && k != op.key
    ensures RunInv(g, Step(g, d, op).disk) && k in Step(g, d, op).disk.tags
    ensures ViewOf(g, Step(g, d, op).disk, k) == ViewOf(g, d, k)
  {
    var d' := Step(g, d, op).disk;
    StepKeepsRunInvIff(g, d, op);
    StepIsolatesOthers(g, d, op, k);
    BlocksExist(g, d, k);
    assert ViewOf(g, d', k).content == ViewOf(g, d, k).content;
  }

  ghost predicate NoneTargets(ops: seq<Op>, k: Key) {
    forall op :: op in ops ==> op.key != k
  }

  lemma {:induction false} RunKeepsOtherViews(g: Geometry, d: Disk, ops: seq<Op>, k: Key)
    requires RunInv(g, d) && AdmissibleRun(g, d, ops) && k in d.tags && NoneTargets(ops, k)
    ensures RunInv(g, After(g, d, ops)) && k in After(g, d, ops).tags
    ensures ViewOf(g, After(g, d, ops), k) == ViewOf(g, d, k)
    decreases ops
  {
    if ops != [] {
      StepKeepsOtherViews(g, d, ops[0], k);
      RunKeepsOtherViews(g, Step(g, d, ops[0]).disk, ops[1..], k);
    }
  }

  /** Snapshot isolation: after TAG src to dst, dst shows what src showed at that moment,
      however the run goes on, as long as no operation names dst as its target. */
  lemma SnapshotIsolation(g: Geometry, before: seq<Op>, src: Key, dst: Key, later: seq<Op>)
    requires g.blockSize > 0 && g.count > 0
    requires AdmissibleRun(g, Format(g), before)
    requires var d := After(g, Format(g), before);
      && TagFrom(d, src, dst).ok && Shareable(g, d, src)
      && AdmissibleRun(g, TagFrom(d, src, dst).disk, later) && NoneTargets(later, dst)
    ensures var d := After(g, Format(g), before); var end := After(g, TagFrom(d, src, dst).disk, later);
      && RunInv(g, d) && RunInv(g, end) && dst in end.tags
      && ViewOf(g, end, dst) == ViewOf(g, d, src).(committed := false)
  {
    FormatHasRunInv(g);
    RunKeepsRunInv(g, Format(g), before);
    var d := After(g, Format(g), before);
    var d1 := TagFrom(d, src, dst).disk;
    TagKeepsRunInvIff(g, d, src, dst);
    BlocksExist(g, d, src);
    assert ViewOf(g, d1, dst).content == ViewOf(g, d, src).content;
    RunKeepsOtherViews(g, d1, later, dst);
  }

  // ---------------------------------------------------------------- permanence

  /** An operation that names a COMMITED File:Tag as its target, other than DELETE,
      changes nothing at all. */
  lemma CommittedIsFrozen(g: Geometry, d: Disk, op: Op)
    requires RunInv(g, d) && op.key in d.tags && d.tags[op.key].committed && !op.DeleteOp?
    ensures Step(g, d, op).disk == d
    ensures Step(g, d, op).ok <==> op.CommitOp? && !Protected(op.key)
  {
  }

  /** COMMITED is permanent: short of deleting it, no admissible run changes the size,
      the BLOCKS or the bytes of a COMMITED File:Tag. */
  lemma {:induction false} CommittedForever(g: Geometry, d: Disk, ops: seq<Op>, k: Key)
    requires RunInv(g, d) && AdmissibleRun(g, d, ops) && k in d.tags && d.tags[k].committed
    requires DeleteOp(k) !in ops
    ensures RunInv(g, After(g, d, ops)) && k in After(g, d, ops).tags
    ensures ViewOf(g, After(g, d, ops), k) == ViewOf(g, d, k)
    decreases ops
  {
    if ops != [] {
      if ops[0].key == k {
        assert ops[0] in ops;
        CommittedIsFrozen(g, d, ops[0]);
      } else {
        StepKeepsOtherViews(g, d, ops[0], k);
      }
      CommittedForever(g, Step(g, d, ops[0]).disk, ops[1..], k);
    }
  }

  // ------------------------------------------------------------- COMMIT and READ

  /** No two block files with different bytes have the same digest. */
  ghost predicate CollisionFree(g: Geometry, d: Disk) {
    forall a: nat, b: nat :: a in d.phys && b in d.phys && DigestOf(g, d.phys, a) == DigestOf(g, d.phys, b)
      ==> Visible(g, d.phys[a]) == Visible(g, d.phys[b])
  }

  /** READ of `k` answers the same in both disks. */
  ghost predicate ShowsSame(g: Geometry, d: Disk, d': Disk, k: Key)
    requires g.blockSize > 0
  {
    forall i: nat :: Read(g, d', k, i) == Read(g, d, k, i)
  }

  /** The digest of b, if the index binds it to a block with its file, is the digest of that one. */
  ghost predicate DigestHolds(g: Geometry, d: Disk, b: nat)
    requires b in d.phys
  {
    var h := DigestOf(g, d.phys, b);
    h in d.index && d.index[h] in d.phys ==> DigestOf(g, d.phys, d.index[h]) == h
  }

  ghost predicate DigestsHold(g: Geometry, d: Disk, k: Key)
    requires k in d.tags
  {
    forall b :: b in d.tags[k].blocks && b in d.phys ==> DigestHolds(g, d, b)
  }

  /** One position: it is linked to the same bytes exactly when its digest holds. */
  lemma CommitKeepsBlockIff(g: Geometry, d: Disk, k: Key, i: nat)
    requires LinkInv(g, d) && !Frozen(d, k) && CollisionFree(g, d) && i < |d.tags[k].blocks|
    ensures var b := d.tags[k].blocks[i]; var c := LinkedAfter(g, d, k)[i];
      b in d.phys && c in d.phys && (Visible(g, d.phys[c]) == Visible(g, d.phys[b]) <==> DigestHolds(g, d, b))
  {
    CommitExchanges(g, d, k, i);
    assert d.tags[k].blocks[i] in d.tags[k].blocks;
  }

  /** READ of one position before and after COMMIT, saved or not. */
  lemma CommitReads(g: Geometry, d: Disk, k: Key, i: nat)
    requires LinkInv(g, d) && !Frozen(d, k) && CollisionFree(g, d)
    ensures if i < |d.tags[k].blocks|
            then var b := d.tags[k].blocks[i];
                 b in d.phys && (Read(g, Commit(g, d, k).disk, k, i) == Read(g, d, k, i) <==> DigestHolds(g, d, b))
            else Read(g, Commit(g, d, k).disk, k, i) == Read(g, d, k, i)
  {
    assert TagOk(g, d, k);
    if i < |d.tags[k].blocks| {
      CommitKeepsBlockIff(g, d, k, i);
      var d', c := Commit(g, d, k).disk, LinkedAfter(g, d, k)[i];
      assert d'.tags[k].dir[i] == c;
      assert Read(g, d', k, i) == ReadOk(Pad(g, Visible(g, d.phys[c])));
    }
  }

  /** COMMIT keeps what READ answers exactly when the index is honest about the digests of the
      File:Tag's own blocks; nothing else in the disk matters. */
  lemma CommitKeepsContentIff(g: Geometry, d: Disk, k: Key)
    requires LinkInv(g, d) && !Frozen(d, k) && CollisionFree(g, d)
    ensures ShowsSame(g, d, Commit(g, d, k).disk, k) <==> DigestsHold(g, d, k)
  {
    if DigestsHold(g, d, k) {
      forall i: nat ensures Read(g, Commit(g, d, k).disk, k, i) == Read(g, d, k, i) {
        CommitReads(g, d, k, i);
        if i < |d.tags[k].blocks| { assert d.tags[k].blocks[i] in d.tags[k].blocks; }
      }
    } else {
      var b :| b in d.tags[k].blocks && b in d.phys && !DigestHolds(g, d, b);
      var i :| 0 <= i < |d.tags[k].blocks| && d.tags[k].blocks[i] == b;
      CommitReads(g, d, k, i);
    }
  }

  /** Index values exist and hold the bytes they were indexed under. */
  ghost predicate IndexHonest(g: Geometry, d: Disk) {
    forall h :: h in d.index ==> d.index[h] in d.phys && DigestOf(g, d.phys, d.index[h]) == h
  }

  lemma CommitKeepsHonest(g: Geometry, d: Disk, k: Key)
    requires LinkInv(g, d) && IndexHonest(g, d) && !Frozen(d, k)
    ensures LinkInv(g, Commit(g, d, k).disk) && IndexHonest(g, Commit(g, d, k).disk)
  {
    FilesExistSaves(g, d, k);
    CommitLinks(g, d, k);
  }

  lemma CommitKeepsViewed(g: Geometry, d: Disk, k: Key)
    requires LinkInv(g, d) && IndexHonest(g, d) && CollisionFree(g, d) && !Frozen(d, k)
    ensures LinkInv(g, Commit(g, d, k).disk)
    ensures ViewOf(g, Commit(g, d, k).disk, k).content == ViewOf(g, d, k).content
  {
    FilesExistSaves(g, d, k);
    CommitLinks(g, d, k);
    forall i: nat | i < |d.tags[k].blocks|
      ensures ViewOf(g, Commit(g, d, k).disk, k).content[i] == ViewOf(g, d, k).content[i]
    {
      CommitKeepsBlockIff(g, d, k, i);
    }
  }

  /** COMMIT preserves contents: with an honest index deduplication relinks blocks but no byte
      read changes, the index stays honest, and a second COMMIT changes nothing. */
  lemma CommitPreservesContent(g: Geometry, d: Disk, k: Key)
    requires LinkInv(g, d) && IndexHonest(g, d) && CollisionFree(g, d) && Commit(g, d, k).ok
    ensures var d' := Commit(g, d, k).disk;
      && LinkInv(g, d') && IndexHonest(g, d') && CollisionFree(g, d')
      && ViewOf(g, d', k).content == ViewOf(g, d, k).content
      && ViewOf(g, d', k).committed && ViewOf(g, d', k).size == ViewOf(g, d, k).size
      && Commit(g, d', k) == Outcome(d', true)
    ensures RunInv(g, d) ==> RunInv(g, Commit(g, d, k).disk)
  {
    if RunInv(g, d) { CommitKeepsRunInv(g, d, k); }
    if !d.tags[k].committed {
      CommitKeepsHonest(g, d, k);
      CommitKeepsViewed(g, d, k);
    }
  }

  /** Sharing is maximal: equal blocks of COMMITED File:Tags are one physical block. */
  lemma CommittedBlocksAreShared(g: Geometry, d: Disk, k: Key, i: nat, k': Key, i': nat)
    requires RunInv(g, d) && k in d.tags && k' in d.tags && k != INITIAL_KEY && k' != INITIAL_KEY
    requires d.tags[k].committed && d.tags[k'].committed
    requires i < |d.tags[k].blocks| && i' < |d.tags[k'].blocks|
    requires ViewOf(g, d, k).content[i] == ViewOf(g, d, k').content[i']
    ensures d.tags[k].blocks[i] == d.tags[k'].blocks[i']
  {
    assert Holds(d, k, i, d.tags[k].blocks[i]) && Holds(d, k', i', d.tags[k'].blocks[i']);
  }

  lemma WriteThenView(g: Geometry, d: Disk, k: Key, i: nat, data: seq<byte>)
    requires RunInv(g, d) && Write(g, d, k, i, data).ok
    ensures var d' := Write(g, d, k, i, data).disk;
      && RunInv(g, d') && i < |ViewOf(g, d, k).content|
      && ViewOf(g, d', k).content == ViewOf(g, d, k).content[i := Visible(g, Pad(g, data))]
      && |FreeBlocks(d'.bits)| == |FreeBlocks(d.bits)| - 1
  {
    WriteKeepsRunInv(g, d, k, i, data);
    LiveBlockHasTwoNames(g, d, k, i);
    FirstFreeIsFree(d.bits);
    BlocksExist(g, d, k);
    var d' := Write(g, d, k, i, data).disk;
    BlocksExist(g, d', k);
    FreeBlockIsUnused(g, d, FirstFree(d.bits, 1));
    forall j | 0 <= j < |d.tags[k].blocks| && j != i
      ensures ViewOf(g, d', k).content[j] == ViewOf(g, d, k).content[j]
    {
      assert !Holds(d, k, j, FirstFree(d.bits, 1));
    }
  }

  /** WRITE then READ: the position written answers one block, of the data and then zero bytes;
      every other position of the File:Tag answers what it answered. */
  lemma WriteThenRead(g: Geometry, d: Disk, k: Key, i: nat, data: seq<byte>)
    requires RunInv(g, d) && Write(g, d, k, i, data).ok
    ensures var d' := Write(g, d, k, i, data).disk; var r := Read(g, d', k, i);
      && RunInv(g, d') && r.ReadOk? && |r.content| == g.blockSize
      && (forall j :: 0 <= j < g.blockSize ==> r.content[j] == if j < |data| then data[j] else 0)
      && (forall j: nat :: j != i ==> Read(g, d', k, j) == Read(g, d, k, j))
      && |FreeBlocks(d'.bits)| == |FreeBlocks(d.bits)| - 1
  {
    var d' := Write(g, d, k, i, data).disk;
    WriteThenView(g, d, k, i, data);
    assert !Frozen(d, k) && Protected(INITIAL_KEY);
    ReadMatchesView(g, d', k, i);
    forall j: nat | j != i ensures Read(g, d', k, j) == Read(g, d, k, j) {
      ReadMatchesView(g, d, k, j);
      ReadMatchesView(g, d', k, j);
    }
  }

  /** FLUSH then READ: each position shows its last page, the others are unchanged. */
  lemma FlushThenRead(g: Geometry, d: Disk, k: Key, pages: seq<Page>, i: nat)
    requires RunInv(g, d) && WholeBlocks(g, pages) && Flush(g, d, k, pages).ok && i < |d.tags[k].blocks|
    ensures var d' := Flush(g, d, k, pages).disk;
      && RunInv(g, d') && |ViewOf(g, d', k).content| == |ViewOf(g, d, k).content|
      && i < |ViewOf(g, d, k).content|
      && ViewOf(g, d', k).content[i] == LastPage(pages, i, ViewOf(g, d, k).content[i])
  {
    FlushPagesKeepInv(g, d, k, pages);
    BlocksExist(g, d, k);
    assert d.tags[k].blocks[i] in d.tags[k].blocks;
    FlushDelivers(g, d, k, pages, i);
    FlushSucceedsIff(g, d, k, pages);
    AllTaken(g, d, k, pages);
    LastPageVisible(g, pages, i, d.phys[d.tags[k].blocks[i]]);
  }

  lemma {:induction false} LastPageVisible(g: Geometry, pages: seq<Page>, i: nat, otherwise: seq<byte>)
    requires WholeBlocks(g, pages)
    ensures Visible(g, LastPage(pages, i, otherwise)) == LastPage(pages, i, Visible(g, otherwise))
  {
    if pages != [] {
      var before := pages[..|pages| - 1];
      assert pages[|pages| - 1] in pages && forall q :: q in before ==> q in pages;
      LastPageVisible(g, before, i, otherwise);
    }
  }
}
