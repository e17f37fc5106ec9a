/** TAG of a source that is not shareable, and DELETE of a File:Tag that is not deletable,
    do harm that can be seen: some ordinary run that comes after changes what READ answers
    or frees a linked block.  So the guards of these two operations are exact, not only
    for the invariant but for what it is there to protect. */
module GuardsAreExact {
  import opened Bytes
  import opened Disk
  import opened DiskInvariant
  import opened StorageSteps
  import opened FlushSteps
  import opened StorageRuns
  import opened LinkRuns
  import opened StoredBlocks

  // ------------------------------------------------------------- runs put together

  lemma {:induction false} OrdinaryConcat(g: Geometry, d: Disk, a: seq<Op>, b: seq<Op>)
    requires g.blockSize > 0 && |d.bits| > 0 && OrdinaryRun(g, d, a) && OrdinaryRun(g, After(g, d, a), b)
    ensures OrdinaryRun(g, d, a + b) && After(g, d, a + b) == After(g, After(g, d, a), b)
    decreases a
  {
    AfterConcat(g, d, a, b);
    if a == [] {
      assert a + b == b;
    } else {
      assert (a + b)[1..] == a[1..] + b;
      OrdinaryConcat(g, Step(g, d, a[0]).disk, a[1..], b);
    }
  }

  /** Operations that are ordinary on any disk, and never name `k`. */
  ghost predicate SimpleFor(k: Key, ops: seq<Op>) {
    forall op :: op in ops ==> (op.CreateOp? || op.TruncateOp? || op.WriteOp? || op.CommitOp?) && op.key != k
  }

  /** Simple operations keep the links, with what the index names. */
  lemma {:induction false} SimpleRun(g: Geometry, d: Disk, k: Key, ops: seq<Op>)
    requires Kept(g, d) && SimpleFor(k, ops)
    ensures OrdinaryRun(g, d, ops) && NoneTargets(ops, k) && Kept(g, After(g, d, ops))
    decreases ops
  {
    if ops != [] {
      assert ops[0] in ops;
      OnlyFlushLeavesTraces(g, d, ops[0]);
      StepKeepsKeptIff(g, d, ops[0]);
      SimpleRun(g, Step(g, d, ops[0]).disk, k, ops[1..]);
    }
  }

  lemma SimpleConcat(k: Key, a: seq<Op>, b: seq<Op>)
    requires SimpleFor(k, a) && SimpleFor(k, b)
    ensures SimpleFor(k, a + b)
  {
  }

  // -------------------------------------------------- a snapshot of work in progress

  /** b is a block of `src` whose digest is bound to another block. */
  ghost predicate Outbid(g: Geometry, d: Disk, src: Key, b: nat) {
    && src in d.tags && b in d.tags[src].blocks && b in d.phys
    && DigestOf(g, d.phys, b) in d.index && d.index[DigestOf(g, d.phys, b)] != b
  }

  /** Storing and committing the bytes of b once more binds its digest elsewhere. */
  lemma OutbidBlock(g: Geometry, d: Disk, src: Key, dst: Key, b: nat) returns (ops: seq<Op>)
    requires Kept(g, d) && src in d.tags && dst in d.tags && b in d.tags[src].blocks && b in d.phys && b < |d.bits|
    requires d.bits[b]
    requires DigestOf(g, d.phys, b) !in d.index && FirstFree(d.bits, 1) < |d.bits|
    ensures SimpleFor(dst, ops) && Outbid(g, After(g, d, ops), src, b)
    ensures var e := After(g, d, ops);
      src in e.tags && dst in e.tags && e.tags[src] == d.tags[src] && e.tags[dst] == d.tags[dst]
    ensures b in After(g, d, ops).phys && After(g, d, ops).phys[b] == d.phys[b]
  {
    var c := UnusedKey(d.tags);
    var n, data := FirstFree(d.bits, 1), Visible(g, d.phys[b]);
    assert Holds(d, INITIAL_KEY, 0, 0);
    StoreAndCommit(g, d, c, data);
    ops := StoreOps(c, data) + [CommitOp(c)];
    assert n != b;
  }

  /** COMMIT of the source then frees b, which every snapshot still links. */
  lemma CommitFreesOutbid(g: Geometry, d: Disk, src: Key, b: nat)
    requires Kept(g, d) && !Frozen(d, src) && Outbid(g, d, src, b) && b < |d.bits|
    ensures var d' := Commit(g, d, src).disk;
      !d'.bits[b] && d'.phys == d.phys && forall k :: k in d.tags && k != src ==>
          k in d'.tags && d'.tags[k] == d.tags[k]
  {
    CommitClearsBitIff(g, d, src, b);
  }

  /** The block of the source that the snapshot shares outside the index. */
  lemma SharedBlock(g: Geometry, d: Disk, src: Key, dst: Key) returns (b: nat, i: nat)
    requires RunInv(g, d) && TagFrom(d, src, dst).ok && !Shareable(g, d, src)
    ensures var d1 := TagFrom(d, src, dst).disk;
      && Kept(g, d1) && !Frozen(d1, src) && src != dst && 1 <= b < |d.bits| && d.bits[b] && b in d.phys
      && i < |d.tags[src].blocks| && d.tags[src].blocks[i] == b && !Indexed(g, d, b)
  {
    b :| b in d.tags[src].blocks && b >= 1 && !Indexed(g, d, b);
    i :| 0 <= i < |d.tags[src].blocks| && d.tags[src].blocks[i] == b;
    assert Holds(d, src, i, b);
    StepKeepsKeptIff(g, d, TagOp(src, dst));
    if d.tags[src].committed { CommittedIsShareable(g, d, src); }
  }

  /** b, at position i of dst, has lost its bit, with its bytes still in place. */
  ghost predicate FreedUnder(d: Disk, d': Disk, dst: Key, i: nat, b: nat) {
    && dst in d.tags && dst in d'.tags && d'.tags[dst] == d.tags[dst]
    && i < |d.tags[dst].blocks| && d.tags[dst].blocks[i] == b
    && 1 <= b < |d.bits| == |d'.bits| && !d'.bits[b] && b in d.phys && b in d'.phys && d'.phys[b] == d.phys[b]
  }

  lemma OutbidIsFreed(g: Geometry, d: Disk, e: Disk, src: Key, dst: Key, i: nat, b: nat)
    requires Kept(g, e) && src != dst && 1 <= b < |d.bits| == |e.bits| && OutbidFrom(g, d, e, src, dst, b)
    requires !Frozen(d, src) && i < |d.tags[dst].blocks| && d.tags[dst].blocks[i] == b
    ensures FreedUnder(d, Commit(g, e, src).disk, dst, i, b)
  {
    CommitFreesOutbid(g, e, src, b);
  }

  /** e has `src`, `dst` and the bytes of b as in d, and the digest of b bound elsewhere. */
  ghost predicate OutbidFrom(g: Geometry, d: Disk, e: Disk, src: Key, dst: Key, b: nat) {
    && src in d.tags && dst in d.tags && src in e.tags && dst in e.tags
    && e.tags[src] == d.tags[src] && e.tags[dst] == d.tags[dst]
    && b in d.phys && b in e.phys && e.phys[b] == d.phys[b] && Outbid(g, e, src, b)
  }

  /** Whether or not the digest of the shared block is bound already, it can be. */
  lemma SharedBlockIsOutbid(g: Geometry, d: Disk, src: Key, dst: Key, b: nat) returns (ops: seq<Op>)
    requires Kept(g, d) && src in d.tags && dst in d.tags && b in d.tags[src].blocks && b in d.phys && b < |d.bits|
    requires d.bits[b]
    requires !Indexed(g, d, b) && FirstFree(d.bits, 1) < |d.bits|
    ensures SimpleFor(dst, ops) && OutbidFrom(g, d, After(g, d, ops), src, dst, b)
  {
    if DigestOf(g, d.phys, b) in d.index {
      ops := [];
      assert After(g, d, ops) == d;
    } else {
      ops := OutbidBlock(g, d, src, dst, b);
    }
  }

  /** After TAG of a source that is not shareable, a run that never names the snapshot frees
      a block the snapshot links. */
  lemma SnapshotBlockIsFreed(g: Geometry, d: Disk, src: Key, dst: Key) returns (ops: seq<Op>, i: nat, b: nat)
    requires RunInv(g, d) && TagFrom(d, src, dst).ok && !Shareable(g, d, src) && FirstFree(d.bits, 1) < |d.bits|
    ensures var d1 := TagFrom(d, src, dst).disk;
      Kept(g, d1) && SimpleFor(dst, ops) && FreedUnder(d1, After(g, d1, ops), dst, i, b)
  {
    b, i := SharedBlock(g, d, src, dst);
    ops := FreedThrough(g, TagFrom(d, src, dst).disk, src, dst, i, b);
  }

  lemma ThenCommit(g: Geometry, d: Disk, first: seq<Op>, src: Key, dst: Key) returns (ops: seq<Op>)
    requires g.blockSize > 0 && |d.bits| > 0 && SimpleFor(dst, first) && src != dst
    ensures SimpleFor(dst, ops) && After(g, d, ops) == Commit(g, After(g, d, first), src).disk
  {
    ops := first + [CommitOp(src)];
    AfterConcat(g, d, first, [CommitOp(src)]);
    AfterOne(g, After(g, d, first), CommitOp(src));
  }

  lemma FreedThrough(g: Geometry, d: Disk, src: Key, dst: Key, i: nat, b: nat) returns (ops: seq<Op>)
    requires Kept(g, d) && !Frozen(d, src) && src != dst && b in d.phys && 1 <= b < |d.bits| && d.bits[b]
    requires !Indexed(g, d, b)
    requires dst in d.tags && i < |d.tags[dst].blocks| && d.tags[dst].blocks[i] == b && b in d.tags[src].blocks
    requires FirstFree(d.bits, 1) < |d.bits|
    ensures SimpleFor(dst, ops) && FreedUnder(d, After(g, d, ops), dst, i, b)
  {
    var first := SharedBlockIsOutbid(g, d, src, dst, b);
    ops := ThenCommit(g, d, first, src, dst);
    SimpleRun(g, d, dst, first);
    OutbidIsFreed(g, d, After(g, d, first), src, dst, i, b);
  }

  /** A block with other first byte. */
  function Other(data: seq<byte>): seq<byte>
    requires data != []
  {
    [if data[0] == 0 then 1 else 0]
  }

  lemma OtherDiffers(g: Geometry, file: seq<byte>)
    requires 0 < g.blockSize <= |file|
    ensures |Pad(g, Other(file))| == g.blockSize
    ensures Pad(g, Visible(g, Pad(g, Other(file)))) != Pad(g, Visible(g, file))
  {
    assert Pad(g, Other(file))[0] == Other(file)[0];
    assert Visible(g, file)[0] == file[0];
  }

  /** A freed block that dst links is rewritten by a new File:Tag. */
  lemma FreedBlockIsRewritten(g: Geometry, d: Disk, dst: Key, i: nat, b: nat) returns (ops: seq<Op>)
    requires Kept(g, d) && dst in d.tags && dst != INITIAL_KEY && i < |d.tags[dst].blocks| && d.tags[dst].blocks[i] == b
    requires 1 <= b < |d.bits| && !d.bits[b]
    ensures SimpleFor(dst, ops) && Read(g, After(g, d, ops), dst, i) != Read(g, d, dst, i)
  {
    var c := UnusedKey(d.tags);
    assert Holds(d, dst, i, b) && TagOk(g, d, dst);
    ops := NewTagReaches(g, d, c, b, Other(d.phys[b]));
    OtherDiffers(g, d.phys[b]);
  }

  /** After TAG of a source that is not shareable, a run that never names the snapshot changes
      what READ answers of it. */
  lemma SnapshotIsRewritten(g: Geometry, d: Disk, src: Key, dst: Key) returns (ops: seq<Op>, i: nat)
    requires RunInv(g, d) && TagFrom(d, src, dst).ok && !Shareable(g, d, src) && FirstFree(d.bits, 1) < |d.bits|
    ensures var d1 := TagFrom(d, src, dst).disk;
      Kept(g, d1) && SimpleFor(dst, ops) && Read(g, After(g, d1, ops), dst, i) != Read(g, d1, dst, i)
  {
    var freeing, b;
    freeing, i, b := SnapshotBlockIsFreed(g, d, src, dst);
    var d1 := TagFrom(d, src, dst).disk;
    var e := After(g, d1, freeing);
    SimpleRun(g, d1, dst, freeing);
    var rewriting := FreedBlockIsRewritten(g, e, dst, i, b);
    assert TagOk(g, d1, dst) && TagOk(g, e, dst);
    assert Read(g, e, dst, i) == Read(g, d1, dst, i);
    ops := freeing + rewriting;
    AfterConcat(g, d1, freeing, rewriting);
    SimpleConcat(dst, freeing, rewriting);
  }

  /** Whatever ordinary run comes, as long as it does not name `k`, READ of `k` answers the same. */
  ghost predicate Isolated(g: Geometry, d: Disk, k: Key)
    requires g.blockSize > 0 && |d.bits| > 0
  {
    forall ops :: OrdinaryRun(g, d, ops) && NoneTargets(ops, k) ==> ShowsSame(g, d, After(g, d, ops), k)
  }

  /** Whatever ordinary run comes, as long as it does not name `k`, linked blocks are allocated. */
  ghost predicate StaysAllocated(g: Geometry, d: Disk, k: Key)
    requires g.blockSize > 0 && |d.bits| > 0
  {
    forall ops :: OrdinaryRun(g, d, ops) && NoneTargets(ops, k) ==> Allocated(After(g, d, ops))
  }

  lemma ShareableIsIsolated(g: Geometry, d: Disk, src: Key, dst: Key)
    requires RunInv(g, d) && TagFrom(d, src, dst).ok && Shareable(g, d, src)
    ensures Isolated(g, TagFrom(d, src, dst).disk, dst) && StaysAllocated(g, TagFrom(d, src, dst).disk, dst)
  {
    var d1 := TagFrom(d, src, dst).disk;
    TagKeepsRunInvIff(g, d, src, dst);
    forall ops | OrdinaryRun(g, d1, ops) && NoneTargets(ops, dst)
      ensures Allocated(After(g, d1, ops)) && ShowsSame(g, d1, After(g, d1, ops), dst)
    {
      OrdinaryRunIsAdmissible(g, d1, ops);
      RunKeepsOtherViews(g, d1, ops, dst);
      forall i: nat ensures Read(g, After(g, d1, ops), dst, i) == Read(g, d1, dst, i) {
        ReadMatchesView(g, d1, dst, i);
        ReadMatchesView(g, After(g, d1, ops), dst, i);
      }
    }
  }

  lemma UnshareableIsNot(g: Geometry, d: Disk, src: Key, dst: Key)
    requires RunInv(g, d) && TagFrom(d, src, dst).ok && !Shareable(g, d, src) && FirstFree(d.bits, 1) < |d.bits|
    ensures !Isolated(g, TagFrom(d, src, dst).disk, dst) && !StaysAllocated(g, TagFrom(d, src, dst).disk, dst)
  {
    var d1 := TagFrom(d, src, dst).disk;
    var freeing, i, b := SnapshotBlockIsFreed(g, d, src, dst);
    SimpleRun(g, d1, dst, freeing);
    assert Holds(After(g, d1, freeing), dst, i, b);
    assert !Allocated(After(g, d1, freeing));
    var ops, j := SnapshotIsRewritten(g, d, src, dst);
    SimpleRun(g, d1, dst, ops);
    assert !ShowsSame(g, d1, After(g, d1, ops), dst);
  }

  /** Snapshot isolation and allocator safety hold after TAG exactly when every block of the
      source but block 0 is an index value, provided a block is free. */
  lemma SnapshotIsolatedIff(g: Geometry, d: Disk, src: Key, dst: Key)
    requires RunInv(g, d) && TagFrom(d, src, dst).ok && FreeBlocks(d.bits) != {}
    ensures Isolated(g, TagFrom(d, src, dst).disk, dst) <==> Shareable(g, d, src)
    ensures StaysAllocated(g, TagFrom(d, src, dst).disk, dst) <==> Shareable(g, d, src)
  {
    FirstFreeIsFree(d.bits);
    if Shareable(g, d, src) { ShareableIsIsolated(g, d, src, dst); } else { UnshareableIsNot(g, d, src, dst); }
  }

  // -------------------------------------------------- DELETE of a COMMITED File:Tag

  /** READ of `k` answers the same after its COMMIT. */
  ghost predicate CommitKeeps(g: Geometry, d: Disk, k: Key)
    requires g.blockSize > 0
  {
    ShowsSame(g, d, Commit(g, d, k).disk, k)
  }

  /** After whatever ordinary run, no COMMIT changes what READ answers. */
  ghost predicate CommitsKeep(g: Geometry, d: Disk)
    requires g.blockSize > 0 && |d.bits| > 0
  {
    forall ops, k :: OrdinaryRun(g, d, ops) ==> CommitKeeps(g, After(g, d, ops), k)
  }

  /** No two different blocks have the same digest. */
  ghost predicate Injective(g: Geometry) {
    forall a, b :: |a| == |b| == g.blockSize && g.md5(a) == g.md5(b) ==> a == b
  }

  lemma InjectiveIsCollisionFree(g: Geometry, d: Disk)
    requires Injective(g) && LinkInv(g, d)
    ensures CollisionFree(g, d)
  {
    forall a: nat, b: nat | a in d.phys && b in d.phys && DigestOf(g, d.phys, a) == DigestOf(g, d.phys, b)
      ensures Visible(g, d.phys[a]) == Visible(g, d.phys[b])
    {
      assert |Visible(g, d.phys[a])| == |Visible(g, d.phys[b])| == g.blockSize;
    }
  }

  lemma CommitKeepsRead(g: Geometry, d: Disk, k: Key)
    requires RunInv(g, d) && CollisionFree(g, d)
    ensures CommitKeeps(g, d, k)
  {
    if !Frozen(d, k) {
      CommitPreservesContent(g, d, k);
      forall i: nat ensures Read(g, Commit(g, d, k).disk, k, i) == Read(g, d, k, i) {
        ReadMatchesView(g, d, k, i);
        ReadMatchesView(g, Commit(g, d, k).disk, k, i);
      }
    }
  }

  lemma DeletableCommitsKeep(g: Geometry, d: Disk, k: Key)
    requires RunInv(g, d) && Injective(g) && Delete(d, k).ok && Deletable(d, k)
    ensures CommitsKeep(g, Delete(d, k).disk)
  {
    var d1 := Delete(d, k).disk;
    DeleteKeepsRunInvIff(g, d, k);
    forall ops, c | OrdinaryRun(g, d1, ops) ensures CommitKeeps(g, After(g, d1, ops), c) {
      OrdinaryRunIsAdmissible(g, d1, ops);
      RunKeepsRunInv(g, d1, ops);
      InjectiveIsCollisionFree(g, After(g, d1, ops));
      CommitKeepsRead(g, After(g, d1, ops), c);
    }
  }

  /** b has neither links, nor its file, nor its bit. */
  ghost predicate Gone(d: Disk, b: nat) {
    b !in d.phys && b < |d.bits| && !d.bits[b] && forall k, i :: !Holds(d, k, i, b)
  }

  /** Only File:Tags that can be deleted link b; or it is gone. */
  ghost predicate CanGo(d: Disk, b: nat) {
    && b < |d.bits| && (forall k, i :: Holds(d, k, i, b) ==> !Frozen(d, k))
    && (Gone(d, b) || exists k, i :: Holds(d, k, i, b))
  }

  lemma DeleteFreesMore(g: Geometry, d: Disk, k: Key)
    requires LinkInv(g, d) && Delete(d, k).ok
    ensures var d' := Delete(d, k).disk;
      && LinkInv(g, d') && d'.index == d.index && |d'.tags| < |d.tags|
      && forall n: nat :: n in FreeBlocks(d.bits) ==> n in FreeBlocks(d'.bits)
  {
    DeleteFreesPrecisely(g, d, k);
    assert d.tags.Keys == Delete(d, k).disk.tags.Keys + {k};
  }

  /** Once its last link went with a DELETE, a block is gone. */
  lemma LastDeleteMakesGone(g: Geometry, d: Disk, k: Key, i: int, b: nat)
    requires LinkInv(g, d) && Delete(d, k).ok && Holds(d, k, i, b) && b < |d.bits|
    requires forall k', i' :: !Holds(Delete(d, k).disk, k', i', b)
    ensures Gone(Delete(d, k).disk, b)
  {
    DeleteLinks(g, d, k);
    NoRefsIff(g, d, b);
    DeleteOrphans(g, d, k, b);
    assert forall k', i' :: k' != k ==> !Holds(d, k', i', b);
    DeleteFreesPrecisely(g, d, k);
  }

  lemma DeleteTowardsGone(g: Geometry, d: Disk, k: Key, i: int, b: nat)
    requires LinkInv(g, d) && Delete(d, k).ok && Holds(d, k, i, b) && b < |d.bits|
    requires forall k', i' :: Holds(d, k', i', b) && k' != k ==> !Frozen(d, k')
    ensures CanGo(Delete(d, k).disk, b)
  {
    var d' := Delete(d, k).disk;
    DeleteLinks(g, d, k);
    forall k', i' | Holds(d', k', i', b) ensures !Frozen(d', k') { assert Holds(d, k', i', b); }
    if forall k', i' :: !Holds(d', k', i', b) { LastDeleteMakesGone(g, d, k, i, b); }
  }

  /** Deleting the File:Tags that link b, none of which is COMMITED, leaves b gone. */
  lemma {:induction false} UnlinkEverywhere(g: Geometry, d: Disk, b: nat) returns (ops: seq<Op>)
    requires LinkInv(g, d) && CanGo(d, b)
    ensures OrdinaryRun(g, d, ops)
    ensures var d' := After(g, d, ops);
      && LinkInv(g, d') && Gone(d', b) && d'.index == d.index
      && forall n: nat :: n in FreeBlocks(d.bits) ==> n in FreeBlocks(d'.bits)
    decreases |d.tags|
  {
    if k, i :| Holds(d, k, i, b) {
      DeleteFreesMore(g, d, k);
      DeleteTowardsGone(g, d, k, i, b);
      var more := UnlinkEverywhere(g, Delete(d, k).disk, b);
      ops := [DeleteOp(k)] + more;
      assert ops[1..] == more && ops[0] == DeleteOp(k);
    } else {
      ops := [];
      assert After(g, d, []) == d;
    }
  }

  /** Storing keeps the links, and is ordinary on any disk. */
  lemma {:induction false} StoresKeepLinks(g: Geometry, d: Disk, k: Key, ops: seq<Op>)
    requires LinkInv(g, d) && StoresIn(k, ops)
    ensures OrdinaryRun(g, d, ops) && LinkInv(g, After(g, d, ops))
    decreases ops
  {
    if ops != [] {
      assert ops[0] in ops;
      OnlyFlushLeavesTraces(g, d, ops[0]);
      StepKeepsLinkInvIff(g, d, ops[0]);
      StoresKeepLinks(g, Step(g, d, ops[0]).disk, k, ops[1..]);
    }
  }

  /** The index binds the digest of `data` to b, which has lost its file. */
  ghost predicate Stale(g: Geometry, d: Disk, data: seq<byte>, b: nat) {
    LinkInv(g, d) && 1 <= b && Gone(d, b) && g.md5(data) in d.index && d.index[g.md5(data)] == b
  }

  /** `data` is in the one block n of k, and its digest is bound to b, which holds something else. */
  ghost predicate Misled(g: Geometry, d: Disk, k: Key, n: nat, data: seq<byte>, b: nat) {
    && k in d.tags && !Protected(k) && d.tags[k] == OneBlock(false, n)
    && n < |d.bits| && n in d.phys && d.phys[n] == data
    && g.md5(data) in d.index && d.index[g.md5(data)] == b
    && b in d.phys && |d.phys[b]| == g.blockSize && d.phys[b] != data
  }

  /** Committing it then loses it. */
  lemma MisledCommitLoses(g: Geometry, d: Disk, k: Key, n: nat, data: seq<byte>, b: nat)
    requires g.blockSize > 0 && |data| == g.blockSize && Misled(g, d, k, n, data, b)
    ensures !CommitKeeps(g, d, k)
  {
    assert Visible(g, data) == data;
    CommitOneBlock(g, d, k, n);
    ReadOneBlock(g, d, k, false, n);
    ReadOneBlock(g, Commit(g, d, k).disk, k, true, b);
    assert Read(g, Commit(g, d, k).disk, k, 0) != Read(g, d, k, 0);
  }

  lemma OtherBlockDiffers(g: Geometry, data: seq<byte>)
    requires |data| == g.blockSize > 0
    ensures |Pad(g, Other(data))| == g.blockSize && Pad(g, Other(data)) != data
  {
    assert Pad(g, Other(data))[0] == Other(data)[0];
  }

  /** Storing one block in a new File:Tag: the links are kept, and the run is ordinary. */
  lemma StoreNext(g: Geometry, d: Disk, k: Key, data: seq<byte>)
    requires LinkInv(g, d) && Usable(k) && k !in d.tags && |data| == g.blockSize && FirstFree(d.bits, 1) < |d.bits|
    ensures OrdinaryRun(g, d, StoreOps(k, data)) && LinkInv(g, Stored(d, k, data))
    ensures After(g, d, StoreOps(k, data)) == Stored(d, k, data)
  {
    assert Holds(d, INITIAL_KEY, 0, 0);
    StoresKeepLinks(g, d, k, StoreOps(k, data));
    StoreTakesFirstFree(g, d, k, data);
  }

  /** When b is not the next free block, `data` is stored there, and then b is written. */
  lemma StaleLaterMisleads(g: Geometry, d: Disk, data: seq<byte>, b: nat)
      returns (ops: seq<Op>, k: Key, n: nat)
    requires Stale(g, d, data, b) && |data| == g.blockSize && FirstFree(d.bits, 1) != b
    ensures OrdinaryRun(g, d, ops) && Misled(g, After(g, d, ops), k, n, data, b)
  {
    k := UnusedKey(d.tags);
    n := FirstFree(d.bits, 1);
    StoreNext(g, d, k, data);
    var e := Stored(d, k, data);
    var c := UnusedKey(e.tags);
    var second := NewTagReaches(g, e, c, b, Other(data));
    StoresKeepLinks(g, e, c, second);
    OtherBlockDiffers(g, data);
    assert BlockStays(e, After(g, e, second), n);
    OrdinaryConcat(g, d, StoreOps(k, data), second);
    ops := StoreOps(k, data) + second;
  }

  /** When b is the next free block, it is given other bytes first. */
  lemma StaleNextMisleads(g: Geometry, d: Disk, data: seq<byte>, b: nat)
      returns (ops: seq<Op>, k: Key, n: nat)
    requires Stale(g, d, data, b) && |data| == g.blockSize && FirstFree(d.bits, 1) == b
    requires exists m: nat :: m != b && m in FreeBlocks(d.bits)
    ensures OrdinaryRun(g, d, ops) && Misled(g, After(g, d, ops), k, n, data, b)
  {
    var m: nat :| m != b && m in FreeBlocks(d.bits);
    var c := UnusedKey(d.tags);
    var other := Pad(g, Other(data));
    OtherBlockDiffers(g, data);
    StoreNext(g, d, c, other);
    var e := Stored(d, c, other);
    assert !e.bits[m];
    k := UnusedKey(e.tags);
    n := FirstFree(e.bits, 1);
    StoreNext(g, e, k, data);
    OrdinaryConcat(g, d, StoreOps(c, other), StoreOps(k, data));
    ops := StoreOps(c, other) + StoreOps(k, data);
  }

  /** Either way a run of stores brings `data` into a File:Tag, and other bytes into b. */
  lemma StaleMisleads(g: Geometry, d: Disk, data: seq<byte>, b: nat) returns (ops: seq<Op>, k: Key, n: nat)
    requires Stale(g, d, data, b) && |data| == g.blockSize && exists m: nat :: m != b && m in FreeBlocks(d.bits)
    ensures OrdinaryRun(g, d, ops) && Misled(g, After(g, d, ops), k, n, data, b)
  {
    if FirstFree(d.bits, 1) == b {
      ops, k, n := StaleNextMisleads(g, d, data, b);
    } else {
      ops, k, n := StaleLaterMisleads(g, d, data, b);
    }
  }

  lemma UndeletableBlock(g: Geometry, d: Disk, k: Key) returns (b: nat)
    requires RunInv(g, d) && Delete(d, k).ok && !Deletable(d, k)
    ensures var d1 := Delete(d, k).disk;
      && LinkInv(g, d1) && 1 <= b && CanGo(d1, b) && b in d.phys && b < |d.bits| && d.bits[b]
      && DigestOf(g, d.phys, b) in d1.index && d1.index[DigestOf(g, d.phys, b)] == b
      && forall n: nat :: n in FreeBlocks(d.bits) ==> n in FreeBlocks(d1.bits)
  {
    b :| b in d.tags[k].blocks && !PinnedElsewhere(d, k, b);
    var i :| 0 <= i < |d.tags[k].blocks| && d.tags[k].blocks[i] == b;
    assert Holds(d, k, i, b) && Indexed(g, d, b);
    assert Holds(d, INITIAL_KEY, 0, 0) && Frozen(d, INITIAL_KEY);
    DeleteFreesMore(g, d, k);
    DeleteTowardsGone(g, d, k, i, b);
  }

  lemma UndeletableCommitLoses(g: Geometry, d: Disk, k: Key)
    requires RunInv(g, d) && Delete(d, k).ok && !Deletable(d, k) && FreeBlocks(d.bits) != {}
    ensures !CommitsKeep(g, Delete(d, k).disk)
  {
    var d1 := Delete(d, k).disk;
    var b := UndeletableBlock(g, d, k);
    var data := Visible(g, d.phys[b]);
    var n: nat :| n in FreeBlocks(d.bits);
    var first := UnlinkEverywhere(g, d1, b);
    var d2 := After(g, d1, first);
    assert n in FreeBlocks(d2.bits);
    var second, c, m := StaleMisleads(g, d2, data, b);
    OrdinaryConcat(g, d1, first, second);
    MisledCommitLoses(g, After(g, d1, first + second), c, m, data, b);
  }

  /** After DELETE, COMMITs go on preserving contents exactly when every block of a COMMITED
      target stays pinned by another File:Tag, provided a block is free. */
  lemma DeleteHarmlessIff(g: Geometry, d: Disk, k: Key)
    requires RunInv(g, d) && Injective(g) && Delete(d, k).ok && FreeBlocks(d.bits) != {}
    ensures CommitsKeep(g, Delete(d, k).disk) <==> Deletable(d, k)
  {
    if Deletable(d, k) { DeletableCommitsKeep(g, d, k); } else { UndeletableCommitLoses(g, d, k); }
  }
}
