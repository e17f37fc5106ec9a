/** Concrete runs that show why the guards of StorageRuns are there.

    Blocks are one byte long and the hash is the identity, so there are no collisions:
    what goes wrong below is the bookkeeping, not the hash. */
module StorageLimits {
  import opened Bytes
  import opened Disk
  import opened DiskInvariant
  import opened StorageRuns
  import opened StoredBlocks

  function Identity(s: seq<byte>): Digest {
    seq(|s|, i requires 0 <= i < |s| => (s[i] as int) as char)
  }

  const TINY := Geometry(1, 4, Identity)

  const A1 := Key("a", "1")
  const A2 := Key("a", "2")
  const C1 := Key("c", "1")
  const D1 := Key("d", "1")

  const INITIAL_TAG := Tag(0, true, [0], map[0 := 0])

  const X: byte := 0x78
  const Y: byte := 0x79

  /** The operations that store one byte in a new File:Tag. */
  function Store(k: Key, x: byte): seq<Op> {
    StoreOps(k, [x])
  }

  /** Storing one byte in a new File:Tag takes the first free block and nothing else. */
  lemma StoreByte(d: Disk, k: Key, x: byte)
    requires |d.bits| > 0 && Usable(k) && k !in d.tags && 0 in d.phys && FirstFree(d.bits, 1) < |d.bits|
    ensures After(TINY, d, Store(k, x)) == Stored(d, k, [x])
  {
    StoreTakesFirstFree(TINY, d, k, [x]);
  }

  /** COMMIT of a one-byte File:Tag in block b. */
  lemma CommitOneByte(d: Disk, k: Key, b: nat, x: byte)
    requires k in d.tags && !Protected(k) && d.tags[k] == OneBlock(false, b)
    requires b < |d.bits| && b in d.phys && d.phys[b] == [x]
    ensures var h := Identity([x]);
      Commit(TINY, d, k) ==
        if h !in d.index then Outcome(Disk(d.bits, d.phys, d.tags[k := OneBlock(true, b)], d.index[h := b]), true)
        else if d.index[h] == b || d.index[h] !in d.phys
        then Outcome(Disk(d.bits, d.phys, d.tags[k := OneBlock(true, b)], d.index), true)
        else Outcome(Disk(d.bits[b := false], d.phys, d.tags[k := OneBlock(true, d.index[h])], d.index), true)
  {
    assert Visible(TINY, [x]) == [x];
    CommitOneBlock(TINY, d, k, b);
  }

  function FreshTiny(): Disk { Format(TINY) }

  lemma FreshTinyIs()
    ensures FreshTiny() == Disk([true, false, false, false], map[0 := [ZERO_CHAR], 1 := [0], 2 := [0], 3 := [0]],
                                map[INITIAL_KEY := INITIAL_TAG], map[])
  {
    var d := FreshTiny();
    assert d.bits == [true, false, false, false];
    assert forall b: nat :: b < 4 ==> BlockNumber(TINY, b);
    assert d.phys[0] == [ZERO_CHAR] && d.phys[1] == [0] && d.phys[2] == [0] && d.phys[3] == [0];
    assert d.phys.Keys == {0, 1, 2, 3};
    assert d.phys == map[0 := [ZERO_CHAR], 1 := [0], 2 := [0], 3 := [0]];
  }

  // ------------------------------------------- TAG of a WORK_IN_PROGRESS source

  /** a:1 is tagged while in progress, so a:2 shares its block 1. */
  function TaggedEarly(): Disk {
    TagFrom(After(TINY, FreshTiny(), Store(A1, X)), A1, A2).disk
  }

  lemma TaggedEarlyIs()
    ensures var d := TaggedEarly();
      && d.bits == [true, true, false, false] && d.index == map[] && d.tags.Keys == {INITIAL_KEY, A1, A2}
      && d.tags[A1] == Tag(1, false, [1], map[0 := 1]) && d.tags[A2] == Tag(1, false, [1], map[0 := 1])
      && d.phys == map[0 := [ZERO_CHAR], 1 := [X], 2 := [0], 3 := [0]]
  {
    FreshTinyIs();
    StoreByte(FreshTiny(), A1, X);
  }

  lemma SplitRun(g: Geometry, d: Disk, a: seq<Op>, b: Op, c: Op, e: seq<Op>)
    requires g.blockSize > 0 && |d.bits| > 0
    ensures After(g, d, a + ([b] + ([c] + e)))
      == After(g, Step(g, Step(g, After(g, d, a), b).disk, c).disk, e)
  {
    AfterConcat(g, d, a, [b] + ([c] + e));
    var d1 := After(g, d, a);
    AfterConcat(g, d1, [b], [c] + e);
    AfterOne(g, d1, b);
    var d2 := Step(g, d1, b).disk;
    AfterConcat(g, d2, [c], e);
    AfterOne(g, d2, c);
  }

  /** Once c1 has committed byte x from block 2, committing a1 exchanges its block 1 for
      block 2 and frees block 1, although a2 still links it. */
  lemma CommitFreesLinkedBlock(d: Disk, c1: Key, a1: Key, a2: Key, x: byte)
    requires !Protected(c1) && !Protected(a1) && c1 != a1 && a1 != a2 && c1 != a2
    requires c1 in d.tags && d.tags[c1] == Tag(1, false, [2], map[0 := 2])
    requires a1 in d.tags && d.tags[a1] == Tag(1, false, [1], map[0 := 1])
    requires a2 in d.tags && d.tags[a2] == Tag(1, false, [1], map[0 := 1])
    requires d.bits == [true, true, true, false] && d.index == map[]
    requires 1 in d.phys && d.phys[1] == [x] && 2 in d.phys && d.phys[2] == [x]
    ensures var d' := Commit(TINY, Commit(TINY, d, c1).disk, a1).disk;
      d'.bits == [true, false, true, false] && d'.phys == d.phys
      && d'.tags.Keys == d.tags.Keys && d'.tags[a2] == Tag(1, false, [1], map[0 := 1])
  {
    CommitOneByte(d, c1, 2, x);
    CommitOneByte(Commit(TINY, d, c1).disk, a1, 1, x);
  }

  /** c:1 commits the same byte from block 2; committing a:1 then exchanges block 1 for
      block 2 and frees block 1 although a:2 still lives there; d:1 is given block 1. */
  function OthersAtWork(c1: Key, a1: Key, d1: Key, x: byte, y: byte): seq<Op> {
    Store(c1, x) + ([CommitOp(c1)] + ([CommitOp(a1)] + Store(d1, y)))
  }

  lemma StoredC1(d: Disk, c1: Key, a1: Key, a2: Key, x: byte)
    requires Usable(c1) && c1 != a1 && c1 != a2
    requires d.tags.Keys == {INITIAL_KEY, a1, a2} && c1 != INITIAL_KEY && d.bits == [true, true, false, false]
    requires 0 in d.phys && 1 in d.phys
    ensures var e := After(TINY, d, Store(c1, x));
      && e.bits == [true, true, true, false] && e.index == d.index && e.tags.Keys == {INITIAL_KEY, a1, a2, c1}
      && e.tags[c1] == Tag(1, false, [2], map[0 := 2]) && e.tags[a1] == d.tags[a1] && e.tags[a2] == d.tags[a2]
      && e.phys == d.phys[2 := [x]]
  {
    StoreByte(d, c1, x);
  }

  lemma StoredD1(f: Disk, d1: Key, a2: Key, y: byte)
    requires Usable(d1) && d1 != a2 && d1 !in f.tags && a2 in f.tags
    requires f.bits == [true, false, true, false] && 0 in f.phys
    ensures var d' := After(TINY, f, Store(d1, y));
      a2 in d'.tags && d'.tags[a2] == f.tags[a2] && 1 in d'.phys && d'.phys[1] == [y]
  {
    StoreByte(f, d1, y);
  }

  function AfterBothCommits(d: Disk, c1: Key, a1: Key, x: byte): Disk
    requires |d.bits| > 0
  {
    Commit(TINY, Commit(TINY, After(TINY, d, Store(c1, x)), c1).disk, a1).disk
  }

  lemma OthersAtWorkSplits(d: Disk, c1: Key, a1: Key, d1: Key, x: byte, y: byte)
    requires |d.bits| > 0
    ensures |AfterBothCommits(d, c1, a1, x).bits| > 0
    ensures After(TINY, d, OthersAtWork(c1, a1, d1, x, y)) == After(TINY, AfterBothCommits(d, c1, a1, x), Store(d1, y))
  {
    SplitRun(TINY, d, Store(c1, x), CommitOp(c1), CommitOp(a1), Store(d1, y));
  }

  lemma BothCommit(d: Disk, c1: Key, a1: Key, a2: Key, x: byte)
    requires c1 != a1 && a1 != a2 && c1 != a2 && Usable(c1) && !Protected(a1) && c1 != INITIAL_KEY
    requires d.tags.Keys == {INITIAL_KEY, a1, a2} && d.index == map[] && d.bits == [true, true, false, false]
    requires d.tags[a1] == Tag(1, false, [1], map[0 := 1]) && d.tags[a2] == d.tags[a1]
    requires 0 in d.phys && 1 in d.phys && d.phys[1] == [x]
    ensures var f := AfterBothCommits(d, c1, a1, x);
      && f.bits == [true, false, true, false] && 0 in f.phys
      && f.tags.Keys == {INITIAL_KEY, a1, a2, c1} && f.tags[a2] == d.tags[a2]
  {
    StoredC1(d, c1, a1, a2, x);
    CommitFreesLinkedBlock(After(TINY, d, Store(c1, x)), c1, a1, a2, x);
  }

  lemma OthersOverwrite(d: Disk, c1: Key, a1: Key, a2: Key, d1: Key, x: byte, y: byte)
    requires c1 != a1 && a1 != a2 && c1 != a2 && d1 !in {c1, a1, a2}
    requires Usable(c1) && !Protected(a1)
    requires Usable(d1) && INITIAL_KEY !in {c1, d1}
    requires d.tags.Keys == {INITIAL_KEY, a1, a2} && d.index == map[] && d.bits == [true, true, false, false]
    requires d.tags[a1] == Tag(1, false, [1], map[0 := 1]) && d.tags[a2] == d.tags[a1]
    requires 0 in d.phys && 1 in d.phys && d.phys[1] == [x]
    ensures var d' := After(TINY, d, OthersAtWork(c1, a1, d1, x, y));
      a2 in d'.tags && d'.tags[a2] == d.tags[a2] && 1 in d'.phys && d'.phys[1] == [y]
  {
    BothCommit(d, c1, a1, a2, x);
    StoredD1(AfterBothCommits(d, c1, a1, x), d1, a2, y);
    OthersAtWorkSplits(d, c1, a1, d1, x, y);
  }

  lemma ReadOneByte(d: Disk, k: Key, b: nat, x: byte)
    requires k in d.tags && d.tags[k].size == 1 && d.tags[k].blocks != [] && d.tags[k].dir == map[0 := b]
    requires b in d.phys && d.phys[b] == [x]
    ensures Read(TINY, d, k, 0) == ReadOk([x])
  {
    assert Visible(TINY, [x]) == [x];
  }

  lemma OthersDoNotName(c1: Key, a1: Key, d1: Key, x: byte, y: byte)
    ensures forall op :: op in OthersAtWork(c1, a1, d1, x, y) ==> op.key in {c1, a1, d1}
  {
  }

  /** A snapshot of a WORK_IN_PROGRESS File:Tag can be overwritten by operations that
      never name it: the run from a fresh format ends with a:2 showing d:1's byte. */
  lemma EarlySnapshotIsOverwritten()
    ensures var others := OthersAtWork(C1, A1, D1, X, Y);
      && (forall op :: op in others ==> op.key in {C1, A1, D1})
      && Read(TINY, TaggedEarly(), A2, 0) == ReadOk([X])
      && Read(TINY, After(TINY, TaggedEarly(), others), A2, 0) == ReadOk([Y])
  {
    var d := TaggedEarly();
    TaggedEarlyIs();
    ReadOneByte(d, A2, 1, X);
    OthersOverwrite(d, C1, A1, A2, D1, X, Y);
    var d' := After(TINY, d, OthersAtWork(C1, A1, D1, X, Y));
    ReadOneByte(d', A2, 1, Y);
    OthersDoNotName(C1, A1, D1, X, Y);
  }

  // ------------------------------------------------- DELETE of a COMMITED File:Tag

  function CommittedThenDeleted(): Disk {
    Delete(Commit(TINY, After(TINY, FreshTiny(), Store(A1, X)), A1).disk, A1).disk
  }

  /** One byte stored on the fresh disk is in block 1. */
  lemma StoredIs(k: Key, x: byte)
    requires Usable(k) && k != INITIAL_KEY
    ensures var d := After(TINY, FreshTiny(), Store(k, x));
      && d.bits == [true, true, false, false] && d.index == map[]
      && 0 in d.phys && d.phys[0] == [ZERO_CHAR] && 1 in d.phys && d.phys[1] == [x]
      && d.tags.Keys == {INITIAL_KEY, k} && d.tags[k] == OneBlock(false, 1)
      && d.tags[INITIAL_KEY] == INITIAL_TAG
  {
    FreshTinyIs();
    StoreByte(FreshTiny(), k, x);
  }

  lemma CommittedIs()
    ensures var d := Commit(TINY, After(TINY, FreshTiny(), Store(A1, X)), A1).disk;
      && d.bits == [true, true, false, false] && d.index == map[Identity([X]) := 1] && 0 in d.phys
      && d.tags.Keys == {INITIAL_KEY, A1} && d.tags[A1] == OneBlock(true, 1)
      && d.tags[INITIAL_KEY] == INITIAL_TAG
  {
    StoredIs(A1, X);
    CommitOneByte(After(TINY, FreshTiny(), Store(A1, X)), A1, 1, X);
  }

  /** DELETE of a one-block File:Tag whose block no other one links. */
  lemma DeleteUnshared(d: Disk, k: Key, b: nat)
    requires !Protected(k) && k in d.tags && d.tags[k] == OneBlock(true, b) && b < |d.bits|
    requires forall k', i :: k' in d.tags && k' != k && i in d.tags[k'].dir ==> d.tags[k'].dir[i] != b
    ensures Delete(d, k) == Outcome(Disk(d.bits[b := false], d.phys - {b}, d.tags - {k}, d.index), true)
  {
    var tags := d.tags - {k};
    assert Refs(tags, b) == {} && b in Orphans(tags, [b]);
    assert Orphans(tags, [b]) == {b};
    assert ClearBits(d.bits, {b}) == d.bits[b := false];
  }

  lemma CommittedThenDeletedIs()
    ensures var d := CommittedThenDeleted();
      && d.bits == [true, false, false, false] && d.index == map[Identity([X]) := 1]
      && d.tags.Keys == {INITIAL_KEY} && 0 in d.phys
  {
    CommittedIs();
    DeleteUnshared(Commit(TINY, After(TINY, FreshTiny(), Store(A1, X)), A1).disk, A1, 1);
  }

  /** a:1 is committed and deleted: its digest stays bound to the freed block 1, which
      then goes to c:1; d:1 stores the deleted byte again in block 2. */
  function StaleIndex(): Disk {
    After(TINY, After(TINY, CommittedThenDeleted(), Store(C1, Y)), Store(D1, X))
  }

  lemma StaleIndexIs()
    ensures var d := StaleIndex();
      && |d.bits| == 4 && d.index == map[Identity([X]) := 1] && D1 in d.tags
      && d.tags[D1] == Tag(1, false, [2], map[0 := 2])
      && 1 in d.phys && d.phys[1] == [Y] && 2 in d.phys && d.phys[2] == [X]
  {
    CommittedThenDeletedIs();
    StoreByte(CommittedThenDeleted(), C1, Y);
    StoreByte(After(TINY, CommittedThenDeleted(), Store(C1, Y)), D1, X);
  }

  /** Deleting a COMMITED File:Tag leaves a stale index entry, and a later COMMIT of an
      unrelated File:Tag then replaces its contents, without any hash collision. */
  lemma StaleIndexCorruptsCommit()
    ensures Read(TINY, StaleIndex(), D1, 0) == ReadOk([X])
    ensures Read(TINY, Commit(TINY, StaleIndex(), D1).disk, D1, 0) == ReadOk([Y])
  {
    StaleIndexIs();
    var d := StaleIndex();
    ReadOneByte(d, D1, 2, X);
    CommitOneByte(d, D1, 2, X);
    ReadOneByte(Commit(TINY, d, D1).disk, D1, 1, Y);
  }

  // -------------------------------------------------------- FLUSH that fails late

  /** FLUSH of page 0 and then of a page that does not exist, on a one-block File:Tag. */
  lemma LateFailure(d: Disk, k: Key, y: byte)
    requires |d.bits| == 4 && FirstFree(d.bits, 1) == 2 && !Protected(k) && k in d.tags
    requires d.tags[k] == Tag(1, false, [1], map[0 := 1]) && 1 in d.phys
    ensures var o := Flush(TINY, d, k, [Page(0, [y]), Page(7, [y])]);
      && !o.ok && k in o.disk.tags && o.disk.tags[k] == Tag(1, false, [1], map[0 := 2])
      && 2 in o.disk.phys && o.disk.phys[2] == [y]
  {
    var p := [Page(0, [y]), Page(7, [y])];
    assert p[..1] == [Page(0, [y])] && p[..1][..0] == [];
    TwoNames(d, k, 0);
    var f0 := FlushPages(TINY, d, k, []);
    assert InProgress(d, k, f0) == d;
    var f1 := FlushPages(TINY, d, k, p[..1]);
    assert f1 == FlushPage(TINY, d, k, f0, Page(0, [y]));
    assert CeilDiv(1, 1) == 1 && InRange(TINY, d.tags[k], 0);
    assert map[0 := 1][0 := 2] == map[0 := 2];
    assert f1.dir == map[0 := 2] && f1.phys[2] == [y];
    assert !FlushPages(TINY, d, k, p).ok;
  }

  /** A FLUSH whose second page is out of range returns false, yet its first page is
      already visible to READ, through a block that BLOCKS does not mention. */
  lemma RejectedFlushIsVisible()
    ensures var d := After(TINY, FreshTiny(), Store(A1, X));
      var o := Flush(TINY, d, A1, [Page(0, [Y]), Page(7, [Y])]);
      && !o.ok && Read(TINY, d, A1, 0) == ReadOk([X]) && Read(TINY, o.disk, A1, 0) == ReadOk([Y])
      && A1 in o.disk.tags && o.disk.tags[A1] == Tag(1, false, [1], map[0 := 2])
  {
    FreshTinyIs();
    StoreByte(FreshTiny(), A1, X);
    var d := After(TINY, FreshTiny(), Store(A1, X));
    assert d.bits == [true, true, false, false];
    LateFailure(d, A1, Y);
    ReadOneByte(d, A1, 1, X);
    ReadOneByte(Flush(TINY, d, A1, [Page(0, [Y]), Page(7, [Y])]).disk, A1, 2, Y);
  }

  // ----------------------------------------------------------------- block 0

  /** Storing one byte in a new File:Tag and committing it. */
  function StoreCommit(k: Key, x: byte): seq<Op> {
    StoreOps(k, [x]) + [CommitOp(k)]
  }

  /** c:1 commits the byte of block 0 from block 1. */
  function ZeroCommitted(): Disk {
    After(TINY, FreshTiny(), StoreCommit(C1, ZERO_CHAR))
  }

  lemma ZeroCommittedIs()
    ensures ZeroCommitted() == Disk([true, true, false, false],
                                    map[0 := [ZERO_CHAR], 1 := [ZERO_CHAR], 2 := [0], 3 := [0]],
                                    map[INITIAL_KEY := INITIAL_TAG, C1 := OneBlock(true, 1)],
                                    map[Identity([ZERO_CHAR]) := 1])
  {
    FreshTinyIs();
    StoreAndCommit(TINY, FreshTiny(), C1, [ZERO_CHAR]);
  }

  /** A new one-block File:Tag left in block 0 is then exchanged, and bit 0 cleared. */
  lemma CommitInBlockZero(d: Disk, k: Key)
    requires Usable(k) && k !in d.tags && k != INITIAL_KEY && 1 <= |d.bits| && INITIAL_KEY in d.tags
    requires 0 in d.phys && d.phys[0] == [ZERO_CHAR]
    requires Identity([ZERO_CHAR]) in d.index && d.index[Identity([ZERO_CHAR])] == 1 && 1 in d.phys
    ensures var d' := Commit(TINY, Truncate(TINY, Create(d, k).disk, k, 1).disk, k).disk;
      && |d'.bits| == |d.bits| && !d'.bits[0] && INITIAL_KEY in d'.tags && d'.tags[INITIAL_KEY] == d.tags[INITIAL_KEY]
  {
    CreateThenTruncate(TINY, d, k);
    CommitOneByte(Truncate(TINY, Create(d, k).disk, k, 1).disk, k, 0, ZERO_CHAR);
  }

  /** COMMIT can clear the bit of block 0, which initial_file:BASE still links; no harm
      follows, because allocation starts at block 1. */
  lemma CommitCanFreeBlockZero()
    ensures var d := Commit(TINY, Truncate(TINY, Create(ZeroCommitted(), A1).disk, A1, 1).disk, A1).disk;
      Holds(d, INITIAL_KEY, 0, 0) && !d.bits[0]
  {
    ZeroCommittedIs();
    CommitInBlockZero(ZeroCommitted(), A1);
  }

  // ------------------------------------------------------ a COMMIT that saves nothing

  lemma IdentityDiffers(x: byte, y: byte)
    requires x != y
    ensures Identity([x]) != Identity([y])
  {
    assert Identity([x])[0] != Identity([y])[0];
  }

  /** a:1 then commits the byte y from block 2. */
  function BothCommitted(): Disk {
    After(TINY, ZeroCommitted(), StoreCommit(A1, Y))
  }

  lemma CommitsY(d: Disk)
    requires d.bits == [true, true, false, false] && 0 in d.phys && A1 !in d.tags && Identity([Y]) !in d.index
    ensures After(TINY, d, StoreCommit(A1, Y))
         == Disk([true, true, true, false], d.phys[2 := [Y]], d.tags[A1 := OneBlock(true, 2)],
                 d.index[Identity([Y]) := 2])
  {
    StoreAndCommit(TINY, d, A1, [Y]);
    assert [true, true, false, false][2 := true] == [true, true, true, false];
  }

  lemma BothCommittedIs()
    ensures var d := BothCommitted();
      && d.bits == [true, true, true, false] && d.tags.Keys == {INITIAL_KEY, C1, A1}
      && d.tags[INITIAL_KEY] == INITIAL_TAG
      && d.tags[C1] == OneBlock(true, 1) && d.tags[A1] == OneBlock(true, 2)
      && 0 in d.phys && d.phys[0] == [ZERO_CHAR] && 1 in d.phys
      && Identity([ZERO_CHAR]) in d.index && d.index[Identity([ZERO_CHAR])] == 1
      && Identity([Y]) in d.index && d.index[Identity([Y])] == 2
  {
    ZeroCommittedIs();
    IdentityDiffers(ZERO_CHAR, Y);
    CommitsY(ZeroCommitted());
  }

  /** d:1 has block 0 at position 0 and y, from block 3, at position 1. */
  function TwoBlocks(): seq<Op> {
    [CreateOp(D1), TruncateOp(D1, 2), WriteOp(D1, 1, [Y])]
  }

  lemma TwoZeroBlocks(d: Disk)
    requires D1 !in d.tags
    ensures Truncate(TINY, Create(d, D1).disk, D1, 2).disk
         == d.(tags := d.tags[D1 := Tag(2, false, [0, 0], map[0 := 0, 1 := 0])])
  {
    var d1 := Create(d, D1).disk;
    var d2 := Truncate(TINY, d1, D1, 2).disk;
    assert CeilDiv(2, 1) == 2 && DirOf([0, 0]) == map[0 := 0, 1 := 0];
    assert Orphans(d2.tags, []) == {} && ClearBits(d1.bits, {}) == d1.bits;
    assert d1.tags[D1].blocks + Zeros(2) == [0, 0];
    assert d2.tags == d1.tags[D1 := Tag(2, false, [0, 0], map[0 := 0, 1 := 0])];
    assert d2.tags == d.tags[D1 := Tag(2, false, [0, 0], map[0 := 0, 1 := 0])];
  }

  lemma TwoBlocksAre(d: Disk)
    requires |d.bits| == 4 && FirstFree(d.bits, 1) == 3 && D1 !in d.tags && 0 in d.phys
    ensures After(TINY, d, TwoBlocks())
         == d.(bits := d.bits[3 := true], phys := d.phys[3 := [Y]],
               tags := d.tags[D1 := Tag(2, false, [0, 3], map[0 := 0, 1 := 3])])
  {
    TwoZeroBlocks(d);
    var d2 := Truncate(TINY, Create(d, D1).disk, D1, 2).disk;
    TwoNames(d2, D1, 1);
    assert CeilDiv(2, 1) == 2 && [0, 0][1 := 3] == [0, 3] && map[0 := 0, 1 := 0][1 := 3] == map[0 := 0, 1 := 3];
    After3(TINY, d, CreateOp(D1), TruncateOp(D1, 2), WriteOp(D1, 1, [Y]));
    assert d2.tags[D1 := Tag(2, false, [0, 3], map[0 := 0, 1 := 3])]
        == d.tags[D1 := Tag(2, false, [0, 3], map[0 := 0, 1 := 3])];
  }

  /** a:1 is then deleted, and its block 2 with it, while the index goes on naming it. */
  function DigestOfDeleted(): Disk {
    Delete(After(TINY, BothCommitted(), TwoBlocks()), A1).disk
  }

  /** The two bytes are in their blocks, and the index binds them to blocks 1 and 2. */
  ghost predicate Bound(d: Disk) {
    && d.tags.Keys >= {D1} && d.tags[D1] == Tag(2, false, [0, 3], map[0 := 0, 1 := 3])
    && 0 in d.phys && d.phys[0] == [ZERO_CHAR] && 1 in d.phys && 3 in d.phys && d.phys[3] == [Y]
    && Identity([ZERO_CHAR]) in d.index && d.index[Identity([ZERO_CHAR])] == 1
    && Identity([Y]) in d.index && d.index[Identity([Y])] == 2
  }

  lemma TwoBlocksBound()
    ensures var d := After(TINY, BothCommitted(), TwoBlocks());
      && |d.bits| == 4 && d.tags.Keys == {INITIAL_KEY, C1, A1, D1} && d.tags[INITIAL_KEY] == INITIAL_TAG
      && d.tags[C1] == OneBlock(true, 1) && d.tags[A1] == OneBlock(true, 2) && Bound(d)
  {
    BothCommittedIs();
    assert FirstFree([true, true, true, false], 2) == 3;
    TwoBlocksAre(BothCommitted());
  }

  /** Block 2 goes with the only File:Tag that links it. */
  lemma DeleteBlockTwo(d: Disk)
    requires d.tags.Keys == {INITIAL_KEY, C1, A1, D1} && |d.bits| == 4 && Bound(d)
    requires d.tags[INITIAL_KEY] == INITIAL_TAG && d.tags[C1] == OneBlock(true, 1) && d.tags[A1] == OneBlock(true, 2)
    ensures Delete(d, A1).ok && Bound(Delete(d, A1).disk) && 2 !in Delete(d, A1).disk.phys
  {
    DeleteUnshared(d, A1, 2);
  }

  lemma LearnKnown(d: Disk, a: nat, b: nat)
    requires a in d.phys && b in d.phys && DigestOf(TINY, d.phys, a) in d.index && DigestOf(TINY, d.phys, b) in d.index
    ensures Learn(TINY, d.phys, d.index, [a, b]) == d.index
  {
    assert [a, b][..1] == [a] && [a][..0] == [];
    assert Learn(TINY, d.phys, d.index, [a]) == d.index;
  }

  /** The COMMIT of two blocks of which the first can be moved and the last cannot. */
  lemma FirstMovesLastFails(d: Disk, k: Key, a: nat, b: nat, c: nat)
    requires !Protected(k) && k in d.tags && d.tags[k] == Tag(2, false, [a, b], map[0 := a, 1 := b])
    requires a in d.phys && b in d.phys && c in d.phys && c != a
    requires DigestOf(TINY, d.phys, a) in d.index && d.index[DigestOf(TINY, d.phys, a)] == c
    requires BoundAway(TINY, d.phys, d.index, b) && d.index[DigestOf(TINY, d.phys, b)] !in d.phys
    ensures var o := Commit(TINY, d, k);
      o.ok && k in o.disk.tags && o.disk.tags[k] == Tag(2, true, [a, b], map[0 := c, 1 := b])
  {
    LearnKnown(d, a, b);
    assert LastMove(TINY, d.phys, d.index, [a, b]) == 1;
    assert CanonicalBlocks(TINY, d.phys, d.index, [a, b]) == [c, b];
    assert DirOf([c, b]) == map[0 := c, 1 := b];
  }

  lemma MoveFails(d: Disk)
    requires Bound(d) && 2 !in d.phys
    ensures var o := Commit(TINY, d, D1);
      o.ok && D1 in o.disk.tags && o.disk.tags[D1] == Tag(2, true, [0, 3], map[0 := 1, 1 := 3])
  {
    assert Visible(TINY, [ZERO_CHAR]) == [ZERO_CHAR] && Visible(TINY, [Y]) == [Y];
    FirstMovesLastFails(d, D1, 0, 3, 1);
  }

  /** A COMMIT whose last move fails returns true without saving BLOCKS, which then names
      block 0 where the link leads to block 1: the link invariant is lost. */
  lemma FailedMoveIsUnsaved()
    ensures var o := Commit(TINY, DigestOfDeleted(), D1);
      && Delete(After(TINY, BothCommitted(), TwoBlocks()), A1).ok && o.ok
      && D1 in o.disk.tags && o.disk.tags[D1] == Tag(2, true, [0, 3], map[0 := 1, 1 := 3])
      && !LinkInv(TINY, o.disk)
  {
    TwoBlocksBound();
    DeleteBlockTwo(After(TINY, BothCommitted(), TwoBlocks()));
    MoveFails(DigestOfDeleted());
    BlocksAndLinksDiffer(Commit(TINY, DigestOfDeleted(), D1).disk, D1);
  }

  lemma BlocksAndLinksDiffer(d: Disk, k: Key)
    requires k in d.tags && d.tags[k] == Tag(2, true, [0, 3], map[0 := 1, 1 := 3])
    ensures !LinkInv(TINY, d)
  {
    assert d.tags[k].dir[0] != DirOf(d.tags[k].blocks)[0];
    assert !TagOk(TINY, d, k);
  }
}
