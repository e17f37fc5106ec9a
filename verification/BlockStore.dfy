/** The Storage process as it runs: a bitmap changed in place, block files, File:Tag
    directories and the hash index.  Every method is proved to take the old disk value
    to the one given by the function of the same name in Disk.dfy. */
module BlockStore {
  import opened Bytes
  import opened Disk
  import opened DiskInvariant
  import opened StorageSteps
  import opened FlushSteps
  import opened StorageRuns
  import opened LinkRuns
  import opened StorageLaws

  // ------------------------------------------------------------ small lemmas

  /** `tags` with the directory of `k` replaced. */
  function Relink(tags: map<Key, Tag>, k: Key, dir: map<nat, nat>): (r: map<Key, Tag>)
    requires k in tags
    ensures k in r && r[k] == tags[k].(dir := dir)
  {
    tags[k := tags[k].(dir := dir)]
  }

  lemma RelinkTwice(tags: map<Key, Tag>, k: Key, a: map<nat, nat>, b: map<nat, nat>)
    requires k in tags
    ensures Relink(Relink(tags, k, a), k, b) == Relink(tags, k, b)
    ensures Relink(tags, k, tags[k].dir) == tags
  {
  }

  lemma UnlinkRefs(tags: map<Key, Tag>, k: Key, i: nat, c: nat)
    requires k in tags && i in tags[k].dir
    ensures Refs(tags[k := tags[k].(dir := tags[k].dir - {i})], c) == Refs(tags, c) - {(k, i)}
    ensures (k, i) in Refs(tags, tags[k].dir[i])
  {
  }

  /** One step of TRUNCATE's shrinking loop: the last link goes, and the blocks left
      without links are the earlier ones plus the one just unlinked, if it was its last. */
  lemma ShrinkStep(tags: map<Key, Tag>, k: Key, blocks: seq<nat>, i: nat)
    requires k in tags && i < |blocks| && tags[k].dir == DirOf(blocks[..i + 1])
    ensures var tags' := Relink(tags, k, tags[k].dir - {i});
      && tags'[k].dir == DirOf(blocks[..i])
      && Orphans(tags', blocks[i..]) == Orphans(tags, blocks[i + 1..]) +
           (if Refs(tags', blocks[i]) == {} then {blocks[i]} else {})
  {
    var tags' := Relink(tags, k, tags[k].dir - {i});
    assert blocks[i..] == [blocks[i]] + blocks[i + 1..];
    forall c ensures Refs(tags', c) == Refs(tags, c) - {(k, i)} { UnlinkRefs(tags, k, i, c); }
    assert (k, i) in Refs(tags, blocks[i]);
    forall c | c in blocks[i + 1..] && c != blocks[i] ensures Refs(tags', c) == Refs(tags, c) {
      assert (k, i) !in Refs(tags, c);
    }
  }

  lemma ClearMore(bits: seq<bool>, s: set<nat>, t: set<nat>)
    ensures ClearBits(ClearBits(bits, s), t) == ClearBits(bits, s + t)
    ensures ClearBits(bits, {}) == bits
  {
  }

  lemma LearnGrows(g: Geometry, phys: map<nat, seq<byte>>, index: map<Digest, nat>, blocks: seq<nat>, i: nat)
    requires i < |blocks|
    ensures var before := Learn(g, phys, index, blocks[..i]); var now := Learn(g, phys, index, blocks[..i + 1]);
      && (forall h :: h in before ==> h in now && now[h] == before[h])
      && CanonicalBlocks(g, phys, now, blocks[..i]) == CanonicalBlocks(g, phys, before, blocks[..i])
      && now == if blocks[i] !in phys || DigestOf(g, phys, blocks[i]) in before then before
                else before[DigestOf(g, phys, blocks[i]) := blocks[i]]
  {
    assert blocks[..i + 1] == blocks[..i] + [blocks[i]];
    LearnLast(g, phys, index, blocks[..i], blocks[i]);
    assert forall j :: 0 <= j < i ==> blocks[j] in blocks[..i];
  }

  lemma ReplacedGrows(current: seq<nat>, before: seq<nat>, blocks: seq<nat>, i: nat)
    requires i < |current| && |before| == i && |blocks| == i + 1 && blocks[..i] == before
    ensures Replaced(current, blocks, i + 1) ==
      Replaced(current, before, i) + (if blocks[i] != current[i] then {current[i]} else {})
  {
    assert forall j :: 0 <= j < i ==> blocks[j] == before[j];
  }

  lemma DirStep(before: seq<nat>, current: seq<nat>, i: nat, b: nat)
    requires i < |current| && |before| == i
    ensures i in DirOf(before + current[i..])
    ensures DirOf(before + current[i..])[i := b] == DirOf(before + [b] + current[i + 1..])
    ensures b == current[i] ==> before + current[i..] == before + [b] + current[i + 1..]
  {
  }

  lemma CanonicalGrows(g: Geometry, phys: map<nat, seq<byte>>, index: map<Digest, nat>, current: seq<nat>, i: nat)
    requires i < |current|
    ensures CanonicalBlocks(g, phys, index, current[..i + 1])
      == CanonicalBlocks(g, phys, index, current[..i]) + [Canonical(g, phys, index, current[i])]
  {
  }

  /** The last move among one block more: that block's, if it is bound away. */
  lemma MovesSavedGrows(g: Geometry, phys: map<nat, seq<byte>>, index: map<Digest, nat>, current: seq<nat>, i: nat)
    requires i < |current|
    ensures var now := Learn(g, phys, index, current[..i + 1]);
      MovesSaved(g, phys, now, current[..i + 1]) ==
        if BoundAway(g, phys, now, current[i]) then now[DigestOf(g, phys, current[i])] in phys
        else MovesSaved(g, phys, Learn(g, phys, index, current[..i]), current[..i])
  {
    LearnGrows(g, phys, index, current, i);
    var before, now := Learn(g, phys, index, current[..i]), Learn(g, phys, index, current[..i + 1]);
    forall j | 0 <= j < i ensures BoundAway(g, phys, now, current[j]) == BoundAway(g, phys, before, current[j]) {
      assert current[j] in current[..i];
    }
    SameLastMove(g, phys, before, now, current[..i]);
    assert current[..i + 1][..|current[..i + 1]| - 1] == current[..i];
  }

  lemma SameLastMove(g: Geometry, phys: map<nat, seq<byte>>, before: map<Digest, nat>, now: map<Digest, nat>,
                     blocks: seq<nat>)
    requires forall h :: h in before ==> h in now && now[h] == before[h]
    requires forall j :: 0 <= j < |blocks| ==>
        BoundAway(g, phys, now, blocks[j]) == BoundAway(g, phys, before, blocks[j])
    ensures MovesSaved(g, phys, now, blocks) == MovesSaved(g, phys, before, blocks)
  {
    var j, j' := LastMove(g, phys, before, blocks), LastMove(g, phys, now, blocks);
    assert j == j';
  }

  /** Links, bits, index, list, and whether the list is to be saved, while COMMIT deduplicates. */
  datatype Dedup = Dedup(dir: map<nat, nat>, bits: seq<bool>, learnt: map<Digest, nat>, blocks: seq<nat>,
                         modified: bool)

  /** Deduplicating logical block i, recorded in physical block b.  A link to a block that has
      lost its file fails, and the old link is made again. */
  function DedupOne(g: Geometry, phys: map<nat, seq<byte>>, p: Dedup, i: nat, b: nat): Dedup
    requires b in phys
  {
    var h := DigestOf(g, phys, b);
    var next := if h in p.learnt then p.learnt else p.learnt[h := b];
    if next[h] == b then Dedup(p.dir, p.bits, next, p.blocks + [b], p.modified)
    else if next[h] in phys
    then Dedup(p.dir[i := next[h]], ClearBits(p.bits, {b}), next, p.blocks + [next[h]], true)
    else Dedup(p.dir[i := b], p.bits, next, p.blocks + [b], false)
  }

  function DedupFirst(g: Geometry, phys: map<nat, seq<byte>>, start: Dedup, current: seq<nat>, i: nat): (r: Dedup)
    requires i <= |current| && forall b :: b in current ==> b in phys
    ensures |r.blocks| == |start.blocks| + i && forall j :: j in start.dir ==> j in r.dir
  {
    if i == 0 then start else
    assert current[i - 1] in current;
    DedupOne(g, phys, DedupFirst(g, phys, start, current, i - 1), i - 1, current[i - 1])
  }

  /** What deduplicating the first i blocks amounts to. */
  ghost predicate Deduped(g: Geometry, phys: map<nat, seq<byte>>, bits: seq<bool>, index: map<Digest, nat>,
                      current: seq<nat>, i: nat, r: Dedup)
    requires i <= |current|
  {
    && r.learnt == Learn(g, phys, index, current[..i])
    && r.blocks == CanonicalBlocks(g, phys, r.learnt, current[..i])
    && r.dir == DirOf(r.blocks + current[i..])
    && r.bits == ClearBits(bits, Replaced(current, r.blocks, i))
    && r.modified == MovesSaved(g, phys, r.learnt, current[..i])
  }

  lemma DedupedOneMore(g: Geometry, phys: map<nat, seq<byte>>, bits: seq<bool>, index: map<Digest, nat>,
                      current: seq<nat>, i: nat, p: Dedup)
    requires i < |current| && current[i] in phys && Deduped(g, phys, bits, index, current, i, p)
    ensures Deduped(g, phys, bits, index, current, i + 1, DedupOne(g, phys, p, i, current[i]))
  {
    var r := DedupOne(g, phys, p, i, current[i]);
    DedupStepLearns(g, phys, index, current, i);
    MovesSavedGrows(g, phys, index, current, i);
    var b := r.blocks[i];
    DirStep(p.blocks, current, i, b);
    ReplacedGrows(current, p.blocks, r.blocks, i);
    ClearMore(bits, Replaced(current, p.blocks, i), if b != current[i] then {current[i]} else {});
  }

  /** The loop amounts to learning every digest first and then exchanging all blocks. */
  lemma {:induction false} DedupClosedForm(g: Geometry, phys: map<nat, seq<byte>>, start: Dedup, current: seq<nat>,
                      i: nat)
    requires i <= |current| && (forall b :: b in current ==> b in phys)
    requires start.dir == DirOf(current) && start.blocks == [] && !start.modified
    ensures Deduped(g, phys, start.bits, start.learnt, current, i, DedupFirst(g, phys, start, current, i))
  {
    if i == 0 {
      assert [] + current[0..] == current;
      assert Replaced(current, [], 0) == {};
      ClearMore(start.bits, {}, {});
    } else {
      assert current[i - 1] in current;
      DedupClosedForm(g, phys, start, current, i - 1);
      DedupedOneMore(g, phys, start.bits, start.learnt, current, i - 1, DedupFirst(g, phys, start, current, i - 1));
    }
  }

  lemma DedupOfAll(g: Geometry, phys: map<nat, seq<byte>>, dir: map<nat, nat>, bits: seq<bool>,
                   index: map<Digest, nat>, current: seq<nat>)
    requires dir == DirOf(current) && forall b :: b in current ==> b in phys
    ensures var r := DedupFirst(g, phys, Dedup(dir, bits, index, [], false), current, |current|);
      && r.learnt == Learn(g, phys, index, current)
      && r.blocks == CanonicalBlocks(g, phys, r.learnt, current)
      && r.dir == DirOf(r.blocks)
      && r.bits == ClearBits(bits, Replaced(current, r.blocks, |current|))
      && r.modified == MovesSaved(g, phys, r.learnt, current)
  {
    var start := Dedup(dir, bits, index, [], false);
    var r := DedupFirst(g, phys, start, current, |current|);
    DedupClosedForm(g, phys, start, current, |current|);
    assert current[..|current|] == current && r.blocks + current[|current|..] == r.blocks;
  }

  lemma DedupStepLearns(g: Geometry, phys: map<nat, seq<byte>>, index: map<Digest, nat>, current: seq<nat>, i: nat)
    requires i < |current| && current[i] in phys
    ensures var before := Learn(g, phys, index, current[..i]); var h := DigestOf(g, phys, current[i]);
      var next := if h in before then before else before[h := current[i]];
      && Learn(g, phys, index, current[..i + 1]) == next
      && CanonicalBlocks(g, phys, next, current[..i + 1])
         == CanonicalBlocks(g, phys, before, current[..i]) + [Canonical(g, phys, next, current[i])]
  {
    LearnGrows(g, phys, index, current, i);
    CanonicalGrows(g, phys, Learn(g, phys, index, current[..i + 1]), current, i);
  }

  /** A page FLUSH has accepted: the block reserved for it and what to write there. */
  datatype Pending = Pending(block: nat, number: nat, data: seq<byte>)

  function Written(phys: map<nat, seq<byte>>, pending: seq<Pending>): map<nat, seq<byte>> {
    if pending == [] then phys else
    var last := pending[|pending| - 1];
    Written(phys, pending[..|pending| - 1])[last.block := last.data]
  }

  function Recorded(blocks: seq<nat>, pending: seq<Pending>): (r: seq<nat>)
    ensures |r| == |blocks|
  {
    if pending == [] then blocks else
    var last := pending[|pending| - 1];
    var before := Recorded(blocks, pending[..|pending| - 1]);
    if last.number < |blocks| then before[last.number := last.block] else before
  }

  /** Two file systems that differ only in reserved blocks end up equal once the pending
      pages are written. */
  ghost predicate DifferOnlyIn(a: map<nat, seq<byte>>, b: map<nat, seq<byte>>, pending: seq<Pending>) {
    forall x: nat :: NotReserved(pending, x) ==> (x in a <==> x in b) && (x in a ==> a[x] == b[x])
  }

  ghost predicate NotReserved(pending: seq<Pending>, x: nat) {
    forall p :: p in pending ==> p.block != x
  }

  lemma {:induction false} WrittenAgrees(a: map<nat, seq<byte>>, b: map<nat, seq<byte>>, pending: seq<Pending>)
    requires DifferOnlyIn(a, b, pending)
    ensures Written(a, pending) == Written(b, pending)
  {
    forall x: nat ensures (x in Written(a, pending) <==> x in Written(b, pending))
      && (x in Written(a, pending) ==> Written(a, pending)[x] == Written(b, pending)[x])
    {
      WrittenAt(a, pending, x);
      WrittenAt(b, pending, x);
    }
  }

  /** The last pending page for block x, or nothing. */
  function LastFor(pending: seq<Pending>, x: nat): seq<Pending> {
    if pending == [] then []
    else if pending[|pending| - 1].block == x then [pending[|pending| - 1]]
    else LastFor(pending[..|pending| - 1], x)
  }

  lemma {:induction false} WrittenAt(a: map<nat, seq<byte>>, pending: seq<Pending>, x: nat)
    ensures LastFor(pending, x) == [] <==> NotReserved(pending, x)
    ensures var w := Written(a, pending);
      if LastFor(pending, x) == [] then (x in w <==> x in a) && (x in w ==> w[x] == a[x])
      else x in w && w[x] == LastFor(pending, x)[0].data
  {
    if pending != [] {
      WrittenAt(a, pending[..|pending| - 1], x);
      assert pending == pending[..|pending| - 1] + [pending[|pending| - 1]];
    }
  }

  /** What the first phase of FLUSH has established once the pages behind `f` are done:
      links and bits are final, contents only differ in the reserved blocks. */
  ghost predicate Reserving(g: Geometry, start: Disk, k: Key, f: Flushing, pending: seq<Pending>, all: bool,
                      now: Disk) {
    && !Frozen(start, k) && LinkInv(g, start) && LinkInv(g, Saved(start, k, f))
    && ReservingShape(g, start, k, f, pending, all, now)
  }

  ghost predicate ReservingShape(g: Geometry, start: Disk, k: Key, f: Flushing, pending: seq<Pending>, all: bool,
                      now: Disk)
    requires k in start.tags
  {
    && |f.blocks| == |start.tags[k].blocks| && |f.bits| == |start.bits|
    && now.bits == f.bits && now.index == start.index && all == f.ok
    && now.tags == start.tags[k := start.tags[k].(dir := f.dir)]
    && f.phys == Written(start.phys, pending) && f.blocks == Recorded(start.tags[k].blocks, pending)
    && CopiesReserved(g, start.phys, pending, now.phys)
  }

  /** Every reserved block exists and is one block long; nothing else has changed. */
  ghost predicate CopiesReserved(g: Geometry, start: map<nat, seq<byte>>, pending: seq<Pending>,
                      phys: map<nat, seq<byte>>) {
    && DifferOnlyIn(start, phys, pending)
    && (forall p :: p in pending ==> |p.data| == g.blockSize && p.block in phys && |phys[p.block]| == g.blockSize)
  }

  lemma CopiesReservedMore(g: Geometry, start: map<nat, seq<byte>>, pending: seq<Pending>, phys: map<nat, seq<byte>>,
                           p: Pending, copy: seq<byte>)
    requires CopiesReserved(g, start, pending, phys) && |copy| == |p.data| == g.blockSize
    ensures CopiesReserved(g, start, pending + [p], phys[p.block := copy])
  {
    forall x: nat | NotReserved(pending + [p], x) ensures NotReserved(pending, x) && x != p.block {
      assert p in pending + [p];
      forall q | q in pending ensures q.block != x { assert q in pending + [p]; }
    }
  }

  lemma ReservedNames(g: Geometry, start: map<nat, seq<byte>>, pending: seq<Pending>, phys: map<nat, seq<byte>>)
    requires CopiesReserved(g, start, pending, phys)
    ensures Written(start, pending).Keys == phys.Keys
    ensures forall b :: b in start && |start[b]| >= g.blockSize ==> b in phys && |phys[b]| >= g.blockSize
  {
    forall x: nat ensures x in Written(start, pending) <==> x in phys { WrittenAt(start, pending, x); }
    forall b: nat | b in start && |start[b]| >= g.blockSize ensures b in phys && |phys[b]| >= g.blockSize {
      if p :| p in pending && p.block == b { }
    }
  }

  lemma ReservingSeesTwoNames(g: Geometry, start: Disk, k: Key, f: Flushing, pending: seq<Pending>, all: bool,
                      now: Disk, i: int)
    requires Reserving(g, start, k, f, pending, all, now) && 0 <= i < |f.blocks|
    ensures k in now.tags && i in now.tags[k].dir && i < |now.tags[k].blocks|
    ensures LinkCount(now.tags, now.phys, now.tags[k].dir[i]) >= 2
    ensures i in f.dir && NLink(InProgress(start, k, f), f.dir[i]) >= 2
    ensures start.tags[k].blocks[i] in now.phys && |now.phys[start.tags[k].blocks[i]]| >= g.blockSize
  {
    FlushSeesTwoNames(g, start, k, f, i);
    ReservedNames(g, start.phys, pending, now.phys);
    assert Holds(start, k, i, start.tags[k].blocks[i]);
  }

  lemma ReserveStep(g: Geometry, start: Disk, k: Key, f: Flushing, pending: seq<Pending>, all: bool, now: Disk,
                    page: Page, copy: seq<byte>)
    requires Reserving(g, start, k, f, pending, all, now) && |page.data| == |copy| == g.blockSize
    requires InRange(g, start.tags[k], page.number) && FirstFree(now.bits, 1) < |now.bits|
    ensures var n := FirstFree(now.bits, 1);
      k in now.tags &&
      Reserving(g, start, k, FlushPage(g, start, k, f, page), pending + [Pending(n, page.number, page.data)], all,
                Disk(now.bits[n := true], now.phys[n := copy],
                     now.tags[k := now.tags[k].(dir := now.tags[k].dir[page.number := n])], now.index))
  {
    var n := FirstFree(now.bits, 1);
    assert now.tags[k := now.tags[k].(dir := now.tags[k].dir[page.number := n])]
      == start.tags[k := start.tags[k].(dir := f.dir[page.number := n])];
    FlushPageKeepsLinks(g, start, k, f, page);
    FlushPageRedirects(g, start, k, f, page);
    ReserveStepShape(g, start, k, f, pending, all, now, page, FirstFree(now.bits, 1), copy);
  }

  lemma ReserveStepShape(g: Geometry, start: Disk, k: Key, f: Flushing, pending: seq<Pending>, all: bool, now: Disk,
                         page: Page, n: nat, copy: seq<byte>)
    requires k in start.tags && ReservingShape(g, start, k, f, pending, all, now) && n < |now.bits|
    requires |page.data| == |copy| == g.blockSize && 0 <= page.number < |f.blocks|
    ensures ReservingShape(g, start, k,
        Flushing(f.bits[n := true], f.phys[n := page.data], f.dir[page.number := n], f.blocks[page.number := n], f.ok),
        pending + [Pending(n, page.number, page.data)], all,
        Disk(now.bits[n := true], now.phys[n := copy],
             start.tags[k := start.tags[k].(dir := f.dir[page.number := n])], now.index))
  {
    var p := Pending(n, page.number, page.data);
    CopiesReservedMore(g, start.phys, pending, now.phys, p, copy);
    assert (pending + [p])[..|pending + [p]| - 1] == pending;
    assert Written(start.phys, pending + [p]) == Written(start.phys, pending)[n := page.data];
    assert Recorded(start.tags[k].blocks, pending + [p]) == Recorded(start.tags[k].blocks, pending)[page.number := n];
  }

  lemma RejectStep(g: Geometry, start: Disk, k: Key, f: Flushing, pending: seq<Pending>, all: bool, now: Disk,
                   page: Page)
    requires Reserving(g, start, k, f, pending, all, now)
    requires !InRange(g, start.tags[k], page.number) || FirstFree(now.bits, 1) == |now.bits|
    ensures Reserving(g, start, k, FlushPage(g, start, k, f, page), pending, false, now)
  {
    if InRange(g, start.tags[k], page.number) { FlushSeesTwoNames(g, start, k, f, page.number); }
  }

  lemma ReservingStarts(g: Geometry, start: Disk, k: Key)
    requires LinkInv(g, start) && !Frozen(start, k)
    ensures Reserving(g, start, k, FlushPages(g, start, k, []), [], true, start)
  {
    assert Saved(start, k, FlushPages(g, start, k, [])) == start;
  }

  lemma FlushPagesNext(g: Geometry, start: Disk, k: Key, pages: seq<Page>, j: nat)
    requires g.blockSize > 0 && |start.bits| > 0 && k in start.tags && j < |pages|
    ensures FlushPages(g, start, k, pages[..j + 1])
      == FlushPage(g, start, k, FlushPages(g, start, k, pages[..j]), pages[j])
  {
    assert pages[..j + 1][..|pages[..j + 1]| - 1] == pages[..j];
  }

  lemma PutTwice(tags: map<Key, Tag>, k: Key, dir: map<nat, nat>, a: Tag, b: Tag)
    requires k in tags
    ensures Relink(tags, k, dir)[k := a][k := b] == tags[k := b]
    ensures Relink(tags, k, dir)[k := b] == tags[k := b]
  {
  }

  lemma WriteReturns(g: Geometry, d: Disk, k: Key, i: int, data: seq<byte>)
    requires LinkInv(g, d)
    ensures LinkInv(g, Write(g, d, k, i, data).disk)
  {
    OnlyFlushLeavesTraces(g, d, WriteOp(k, i, data));
    StepKeepsLinkInvIff(g, d, WriteOp(k, i, data));
  }

  lemma FlushReturns(g: Geometry, d: Disk, k: Key, pages: seq<Page>)
    requires LinkInv(g, d) && WholeBlocks(g, pages)
    ensures var o := Flush(g, d, k, pages); o.ok || o.disk == d ==> LinkInv(g, o.disk)
  {
    if Returned(g, d, FlushOp(k, pages)) { StepKeepsLinkInvIff(g, d, FlushOp(k, pages)); }
  }

  lemma ExecuteKeeps(g: Geometry, d: Disk, op: Op)
    requires LinkInv(g, d) && WellFormed(g, op)
    ensures var o := Step(g, d, op);
      && (o.ok || o.disk == d ==> (LinkInv(g, o.disk) <==> SavesMoves(g, d, op)))
      && (RunInv(g, d) ==> (RunInv(g, o.disk) <==> Admissible(g, d, op)))
  {
    if Returned(g, d, op) { StepKeepsLinkInvIff(g, d, op); }
    if RunInv(g, d) { StepKeepsRunInvIff(g, d, op); }
  }

  class Store {
    const g: Geometry
    var bitmap: array<bool>
    var phys: map<nat, seq<byte>>
    var tags: map<Key, Tag>
    var index: map<Digest, nat>

    function Value(): Disk
      reads this, bitmap
    {
      Disk(bitmap[..], phys, tags, index)
    }

    ghost predicate Valid()
      reads this, bitmap
    {
      LinkInv(g, Value())
    }

    /** FRESH_START: a zeroed bitmap with bit 0 set, every block file, initial_file:BASE. */
    constructor (geometry: Geometry)
      requires geometry.blockSize > 0 && geometry.count > 0
      ensures g == geometry && fresh(bitmap) && Value() == Format(geometry) && Valid()
    {
      g := geometry;
      bitmap := new bool[geometry.count](_ => false);
      phys, tags, index := map[], map[], map[];
      new;
      bitmap[0] := true;
      ZeroBlocks();
      phys := phys[0 := seq(g.blockSize, _ => ZERO_CHAR)];
      tags := tags[INITIAL_KEY := Tag(0, true, [0], map[0 := 0])];
      FormatHasRunInv(geometry);
    }

    /** Every physical block file is created full of zeros. */
    method ZeroBlocks()
      requires phys == map[]
      modifies this`phys
      ensures phys == map b: nat | b < g.count && BlockNumber(g, b) :: seq(g.blockSize, _ => 0)
    {
      var i := 0;
      while i < g.count
        invariant 0 <= i <= g.count
        invariant phys == map b: nat | b < i && BlockNumber(g, b) :: seq(g.blockSize, _ => 0)
      {
        phys := phys[i := seq(g.blockSize, _ => 0)];
        i := i + 1;
      }
    }

    method FreeBlock(b: nat)
      modifies bitmap
      ensures bitmap[..] == ClearBits(old(bitmap[..]), {b})
    {
      if b >= bitmap.Length { return; }
      if !bitmap[b] { return; }
      bitmap[b] := false;
    }

    /** First-fit from block 1; the bit is set as soon as the block is found. */
    method Allocate() returns (n: int)
      requires bitmap.Length > 0
      modifies bitmap
      ensures n == -1 ==> FirstFree(old(bitmap[..]), 1) == bitmap.Length && bitmap[..] == old(bitmap[..])
      ensures n != -1 ==> 1 <= n < bitmap.Length && n == FirstFree(old(bitmap[..]), 1)
      ensures n != -1 ==> bitmap[..] == old(bitmap[..])[n := true]
    {
      n := -1;
      var i := 1;
      while i < bitmap.Length
        invariant 1 <= i <= bitmap.Length
        invariant forall b :: 1 <= b < i ==> bitmap[b]
        invariant bitmap[..] == old(bitmap[..])
      {
        if !bitmap[i] {
          bitmap[i] := true;
          return i;
        }
        i := i + 1;
      }
    }

    method CreateFile(k: Key) returns (ok: bool)
      requires Valid()
      modifies this`tags
      ensures Valid() && Outcome(Value(), ok) == Create(old(Value()), k)
      ensures ok <==> k.file != "" && k.tag != "" && k !in old(tags)
      ensures tags == if ok then old(tags)[k := Tag(0, false, [], map[])] else old(tags)
    {
      CreateLinks(g, Value(), k);
      if k.file == "" || k.tag == "" { return false; }
      if k in tags { return false; }
      tags := tags[k := Tag(0, false, [], map[])];
      return true;
    }

    method TruncateFile(k: Key, size: nat) returns (ok: bool)
      requires Valid()
      modifies this`tags, bitmap
      ensures Valid() && Outcome(Value(), ok) == Truncate(g, old(Value()), k, size)
      ensures ok <==> k in old(tags) && !old(tags)[k].committed && !SpellsInitial(k)
    {
      ProtectedIsSpelling(k);
      StepKeepsLinkInvIff(g, Value(), TruncateOp(k, size));
      if Protected(k) { return false; }
      if k in tags && tags[k].committed { return false; }
      if k !in tags { return false; }
      assert TagOk(g, Value(), k);
      assert forall i :: 0 <= i < |tags[k].blocks| ==> Holds(Value(), k, i, tags[k].blocks[i]);
      Resize(k, tags[k], size);
      return true;
    }

    method Resize(k: Key, t: Tag, size: nat)
      requires g.blockSize > 0 && k in tags && tags[k] == t && t.dir == DirOf(t.blocks)
      requires |t.blocks| == CeilDiv(t.size, g.blockSize) && forall b :: b in t.blocks ==> b in phys
      modifies this`tags, bitmap
      ensures var n := CeilDiv(size, g.blockSize);
        var blocks := if n <= |t.blocks| then t.blocks[..n] else t.blocks + Zeros(n - |t.blocks|);
        && tags == old(tags)[k := t.(size := size, blocks := blocks, dir := DirOf(blocks))]
        && bitmap[..] == ClearBits(old(bitmap[..]), Orphans(tags, if n <= |t.blocks| then t.blocks[n..] else []))
    {
      var current := CeilDiv(t.size, g.blockSize);
      var wanted := CeilDiv(size, g.blockSize);
      var blocks := Refill(t.blocks, wanted);
      ClearMore(bitmap[..], {}, {});
      assert wanted == current ==> blocks == t.blocks && tags == tags[k := t];
      if wanted > current {
        GrowLinks(k, t, wanted);
      }
      if wanted < current {
        ShrinkLinks(k, t, wanted);
      }
      ghost var linked := tags;
      assert linked == old(tags)[k := t.(dir := DirOf(blocks))];
      tags := tags[k := tags[k].(size := size, blocks := blocks)];
      SameLinksSameOrphans(linked, tags);
    }

    /** The new BLOCKS list: the old entries that still fit, then block 0. */
    static method Refill(blocks: seq<nat>, wanted: nat) returns (final: seq<nat>)
      ensures final == if wanted <= |blocks| then blocks[..wanted] else blocks + Zeros(wanted - |blocks|)
    {
      final := [];
      var i := 0;
      while i < wanted
        invariant 0 <= i <= wanted && |final| == i
        invariant forall j :: 0 <= j < i ==> final[j] == if j < |blocks| then blocks[j] else 0
      {
        final := final + [if i < |blocks| then blocks[i] else 0];
        i := i + 1;
      }
    }

    static lemma SameLinksSameOrphans(a: map<Key, Tag>, b: map<Key, Tag>)
      requires a.Keys == b.Keys && forall k :: k in a ==> a[k].dir == b[k].dir
      ensures forall cut: seq<nat> :: Orphans(a, cut) == Orphans(b, cut)
    {
      forall c ensures Refs(a, c) == Refs(b, c) { }
    }

    method GrowLinks(k: Key, t: Tag, wanted: nat)
      requires k in tags && tags[k] == t && t.dir == DirOf(t.blocks) && |t.blocks| < wanted
      modifies this`tags
      ensures tags == old(tags)[k := t.(dir := DirOf(t.blocks + Zeros(wanted - |t.blocks|)))]
    {
      var i := |t.blocks|;
      assert t.blocks + Zeros(0) == t.blocks;
      while i < wanted
        invariant |t.blocks| <= i <= wanted
        invariant k in tags && tags == old(tags)[k := t.(dir := DirOf(t.blocks + Zeros(i - |t.blocks|)))]
      {
        tags := tags[k := tags[k].(dir := tags[k].dir[i := 0])];
        assert tags[k].dir == DirOf(t.blocks + Zeros(i + 1 - |t.blocks|));
        i := i + 1;
      }
    }

    /** Unlinks from the last block down; a block's bit is cleared when stat shows that
        only its own name is left. */
    method ShrinkLinks(k: Key, t: Tag, wanted: nat)
      requires k in tags && tags[k] == t && t.dir == DirOf(t.blocks) && wanted < |t.blocks|
      requires forall b :: b in t.blocks ==> b in phys
      modifies this`tags, bitmap
      ensures tags == old(tags)[k := t.(dir := DirOf(t.blocks[..wanted]))]
      ensures bitmap[..] == ClearBits(old(bitmap[..]), Orphans(tags, t.blocks[wanted..]))
    {
      var i := |t.blocks|;
      assert t.blocks[..i] == t.blocks && t.blocks[i..] == [];
      ClearMore(bitmap[..], {}, {});
      ghost var freed: set<nat> := {};
      RelinkTwice(tags, k, t.dir, t.dir);
      while i > wanted
        invariant wanted <= i <= |t.blocks|
        invariant k in tags && tags == Relink(old(tags), k, DirOf(t.blocks[..i]))
        invariant freed == Orphans(tags, t.blocks[i..])
        invariant bitmap[..] == ClearBits(old(bitmap[..]), freed)
      {
        i := i - 1;
        var b := t.blocks[i];
        ShrinkStep(tags, k, t.blocks, i);
        RelinkTwice(old(tags), k, DirOf(t.blocks[..i + 1]), DirOf(t.blocks[..i]));
        tags := Relink(tags, k, tags[k].dir - {i});
        ClearMore(old(bitmap[..]), freed, {b});
        if LinkCount(tags, phys, b) == 1 {
          FreeBlock(b);
          freed := freed + {b};
        }
      }
    }

    /** TAG copies the metadata and then links every entry of the source's directory, in
        whatever order the directory lists them. */
    method TagFile(src: Key, dst: Key) returns (ok: bool)
      requires Valid()
      modifies this`tags
      ensures Valid() && Outcome(Value(), ok) == TagFrom(old(Value()), src, dst)
      ensures ok <==> src in old(tags) && !SpellsInitial(src) && dst !in old(tags)
    {
      ProtectedIsSpelling(src);
      StepKeepsLinkInvIff(g, Value(), TagOp(src, dst));
      if Protected(src) { return false; }
      if src !in tags { return false; }
      if dst in tags { return false; }
      var source := tags[src];
      tags := tags[dst := Tag(source.size, false, source.blocks, map[])];
      LinkEntries(source, dst);
      assert tags == old(tags)[dst := source.(committed := false)];
      return true;
    }

    /** One hard link for each entry of the source's directory. */
    method LinkEntries(source: Tag, dst: Key)
      requires dst in tags && tags[dst].dir == map[]
      modifies this`tags
      ensures tags == Relink(old(tags), dst, source.dir)
    {
      var pending := source.dir.Keys;
      assert source.dir - pending == map[];
      RelinkTwice(tags, dst, map[], map[]);
      while pending != {}
        invariant pending <= source.dir.Keys
        invariant tags == Relink(old(tags), dst, source.dir - pending)
      {
        var i :| i in pending;
        var linked := tags[dst].dir[i := source.dir[i]];
        assert linked == source.dir - (pending - {i});
        RelinkTwice(old(tags), dst, source.dir - pending, linked);
        tags := Relink(tags, dst, linked);
        pending := pending - {i};
      }
      assert source.dir - {} == source.dir;
    }

    method ReadBlock(k: Key, i: int) returns (r: ReadResult)
      requires Valid()
      ensures r == Read(g, Value(), k, i)
    {
      if k !in tags { return ReadError; }
      var t := tags[k];
      if i < 0 || i >= CeilDiv(t.size, g.blockSize) { return ReadError; }
      if i >= |t.blocks| { return ReadError; }
      LiveBlockHasTwoNames(g, Value(), k, i);
      assert Holds(Value(), k, i, t.blocks[i]);
      return ReadOk(Pad(g, Visible(g, phys[t.dir[i]])));
    }

    /** WRITE never finds a block with a single name, so it always copies: a free block
        gets the old contents, the link moves there, BLOCKS is saved, the data is
        written and padded. */
    method WriteBlock(k: Key, i: int, data: seq<byte>) returns (ok: bool)
      requires Valid()
      modifies this`tags, this`phys, bitmap
      ensures Valid() && Outcome(Value(), ok) == Write(g, old(Value()), k, i, data)
      ensures ok <==> (k in old(tags) && !old(tags)[k].committed && !SpellsInitial(k)
                       && 0 <= i < |old(tags)[k].blocks| && exists b :: 1 <= b < bitmap.Length && !old(bitmap[..])[b])
    {
      WriteAnswers(g, Value(), k, i, data);
      WriteReturns(g, Value(), k, i, data);
      if Protected(k) { return false; }
      if k in tags && tags[k].committed { return false; }
      if k !in tags { return false; }
      var t := tags[k];
      if i < 0 || i >= CeilDiv(t.size, g.blockSize) { return false; }
      if i >= |t.blocks| { return false; }
      var current := t.blocks[i];
      LiveBlockHasTwoNames(g, Value(), k, i);
      assert Holds(Value(), k, i, current);
      assert LinkCount(tags, phys, t.dir[i]) != 1;
      var n := Allocate();
      if n == -1 { return false; }
      CopyBlock(k, i, n, data);
      return true;
    }

    method CopyBlock(k: Key, i: nat, n: nat, data: seq<byte>)
      requires k in tags && i < |tags[k].blocks| && i in tags[k].dir && tags[k].blocks[i] in phys
      modifies this`tags, this`phys
      ensures phys == old(phys)[n := Pad(g, data)]
      ensures tags == old(tags)[k :=
          old(tags)[k].(blocks := old(tags)[k].blocks[i := n], dir := old(tags)[k].dir[i := n])]
    {
      phys := phys[n := Visible(g, phys[tags[k].blocks[i]])];
      tags := tags[k := tags[k].(dir := tags[k].dir - {i})];
      tags := tags[k := tags[k].(dir := tags[k].dir[i := n])];
      tags := tags[k := tags[k].(blocks := tags[k].blocks[i := n])];
      assert tags[k].dir == old(tags)[k].dir[i := n];
      assert data + Padding(|data|) == Pad(g, data);
      phys := phys[n := Overwrite(phys[n], data + Padding(|data|))];
    }

    /** The zero bytes WRITE appends after the data. */
    function Padding(n: nat): seq<byte>
    {
      if n < g.blockSize then seq(g.blockSize - n, _ => 0) else []
    }

    // ------------------------------------------------------------------ FLUSH

    /** Reserves a block for logical block i, copies the recorded block into it and moves
        the link; BLOCKS is not touched. */
    method ReserveAndRelink(k: Key, i: nat) returns (n: int)
      requires bitmap.Length > 0 && k in tags && i < |tags[k].blocks| && tags[k].blocks[i] in phys
      modifies this`tags, this`phys, bitmap
      ensures n == -1 ==> FirstFree(old(bitmap[..]), 1) == bitmap.Length && Value() == old(Value())
      ensures n != -1 ==> 1 <= n < bitmap.Length && n == FirstFree(old(bitmap[..]), 1)
      ensures n != -1 ==>
        Value() == Disk(old(bitmap[..])[n := true], old(phys)[n := old(Visible(g, phys[tags[k].blocks[i]]))],
                           old(tags)[k := old(tags)[k].(dir := old(tags)[k].dir[i := n])], old(index))
    {
      n := Allocate();
      if n == -1 { return; }
      var t := tags[k];
      phys := phys[n := Visible(g, phys[t.blocks[i]])];
      tags := tags[k := t.(dir := t.dir - {i})];
      tags := tags[k := tags[k].(dir := tags[k].dir[i := n])];
      assert tags[k].dir == t.dir[i := n];
    }

    /** One page of the first phase of FLUSH; the page is remembered when it is accepted. */
    method ReservePage(ghost start: Disk, k: Key, ghost f: Flushing, page: Page, pending: seq<Pending>, all: bool)
      returns (pending': seq<Pending>, all': bool)
      requires |page.data| == g.blockSize && Reserving(g, start, k, f, pending, all, Value())
      modifies this`tags, this`phys, bitmap
      ensures Reserving(g, start, k, FlushPage(g, start, k, f, page), pending', all', Value())
    {
      ghost var now := Value();
      if page.number < 0 || page.number >= CeilDiv(tags[k].size, g.blockSize) || page.number >= |tags[k].blocks| {
        RejectStep(g, start, k, f, pending, all, now, page);
        return pending, false;
      }
      ReservingSeesTwoNames(g, start, k, f, pending, all, now, page.number);
      assert LinkCount(tags, phys, tags[k].dir[page.number]) != 1;
      var n := ReserveAndRelink(k, page.number);
      if n == -1 {
        RejectStep(g, start, k, f, pending, all, now, page);
        return pending, false;
      }
      ReserveStep(g, start, k, f, pending, all, now, page, Visible(g, now.phys[start.tags[k].blocks[page.number]]));
      return pending + [Pending(n, page.number, page.data)], all;
    }

    /** FLUSH: first reserve a block for every page and relink, then save BLOCKS if every
        page was accepted, then write the accepted pages whether or not all were. */
    method FlushFile(k: Key, pages: seq<Page>) returns (ok: bool)
      requires Valid() && WholeBlocks(g, pages)
      modifies this`tags, this`phys, bitmap
      ensures Outcome(Value(), ok) == Flush(g, old(Value()), k, pages)
      ensures ok || Value() == old(Value()) ==> Valid()
      ensures !(k in old(tags) && !old(tags)[k].committed && !SpellsInitial(k)) ==> !ok && Value() == old(Value())
    {
      ProtectedIsSpelling(k);
      FlushReturns(g, Value(), k, pages);
      if Protected(k) { return false; }
      if k !in tags { return false; }
      if tags[k].committed { return false; }
      ghost var start := Value();
      var pending, all := ReserveAll(k, pages);
      ok := all;
      SaveAndWrite(start, k, pages, pending, ok);
    }

    /** The first phase of FLUSH. */
    method ReserveAll(k: Key, pages: seq<Page>) returns (pending: seq<Pending>, ok: bool)
      requires Valid() && WholeBlocks(g, pages) && !Frozen(Value(), k)
      modifies this`tags, this`phys, bitmap
      ensures Reserving(g, old(Value()), k, FlushPages(g, old(Value()), k, pages), pending, ok, Value())
    {
      ghost var start := Value();
      pending, ok := [], true;
      ReservingStarts(g, start, k);
      assert pages[..0] == [];
      ghost var f := FlushPages(g, start, k, pages[..0]);
      var j := 0;
      while j < |pages|
        invariant 0 <= j <= |pages| && f == FlushPages(g, start, k, pages[..j])
        invariant Reserving(g, start, k, f, pending, ok, Value())
      {
        FlushPagesNext(g, start, k, pages, j);
        pending, ok := ReservePage(start, k, f, pages[j], pending, ok);
        f := FlushPage(g, start, k, f, pages[j]);
        j := j + 1;
      }
      assert pages[..j] == pages;
    }

    static method RecordBlocks(old': seq<nat>, pending: seq<Pending>) returns (blocks: seq<nat>)
      ensures blocks == Recorded(old', pending)
    {
      blocks := old';
      var i := 0;
      assert pending[..0] == [];
      while i < |pending|
        invariant 0 <= i <= |pending|
        invariant blocks == Recorded(old', pending[..i])
      {
        assert pending[..i + 1][..|pending[..i + 1]| - 1] == pending[..i];
        if pending[i].number < |blocks| {
          blocks := blocks[pending[i].number := pending[i].block];
        }
        i := i + 1;
      }
      assert pending[..i] == pending;
    }

    method WritePending(pending: seq<Pending>)
      modifies this`phys
      ensures phys == Written(old(phys), pending)
    {
      var i := 0;
      assert pending[..0] == [];
      while i < |pending|
        invariant 0 <= i <= |pending|
        invariant phys == Written(old(phys), pending[..i])
      {
        assert pending[..i + 1][..|pending[..i + 1]| - 1] == pending[..i];
        phys := phys[pending[i].block := pending[i].data];
        i := i + 1;
      }
      assert pending[..i] == pending;
    }

    method SaveAndWrite(ghost start: Disk, k: Key, ghost pages: seq<Page>, pending: seq<Pending>, ok: bool)
      requires |start.bits| > 0 && g.blockSize > 0 && k in start.tags && !Frozen(start, k)
      requires ReservingShape(g, start, k, FlushPages(g, start, k, pages), pending, ok, Value())
      modifies this`tags, this`phys
      ensures Outcome(Value(), ok) == Flush(g, start, k, pages)
    {
      ghost var f := FlushPages(g, start, k, pages);
      WrittenAgrees(start.phys, phys, pending);
      if ok {
        var blocks := RecordBlocks(tags[k].blocks, pending);
        tags := tags[k := tags[k].(blocks := blocks)];
        assert tags == start.tags[k := start.tags[k].(dir := f.dir, blocks := f.blocks)];
      }
      WritePending(pending);
    }

    // ----------------------------------------------------------------- COMMIT

    /** link(2) of logical block i, which has no link, to block c: it fails when c has no file. */
    method Link(k: Key, i: nat, c: nat) returns (ok: bool)
      requires k in tags && i !in tags[k].dir
      modifies this`tags
      ensures ok <==> c in phys
      ensures tags == if ok then Relink(old(tags), k, old(tags)[k].dir[i := c]) else old(tags)
    {
      ok := c in phys;
      if ok {
        tags := Relink(tags, k, tags[k].dir[i := c]);
      }
    }

    /** Points logical block i at `existing` and frees the block it leaves, whatever other links
        that block has; if the link fails, the old one is made again and nothing is freed. */
    method Exchange(k: Key, i: nat, existing: nat, b: nat) returns (linked: bool)
      requires k in tags && i in tags[k].dir && b in phys
      modifies this`tags, bitmap
      ensures linked <==> existing in phys
      ensures tags == Relink(old(tags), k, old(tags)[k].dir[i := if linked then existing else b])
      ensures bitmap[..] == if linked then ClearBits(old(bitmap[..]), {b}) else old(bitmap[..])
    {
      ghost var dir := tags[k].dir;
      tags := Relink(tags, k, tags[k].dir - {i});
      linked := Link(k, i, existing);
      if linked {
        FreeBlock(b);
      } else {
        var restored := Link(k, i, b);
      }
      ghost var c := if linked then existing else b;
      assert (dir - {i})[i := c] == dir[i := c];
      RelinkTwice(old(tags), k, dir - {i}, dir[i := c]);
    }

    /** Deduplication of logical block i, recorded in physical block b. */
    method DeduplicateBlock(k: Key, i: nat, b: nat, learnt: map<Digest, nat>, blocks: seq<nat>, modified: bool)
      returns (learnt': map<Digest, nat>, blocks': seq<nat>, modified': bool)
      requires k in tags && i in tags[k].dir && b in phys
      modifies this`tags, bitmap
      ensures var p := DedupOne(g, phys, Dedup(old(tags)[k].dir, old(bitmap[..]), learnt, blocks, modified), i, b);
        && learnt' == p.learnt && blocks' == p.blocks && modified' == p.modified
        && bitmap[..] == p.bits && tags == Relink(old(tags), k, p.dir)
    {
      var h := DigestOf(g, phys, b);
      RelinkTwice(tags, k, tags[k].dir, tags[k].dir);
      if h in learnt {
        var existing := learnt[h];
        if existing != b {
          var linked := Exchange(k, i, existing, b);
          return learnt, blocks + [if linked then existing else b], linked;
        }
        return learnt, blocks + [b], modified;
      } else {
        return learnt[h := b], blocks + [b], modified;
      }
    }

    /** Deduplication of the blocks of `k` against the index, in BLOCKS order.  Links and
        bits change as it goes; the new list, whether to save it, and the index are handed back. */
    method Deduplicate(k: Key) returns (blocks: seq<nat>, learnt: map<Digest, nat>, modified: bool)
      requires k in tags && tags[k].dir == DirOf(tags[k].blocks)
      requires forall b :: b in tags[k].blocks ==> b in phys
      modifies this`tags, bitmap
      ensures var t := old(tags)[k];
        var f := DedupFirst(g, phys, Dedup(t.dir, old(bitmap[..]), index, [], false), t.blocks, |t.blocks|);
        && blocks == f.blocks && learnt == f.learnt && modified == f.modified && bitmap[..] == f.bits
        && tags == Relink(old(tags), k, f.dir)
    {
      var current := tags[k].blocks;
      blocks, learnt, modified := [], index, false;
      ghost var start := Dedup(tags[k].dir, bitmap[..], index, [], false);
      ghost var f := start;
      RelinkTwice(tags, k, f.dir, f.dir);
      var i := 0;
      while i < |current|
        invariant 0 <= i <= |current| && f == DedupFirst(g, phys, start, current, i)
        invariant f == Dedup(f.dir, bitmap[..], learnt, blocks, modified)
        invariant k in tags && tags == Relink(old(tags), k, f.dir)
      {
        assert current[i] in current;
        ghost var next := DedupOne(g, phys, f, i, current[i]);
        RelinkTwice(old(tags), k, f.dir, next.dir);
        learnt, blocks, modified := DeduplicateBlock(k, i, current[i], learnt, blocks, modified);
        i := i + 1;
        f := next;
      }
    }

    /** COMMIT: deduplication, the index, and ESTADO.  The link invariant survives exactly when
        no move is left unsaved. */
    method CommitTag(k: Key) returns (ok: bool)
      requires Valid()
      modifies this`tags, this`index, bitmap
      ensures Outcome(Value(), ok) == Commit(g, old(Value()), k)
      ensures Valid() <==> old(Frozen(Value(), k) || !MovesUnsaved(g, Value(), k))
      ensures ok <==> k in old(tags) && !SpellsInitial(k)
    {
      ProtectedIsSpelling(k);
      CommitKeepsLinkInvIff(g, Value(), k);
      if Protected(k) { return false; }
      if k !in tags { return false; }
      if tags[k].committed { return true; }
      assert TagOk(g, Value(), k);
      assert forall i :: 0 <= i < |tags[k].blocks| ==> Holds(Value(), k, i, tags[k].blocks[i]);
      DeduplicateAndMark(k);
      return true;
    }

    method DeduplicateAndMark(k: Key)
      requires k in tags && tags[k].dir == DirOf(tags[k].blocks)
      requires forall b :: b in tags[k].blocks ==> b in phys
      modifies this`tags, this`index, bitmap
      ensures var t := old(tags)[k]; var linked := CanonicalBlocks(g, phys, index, t.blocks);
        var blocks := if MovesSaved(g, phys, index, t.blocks) then linked else t.blocks;
        && index == Learn(g, phys, old(index), t.blocks)
        && tags == old(tags)[k := t.(committed := true, blocks := blocks, dir := DirOf(linked))]
        && bitmap[..] == ClearBits(old(bitmap[..]), Replaced(t.blocks, linked, |linked|))
    {
      ghost var before := tags;
      DedupOfAll(g, phys, tags[k].dir, bitmap[..], index, tags[k].blocks);
      var blocks, learnt, modified := Deduplicate(k);
      var saved := tags[k];
      if modified {
        saved := saved.(blocks := blocks);
        tags := tags[k := saved];
      }
      index := learnt;
      PutTwice(before, k, DirOf(blocks), saved, saved.(committed := true));
      tags := tags[k := saved.(committed := true)];
    }

    // ----------------------------------------------------------------- DELETE

    method UnlinkAll(k: Key)
      requires k in tags && tags[k].dir == DirOf(tags[k].blocks)
      modifies this`tags
      ensures tags == old(tags)[k := old(tags)[k].(dir := map[])]
    {
      var blocks := tags[k].blocks;
      var i := 0;
      while i < |blocks|
        invariant 0 <= i <= |blocks|
        invariant k in tags && tags == old(tags)[k := old(tags)[k].(dir := tags[k].dir)]
        invariant forall j :: j in tags[k].dir <==> i <= j < |blocks|
      {
        tags := tags[k := tags[k].(dir := tags[k].dir - {i})];
        i := i + 1;
      }
      assert tags[k].dir.Keys == {};
      assert tags[k].dir == map[];
    }

    /** After every unlink, the blocks left with nothing but their own name lose it and
        their bit.  A block listed twice is already gone the second time. */
    method ReleaseBlocks(blocks: seq<nat>)
      requires forall b :: b in blocks ==> b in phys && b < bitmap.Length
      modifies this`phys, bitmap
      ensures phys == old(phys) - Orphans(tags, blocks)
      ensures bitmap[..] == ClearBits(old(bitmap[..]), Orphans(tags, blocks))
    {
      var i := 0;
      assert blocks[..0] == [];
      ClearMore(bitmap[..], {}, {});
      ghost var freed: set<nat> := {};
      while i < |blocks|
        invariant 0 <= i <= |blocks|
        invariant freed == Orphans(tags, blocks[..i])
        invariant phys == old(phys) - freed
        invariant bitmap[..] == ClearBits(old(bitmap[..]), freed)
      {
        var b := blocks[i];
        assert b in blocks;
        assert blocks[..i + 1] == blocks[..i] + [b];
        if b in phys {
          if LinkCount(tags, phys, b) <= 1 {
            phys := phys - {b};
            ClearMore(old(bitmap[..]), freed, {b});
            FreeBlock(b);
            freed := freed + {b};
          }
        } else {
          assert !bitmap[b];
        }
        i := i + 1;
      }
      assert blocks[..i] == blocks;
    }

    method DeleteTag(k: Key) returns (ok: bool)
      requires Valid()
      modifies this`tags, this`phys, bitmap
      ensures Valid() && Outcome(Value(), ok) == Delete(old(Value()), k)
      ensures ok <==> k in old(tags) && !SpellsInitial(k)
    {
      ProtectedIsSpelling(k);
      StepKeepsLinkInvIff(g, Value(), DeleteOp(k));
      if Protected(k) { return false; }
      if k !in tags { return false; }
      RemoveTag(k);
      return true;
    }

    /** Every unlink, then every release, then the directory. */
    method RemoveTag(k: Key)
      requires Valid() && k in tags && !Protected(k)
      modifies this`tags, this`phys, bitmap
      ensures Value() == Delete(old(Value()), k).disk
    {
      assert TagOk(g, Value(), k);
      assert forall i :: 0 <= i < |tags[k].blocks| ==> Holds(Value(), k, i, tags[k].blocks[i]);
      var blocks := tags[k].blocks;
      ghost var start := tags;
      UnlinkAll(k);
      ReleaseBlocks(blocks);
      ghost var unlinked := tags;
      tags := tags - {k};
      assert tags == start - {k};
      EmptyTagHasNoLinks(unlinked, k);
    }

    static lemma EmptyTagHasNoLinks(tags: map<Key, Tag>, k: Key)
      requires k in tags && tags[k].dir == map[]
      ensures forall cut: seq<nat> :: Orphans(tags - {k}, cut) == Orphans(tags, cut)
    {
      forall c ensures Refs(tags - {k}, c) == Refs(tags, c) { }
    }

    // --------------------------------------------------------------- dispatch

    /** Any operation, as a worker thread of Storage dispatches it: the running class does
        what the step function says.  It keeps the link invariant unless a COMMIT leaves a
        move unsaved or a FLUSH fails late, and the run invariant exactly when the operation
        is admissible. */
    method Execute(op: Op) returns (ok: bool)
      requires Valid() && WellFormed(g, op)
      modifies this`tags, this`phys, this`index, bitmap
      ensures Outcome(Value(), ok) == Step(g, old(Value()), op)
      ensures ok || Value() == old(Value()) ==> (Valid() <==> old(SavesMoves(g, Value(), op)))
      ensures old(RunInv(g, Value())) ==> (RunInv(g, Value()) <==> Admissible(g, old(Value()), op))
    {
      ExecuteKeeps(g, Value(), op);
      match op
      case CreateOp(k) => ok := CreateFile(k);
      case TruncateOp(k, size) => ok := TruncateFile(k, size);
      case TagOp(src, dst) => ok := TagFile(src, dst);
      case WriteOp(k, i, data) => ok := WriteBlock(k, i, data);
      case FlushOp(k, pages) => ok := FlushFile(k, pages);
      case CommitOp(k) => ok := CommitTag(k);
      case DeleteOp(k) => ok := DeleteTag(k);
    }
  }
}
