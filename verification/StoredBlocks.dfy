/** Runs that store one block in a new File:Tag, and the disks they lead to. */
module StoredBlocks {
  import opened Bytes
  import opened Disk
  import opened DiskInvariant
  import opened StorageSteps
  import opened StorageRuns
  import opened LinkRuns

  // --------------------------------------------------------------- an unused name

  lemma {:induction false} LongerThanAll(keys: set<Key>) returns (n: nat)
    ensures n >= 1 && forall k :: k in keys ==> |k.tag| < n
    decreases |keys|
  {
    n := 1;
    if keys != {} {
      var k :| k in keys;
      var m := LongerThanAll(keys - {k});
      n := if m <= |k.tag| then |k.tag| + 1 else m;
    }
  }

  /** A name CREATE accepts and the guards do not protect. */
  ghost predicate Usable(k: Key) {
    !Protected(k) && k.file != "" && k.tag != ""
  }

  lemma UnusedKey(tags: map<Key, Tag>) returns (k: Key)
    ensures Usable(k) && k !in tags
  {
    var n := LongerThanAll(tags.Keys);
    k := Key("c", seq(n, _ => 'c'));
    assert |k.file| != |"initial_file"|;
  }

  // ------------------------------------------------------------ storing one block

  /** The operations that store a block in a new File:Tag. */
  function StoreOps(k: Key, data: seq<byte>): seq<Op> {
    [CreateOp(k), TruncateOp(k, 1), WriteOp(k, 0, data)]
  }

  /** A File:Tag of one block, in physical block b. */
  function OneBlock(committed: bool, b: nat): Tag {
    Tag(1, committed, [b], map[0 := b])
  }

  lemma TwoNames(d: Disk, k: Key, i: nat)
    requires k in d.tags && i in d.tags[k].dir && d.tags[k].dir[i] in d.phys
    ensures NLink(d, d.tags[k].dir[i]) >= 2
  {
    assert (k, i) in Refs(d.tags, d.tags[k].dir[i]);
  }

  lemma After3(g: Geometry, d: Disk, a: Op, b: Op, c: Op)
    requires g.blockSize > 0 && |d.bits| > 0
    ensures After(g, d, [a, b, c]) == Step(g, Step(g, Step(g, d, a).disk, b).disk, c).disk
  {
    var d1 := Step(g, d, a).disk;
    var d2 := Step(g, d1, b).disk;
    var d3 := Step(g, d2, c).disk;
    assert [a, b, c][1..] == [b, c] && [b, c][1..] == [c] && [c][1..] == [];
    assert After(g, d2, [c]) == After(g, d3, []);
    assert After(g, d1, [b, c]) == After(g, d2, [c]);
  }

  lemma OneBlockIsEnough(n: nat)
    requires n > 0
    ensures CeilDiv(1, n) == 1
  {
    assert (1 + n - 1) / n == n / n == 1;
  }

  lemma CreateThenTruncate(g: Geometry, d: Disk, k: Key)
    requires g.blockSize > 0 && Usable(k) && k !in d.tags
    ensures Truncate(g, Create(d, k).disk, k, 1) == Outcome(d.(tags := d.tags[k := OneBlock(false, 0)]), true)
  {
    var d1 := Create(d, k).disk;
    var d2 := Truncate(g, d1, k, 1).disk;
    OneBlockIsEnough(g.blockSize);
    assert Zeros(1) == [0] && DirOf([0]) == map[0 := 0];
    assert Orphans(d2.tags, []) == {};
    assert ClearBits(d1.bits, {}) == d1.bits;
    assert d1.tags[k].blocks + Zeros(1) == [0];
    assert d2.tags == d1.tags[k := OneBlock(false, 0)];
    assert d2.tags == d.tags[k := OneBlock(false, 0)];
  }

  lemma WriteFirstBlock(g: Geometry, d: Disk, k: Key, data: seq<byte>)
    requires g.blockSize > 0 && |d.bits| > 0 && !Protected(k) && 0 in d.phys && |data| == g.blockSize
    requires k in d.tags && d.tags[k] == OneBlock(false, 0) && FirstFree(d.bits, 1) < |d.bits|
    ensures var n := FirstFree(d.bits, 1);
      Write(g, d, k, 0, data)
      == Outcome(d.(bits := d.bits[n := true], phys := d.phys[n := data],
                    tags := d.tags[k := OneBlock(false, n)]), true)
  {
    TwoNames(d, k, 0);
    OneBlockIsEnough(g.blockSize);
    var n := FirstFree(d.bits, 1);
    assert [0][0 := n] == [n] && map[0 := 0][0 := n] == map[0 := n];
  }

  /** The disk after storing `data` in the new File:Tag k. */
  function Stored(d: Disk, k: Key, data: seq<byte>): Disk
    requires |d.bits| > 0 && FirstFree(d.bits, 1) < |d.bits|
  {
    var n := FirstFree(d.bits, 1);
    d.(bits := d.bits[n := true], phys := d.phys[n := data], tags := d.tags[k := OneBlock(false, n)])
  }

  /** Storing a block in a new File:Tag takes the first free block and nothing else. */
  lemma StoreTakesFirstFree(g: Geometry, d: Disk, k: Key, data: seq<byte>)
    requires g.blockSize > 0 && |d.bits| > 0 && Usable(k) && k !in d.tags && 0 in d.phys && |data| == g.blockSize
    requires FirstFree(d.bits, 1) < |d.bits|
    ensures After(g, d, StoreOps(k, data)) == Stored(d, k, data)
  {
    CreateThenTruncate(g, d, k);
    var d2 := Truncate(g, Create(d, k).disk, k, 1).disk;
    WriteFirstBlock(g, d2, k, data);
    After3(g, d, CreateOp(k), TruncateOp(k, 1), WriteOp(k, 0, data));
    var n := FirstFree(d.bits, 1);
    assert d2.tags[k := OneBlock(false, n)] == d.tags[k := OneBlock(false, n)];
  }

  /** COMMIT of a one-block File:Tag: its digest is bound to the block if it was not bound; if
      it is bound to another block the link moves there, or stays when that one has no file. */
  lemma CommitOneBlock(g: Geometry, d: Disk, k: Key, b: nat)
    requires k in d.tags && !Protected(k) && d.tags[k] == OneBlock(false, b) && b < |d.bits| && b in d.phys
    ensures var h := DigestOf(g, d.phys, b);
      Commit(g, d, k) ==
        if h !in d.index then Outcome(Disk(d.bits, d.phys, d.tags[k := OneBlock(true, b)], d.index[h := b]), true)
        else if d.index[h] == b || d.index[h] !in d.phys
        then Outcome(Disk(d.bits, d.phys, d.tags[k := OneBlock(true, b)], d.index), true)
        else Outcome(Disk(d.bits[b := false], d.phys, d.tags[k := OneBlock(true, d.index[h])], d.index), true)
  {
    var h := DigestOf(g, d.phys, b);
    var index := Learn(g, d.phys, d.index, [b]);
    assert [b][..|[b]| - 1] == [];
    assert Learn(g, d.phys, d.index, []) == d.index;
    assert index == if h in d.index then d.index else d.index[h := b];
    var c := Canonical(g, d.phys, index, b);
    var linked := CanonicalBlocks(g, d.phys, index, [b]);
    assert linked == [c] && DirOf([c]) == map[0 := c];
    assert MovesSaved(g, d.phys, index, [b]) <==> c != b;
    ReplacedOne(d.bits, b, c);
  }

  lemma ReplacedOne(bits: seq<bool>, b: nat, c: nat)
    requires b < |bits|
    ensures ClearBits(bits, Replaced([b], [c], 1)) == if c != b then bits[b := false] else bits
  {
    var replaced := Replaced([b], [c], 1);
    if c != b {
      assert [c][0] != [b][0];
      assert replaced == {b};
    } else {
      assert replaced == {};
    }
  }

  /** Storing and committing new bytes binds their digest to the first free block. */
  lemma StoreAndCommit(g: Geometry, d: Disk, k: Key, data: seq<byte>)
    requires g.blockSize > 0 && |d.bits| > 0 && Usable(k) && k !in d.tags && 0 in d.phys && |data| == g.blockSize
    requires FirstFree(d.bits, 1) < |d.bits| && g.md5(data) !in d.index
    ensures var n := FirstFree(d.bits, 1);
      After(g, d, StoreOps(k, data) + [CommitOp(k)])
      == Disk(d.bits[n := true], d.phys[n := data], d.tags[k := OneBlock(true, n)], d.index[g.md5(data) := n])
  {
    StoreTakesFirstFree(g, d, k, data);
    AfterConcat(g, d, StoreOps(k, data), [CommitOp(k)]);
    AfterOne(g, Stored(d, k, data), CommitOp(k));
    CommitStored(g, d, k, data);
  }

  lemma CommitStored(g: Geometry, d: Disk, k: Key, data: seq<byte>)
    requires !Protected(k) && |d.bits| > 0 && |data| == g.blockSize && FirstFree(d.bits, 1) < |d.bits|
    requires g.md5(data) !in d.index
    ensures var n := FirstFree(d.bits, 1);
      Commit(g, Stored(d, k, data), k).disk
      == Disk(d.bits[n := true], d.phys[n := data], d.tags[k := OneBlock(true, n)], d.index[g.md5(data) := n])
  {
    var n, e := FirstFree(d.bits, 1), Stored(d, k, data);
    CommitOneBlock(g, e, k, n);
    assert Visible(g, data) == data;
    assert e.tags[k := OneBlock(true, n)] == d.tags[k := OneBlock(true, n)];
  }

  /** READ of the one block. */
  lemma ReadOneBlock(g: Geometry, d: Disk, k: Key, committed: bool, b: nat)
    requires g.blockSize > 0 && k in d.tags && d.tags[k] == OneBlock(committed, b)
    requires b in d.phys ==> |d.phys[b]| == g.blockSize
    ensures Read(g, d, k, 0) == if b in d.phys then ReadOk(d.phys[b]) else ReadError
  {
    OneBlockIsEnough(g.blockSize);
  }

  // -------------------------------------------------------------- rewriting a block

  /** Block n of e still has the bytes it has in d, and its bit. */
  ghost predicate BlockStays(d: Disk, e: Disk, n: nat)
    requires |e.bits| == |d.bits|
  {
    n < |d.bits| && d.bits[n] && n in d.phys ==> e.bits[n] && n in e.phys && e.phys[n] == d.phys[n]
  }

  /** From d to e only the File:Tag k and free blocks have changed. */
  ghost predicate TouchesFree(d: Disk, e: Disk, k: Key) {
    && |e.bits| == |d.bits| && e.index == d.index && e.tags.Keys == d.tags.Keys + {k}
    && (forall k' :: k' in d.tags && k' != k ==> e.tags[k'] == d.tags[k'])
    && forall n: nat :: BlockStays(d, e, n)
  }

  lemma RedirectTouchesFree(start: Disk, d: Disk, k: Key, i: nat, n: nat, data: seq<byte>)
    requires TouchesFree(start, d, k) && k in d.tags && i < |d.tags[k].blocks| && n < |d.bits| && !d.bits[n]
    ensures TouchesFree(start, Redirect(d, k, i, n, data), k)
  {
    forall c: nat ensures BlockStays(start, Redirect(d, k, i, n, data), c) { assert BlockStays(start, d, c); }
  }

  /** The File:Tag k can be written, and only it has been since `start`. */
  ghost predicate Writing(g: Geometry, start: Disk, d: Disk, k: Key) {
    LinkInv(g, d) && !Frozen(d, k) && InRange(g, d.tags[k], 0) && TouchesFree(start, d, k)
  }

  lemma OneWrite(g: Geometry, start: Disk, d: Disk, k: Key, data: seq<byte>) returns (e: Disk)
    requires Writing(g, start, d, k) && FirstFree(d.bits, 1) < |d.bits|
    ensures Writing(g, start, e, k) && After(g, d, [WriteOp(k, 0, data)]) == e
    ensures var n := FirstFree(d.bits, 1); e.bits == d.bits[n := true] && e.phys == d.phys[n := Pad(g, data)]
  {
    e := Write(g, d, k, 0, data).disk;
    AfterOne(g, d, WriteOp(k, 0, data));
    var n := FirstFree(d.bits, 1);
    WriteRedirects(g, d, k, 0, data);
    RedirectLinks(g, d, k, 0, n, Pad(g, data));
    RedirectTouchesFree(start, d, k, 0, n, Pad(g, data));
  }

  lemma NextFree(bits: seq<bool>)
    requires |bits| > 0 && FirstFree(bits, 1) < |bits|
    ensures FirstFree(bits[FirstFree(bits, 1) := true], 1) > FirstFree(bits, 1)
  {
  }

  /** The operations of one new File:Tag that is written to. */
  ghost predicate StoresIn(k: Key, ops: seq<Op>) {
    forall op :: op in ops ==> (op.CreateOp? || op.TruncateOp? || op.WriteOp?) && op.key == k
  }

  lemma StoresConcat(k: Key, a: seq<Op>, b: seq<Op>)
    requires StoresIn(k, a) && StoresIn(k, b)
    ensures StoresIn(k, a + b)
  {
  }

  /** Writing again and again to one File:Tag, which always copies, takes the free blocks one
      after the other, and so comes to any block b whose bit is clear, linked or not. */
  lemma {:induction false} WritesReach(g: Geometry, start: Disk, d: Disk, k: Key, b: nat, data: seq<byte>)
      returns (ops: seq<Op>)
    requires Writing(g, start, d, k) && 1 <= b < |d.bits| && !d.bits[b]
    ensures StoresIn(k, ops)
    ensures var e := After(g, d, ops); TouchesFree(start, e, k) && b in e.phys && e.phys[b] == Pad(g, data)
    decreases b - FirstFree(d.bits, 1)
  {
    ops := [WriteOp(k, 0, data)];
    var e := OneWrite(g, start, d, k, data);
    if FirstFree(d.bits, 1) != b {
      NextFree(d.bits);
      var more := WritesReach(g, start, e, k, b, data);
      AfterConcat(g, d, ops, more);
      StoresConcat(k, ops, more);
      ops := ops + more;
    }
  }

  /** A new File:Tag of one block is first a link to block 0. */
  lemma NewTag(g: Geometry, d: Disk, k: Key)
    requires LinkInv(g, d) && Usable(k) && k !in d.tags
    ensures var e := After(g, d, [CreateOp(k), TruncateOp(k, 1)]); Writing(g, d, e, k) && e.bits == d.bits
  {
    var d1 := Create(d, k).disk;
    CreateThenTruncate(g, d, k);
    CreateLinks(g, d, k);
    TruncateLinks(g, d1, k, 1);
    assert [CreateOp(k), TruncateOp(k, 1)][1..] == [TruncateOp(k, 1)];
    AfterOne(g, d1, TruncateOp(k, 1));
    OneBlockIsEnough(g.blockSize);
  }

  /** A new File:Tag can be written until it comes to b. */
  lemma NewTagReaches(g: Geometry, d: Disk, k: Key, b: nat, data: seq<byte>) returns (ops: seq<Op>)
    requires LinkInv(g, d) && Usable(k) && k !in d.tags && 1 <= b < |d.bits| && !d.bits[b]
    ensures StoresIn(k, ops)
    ensures var e := After(g, d, ops); TouchesFree(d, e, k) && b in e.phys && e.phys[b] == Pad(g, data)
  {
    var made := [CreateOp(k), TruncateOp(k, 1)];
    NewTag(g, d, k);
    var writes := WritesReach(g, d, After(g, d, made), k, b, data);
    ops := made + writes;
    AfterConcat(g, d, made, writes);
    StoresConcat(k, made, writes);
  }
}
