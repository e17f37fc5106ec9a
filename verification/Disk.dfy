/** The state of the Storage process and what each of its operations does to it.

    A File:Tag is a directory holding a metadata file and one hard link per logical
    block.  `Disk` keeps the four things the operations read and write: the bitmap,
    the physical block files, the File:Tag directories and the hash index.  Each
    operation is given here as a function from the old disk to the new one; the class
    in BlockStore.dfy performs the same operations step by step and is proved equal
    to these functions. */
module Disk {
  import opened Bytes

  type Digest = string

  /** Fixed parameters: block size, number of blocks, and the hash of a block's bytes. */
  datatype Geometry = Geometry(blockSize: nat, count: nat, md5: seq<byte> -> Digest)

  datatype Key = Key(file: string, tag: string)

  /** A File:Tag: TAMANIO, whether ESTADO is COMMITED, BLOCKS, and the directory of
      hard links (logical block number to the physical block it is a name of). */
  datatype Tag = Tag(size: nat, committed: bool, blocks: seq<nat>, dir: map<nat, nat>)

  /** `phys` maps the number of every physical block file that exists to its bytes. */
  datatype Disk = Disk(bits: seq<bool>,
                       phys: map<nat, seq<byte>>,
                       tags: map<Key, Tag>,
                       index: map<Digest, nat>)

  /** What an operation leaves behind and the boolean it returns. */
  datatype Outcome = Outcome(disk: Disk, ok: bool)

  datatype Page = Page(number: int, data: seq<byte>)

  const INITIAL_KEY := Key("initial_file", "BASE")

  function Lower(c: char): char {
    if 'A' <= c <= 'Z' then ((c as int) + 32) as char else c
  }

  predicate EqualsIgnoreCase(a: string, b: string) {
    |a| == |b| && forall i :: 0 <= i < |a| ==> Lower(a[i]) == Lower(b[i])
  }

  /** The guard that keeps initial_file:BASE from being changed ignores case. */
  predicate Protected(k: Key) {
    EqualsIgnoreCase(k.file, "initial_file") && EqualsIgnoreCase(k.tag, "BASE")
  }

  /** `s` written with each letter in lower or in upper case. */
  predicate Spells(s: string, lower: string, upper: string)
    requires |lower| == |upper|
  {
    |s| == |lower| && forall i :: 0 <= i < |s| ==> s[i] == lower[i] || s[i] == upper[i]
  }

  /** A way of writing initial_file:BASE. */
  predicate SpellsInitial(k: Key) {
    Spells(k.file, "initial_file", "INITIAL_FILE") && Spells(k.tag, "base", "BASE")
  }

  lemma ProtectedIsSpelling(k: Key)
    ensures Protected(k) <==> SpellsInitial(k)
  {
    LowerIsSpelling(k.file, "initial_file", "INITIAL_FILE");
    LowerIsSpelling(k.tag, "base", "BASE");
    assert EqualsIgnoreCase("BASE", "base");
    assert EqualsIgnoreCase(k.tag, "BASE") <==> EqualsIgnoreCase(k.tag, "base");
  }

  lemma LowerIsSpelling(s: string, lower: string, upper: string)
    requires |lower| == |upper|
    requires forall i :: 0 <= i < |lower| ==> Lower(upper[i]) == lower[i] && Lower(lower[i]) == lower[i]
    requires forall i :: 0 <= i < |lower| ==> (lower[i] == upper[i] <==> !('a' <= lower[i] <= 'z'))
    ensures EqualsIgnoreCase(s, lower) <==> Spells(s, lower, upper)
  {
  }

  function CeilDiv(n: nat, m: nat): nat
    requires m > 0
  {
    (n + m - 1) / m
  }

  function Zeros(n: nat): (z: seq<nat>)
    ensures |z| == n && forall i :: 0 <= i < n ==> z[i] == 0
  {
    seq(n, _ => 0)
  }

  /** The directory in which logical block i is a link to `blocks[i]`. */
  function DirOf(blocks: seq<nat>): map<nat, nat> {
    map i | 0 <= i < |blocks| :: blocks[i]
  }

  /** All hard links to physical block `b` found under files/. */
  function Refs(tags: map<Key, Tag>, b: nat): set<(Key, nat)> {
    set k, i | k in tags && i in tags[k].dir && tags[k].dir[i] == b :: (k, i)
  }

  /** st_nlink of physical block `b`: its own name plus the logical links. */
  function LinkCount(tags: map<Key, Tag>, phys: map<nat, seq<byte>>, b: nat): nat {
    |Refs(tags, b)| + (if b in phys then 1 else 0)
  }

  function NLink(d: Disk, b: nat): nat {
    LinkCount(d.tags, d.phys, b)
  }

  function ClearBits(bits: seq<bool>, s: set<nat>): (r: seq<bool>)
    ensures |r| == |bits|
    ensures forall b :: 0 <= b < |bits| ==> r[b] == (bits[b] && b !in s)
  {
    seq(|bits|, b requires 0 <= b < |bits| => bits[b] && b !in s)
  }

  /** First clear bit at or after `from`, or |bits| when there is none. */
  function FirstFree(bits: seq<bool>, from: nat): (n: nat)
    requires from <= |bits|
    ensures from <= n <= |bits|
    ensures n < |bits| ==> !bits[n]
    ensures forall b :: from <= b < n ==> bits[b]
    decreases |bits| - from
  {
    if from == |bits| || !bits[from] then from else FirstFree(bits, from + 1)
  }

  /** `data` padded with zero bytes up to the block size. */
  function Pad(g: Geometry, data: seq<byte>): (r: seq<byte>)
    ensures |r| == if |data| < g.blockSize then g.blockSize else |data|
    ensures forall j :: 0 <= j < |r| ==> r[j] == if j < |data| then data[j] else 0
  {
    if |data| < g.blockSize then data + seq(g.blockSize - |data|, _ => 0) else data
  }

  /** Writing `data` at the start of a file keeps the file's tail. */
  function Overwrite(file: seq<byte>, data: seq<byte>): (r: seq<byte>)
    ensures |r| == if |data| < |file| then |file| else |data|
    ensures forall j :: 0 <= j < |r| ==> r[j] == if j < |data| then data[j] else file[j]
  {
    if |data| < |file| then data + file[|data|..] else data
  }

  /** The bytes a reader gets from a block file: at most one block's worth. */
  function Visible(g: Geometry, content: seq<byte>): seq<byte> {
    if |content| < g.blockSize then content else content[..g.blockSize]
  }

  /** The digest of a physical block as COMMIT computes it. */
  function DigestOf(g: Geometry, phys: map<nat, seq<byte>>, b: nat): Digest
    requires b in phys
  {
    g.md5(Visible(g, phys[b]))
  }

  // ---------------------------------------------------------------- operations

  function Create(d: Disk, k: Key): Outcome {
    if k.file == "" || k.tag == "" || k in d.tags then Outcome(d, false)
    else Outcome(d.(tags := d.tags[k := Tag(0, false, [], map[])]), true)
  }

  /** True when TRUNCATE, WRITE and FLUSH refuse to touch `k`. */
  predicate Frozen(d: Disk, k: Key) {
    Protected(k) || k !in d.tags || d.tags[k].committed
  }

  /** Blocks of `cut` that no File:Tag in `tags` links any more. */
  function Orphans(tags: map<Key, Tag>, cut: seq<nat>): set<nat> {
    set b | b in cut && Refs(tags, b) == {}
  }

  function Truncate(g: Geometry, d: Disk, k: Key, size: nat): Outcome
    requires g.blockSize > 0
  {
    if Frozen(d, k) then Outcome(d, false) else
    var t := d.tags[k];
    var n := CeilDiv(size, g.blockSize);
    var blocks := if n <= |t.blocks| then t.blocks[..n] else t.blocks + Zeros(n - |t.blocks|);
    var tags := d.tags[k := t.(size := size, blocks := blocks, dir := DirOf(blocks))];
    var cut := if n <= |t.blocks| then t.blocks[n..] else [];
    Outcome(d.(tags := tags, bits := ClearBits(d.bits, Orphans(tags, cut))), true)
  }

  /** TAG of a File:Tag onto another name.  Asked to copy one onto itself the code takes the
      same mutex twice and never answers (LockOrder.TagOntoItselfWaitsForItself); the false
      given here for src == dst is what its checks would say. */
  function TagFrom(d: Disk, src: Key, dst: Key): Outcome {
    if Protected(src) || src !in d.tags || dst in d.tags then Outcome(d, false)
    else Outcome(d.(tags := d.tags[dst := d.tags[src].(committed := false)]), true)
  }

  /** READ returns the block's bytes, padded with zeros, through the logical link. */
  datatype ReadResult = ReadError | ReadOk(content: seq<byte>)

  predicate InRange(g: Geometry, t: Tag, i: int)
    requires g.blockSize > 0
  {
    0 <= i < CeilDiv(t.size, g.blockSize) && i < |t.blocks|
  }

  function Read(g: Geometry, d: Disk, k: Key, i: int): ReadResult
    requires g.blockSize > 0
  {
    if k in d.tags && InRange(g, d.tags[k], i)
       && i in d.tags[k].dir && d.tags[k].dir[i] in d.phys
    then ReadOk(Pad(g, Visible(g, d.phys[d.tags[k].dir[i]])))
    else ReadError
  }

  function Write(g: Geometry, d: Disk, k: Key, i: int, data: seq<byte>): Outcome
    requires g.blockSize > 0 && |d.bits| > 0
  {
    if Frozen(d, k) || !InRange(g, d.tags[k], i) || i !in d.tags[k].dir then Outcome(d, false) else
    var t := d.tags[k];
    var current := t.blocks[i];
    if NLink(d, t.dir[i]) == 1 then
      if current in d.phys
      then Outcome(d.(phys := d.phys[current := Overwrite(d.phys[current], Pad(g, data))]), true)
      else Outcome(d, false)
    else
      var n := FirstFree(d.bits, 1);
      if n == |d.bits| then Outcome(d, false) else
      Outcome(d.(bits := d.bits[n := true],
                 phys := d.phys[n := Pad(g, data)],
                 tags := d.tags[k := t.(blocks := t.blocks[i := n], dir := t.dir[i := n])]), true)
  }

  /** A FLUSH in progress: bits, contents and links change page by page, while the new
      BLOCKS list is kept aside until every page has succeeded. */
  datatype Flushing = Flushing(bits: seq<bool>, phys: map<nat, seq<byte>>, dir: map<nat, nat>,
                               blocks: seq<nat>, ok: bool)

  /** The disk during a FLUSH of `k`: BLOCKS still has its old value. */
  function InProgress(d: Disk, k: Key, f: Flushing): Disk
    requires k in d.tags
  {
    d.(bits := f.bits, phys := f.phys, tags := d.tags[k := d.tags[k].(dir := f.dir)])
  }

  /** The disk once the new BLOCKS list has been saved. */
  function Saved(d: Disk, k: Key, f: Flushing): Disk
    requires k in d.tags
  {
    d.(bits := f.bits, phys := f.phys, tags := d.tags[k := d.tags[k].(dir := f.dir, blocks := f.blocks)])
  }

  function FlushPage(g: Geometry, d: Disk, k: Key, f: Flushing, p: Page): Flushing
    requires g.blockSize > 0 && |f.bits| > 0 && k in d.tags && |f.blocks| == |d.tags[k].blocks|
  {
    if !InRange(g, d.tags[k], p.number) || p.number !in f.dir then f.(ok := false)
    else if NLink(InProgress(d, k, f), f.dir[p.number]) == 1 then
      var current := d.tags[k].blocks[p.number];
      if current in f.phys
      then f.(phys := f.phys[current := Overwrite(f.phys[current], p.data)])
      else f.(ok := false)
    else
      var n := FirstFree(f.bits, 1);
      if n == |f.bits| then f.(ok := false) else
      Flushing(f.bits[n := true], f.phys[n := p.data], f.dir[p.number := n], f.blocks[p.number := n], f.ok)
  }

  function FlushPages(g: Geometry, d: Disk, k: Key, pages: seq<Page>): (f: Flushing)
    requires g.blockSize > 0 && |d.bits| > 0 && k in d.tags
    ensures |f.bits| == |d.bits| && |f.blocks| == |d.tags[k].blocks|
  {
    if pages == [] then Flushing(d.bits, d.phys, d.tags[k].dir, d.tags[k].blocks, true)
    else FlushPage(g, d, k, FlushPages(g, d, k, pages[..|pages| - 1]), pages[|pages| - 1])
  }

  function Flush(g: Geometry, d: Disk, k: Key, pages: seq<Page>): Outcome
    requires g.blockSize > 0 && |d.bits| > 0
  {
    if Frozen(d, k) then Outcome(d, false) else
    var f := FlushPages(g, d, k, pages);
    if f.ok then Outcome(Saved(d, k, f), true) else Outcome(InProgress(d, k, f), false)
  }

  /** The index after offering it `blocks` in order: the first block seen with a
      given digest is the one the digest is bound to. */
  function Learn(g: Geometry, phys: map<nat, seq<byte>>, index: map<Digest, nat>,
                 blocks: seq<nat>): (r: map<Digest, nat>)
    ensures forall h :: h in index ==> h in r && r[h] == index[h]
    ensures forall b :: b in blocks && b in phys ==> DigestOf(g, phys, b) in r
    ensures forall h :: h in r && h !in index ==> r[h] in blocks && r[h] in phys && DigestOf(g, phys, r[h]) == h
  {
    if blocks == [] then index else
    var last := blocks[|blocks| - 1];
    var before := Learn(g, phys, index, blocks[..|blocks| - 1]);
    assert blocks == blocks[..|blocks| - 1] + [last];
    if last !in phys || DigestOf(g, phys, last) in before then before
    else before[DigestOf(g, phys, last) := last]
  }

  /** The digest of b is bound to another block. */
  predicate BoundAway(g: Geometry, phys: map<nat, seq<byte>>, index: map<Digest, nat>, b: nat) {
    b in phys && DigestOf(g, phys, b) in index && index[DigestOf(g, phys, b)] != b
  }

  /** The block that a link to `b` ends on: the one its digest is bound to, if any, unless that
      one has lost its file.  The link to it then fails and the old one is put back. */
  function Canonical(g: Geometry, phys: map<nat, seq<byte>>, index: map<Digest, nat>, b: nat): nat {
    if BoundAway(g, phys, index, b) && index[DigestOf(g, phys, b)] in phys then index[DigestOf(g, phys, b)] else b
  }

  function CanonicalBlocks(g: Geometry, phys: map<nat, seq<byte>>, index: map<Digest, nat>,
                      blocks: seq<nat>): (r: seq<nat>)
    ensures |r| == |blocks|
    ensures forall i :: 0 <= i < |r| ==> r[i] == Canonical(g, phys, index, blocks[i])
  {
    seq(|blocks|, i requires 0 <= i < |blocks| => Canonical(g, phys, index, blocks[i]))
  }

  /** Blocks among the first n that deduplication exchanged for another one. */
  function Replaced(current: seq<nat>, blocks: seq<nat>, n: nat): set<nat>
    requires n <= |current| && n <= |blocks|
  {
    set i | 0 <= i < n && blocks[i] != current[i] :: current[i]
  }

  /** The last position whose digest is bound to another block, or -1. */
  function LastMove(g: Geometry, phys: map<nat, seq<byte>>, index: map<Digest, nat>, blocks: seq<nat>): (j: int)
    ensures -1 <= j < |blocks| && (j >= 0 ==> BoundAway(g, phys, index, blocks[j]))
    ensures forall i :: j < i < |blocks| ==> !BoundAway(g, phys, index, blocks[i])
  {
    if blocks == [] || BoundAway(g, phys, index, blocks[|blocks| - 1]) then |blocks| - 1
    else LastMove(g, phys, index, blocks[..|blocks| - 1])
  }

  /** Whether COMMIT saves the new BLOCKS list.  A link that succeeds says that there is
      something to save; one that fails takes that back, also for the links before it. */
  predicate MovesSaved(g: Geometry, phys: map<nat, seq<byte>>, index: map<Digest, nat>, blocks: seq<nat>) {
    var j := LastMove(g, phys, index, blocks);
    j >= 0 && index[DigestOf(g, phys, blocks[j])] in phys
  }

  function Commit(g: Geometry, d: Disk, k: Key): Outcome {
    if Protected(k) || k !in d.tags then Outcome(d, false)
    else if d.tags[k].committed then Outcome(d, true) else
    var t := d.tags[k];
    var index := Learn(g, d.phys, d.index, t.blocks);
    var linked := CanonicalBlocks(g, d.phys, index, t.blocks);
    var blocks := if MovesSaved(g, d.phys, index, t.blocks) then linked else t.blocks;
    Outcome(Disk(ClearBits(d.bits, Replaced(t.blocks, linked, |linked|)), d.phys,
                 d.tags[k := t.(committed := true, blocks := blocks, dir := DirOf(linked))], index), true)
  }

  function Delete(d: Disk, k: Key): Outcome {
    if Protected(k) || k !in d.tags then Outcome(d, false) else
    var tags := d.tags - {k};
    var freed := Orphans(tags, d.tags[k].blocks);
    Outcome(d.(tags := tags, phys := d.phys - freed, bits := ClearBits(d.bits, freed)), true)
  }

  // ------------------------------------------------------------ initial state

  const ZERO_CHAR: byte := 0x30

  predicate BlockNumber(g: Geometry, b: nat) {
    b < g.count
  }

  /** The disk a fresh format leaves: all blocks zeroed, block 0 then filled with
      '0' characters and linked by initial_file:BASE. */
  function Format(g: Geometry): Disk
    requires g.blockSize > 0 && g.count > 0
  {
    Disk([true] + seq(g.count - 1, _ => false),
         (map b: nat | b < g.count && BlockNumber(g, b) ::
             seq(g.blockSize, _ => 0))[0 := seq(g.blockSize, _ => ZERO_CHAR)],
         map[INITIAL_KEY := Tag(0, true, [0], map[0 := 0])],
         map[])
  }
}
