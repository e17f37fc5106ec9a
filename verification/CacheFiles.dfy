/** The cache refines flat files: READ returns exactly the bytes asked for, WRITE changes
    exactly the bytes given, and over whole runs neither the number of frames nor the
    replacement algorithm can be told from the replies. */
module CacheFiles {
  import opened Bytes
  import opened FlatFile
  import opened Paging
  import opened Cache
  import opened CacheInvariant
  import opened CacheViews
  import Disk

  // ------------------------------------------------------------- acceder_memoria

  predicate Ready(m: Memory, id: PageId) {
    Shaped(m) && Resident(m.slots, id)
  }

  function UseFor(r: Replacement, key: Key, m: Memory, p: nat): Memory {
    if Shaped(m) then Use(r, m, PageId(key, p)) else m
  }

  function FrameFor(key: Key, m: Memory, p: nat): Fetched {
    if Ready(m, PageId(key, p)) then Data(m.frames[Find(m.slots, PageId(key, p))]) else Failed
  }

  function PutFor(r: Replacement, key: Key, m: Memory, p: nat, off: nat, data: seq<byte>): Memory {
    if Ready(m, PageId(key, p)) then Put(r, m, Find(m.slots, PageId(key, p)), off, data) else m
  }

  /** The internal memory as the page loop uses it for one File:Tag. */
  function PagerFor(r: Replacement, key: Key): Pager<Memory> {
    Pager((m: Memory, p: nat) => UseFor(r, key, m, p),
          (m: Memory, p: nat) => FrameFor(key, m, p),
          (m: Memory, p: nat, off: nat, data: seq<byte>) => PutFor(r, key, m, p, off, data))
  }

  /** A READ of no bytes is refused. */
  function Read(r: Replacement, ps: nat, m: Memory, key: Key, offset: nat, len: nat): (res: (Memory, Fetched))
    requires ps > 0
  {
    if len == 0 then (m, Failed) else ReadFrom(PagerFor(r, key), ps, m, offset / ps, offset % ps, len)
  }

  function Write(r: Replacement, ps: nat, m: Memory, key: Key, offset: nat, data: seq<byte>): (res: (Memory, bool))
    requires ps > 0
  {
    if data == [] then (m, false) else WriteFrom(PagerFor(r, key), ps, m, offset / ps, offset % ps, data)
  }

  // -------------------------------------------------------------------- flat files

  /** Storage serves exactly |file| pages of `key`, and `file` lists the bytes the worker
      sees in each of them. */
  ghost predicate Shows(m: Memory, key: Key, file: seq<Block>) {
    && |m.frames| == |m.slots|
    && (forall i: nat {:trigger PageId(key, i)} :: PageId(key, i) in m.pages <==> i < |file|)
    && (forall i: nat :: i < |file| ==> View(m, PageId(key, i)) == file[i])
  }

  lemma ShownPagesAreSized(r: Replacement, ps: nat, m: Memory, key: Key, file: seq<Block>)
    requires Consistent(r, ps, m) && Shows(m, key, file)
    ensures Sized(file, ps)
  {
    forall i | 0 <= i < |file| ensures |file[i]| == ps {
      assert |View(m, PageId(key, i))| == ps;
    }
  }

  lemma SameFile(m: Memory, m': Memory, key: Key, file: seq<Block>)
    requires SameViews(m, m') && Shows(m, key, file)
    ensures Shows(m', key, file)
  {
  }

  /** The views of every other File:Tag are as they were in m. */
  ghost predicate OthersSame(m: Memory, m': Memory, key: Key) {
    && |m.frames| == |m.slots| && |m'.frames| == |m'.slots|
    && m'.pages.Keys == m.pages.Keys && m'.refuses == m.refuses
    && forall id {:trigger View(m', id)} :: id in m.pages && id.key != key ==> View(m', id) == View(m, id)
  }

  /** What holds all along an access to `key` that started in m0. */
  ghost predicate During(r: Replacement, ps: nat, m0: Memory, key: Key, m: Memory, file: seq<Block>) {
    Faithful(r, ps, m) && Shows(m, key, file) && OthersSame(m0, m, key)
  }

  lemma UseKeepsFile(r: Replacement, ps: nat, m0: Memory, key: Key, m: Memory, file: seq<Block>, p: nat)
    requires During(r, ps, m0, key, m, file)
    ensures Sized(file, ps) && During(r, ps, m0, key, UseFor(r, key, m, p), file)
    ensures FrameFor(key, UseFor(r, key, m, p), p) == PageOf(file, p)
  {
    ShownPagesAreSized(r, ps, m, key, file);
    UseKeepsViews(r, ps, m, PageId(key, p));
    var w := Use(r, m, PageId(key, p));
    SameFile(m, w, key, file);
    if p < |file| { assert View(w, PageId(key, p)) == file[p]; }
  }

  lemma PutChangesFile(r: Replacement, ps: nat, m0: Memory, key: Key, m: Memory, file: seq<Block>, p: nat, off: nat,
                      data: seq<byte>)
    requires During(r, ps, m0, key, m, file) && key !in m0.refuses
    requires p < |file| && Ready(m, PageId(key, p)) && off + |data| <= ps
    ensures During(r, ps, m0, key, PutFor(r, key, m, p, off, data), file[p := Patch(file[p], off, data)])
  {
    var i := Find(m.slots, PageId(key, p));
    PutChangesView(r, ps, m, i, off, data);
    assert View(m, PageId(key, p)) == file[p];
  }

  ghost function Relation(r: Replacement, ps: nat, m0: Memory, key: Key): (Memory, seq<Block>) -> bool {
    (m: Memory, file: seq<Block>) => During(r, ps, m0, key, m, file)
  }

  /** The internal memory serves the page loop, under either replacement algorithm. */
  lemma MemoryServes(r: Replacement, ps: nat, m0: Memory, key: Key)
    ensures Serves(PagerFor(r, key), ps, Relation(r, ps, m0, key))
    ensures key !in m0.refuses ==> Stores(PagerFor(r, key), ps, Relation(r, ps, m0, key))
  {
    var g, rel := PagerFor(r, key), Relation(r, ps, m0, key);
    forall m, file, p: nat ensures ServesPage(g, ps, rel, m, file, p) {
      if During(r, ps, m0, key, m, file) { UseKeepsFile(r, ps, m0, key, m, file, p); }
    }
    if key !in m0.refuses {
      forall m, file, p: nat, off: nat, data ensures StoresPage(g, ps, rel, m, file, p, off, data) {
        if During(r, ps, m0, key, m, file) && p < |file| && Ready(m, PageId(key, p)) && off + |data| <= ps {
          PutChangesFile(r, ps, m0, key, m, file, p, off, data);
        }
      }
    }
  }

  lemma AccessReads(r: Replacement, ps: nat, m: Memory, key: Key, page: nat, off: nat, len: nat, file: seq<Block>)
    requires off < ps && During(r, ps, m, key, m, file) && Sized(file, ps)
    ensures var (m', res) := ReadFrom(PagerFor(r, key), ps, m, page, off, len);
      Relation(r, ps, m, key)(m', file) && res == PagesRead(file, ps, page, off, len)
  {
    MemoryServes(r, ps, m, key);
    ReadFromReadsPages(PagerFor(r, key), Relation(r, ps, m, key), ps, m, page, off, len, file);
  }

  lemma AccessWrites(r: Replacement, ps: nat, m: Memory, key: Key, page: nat, off: nat, data: seq<byte>,
                     file: seq<Block>)
    requires off < ps && During(r, ps, m, key, m, file) && Sized(file, ps) && key !in m.refuses
    ensures var (m', ok) := WriteFrom(PagerFor(r, key), ps, m, page, off, data);
      && Relation(r, ps, m, key)(m', PagesWritten(file, ps, page, off, data))
      && ok == Fits(|file|, ps, page, off, |data|)
  {
    MemoryServes(r, ps, m, key);
    WriteFromWritesPages(PagerFor(r, key), Relation(r, ps, m, key), ps, m, page, off, data, file);
  }

  /** READ returns exactly the slice of the file, or fails when the file ends before it, and
      changes no byte anyone sees. */
  lemma ReadIsSlice(r: Replacement, ps: nat, m: Memory, key: Key, offset: nat, len: nat, file: seq<Block>)
    requires ps > 0 && Faithful(r, ps, m) && Shows(m, key, file)
    ensures var (m', res) := Read(r, ps, m, key, offset, len);
      && During(r, ps, m, key, m', file)
      && res == if len == 0 then Failed else Slice(Flatten(file), offset, len)
  {
    ShownPagesAreSized(r, ps, m, key, file);
    if len > 0 {
      AccessReads(r, ps, m, key, offset / ps, offset % ps, len, file);
      ReadAt(file, ps, offset, len);
    }
  }

  /** Byte x of a file is byte x % ps of page x / ps. */
  ghost predicate ByteIs(file: seq<Block>, ps: nat, x: nat, value: byte)
    requires ps > 0
  {
    x / ps < |file| && x % ps < |file[x / ps]| && file[x / ps][x % ps] == value
  }

  lemma ByteAt(file: seq<Block>, ps: nat, x: nat)
    requires ps > 0 && Sized(file, ps)
    ensures x < |Flatten(file)| <==> x / ps < |file|
    ensures x < |Flatten(file)| ==> ByteIs(file, ps, x, Flatten(file)[x])
  {
    var p, off := StartOf(ps, x);
    FlattenLength(file, ps);
    if p < |file| {
      PageBytes(file, ps, p, off, 1);
      assert Flatten(file)[x..x + 1][0] == file[p][off..off + 1][0];
    } else {
      StartGrows(ps, |file|, p);
    }
  }

  /** READ byte by byte: it succeeds exactly when the file has the page of the last byte, and then
      gives all the bytes, each the one the worker sees there. */
  lemma ReadGivesBytes(r: Replacement, ps: nat, m: Memory, key: Key, offset: nat, len: nat, file: seq<Block>, x: nat)
    requires ps > 0 && Faithful(r, ps, m) && Shows(m, key, file) && offset <= x < offset + len
    ensures var res := Read(r, ps, m, key, offset, len).1; var last := offset + len - 1;
      && (res.Data? <==> last / ps < |file|)
      && (res.Data? ==> |res.bytes| == len && ByteIs(file, ps, x, res.bytes[x - offset]))
  {
    ShownPagesAreSized(r, ps, m, key, file);
    ReadIsSlice(r, ps, m, key, offset, len, file);
    ByteAt(file, ps, offset + len - 1);
    ByteAt(file, ps, x);
  }

  /** The pages of a file after a WRITE. */
  function Rewritten(ps: nat, file: seq<Block>, offset: nat, data: seq<byte>): seq<Block>
    requires ps > 0 && Sized(file, ps)
  {
    PagesWritten(file, ps, offset / ps, offset % ps, data)
  }

  lemma WriteRelates(r: Replacement, ps: nat, m: Memory, key: Key, offset: nat, data: seq<byte>, file: seq<Block>)
    requires ps > 0 && Faithful(r, ps, m) && Shows(m, key, file) && key !in m.refuses && Sized(file, ps)
    ensures var (m', ok) := Write(r, ps, m, key, offset, data);
      && During(r, ps, m, key, m', Rewritten(ps, file, offset, data))
      && ok == (data != [] && Fits(|file|, ps, offset / ps, offset % ps, |data|))
  {
    AccessWrites(r, ps, m, key, offset / ps, offset % ps, data, file);
  }

  /** WRITE succeeds exactly when the file reaches that far.  It replaces exactly the bytes
      [offset, offset + |data|), or those of them the file has, and no byte of another file. */
  lemma WriteIsPatch(r: Replacement, ps: nat, m: Memory, key: Key, offset: nat, data: seq<byte>, file: seq<Block>)
    requires ps > 0 && Faithful(r, ps, m) && Shows(m, key, file) && key !in m.refuses
    ensures Sized(file, ps)
    ensures During(r, ps, m, key, Write(r, ps, m, key, offset, data).0, Rewritten(ps, file, offset, data))
    ensures Write(r, ps, m, key, offset, data).1 <==> data != [] && offset + |data| <= |Flatten(file)|
    ensures Flatten(Rewritten(ps, file, offset, data)) == Patch(Flatten(file), offset, data)
  {
    ShownPagesAreSized(r, ps, m, key, file);
    WriteRelates(r, ps, m, key, offset, data, file);
    WriteAt(file, ps, offset, data);
  }

  /** WRITE byte by byte: afterwards the worker sees at byte x of the file the byte given for it, if
      there is one, and else the old one. */
  lemma WriteSetsBytes(r: Replacement, ps: nat, m: Memory, key: Key, offset: nat, data: seq<byte>, file: seq<Block>,
                       x: nat)
    requires ps > 0 && Faithful(r, ps, m) && Shows(m, key, file) && key !in m.refuses && x < |Flatten(file)|
    ensures var m', after := Write(r, ps, m, key, offset, data).0, Rewritten(ps, file, offset, data);
      && Shows(m', key, after)
      && ByteIs(file, ps, x, Flatten(file)[x])
      && ByteIs(after, ps, x, if offset <= x < offset + |data| then data[x - offset] else Flatten(file)[x])
  {
    WriteIsPatch(r, ps, m, key, offset, data, file);
    ByteAt(file, ps, x);
    ByteAt(Rewritten(ps, file, offset, data), ps, x);
  }

  /** After an accepted FLUSH, Storage holds the file the worker sees. */
  lemma FlushMakesDurable(r: Replacement, ps: nat, m: Memory, key: Key, file: seq<Block>)
    requires Faithful(r, ps, m) && Shows(m, key, file) && key !in m.refuses
    ensures var m' := WriteBack(r, m, key);
      && During(r, ps, m, key, m', file)
      && forall i: nat :: i < |file| ==> PageId(key, i) in m'.pages && m'.pages[PageId(key, i)] == file[i]
  {
    WriteBackIsConsistent(r, ps, m, key);
    WriteBackKeepsViews(r, ps, m, key);
    WriteBackIsCoherent(r, ps, m, key);
    WriteBackDelivers(r, ps, m, key);
    SameFile(m, WriteBack(r, m, key), key, file);
  }

  // --------------------------------------------------------------------- whole runs

  datatype Request =
    | ReadOf(key: Key, offset: nat, len: nat)
    | WriteTo(key: Key, offset: nat, data: seq<byte>)
    | FlushOf(key: Key)

  datatype Reply = Content(Fetched) | Written(bool) | Flushed

  /** The worker's memory answers a request. */
  function Serve(r: Replacement, ps: nat, m: Memory, q: Request): (res: (Memory, Reply))
    requires ps > 0
  {
    match q
    case ReadOf(key, offset, len) => var (m', f) := Read(r, ps, m, key, offset, len); (m', Content(f))
    case WriteTo(key, offset, data) => var (m', ok) := Write(r, ps, m, key, offset, data); (m', Written(ok))
    case FlushOf(key) => (if |m.frames| == |m.modified| == |m.slots| then WriteBack(r, m, key) else m, Flushed)
  }

  /** The reply of one plain file, and the bytes it is left with. */
  function ServeBytes(file: seq<byte>, q: Request): (seq<byte>, Reply) {
    match q
    case ReadOf(_, offset, len) => (file, Content(if len == 0 then Failed else Slice(file, offset, len)))
    case WriteTo(_, offset, data) => (Patch(file, offset, data), Written(data != [] && offset + |data| <= |file|))
    case FlushOf(_) => (file, Flushed)
  }

  /** One byte sequence per File:Tag, no cache at all, answers it. */
  function ServeFlat(files: map<Key, seq<byte>>, q: Request): (res: (map<Key, seq<byte>>, Reply))
    requires q.key in files
    ensures res.0.Keys == files.Keys
  {
    var (file, reply) := ServeBytes(files[q.key], q);
    (files[q.key := file], reply)
  }

  /** `books` lists, page by page, what the worker sees of each File:Tag. */
  ghost predicate Mirrors(m: Memory, books: map<Key, seq<Block>>) {
    forall key :: key in books ==> Shows(m, key, books[key])
  }

  function FlatBooks(books: map<Key, seq<Block>>): map<Key, seq<byte>> {
    map key | key in books :: Flatten(books[key])
  }

  lemma DuringMirrors(r: Replacement, ps: nat, m: Memory, key: Key, m': Memory, books: map<Key, seq<Block>>,
                      file: seq<Block>)
    requires Mirrors(m, books) && key in books && During(r, ps, m, key, m', file)
    ensures Mirrors(m', books[key := file])
  {
    forall k | k in books && k != key ensures Shows(m', k, books[k]) {
      assert Shows(m, k, books[k]);
      forall i: nat | i < |books[k]| ensures View(m', PageId(k, i)) == books[k][i] {
        assert PageId(k, i) in m.pages;
      }
    }
  }

  lemma FlatBooksUpdate(books: map<Key, seq<Block>>, key: Key, file: seq<Block>)
    requires key in books
    ensures FlatBooks(books[key := file]) == FlatBooks(books)[key := Flatten(file)]
  {
  }

  /** The file as the request leaves it. */
  function FileAfter(ps: nat, file: seq<Block>, q: Request): seq<Block>
    requires ps > 0 && Sized(file, ps)
  {
    if q.WriteTo? then Rewritten(ps, file, q.offset, q.data) else file
  }

  lemma ServeStep(r: Replacement, ps: nat, m: Memory, file: seq<Block>, q: Request)
    requires ps > 0 && Faithful(r, ps, m) && Shows(m, q.key, file) && (q.ReadOf? || q.key !in m.refuses)
    ensures Sized(file, ps) && During(r, ps, m, q.key, Serve(r, ps, m, q).0, FileAfter(ps, file, q))
    ensures ServeBytes(Flatten(file), q) == (Flatten(FileAfter(ps, file, q)), Serve(r, ps, m, q).1)
  {
    ShownPagesAreSized(r, ps, m, q.key, file);
    match q {
      case ReadOf(key, offset, len) => ReadIsSlice(r, ps, m, key, offset, len, file);
      case WriteTo(key, offset, data) => WriteIsPatch(r, ps, m, key, offset, data, file);
      case FlushOf(key) => FlushMakesDurable(r, ps, m, key, file);
    }
  }

  function Replies(r: Replacement, ps: nat, m: Memory, qs: seq<Request>): seq<Reply>
    requires ps > 0
    decreases |qs|
  {
    if qs == [] then [] else [Serve(r, ps, m, qs[0]).1] + Replies(r, ps, Serve(r, ps, m, qs[0]).0, qs[1..])
  }

  function FlatReplies(files: map<Key, seq<byte>>, qs: seq<Request>): seq<Reply>
    requires forall q :: q in qs ==> q.key in files
    decreases |qs|
  {
    if qs == [] then [] else
    [ServeFlat(files, qs[0]).1] + FlatReplies(ServeFlat(files, qs[0]).0, qs[1..])
  }

  /** Every request is on a known File:Tag, and writes only on one that accepts FLUSH. */
  ghost predicate Permitted(m: Memory, keys: set<Key>, qs: seq<Request>) {
    forall q :: q in qs ==> q.key in keys && (q.ReadOf? || q.key !in m.refuses)
  }

  /** The cache is invisible: over any run of READ, WRITE and FLUSH, any number of frames and
      either algorithm, the replies are those of plain byte sequences. */
  lemma {:induction false} CacheIsInvisible(r: Replacement, ps: nat, m: Memory, books: map<Key, seq<Block>>,
                      qs: seq<Request>)
    requires ps > 0 && Faithful(r, ps, m) && Mirrors(m, books) && Permitted(m, books.Keys, qs)
    ensures Replies(r, ps, m, qs) == FlatReplies(FlatBooks(books), qs)
    decreases |qs|
  {
    if qs != [] {
      var q := qs[0];
      assert q in qs;
      ServeStep(r, ps, m, books[q.key], q);
      var file := FileAfter(ps, books[q.key], q);
      var m' := Serve(r, ps, m, q).0;
      DuringMirrors(r, ps, m, q.key, m', books, file);
      FlatBooksUpdate(books, q.key, file);
      CacheIsInvisible(r, ps, m', books[q.key := file], qs[1..]);
    }
  }

  function FlatAfter(files: map<Key, seq<byte>>, qs: seq<Request>): (res: map<Key, seq<byte>>)
    requires forall q :: q in qs ==> q.key in files
    ensures res.Keys == files.Keys
    decreases |qs|
  {
    if qs == [] then files else FlatAfter(ServeFlat(files, qs[0]).0, qs[1..])
  }

  /** After the run, too, the worker sees what the plain byte sequences hold. */
  lemma {:induction false} RunMirrors(r: Replacement, ps: nat, m: Memory, books: map<Key, seq<Block>>, qs: seq<Request>)
    returns (books': map<Key, seq<Block>>)
    requires ps > 0 && Faithful(r, ps, m) && Mirrors(m, books) && Permitted(m, books.Keys, qs)
    ensures Faithful(r, ps, After(r, ps, m, qs)) && After(r, ps, m, qs).refuses == m.refuses
    ensures Mirrors(After(r, ps, m, qs), books') && FlatBooks(books') == FlatAfter(FlatBooks(books), qs)
    decreases |qs|
  {
    books' := books;
    if qs != [] {
      var q := qs[0];
      assert q in qs;
      ServeStep(r, ps, m, books[q.key], q);
      var file := FileAfter(ps, books[q.key], q);
      var m' := Serve(r, ps, m, q).0;
      DuringMirrors(r, ps, m, q.key, m', books, file);
      FlatBooksUpdate(books, q.key, file);
      books' := RunMirrors(r, ps, m', books[q.key := file], qs[1..]);
    }
  }

  /** In particular from a fresh memory, whatever its number of frames: two workers that differ
      in frames and algorithm give the same replies. */
  lemma FramesDoNotMatter(r: Replacement, r': Replacement, ps: nat, n: nat, n': nat, pages: map<PageId, Block>,
                          refuses: set<Key>, books: map<Key, seq<Block>>, qs: seq<Request>)
    requires ps > 0 && n > 0 && n' > 0 && (forall id :: id in pages ==> |pages[id]| == ps)
    requires Mirrors(Fresh(n, ps, pages, refuses), books) && Permitted(Fresh(n, ps, pages, refuses), books.Keys, qs)
    ensures Replies(r, ps, Fresh(n, ps, pages, refuses), qs) == Replies(r', ps, Fresh(n', ps, pages, refuses), qs)
  {
    var m, m' := Fresh(n, ps, pages, refuses), Fresh(n', ps, pages, refuses);
    FreshIsConsistent(r, n, ps, pages, refuses);
    FreshIsConsistent(r', n', ps, pages, refuses);
    forall key | key in books ensures Shows(m', key, books[key]) {
      assert Shows(m, key, books[key]);
      forall i: nat | i < |books[key]| ensures View(m', PageId(key, i)) == books[key][i] {
        assert View(m, PageId(key, i)) == books[key][i];
      }
    }
    CacheIsInvisible(r, ps, m, books, qs);
    CacheIsInvisible(r', ps, m', books, qs);
  }

  // --------------------------------------------------- consistency over whole runs

  lemma ServeKeepsConsistent(r: Replacement, ps: nat, m: Memory, q: Request)
    requires ps > 0 && Consistent(r, ps, m)
    ensures Consistent(r, ps, Serve(r, ps, m, q).0)
  {
    var g := PagerFor(r, q.key);
    var inv := (x: Memory) => Consistent(r, ps, x);
    forall x, p: nat ensures KeepsUse(g, inv, x, p) {
      if Consistent(r, ps, x) { UseIsConsistent(r, ps, x, PageId(q.key, p)); }
    }
    forall x, p: nat, off: nat, data ensures KeepsPut(g, ps, inv, x, p, off, data) {
      if Consistent(r, ps, x) && off + |data| <= ps && Ready(x, PageId(q.key, p)) {
        PutIsConsistent(r, ps, x, Find(x.slots, PageId(q.key, p)), off, data);
      }
    }
    match q
    case ReadOf(key, offset, len) => ReadFromKeeps(g, inv, ps, m, offset / ps, offset % ps, len);
    case WriteTo(key, offset, data) => WriteFromKeeps(g, inv, ps, m, offset / ps, offset % ps, data);
    case FlushOf(key) => WriteBackIsConsistent(r, ps, m, key);
  }

  function After(r: Replacement, ps: nat, m: Memory, qs: seq<Request>): Memory
    requires ps > 0
    decreases |qs|
  {
    if qs == [] then m else After(r, ps, Serve(r, ps, m, qs[0]).0, qs[1..])
  }

  /** Over any run whatever, failed loads and refused flushes included, no page is in two
      frames, the LRU list names each resident page once, and the clock's M bits are the
      dirty flags. */
  lemma {:induction false} RunKeepsConsistent(r: Replacement, ps: nat, m: Memory, qs: seq<Request>)
    requires ps > 0 && Consistent(r, ps, m)
    ensures Consistent(r, ps, After(r, ps, m, qs))
    decreases |qs|
  {
    if qs != [] {
      ServeKeepsConsistent(r, ps, m, qs[0]);
      RunKeepsConsistent(r, ps, Serve(r, ps, m, qs[0]).0, qs[1..]);
    }
  }

  // ---------------------------------------------------------- a write that is lost

  const K := Disk.Key("a", "b")

  /** One frame, pages 0 and 1 of a File:Tag that refuses FLUSH, as COMMITED ones do. */
  const BEFORE := Fresh(1, 1, map[PageId(K, 0) := [0], PageId(K, 1) := [0]], {K})

  /** Page 0 is in the frame and holds x, whatever Storage holds. */
  ghost predicate InFrame(r: Replacement, m: Memory, dirty: bool, x: byte) {
    && m.slots == [Holds(PageId(K, 0), dirty)] && m.frames == [[x]] && m.pages == BEFORE.pages && m.refuses == {K}
    && Shaped(m) && m.pointer == 0 && (r.Lru? ==> m.lru == [PageId(K, 0)])
  }

  lemma FirstPageIsLoaded(r: Replacement)
    ensures InFrame(r, Use(r, BEFORE, PageId(K, 0)), false, 0)
  {
    var id := PageId(K, 0);
    assert [id][1..] == [] && Without([id], id) == [];
    assert r.Lru? ==> Load(r, BEFORE, id).lru == [id];
    assert Use(r, BEFORE, id).slots == [Holds(id, false)] && Use(r, BEFORE, id).frames == [[0]];
  }

  /** The memory after `WRITE a:b 0` of one byte: page 0 is in the frame, modified. */
  lemma RefusedWriteStaysInFrame(r: Replacement)
    ensures var (written, ok) := Write(r, 1, BEFORE, K, 0, [7]); ok && InFrame(r, written, true, 7)
  {
    FirstPageIsLoaded(r);
    var written := Put(r, Use(r, BEFORE, PageId(K, 0)), 0, 0, [7]);
    assert Patch([0], 0, [7]) == [7];
    assert written.slots == [Holds(PageId(K, 0), true)] && written.frames == [[7]];
    var data: seq<byte> := [7];
    assert data[..1] == data && data[1..] == [];
    assert WriteFrom(PagerFor(r, K), 1, written, 1, 0, []) == (written, true);
    assert WriteFrom(PagerFor(r, K), 1, BEFORE, 0, 0, data) == (written, true);
    assert Write(r, 1, BEFORE, K, 0, data) == (written, true);
  }

  /** The next page brought in takes its frame, and the byte is gone. */
  lemma NextPageLosesIt(r: Replacement, m: Memory, dirty: bool)
    requires InFrame(r, m, dirty, 7)
    ensures var v := PageId(K, 0);
      && v in m.pages && View(m, v) == [7] && FirstFree(m.slots) == |m.slots|
      && Use(r, m, PageId(K, 1)).pages == BEFORE.pages && View(Use(r, m, PageId(K, 1)), v) == [0]
  {
    assert FirstFree(m.slots) == 1 && Victim(r, m) == 0;
    assert Evict(r, m).slots == [Free];
    assert Use(r, m, PageId(K, 1)).slots == [Holds(PageId(K, 1), false)];
  }

  /** WRITE to such a File:Tag succeeds in memory, and the next page brought in loses it. */
  lemma RefusedWriteIsLost(r: Replacement)
    ensures var (written, ok) := Write(r, 1, BEFORE, K, 0, [7]);
      && ok && Shaped(written) && PageId(K, 0) in written.pages && View(written, PageId(K, 0)) == [7]
      && Use(r, written, PageId(K, 1)).pages == BEFORE.pages
      && View(Use(r, written, PageId(K, 1)), PageId(K, 0)) == [0]
  {
    RefusedWriteStaysInFrame(r);
    NextPageLosesIt(r, Write(r, 1, BEFORE, K, 0, [7]).0, true);
  }

  /** A FLUSH that Storage refuses marks the page clean all the same. */
  lemma RefusedFlushMarksClean(r: Replacement, m: Memory)
    requires InFrame(r, m, true, 7)
    ensures InFrame(r, Serve(r, 1, m, FlushOf(K)).0, false, 7)
  {
    assert Serve(r, 1, m, FlushOf(K)).0.slots == [Holds(PageId(K, 0), false)];
  }

  lemma CleanPageLosesBytes(r: Replacement, m: Memory)
    requires InFrame(r, m, false, 7)
    ensures FirstFree(m.slots) == |m.slots| && LosesBytes(r, m)
  {
    assert FirstFree(m.slots) == 1 && Victim(r, m) == 0;
  }

  /** After a FLUSH of that File:Tag, which Storage refuses, the page is marked clean although
      Storage does not hold it: the worker still sees the byte, and loses it with the next page. */
  lemma RefusedFlushIsLost(r: Replacement)
    ensures var written := Write(r, 1, BEFORE, K, 0, [7]).0;
      var m := Serve(r, 1, written, FlushOf(K)).0; var v := PageId(K, 0);
      && Shaped(m) && m.slots == [Holds(v, false)] && m.pages == BEFORE.pages && v in m.pages && View(m, v) == [7]
      && FirstFree(m.slots) == |m.slots| && LosesBytes(r, m)
      && View(Use(r, m, PageId(K, 1)), v) == [0]
  {
    var written := Write(r, 1, BEFORE, K, 0, [7]).0;
    RefusedWriteStaysInFrame(r);
    RefusedFlushMarksClean(r, written);
    CleanPageLosesBytes(r, Serve(r, 1, written, FlushOf(K)).0);
    NextPageLosesIt(r, Serve(r, 1, written, FlushOf(K)).0, false);
  }
}
