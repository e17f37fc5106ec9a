/** Plain sequences of bytes made of equal-sized pages, read and written in place. */
module FlatFile {
  import opened Bytes

  datatype Fetched = Failed | Data(bytes: seq<byte>)

  function Min(a: nat, b: nat): nat {
    if a < b then a else b
  }

  /** The n bytes from `off` on, as far as there are any. */
  function Part(page: seq<byte>, off: nat, n: nat): seq<byte> {
    if off + n <= |page| then page[off..off + n] else []
  }

  /** Reading `len` bytes; fails when they are not all there. */
  function Slice(file: seq<byte>, at: nat, len: nat): Fetched {
    if len == 0 then Data([]) else if at + len <= |file| then Data(file[at..at + len]) else Failed
  }

  /** Writing `data` from byte `at` on; what would lie past the end is dropped. */
  function Patch(file: seq<byte>, at: nat, data: seq<byte>): (f: seq<byte>)
    ensures |f| == |file|
    ensures forall i :: 0 <= i < |f| ==> f[i] == if at <= i < at + |data| then data[i - at] else file[i]
  {
    seq(|file|, i requires 0 <= i < |file| => if at <= i < at + |data| then data[i - at] else file[i])
  }

  function Joined(first: seq<byte>, rest: Fetched): Fetched {
    if rest.Failed? then Failed else Data(first + rest.bytes)
  }

  /** c bytes read here and the rest read where they end make one longer read. */
  lemma SliceJoins(file: seq<byte>, here: seq<byte>, at: nat, len: nat, c: nat, next: nat)
    requires 0 < c <= len && at + c <= |file| && (c < len ==> next == at + c) && here == file[at..at + c]
    ensures Joined(here, Slice(file, next, len - c)) == Slice(file, at, len)
  {
    if c < len && at + len <= |file| {
      assert file[at..at + len] == file[at..at + c] + file[at + c..at + len];
    }
  }

  lemma PatchNothing(file: seq<byte>, at: nat)
    ensures Patch(file, at, []) == file
  {
  }

  /** c bytes written here and the rest written where they end make one longer write. */
  lemma PatchJoins(file: seq<byte>, first: seq<byte>, at: nat, data: seq<byte>, c: nat, next: nat)
    requires c <= |data| && (c < |data| ==> next == at + c) && first == Patch(file, at, data[..c])
    ensures Patch(first, next, data[c..]) == Patch(file, at, data)
  {
  }

  // ------------------------------------------------------------------------- pages

  function Flatten(pages: seq<seq<byte>>): seq<byte> {
    if pages == [] then [] else Flatten(pages[..|pages| - 1]) + pages[|pages| - 1]
  }

  ghost predicate Sized(pages: seq<seq<byte>>, ps: nat) {
    forall i :: 0 <= i < |pages| ==> |pages[i]| == ps
  }

  /** Where page p starts. */
  function Start(ps: nat, p: nat): nat {
    if p == 0 then 0 else Start(ps, p - 1) + ps
  }

  lemma {:induction false} StartIsProduct(ps: nat, p: nat)
    ensures Start(ps, p) == p * ps
  {
    if p > 0 {
      StartIsProduct(ps, p - 1);
      assert p * ps == (p - 1) * ps + ps;
    }
  }

  lemma {:induction false} StartGrows(ps: nat, p: nat, n: nat)
    requires p <= n
    ensures Start(ps, p) <= Start(ps, n) && (p < n ==> Start(ps, p) + ps <= Start(ps, n))
  {
    if p < n { StartGrows(ps, p, n - 1); }
  }

  lemma {:induction false} FlattenLength(pages: seq<seq<byte>>, ps: nat)
    requires Sized(pages, ps)
    ensures |Flatten(pages)| == Start(ps, |pages|)
  {
    if pages != [] { FlattenLength(pages[..|pages| - 1], ps); }
  }

  lemma {:induction false} FlattenSplits(pages: seq<seq<byte>>, p: nat)
    requires p < |pages|
    ensures Flatten(pages) == Flatten(pages[..p]) + pages[p] + Flatten(pages[p + 1..])
  {
    var last := |pages| - 1;
    if p == last {
      assert pages[p + 1..] == [];
    } else {
      FlattenSplits(pages[..last], p);
      assert pages[..last][..p] == pages[..p];
      assert pages[..last][p + 1..] == pages[p + 1..][..last - p - 1];
    }
  }

  lemma SliceMiddle(a: seq<byte>, b: seq<byte>, c: seq<byte>, off: nat, len: nat)
    requires off + len <= |b|
    ensures (a + b + c)[|a| + off..|a| + off + len] == b[off..off + len]
  {
  }

  /** Byte `off` of page p is byte `off` past the page's start in the file. */
  lemma PageBytes(pages: seq<seq<byte>>, ps: nat, p: nat, off: nat, len: nat)
    requires Sized(pages, ps) && p < |pages| && off + len <= ps
    ensures Start(ps, p) + off + len <= |Flatten(pages)|
    ensures Flatten(pages)[Start(ps, p) + off..Start(ps, p) + off + len] == pages[p][off..off + len]
  {
    FlattenSplits(pages, p);
    FlattenLength(pages[..p], ps);
    SliceMiddle(Flatten(pages[..p]), pages[p], Flatten(pages[p + 1..]), off, len);
  }

  lemma PatchMiddle(a: seq<byte>, b: seq<byte>, c: seq<byte>, off: nat, data: seq<byte>)
    requires off + |data| <= |b|
    ensures a + Patch(b, off, data) + c == Patch(a + b + c, |a| + off, data)
  {
  }

  /** Writing in page p writes in the file, as far past the page's start. */
  lemma PagePatch(pages: seq<seq<byte>>, ps: nat, p: nat, off: nat, data: seq<byte>)
    requires Sized(pages, ps) && p < |pages| && off + |data| <= ps
    ensures Flatten(pages[p := Patch(pages[p], off, data)]) == Patch(Flatten(pages), Start(ps, p) + off, data)
  {
    var pages' := pages[p := Patch(pages[p], off, data)];
    FlattenSplits(pages, p);
    FlattenLength(pages[..p], ps);
    FlattenSplits(pages', p);
    assert pages'[..p] == pages[..p] && pages'[p + 1..] == pages[p + 1..];
    PatchMiddle(Flatten(pages[..p]), pages[p], Flatten(pages[p + 1..]), off, data);
  }

  /** From byte `off` of a page, c bytes on: the start of the next page, or the end. */
  lemma Advance(ps: nat, page: nat, off: nat, len: nat, n: nat)
    requires off < ps && len > 0
    ensures var c := Min(ps - off, len);
      && (c < len ==> Start(ps, page + 1) == Start(ps, page) + off + c)
      && (page < n ==> Start(ps, page) + off + c <= Start(ps, n))
      && (page >= n ==> Start(ps, page) + off >= Start(ps, n))
  {
    if page < n { StartGrows(ps, page, n); } else { StartGrows(ps, n, page); }
  }

  // ------------------------------------------------------- access page by page

  /** Reading page by page from byte `off` of page p on. */
  function PagesRead(pages: seq<seq<byte>>, ps: nat, p: nat, off: nat, len: nat): Fetched
    requires off < ps && Sized(pages, ps)
    decreases len
  {
    if len == 0 then Data([])
    else if p >= |pages| then Failed
    else
      var c := Min(ps - off, len);
      Joined(Part(pages[p], off, c), PagesRead(pages, ps, p + 1, 0, len - c))
  }

  /** An access of `len` bytes from byte `off` of page p on stays within n pages. */
  predicate Fits(n: nat, ps: nat, p: nat, off: nat, len: nat)
    requires off < ps
    decreases len
  {
    len == 0 || (p < n && Fits(n, ps, p + 1, 0, len - Min(ps - off, len)))
  }

  lemma {:induction false} ReadFits(pages: seq<seq<byte>>, ps: nat, p: nat, off: nat, len: nat)
    requires off < ps && Sized(pages, ps)
    ensures PagesRead(pages, ps, p, off, len).Data? <==> Fits(|pages|, ps, p, off, len)
    decreases len
  {
    if len > 0 && p < |pages| { ReadFits(pages, ps, p + 1, 0, len - Min(ps - off, len)); }
  }

  /** Writing page by page, up to the first page that is not there. */
  function PagesWritten(pages: seq<seq<byte>>, ps: nat, p: nat, off: nat, data: seq<byte>): (r: seq<seq<byte>>)
    requires off < ps && Sized(pages, ps)
    ensures |r| == |pages| && Sized(r, ps)
    decreases |data|
  {
    if data == [] || p >= |pages| then pages else
    var c := Min(ps - off, |data|);
    PagesWritten(pages[p := Patch(pages[p], off, data[..c])], ps, p + 1, 0, data[c..])
  }

  /** Page by page reads the slice. */
  lemma {:induction false} PagesReadIsSlice(pages: seq<seq<byte>>, ps: nat, p: nat, off: nat, len: nat)
    requires off < ps && Sized(pages, ps)
    ensures PagesRead(pages, ps, p, off, len) == Slice(Flatten(pages), Start(ps, p) + off, len)
    decreases len
  {
    if len > 0 {
      var c := Min(ps - off, len);
      FlattenLength(pages, ps);
      Advance(ps, p, off, len, |pages|);
      if p < |pages| {
        PageBytes(pages, ps, p, off, c);
        PagesReadIsSlice(pages, ps, p + 1, 0, len - c);
        SliceJoins(Flatten(pages), Part(pages[p], off, c), Start(ps, p) + off, len, c, Start(ps, p + 1));
      }
    }
  }

  /** Page by page writes the patch. */
  lemma {:induction false} PagesWrittenIsPatch(pages: seq<seq<byte>>, ps: nat, p: nat, off: nat, data: seq<byte>)
    requires off < ps && Sized(pages, ps)
    ensures Flatten(PagesWritten(pages, ps, p, off, data)) == Patch(Flatten(pages), Start(ps, p) + off, data)
    decreases |data|
  {
    if data == [] {
      PatchNothing(Flatten(pages), Start(ps, p) + off);
    } else {
      var c := Min(ps - off, |data|);
      FlattenLength(pages, ps);
      Advance(ps, p, off, |data|, |pages|);
      if p < |pages| {
        var pages' := pages[p := Patch(pages[p], off, data[..c])];
        PagePatch(pages, ps, p, off, data[..c]);
        PatchJoins(Flatten(pages), Flatten(pages'), Start(ps, p) + off, data, c, Start(ps, p + 1));
        PagesWrittenIsPatch(pages', ps, p + 1, 0, data[c..]);
      }
    }
  }

  lemma StartOf(ps: nat, offset: nat) returns (page: nat, off: nat)
    requires ps > 0
    ensures page == offset / ps && off == offset % ps && off < ps && Start(ps, page) + off == offset
  {
    page, off := offset / ps, offset % ps;
    StartIsProduct(ps, page);
  }

  /** How many pages an access of `left` bytes from byte `off` of a page on has to go through. */
  function PagesLeft(ps: nat, off: nat, left: nat): nat
    requires off < ps
    decreases left
  {
    if left == 0 then 0 else 1 + PagesLeft(ps, 0, left - Min(ps - off, left))
  }

  /** They are the pages up to the one with the last byte. */
  lemma {:induction false} PagesLeftIs(ps: nat, page: nat, off: nat, left: nat, last: nat)
    requires off < ps && left > 0 && Start(ps, last) < Start(ps, page) + off + left <= Start(ps, last + 1)
    ensures page + PagesLeft(ps, off, left) == last + 1
    decreases left
  {
    if off + left <= ps {
      assert PagesLeft(ps, 0, 0) == 0;
      if page < last { StartGrows(ps, page + 1, last); }
      if last < page { StartGrows(ps, last + 1, page); }
    } else {
      PagesLeftIs(ps, page + 1, 0, left - (ps - off), last);
    }
  }

  /** The page loop is bounded by the page of the last byte; while it still has bytes to go it
      stands no later than there, so the bound never ends it early. */
  lemma PageBoundHolds(ps: nat, offset: nat, len: nat)
    requires ps > 0 && len > 0
    ensures offset / ps + PagesLeft(ps, offset % ps, len) == (offset + len - 1) / ps + 1
  {
    var page, off := StartOf(ps, offset);
    var last, r := StartOf(ps, offset + len - 1);
    PagesLeftIs(ps, page, off, len, last);
  }

  /** Reading page by page from the page that holds byte `offset`. */
  lemma ReadAt(pages: seq<seq<byte>>, ps: nat, offset: nat, len: nat)
    requires ps > 0 && Sized(pages, ps)
    ensures PagesRead(pages, ps, offset / ps, offset % ps, len) == Slice(Flatten(pages), offset, len)
  {
    var page, off := StartOf(ps, offset);
    PagesReadIsSlice(pages, ps, page, off, len);
  }

  lemma FitsIff(pages: seq<seq<byte>>, ps: nat, p: nat, off: nat, len: nat)
    requires off < ps && Sized(pages, ps)
    ensures Fits(|pages|, ps, p, off, len) <==> len == 0 || Start(ps, p) + off + len <= |Flatten(pages)|
  {
    ReadFits(pages, ps, p, off, len);
    PagesReadIsSlice(pages, ps, p, off, len);
  }

  /** Writing page by page from the page that holds byte `offset`. */
  lemma WriteAt(pages: seq<seq<byte>>, ps: nat, offset: nat, data: seq<byte>)
    requires ps > 0 && Sized(pages, ps)
    ensures Flatten(PagesWritten(pages, ps, offset / ps, offset % ps, data)) == Patch(Flatten(pages), offset, data)
    ensures Fits(|pages|, ps, offset / ps, offset % ps, |data|) <==> data == [] || offset + |data| <= |Flatten(pages)|
  {
    var page, off := StartOf(ps, offset);
    PagesWrittenIsPatch(pages, ps, page, off, data);
    FitsIff(pages, ps, page, off, |data|);
  }
}
