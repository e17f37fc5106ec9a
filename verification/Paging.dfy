/** The page loop of acceder_memoria over any store that brings pages in one at a time. */
module Paging {
  import opened Bytes
  import opened FlatFile

  /** What the loop needs of the memory: bring a page in, get the bytes of the frame it is
      in (if it is), and store bytes there. */
  datatype Pager<!S> = Pager(use: (S, nat) -> S, frame: (S, nat) -> Fetched, put: (S, nat, nat, seq<byte>) -> S)

  /** A READ of `len` bytes from byte `off` of `page` on. */
  function ReadFrom<S>(g: Pager<S>, ps: nat, s: S, page: nat, off: nat, len: nat): (res: (S, Fetched))
    requires off < ps
    decreases len
  {
    if len == 0 then (s, Data([])) else
    var w := g.use(s, page);
    var f := g.frame(w, page);
    if f.Failed? then (w, Failed) else
    var n := Min(ps - off, len);
    var (w', rest) := ReadFrom(g, ps, w, page + 1, 0, len - n);
    (w', Joined(Part(f.bytes, off, n), rest))
  }

  /** A WRITE of `data`; pages written before one that cannot be brought in stay written. */
  function WriteFrom<S>(g: Pager<S>, ps: nat, s: S, page: nat, off: nat, data: seq<byte>): (res: (S, bool))
    requires off < ps
    decreases |data|
  {
    if data == [] then (s, true) else
    var w := g.use(s, page);
    if g.frame(w, page).Failed? then (w, false) else
    var n := Min(ps - off, |data|);
    WriteFrom(g, ps, g.put(w, page, off, data[..n]), page + 1, 0, data[n..])
  }

  /** What is left of an access after the page it stands in. */
  function LeftAfter(ps: nat, off: nat, left: nat): (rest: nat)
    requires off < ps && left > 0
    ensures rest < left
  {
    left - Min(ps - off, left)
  }

  /** From state s, with `data` gathered, the rest of a READ that goes no further than page `last`
      ends in state `end` with `res`. */
  predicate ReadsTo<S(==)>(g: Pager<S>, ps: nat, s: S, page: nat, off: nat, left: nat, last: nat, data: seq<byte>,
                      end: S, res: Fetched)
    requires off < ps
    decreases left
  {
    if left == 0 || page > last then end == s && res == Data(data) else
    var w := g.use(s, page);
    var f := g.frame(w, page);
    if f.Failed? then end == w && res == Failed else
    ReadsTo(g, ps, w, page + 1, 0, LeftAfter(ps, off, left), last, data + Part(f.bytes, off, Min(ps - off, left)),
            end, res)
  }

  /** The same of a READ that may have failed already. */
  predicate StillReadsTo<S(==)>(ok: bool, g: Pager<S>, ps: nat, s: S, page: nat, off: nat, left: nat, last: nat,
                                data: seq<byte>, end: S, res: Fetched)
    requires off < ps
  {
    if ok then ReadsTo(g, ps, s, page, off, left, last, data, end, res) else end == s && res == Failed
  }

  /** The bound is never met: the loop reads all that is asked for. */
  lemma {:induction false} ReadsToReadFrom<S>(g: Pager<S>, ps: nat, s: S, page: nat, off: nat, left: nat, last: nat,
                      data: seq<byte>)
    requires off < ps && page + PagesLeft(ps, off, left) == last + 1
    ensures var (end, rest) := ReadFrom(g, ps, s, page, off, left);
      ReadsTo(g, ps, s, page, off, left, last, data, end, Joined(data, rest))
    decreases left
  {
    if left == 0 {
      assert data + [] == data;
    } else {
      var w := g.use(s, page);
      var f := g.frame(w, page);
      if f.Data? {
        var n := Min(ps - off, left);
        var here, rest := Part(f.bytes, off, n), ReadFrom(g, ps, w, page + 1, 0, left - n).1;
        ReadsToReadFrom(g, ps, w, page + 1, 0, left - n, last, data + here);
        JoinedTwice(data, here, rest);
      }
    }
  }

  lemma JoinedTwice(a: seq<byte>, b: seq<byte>, rest: Fetched)
    ensures Joined(a + b, rest) == Joined(a, Joined(b, rest))
  {
    if rest.Data? { assert a + (b + rest.bytes) == a + b + rest.bytes; }
  }

  /** What the turn of one page leaves to be written. */
  function RestAfter(ps: nat, off: nat, data: seq<byte>): (rest: seq<byte>)
    requires off < ps && data != []
    ensures |rest| < |data|
  {
    data[Min(ps - off, |data|)..]
  }

  /** From state s the rest of a WRITE, of `data`, that goes no further than page `last` ends in
      state `end` with `res`. */
  predicate WritesTo<S(==)>(g: Pager<S>, ps: nat, s: S, page: nat, off: nat, data: seq<byte>, last: nat, end: S,
                      res: bool)
    requires off < ps
    decreases |data|
  {
    if data == [] || page > last then end == s && res else
    var w := g.use(s, page);
    if g.frame(w, page).Failed? then end == w && !res else
    WritesTo(g, ps, g.put(w, page, off, data[..Min(ps - off, |data|)]), page + 1, 0, RestAfter(ps, off, data), last,
             end, res)
  }

  lemma {:induction false} WritesToWriteFrom<S>(g: Pager<S>, ps: nat, s: S, page: nat, off: nat, data: seq<byte>,
                      last: nat)
    requires off < ps && page + PagesLeft(ps, off, |data|) == last + 1
    ensures var (end, res) := WriteFrom(g, ps, s, page, off, data);
      WritesTo(g, ps, s, page, off, data, last, end, res)
    decreases |data|
  {
    if data != [] {
      var w := g.use(s, page);
      if g.frame(w, page).Data? {
        var n := Min(ps - off, |data|);
        WritesToWriteFrom(g, ps, g.put(w, page, off, data[..n]), page + 1, 0, data[n..], last);
      }
    }
  }

  function PageOf(file: seq<seq<byte>>, p: nat): Fetched {
    if p < |file| then Data(file[p]) else Failed
  }

  /** A state that `inv` relates to `file` brings in page p exactly when `file` has it. */
  ghost predicate ServesPage<S>(g: Pager<S>, ps: nat, inv: (S, seq<seq<byte>>) -> bool, s: S, file: seq<seq<byte>>,
                      p: nat) {
    inv(s, file) ==> Sized(file, ps) && inv(g.use(s, p), file) && g.frame(g.use(s, p), p) == PageOf(file, p)
  }

  ghost predicate Serves<S(!new)>(g: Pager<S>, ps: nat, inv: (S, seq<seq<byte>>) -> bool) {
    forall s, file, p: nat :: ServesPage(g, ps, inv, s, file, p)
  }

  /** Storing in a page that is in a frame changes that page of `file`. */
  ghost predicate StoresPage<S>(g: Pager<S>, ps: nat, inv: (S, seq<seq<byte>>) -> bool, s: S, file: seq<seq<byte>>,
                                p: nat, off: nat, data: seq<byte>) {
    inv(s, file) && p < |file| && g.frame(s, p).Data? && off + |data| <= ps
    ==> inv(g.put(s, p, off, data), file[p := Patch(file[p], off, data)])
  }

  ghost predicate Stores<S(!new)>(g: Pager<S>, ps: nat, inv: (S, seq<seq<byte>>) -> bool) {
    forall s, file, p: nat, off: nat, data :: StoresPage(g, ps, inv, s, file, p, off, data)
  }

  lemma {:induction false} ReadFromReadsPages<S(!new)>(g: Pager<S>, inv: (S, seq<seq<byte>>) -> bool, ps: nat,
                                                      s: S, page: nat, off: nat, len: nat, file: seq<seq<byte>>)
    requires Serves(g, ps, inv) && inv(s, file) && off < ps && Sized(file, ps)
    ensures var (s', res) := ReadFrom(g, ps, s, page, off, len);
      inv(s', file) && res == PagesRead(file, ps, page, off, len)
    decreases len
  {
    assert ServesPage(g, ps, inv, s, file, page);
    if len > 0 && page < |file| {
      ReadFromReadsPages(g, inv, ps, g.use(s, page), page + 1, 0, len - Min(ps - off, len), file);
    }
  }

  lemma {:induction false} WriteFromWritesPages<S(!new)>(g: Pager<S>, inv: (S, seq<seq<byte>>) -> bool, ps: nat,
                                                        s: S, page: nat, off: nat, data: seq<byte>,
                                                        file: seq<seq<byte>>)
    requires Serves(g, ps, inv) && Stores(g, ps, inv) && inv(s, file) && off < ps && Sized(file, ps)
    ensures inv(WriteFrom(g, ps, s, page, off, data).0, PagesWritten(file, ps, page, off, data))
    ensures WriteFrom(g, ps, s, page, off, data).1 == Fits(|file|, ps, page, off, |data|)
    decreases |data|
  {
    if data != [] {
      var w := g.use(s, page);
      assert ServesPage(g, ps, inv, s, file, page);
      if page < |file| {
        var c := Min(ps - off, |data|);
        var w', file' := g.put(w, page, off, data[..c]), file[page := Patch(file[page], off, data[..c])];
        assert StoresPage(g, ps, inv, w, file, page, off, data[..c]);
        WriteFromWritesPages(g, inv, ps, w', page + 1, 0, data[c..], file');
      }
    }
  }

  // ------------------------------------------------- what every access keeps

  ghost predicate KeepsUse<S>(g: Pager<S>, inv: S -> bool, s: S, p: nat) {
    inv(s) ==> inv(g.use(s, p))
  }

  ghost predicate KeepsPut<S>(g: Pager<S>, ps: nat, inv: S -> bool, s: S, p: nat, off: nat, data: seq<byte>) {
    inv(s) && off + |data| <= ps ==> inv(g.put(s, p, off, data))
  }

  /** `inv` survives bringing in any page and storing inside any page. */
  ghost predicate Keeps<S(!new)>(g: Pager<S>, ps: nat, inv: S -> bool) {
    && (forall s, p: nat :: KeepsUse(g, inv, s, p))
    && (forall s, p: nat, off: nat, data :: KeepsPut(g, ps, inv, s, p, off, data))
  }

  lemma {:induction false} ReadFromKeeps<S(!new)>(g: Pager<S>, inv: S -> bool, ps: nat, s: S, page: nat, off: nat,
                      len: nat)
    requires Keeps(g, ps, inv) && inv(s) && off < ps
    ensures inv(ReadFrom(g, ps, s, page, off, len).0)
    decreases len
  {
    assert KeepsUse(g, inv, s, page);
    if len > 0 && g.frame(g.use(s, page), page).Data? {
      ReadFromKeeps(g, inv, ps, g.use(s, page), page + 1, 0, len - Min(ps - off, len));
    }
  }

  lemma {:induction false} WriteFromKeeps<S(!new)>(g: Pager<S>, inv: S -> bool, ps: nat, s: S, page: nat, off: nat,
                      data: seq<byte>)
    requires Keeps(g, ps, inv) && inv(s) && off < ps
    ensures inv(WriteFrom(g, ps, s, page, off, data).0)
    decreases |data|
  {
    assert KeepsUse(g, inv, s, page);
    if data != [] && g.frame(g.use(s, page), page).Data? {
      var n := Min(ps - off, |data|);
      assert KeepsPut(g, ps, inv, g.use(s, page), page, off, data[..n]);
      WriteFromKeeps(g, inv, ps, g.put(g.use(s, page), page, off, data[..n]), page + 1, 0, data[n..]);
    }
  }

  // ----------------------------------------------------------- which accesses succeed

  /** `inv` survives a use of page p, which is in a frame afterwards exactly when `has` says so. */
  ghost predicate Finds<S>(g: Pager<S>, inv: S -> bool, has: nat -> bool, s: S, p: nat) {
    inv(s) ==> inv(g.use(s, p)) && (g.frame(g.use(s, p), p).Data? <==> has(p))
  }

  ghost predicate FindsAll<S(!new)>(g: Pager<S>, ps: nat, inv: S -> bool, has: nat -> bool) {
    && (forall s, p: nat :: Finds(g, inv, has, s, p))
    && (forall s, p: nat, off: nat, data :: KeepsPut(g, ps, inv, s, p, off, data))
  }

  ghost predicate HasTouched(has: nat -> bool, ps: nat, page: nat, off: nat, len: nat)
    requires off < ps
    decreases len
  {
    len == 0 || (has(page) && HasTouched(has, ps, page + 1, 0, len - Min(ps - off, len)))
  }

  lemma {:induction false} ReadFromSucceedsIff<S(!new)>(g: Pager<S>, inv: S -> bool, has: nat -> bool, ps: nat,
                                                       s: S, page: nat, off: nat, len: nat)
    requires FindsAll(g, ps, inv, has) && inv(s) && off < ps
    ensures inv(ReadFrom(g, ps, s, page, off, len).0)
    ensures ReadFrom(g, ps, s, page, off, len).1.Data? <==> HasTouched(has, ps, page, off, len)
    decreases len
  {
    if len > 0 {
      assert Finds(g, inv, has, s, page);
      if has(page) { ReadFromSucceedsIff(g, inv, has, ps, g.use(s, page), page + 1, 0, len - Min(ps - off, len)); }
    }
  }

  lemma {:induction false} WriteFromSucceedsIff<S(!new)>(g: Pager<S>, inv: S -> bool, has: nat -> bool, ps: nat,
                                                        s: S, page: nat, off: nat, data: seq<byte>)
    requires FindsAll(g, ps, inv, has) && inv(s) && off < ps
    ensures inv(WriteFrom(g, ps, s, page, off, data).0)
    ensures WriteFrom(g, ps, s, page, off, data).1 <==> HasTouched(has, ps, page, off, |data|)
    decreases |data|
  {
    if data != [] {
      var w, n := g.use(s, page), Min(ps - off, |data|);
      assert Finds(g, inv, has, s, page);
      if has(page) {
        assert KeepsPut(g, ps, inv, w, page, off, data[..n]);
        WriteFromSucceedsIff(g, inv, has, ps, g.put(w, page, off, data[..n]), page + 1, 0, data[n..]);
      }
    }
  }

  // ------------------------------------------------------- which pages are used

  /** Pages an access that succeeds uses, in order. */
  function Touched(ps: nat, page: nat, off: nat, len: nat): seq<nat>
    requires off < ps
    decreases len
  {
    if len == 0 then [] else [page] + Touched(ps, page + 1, 0, len - Min(ps - off, len))
  }

  ghost predicate FollowsUse<S>(g: Pager<S>, rel: (S, seq<nat>) -> bool, s: S, h: seq<nat>, p: nat) {
    rel(s, h) && g.frame(g.use(s, p), p).Data? ==> rel(g.use(s, p), h + [p])
  }

  ghost predicate FollowsPut<S>(g: Pager<S>, ps: nat, rel: (S, seq<nat>) -> bool, s: S, h: seq<nat>, p: nat, off: nat,
                      data: seq<byte>) {
    rel(s, h) && off + |data| <= ps ==> rel(g.put(s, p, off, data), h)
  }

  /** `rel` relates a state to the pages used so far: a use that does not fail adds one,
      storing adds none. */
  ghost predicate Follows<S(!new)>(g: Pager<S>, ps: nat, rel: (S, seq<nat>) -> bool) {
    && (forall s, h, p: nat :: FollowsUse(g, rel, s, h, p))
    && (forall s, h, p: nat, off: nat, data :: FollowsPut(g, ps, rel, s, h, p, off, data))
  }

  lemma {:induction false} ReadFromFollows<S(!new)>(g: Pager<S>, rel: (S, seq<nat>) -> bool, ps: nat,
                                                   s: S, h: seq<nat>, page: nat, off: nat, len: nat)
    requires Follows(g, ps, rel) && rel(s, h) && off < ps && ReadFrom(g, ps, s, page, off, len).1.Data?
    ensures rel(ReadFrom(g, ps, s, page, off, len).0, h + Touched(ps, page, off, len))
    decreases len
  {
    if len == 0 {
      assert h + [] == h;
    } else {
      var n := Min(ps - off, len);
      assert FollowsUse(g, rel, s, h, page);
      ReadFromFollows(g, rel, ps, g.use(s, page), h + [page], page + 1, 0, len - n);
      assert h + [page] + Touched(ps, page + 1, 0, len - n) == h + ([page] + Touched(ps, page + 1, 0, len - n));
    }
  }

  lemma {:induction false} WriteFromFollows<S(!new)>(g: Pager<S>, rel: (S, seq<nat>) -> bool, ps: nat,
                                                    s: S, h: seq<nat>, page: nat, off: nat, data: seq<byte>)
    requires Follows(g, ps, rel) && rel(s, h) && off < ps && WriteFrom(g, ps, s, page, off, data).1
    ensures rel(WriteFrom(g, ps, s, page, off, data).0, h + Touched(ps, page, off, |data|))
    decreases |data|
  {
    if data == [] {
      assert h + [] == h;
    } else {
      var n := Min(ps - off, |data|);
      var w := g.use(s, page);
      assert FollowsUse(g, rel, s, h, page);
      assert FollowsPut(g, ps, rel, w, h + [page], page, off, data[..n]);
      WriteFromFollows(g, rel, ps, g.put(w, page, off, data[..n]), h + [page], page + 1, 0, data[n..]);
      assert h + [page] + Touched(ps, page + 1, 0, |data| - n) == h + ([page] + Touched(ps, page + 1, 0, |data| - n));
    }
  }

  lemma ReadFromStart<S(!new)>(g: Pager<S>, rel: (S, seq<nat>) -> bool, ps: nat, s: S, page: nat, off: nat, len: nat)
    requires Follows(g, ps, rel) && rel(s, []) && off < ps && ReadFrom(g, ps, s, page, off, len).1.Data?
    ensures rel(ReadFrom(g, ps, s, page, off, len).0, Touched(ps, page, off, len))
  {
    ReadFromFollows(g, rel, ps, s, [], page, off, len);
    assert [] + Touched(ps, page, off, len) == Touched(ps, page, off, len);
  }

  lemma WriteFromStart<S(!new)>(g: Pager<S>, rel: (S, seq<nat>) -> bool, ps: nat, s: S, page: nat, off: nat,
                      data: seq<byte>)
    requires Follows(g, ps, rel) && rel(s, []) && off < ps && WriteFrom(g, ps, s, page, off, data).1
    ensures rel(WriteFrom(g, ps, s, page, off, data).0, Touched(ps, page, off, |data|))
  {
    WriteFromFollows(g, rel, ps, s, [], page, off, data);
    assert [] + Touched(ps, page, off, |data|) == Touched(ps, page, off, |data|);
  }

  // ------------------------------------------------------------------- simulation

  /** Through f, g does what h does. */
  ghost predicate Simulates<S(!new), T>(g: Pager<S>, h: Pager<T>, f: S -> T) {
    && (forall s, p: nat :: f(g.use(s, p)) == h.use(f(s), p))
    && (forall s, p: nat :: g.frame(s, p) == h.frame(f(s), p))
    && (forall s, p: nat, off: nat, data :: f(g.put(s, p, off, data)) == h.put(f(s), p, off, data))
  }

  lemma {:induction false} SimulatedRead<S(!new), T>(g: Pager<S>, h: Pager<T>, f: S -> T, ps: nat, s: S, page: nat,
                                                     off: nat, len: nat)
    requires Simulates(g, h, f) && off < ps
    ensures var (end, res) := ReadFrom(g, ps, s, page, off, len); (f(end), res) == ReadFrom(h, ps, f(s), page, off, len)
    decreases len
  {
    if len > 0 { SimulatedRead(g, h, f, ps, g.use(s, page), page + 1, 0, len - Min(ps - off, len)); }
  }

  lemma {:induction false} SimulatedWrite<S(!new), T>(g: Pager<S>, h: Pager<T>, f: S -> T, ps: nat, s: S, page: nat,
                                                      off: nat, data: seq<byte>)
    requires Simulates(g, h, f) && off < ps
    ensures var (end, res) := WriteFrom(g, ps, s, page, off, data);
      (f(end), res) == WriteFrom(h, ps, f(s), page, off, data)
    decreases |data|
  {
    if data != [] {
      var n := Min(ps - off, |data|);
      SimulatedWrite(g, h, f, ps, g.put(g.use(s, page), page, off, data[..n]), page + 1, 0, data[n..]);
    }
  }

  // ------------------------------------------------- simulation on a budget of uses

  ghost predicate SpendsUse<S, T>(g: Pager<S>, h: Pager<T>, f: S -> T, rel: (S, nat) -> bool, s: S, left: nat, p: nat) {
    rel(s, left + 1) ==> rel(g.use(s, p), left) && f(g.use(s, p)) == h.use(f(s), p)
  }

  ghost predicate SparesPut<S, T>(g: Pager<S>, h: Pager<T>, ps: nat, f: S -> T, rel: (S, nat) -> bool, s: S, left: nat,
                                  p: nat, off: nat, data: seq<byte>) {
    rel(s, left) && off + |data| <= ps ==>
      rel(g.put(s, p, off, data), left) && f(g.put(s, p, off, data)) == h.put(f(s), p, off, data)
  }

  ghost predicate Spares<S>(rel: (S, nat) -> bool, s: S, left: nat) {
    rel(s, left + 1) ==> rel(s, left)
  }

  /** Through f, g does what h does on a state with uses to spare; a use, failed or not, spends
      one of them. */
  ghost predicate Spends<S(!new), T>(g: Pager<S>, h: Pager<T>, f: S -> T, rel: (S, nat) -> bool) {
    && (forall s, left: nat, p: nat :: SpendsUse(g, h, f, rel, s, left, p))
    && (forall s, left: nat :: Spares(rel, s, left))
    && (forall s, p: nat :: g.frame(s, p) == h.frame(f(s), p))
  }

  /** Storing spends nothing. */
  ghost predicate SparesPuts<S(!new), T>(g: Pager<S>, h: Pager<T>, ps: nat, f: S -> T, rel: (S, nat) -> bool) {
    forall s, left: nat, p: nat, off: nat, data :: SparesPut(g, h, ps, f, rel, s, left, p, off, data)
  }

  lemma {:induction false} SpareUses<S(!new)>(rel: (S, nat) -> bool, s: S, left: nat, more: nat)
    requires (forall s, left: nat :: Spares(rel, s, left)) && rel(s, left + more)
    ensures rel(s, left)
  {
    if more > 0 {
      assert Spares(rel, s, left + more - 1);
      SpareUses(rel, s, left, more - 1);
    }
  }

  /** With a use to spare for each page touched, a READ does through f what h does. */
  lemma {:induction false} SpendingRead<S(!new), T>(g: Pager<S>, h: Pager<T>, f: S -> T, rel: (S, nat) -> bool, ps: nat,
                                                    s: S, left: nat, page: nat, off: nat, len: nat)
    requires Spends(g, h, f, rel) && off < ps && rel(s, left + |Touched(ps, page, off, len)|)
    ensures var (end, res) := ReadFrom(g, ps, s, page, off, len);
      rel(end, left) && (f(end), res) == ReadFrom(h, ps, f(s), page, off, len)
    decreases len
  {
    if len > 0 {
      var rest := len - Min(ps - off, len);
      var spare := left + |Touched(ps, page + 1, 0, rest)|;
      assert SpendsUse(g, h, f, rel, s, spare, page);
      if g.frame(g.use(s, page), page).Data? {
        SpendingRead(g, h, f, rel, ps, g.use(s, page), left, page + 1, 0, rest);
      } else {
        SpareUses(rel, g.use(s, page), left, |Touched(ps, page + 1, 0, rest)|);
      }
    }
  }

  lemma {:induction false} SpendingWrite<S(!new), T>(g: Pager<S>, h: Pager<T>, f: S -> T, rel: (S, nat) -> bool,
                                                     ps: nat, s: S, left: nat, page: nat, off: nat, data: seq<byte>)
    requires Spends(g, h, f, rel) && SparesPuts(g, h, ps, f, rel)
    requires off < ps && rel(s, left + |Touched(ps, page, off, |data|)|)
    ensures var (end, res) := WriteFrom(g, ps, s, page, off, data);
      rel(end, left) && (f(end), res) == WriteFrom(h, ps, f(s), page, off, data)
    decreases |data|
  {
    if data != [] {
      var w, n := g.use(s, page), Min(ps - off, |data|);
      var spare := left + |Touched(ps, page + 1, 0, |data| - n)|;
      assert SpendsUse(g, h, f, rel, s, spare, page);
      if g.frame(w, page).Data? {
        assert SparesPut(g, h, ps, f, rel, w, spare, page, off, data[..n]);
        SpendingWrite(g, h, f, rel, ps, g.put(w, page, off, data[..n]), left, page + 1, 0, data[n..]);
      } else {
        SpareUses(rel, w, left, |Touched(ps, page + 1, 0, |data| - n)|);
      }
    }
  }
}
