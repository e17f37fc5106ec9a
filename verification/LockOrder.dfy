/** The locks of Storage: any number of threads running operations never wait for each
    other in a circle, and as long as one has something left to do, one can move. */
module LockOrder {
  import Disk

  type Key = Disk.Key

  /** Per File:Tag mutexes are found in a dictionary under the name "<file>:<tag>". */
  datatype Lock = DictLock | FileLock(name: string) | HashLock | BitmapLock

  datatype Action = Acquire(lock: Lock) | Release(lock: Lock)

  /** A thread: the locks it holds and the actions it has still to perform. */
  datatype Thread = Thread(held: set<Lock>, todo: seq<Action>)

  type State = map<nat, Thread>

  // ------------------------------------------------------------- the lock order

  /** strcmp(a, b) < 0 */
  predicate StrLess(a: string, b: string) {
    b != [] && (a == [] || a[0] < b[0] || (a[0] == b[0] && StrLess(a[1..], b[1..])))
  }

  predicate LockLess(a: Lock, b: Lock) {
    match (a, b)
    case (FileLock(x), FileLock(y)) => StrLess(x, y)
    case (FileLock(_), HashLock) => true
    case (FileLock(_), BitmapLock) => true
    case (HashLock, BitmapLock) => true
    case _ => false
  }

  lemma {:induction false} StrLessIsStrictTotal(a: string, b: string, c: string)
    ensures !StrLess(a, a)
    ensures StrLess(a, b) && StrLess(b, c) ==> StrLess(a, c)
    ensures a != b ==> StrLess(a, b) || StrLess(b, a)
  {
    if a != [] && b != [] {
      StrLessIsStrictTotal(a[1..], b[1..], if c == [] then [] else c[1..]);
      assert a == [a[0]] + a[1..] && b == [b[0]] + b[1..];
    } else if a != [] {
      StrLessIsStrictTotal(a[1..], [], []);
    }
  }

  /** Up to position i the strings agree; there a has ended, or has the smaller character. */
  ghost predicate SmallerFrom(a: string, b: string, i: nat) {
    i <= |a| && i < |b| && a[..i] == b[..i] && (i == |a| || a[i] < b[i])
  }

  /** The order is that of strcmp: it is decided where the strings first differ. */
  lemma {:induction false} StrLessIsFirstDifference(a: string, b: string)
    ensures StrLess(a, b) <==> exists i: nat :: SmallerFrom(a, b, i)
  {
    assert forall i :: 0 < i <= |a| ==> a[..i][0] == a[0];
    assert forall i :: 0 < i <= |b| ==> b[..i][0] == b[0];
    if a == [] || b == [] || a[0] != b[0] {
      assert b != [] && (a == [] || a[0] < b[0]) ==> SmallerFrom(a, b, 0);
    } else {
      StrLessIsFirstDifference(a[1..], b[1..]);
      if i: nat :| SmallerFrom(a, b, i) {
        assert i > 0 && a[..i][1..] == a[1..][..i - 1] && b[..i][1..] == b[1..][..i - 1];
        assert SmallerFrom(a[1..], b[1..], i - 1);
      }
      if i: nat :| SmallerFrom(a[1..], b[1..], i) {
        assert a[..i + 1] == [a[0]] + a[1..][..i] && b[..i + 1] == [b[0]] + b[1..][..i];
        assert SmallerFrom(a, b, i + 1);
      }
    }
  }

  lemma LockLessIsStrict(a: Lock, b: Lock, c: Lock)
    ensures !LockLess(a, a)
    ensures LockLess(a, b) && LockLess(b, c) ==> LockLess(a, c)
  {
    match a {
      case FileLock(x) =>
        StrLessIsStrictTotal(x, if b.FileLock? then b.name else x, if c.FileLock? then c.name else x);
      case _ =>
    }
  }

  // ------------------------------------------------- what each operation acquires

  function LockName(key: Key): string {
    "<" + key.file + ">:<" + key.tag + ">"
  }

  /** File:Tags whose file names have no '>' share a mutex only when they are the same. */
  lemma LockNameIsOneKey(a: Key, b: Key)
    requires '>' !in a.file && '>' !in b.file
    ensures LockName(a) == LockName(b) <==> a == b
  {
    var x, y := LockName(a), LockName(b);
    var m, n := |a.file|, |b.file|;
    assert x[1..1 + m] == a.file && x[1 + m] == '>' && y[1..1 + n] == b.file && y[1 + n] == '>';
    assert m < n ==> y[1 + m] == b.file[m] && b.file[m] in b.file;
    assert n < m ==> x[1 + n] == a.file[n] && a.file[n] in a.file;
    if x == y {
      assert x[m + 4..m + 4 + |a.tag|] == a.tag && y[n + 4..n + 4 + |b.tag|] == b.tag;
    }
  }

  function Brief(l: Lock): seq<Action> { [Acquire(l), Release(l)] }

  /** The bitmap mutex taken and released n times. */
  function BitmapSections(n: nat): seq<Action> {
    if n == 0 then [] else Brief(BitmapLock) + BitmapSections(n - 1)
  }

  /** Look the mutex up under the dictionary lock, then work while holding it. */
  function FileSection(name: string, inner: seq<Action>): seq<Action> {
    Brief(DictLock) + ([Acquire(FileLock(name))] + (inner + [Release(FileLock(name))]))
  }

  /** The ways an operation can go, as far as locks are concerned: `n` and `m` count how
      often the bitmap is locked, which depends on data and on early returns. */
  datatype Path =
    | Refused                                         // rejected before any lock
    | PlainPath(key: Key, n: nat)                     // CREATE, TRUNCATE, READ, WRITE, FLUSH
    | CommitPath(key: Key, n: nat, m: nat)            // hash index held around n bitmap sections
    | DeletePath(key: Key, n: nat)                    // afterwards the mutex leaves the dictionary
    | TagPath(source: Key, target: Key)

  function Actions(p: Path): seq<Action> {
    match p
    case Refused => []
    case PlainPath(key, n) => FileSection(LockName(key), BitmapSections(n))
    case CommitPath(key, n, m) =>
      FileSection(LockName(key), [Acquire(HashLock)] + (BitmapSections(n) + ([Release(HashLock)] + BitmapSections(m))))
    case DeletePath(key, n) => FileSection(LockName(key), BitmapSections(n)) + Brief(DictLock)
    case TagPath(source, target) => TagSection(LockName(source), LockName(target))
  }

  /** TAG holds both mutexes, the one whose name comes first being taken first. */
  function TagSection(source: string, target: string): seq<Action> {
    var first := if StrLess(source, target) then source else target;
    var second := if StrLess(source, target) then target else source;
    Brief(DictLock) + (Brief(DictLock) +
      [Acquire(FileLock(first)), Acquire(FileLock(second)), Release(FileLock(second)), Release(FileLock(first))])
  }

  // ------------------------------------------------------------------ discipline

  /** Every acquisition goes up the order, every release is of a held lock, and nothing
      is held at the end. */
  ghost predicate Ordered(held: set<Lock>, todo: seq<Action>)
    decreases todo
  {
    if todo == [] then held == {}
    else match todo[0]
      case Acquire(l) => l !in held && (forall h :: h in held ==> LockLess(h, l)) && Ordered(held + {l}, todo[1..])
      case Release(l) => l in held && Ordered(held - {l}, todo[1..])
  }

  lemma BriefIsOrdered(held: set<Lock>, l: Lock, rest: seq<Action>)
    requires l !in held && (forall h :: h in held ==> LockLess(h, l)) && Ordered(held, rest)
    ensures Ordered(held, Brief(l) + rest)
  {
    var all := Brief(l) + rest;
    assert all[1..] == [Release(l)] + rest && all[1..][1..] == rest;
    assert held + {l} - {l} == held;
  }

  lemma {:induction false} BitmapSectionsOrdered(held: set<Lock>, n: nat, rest: seq<Action>)
    requires BitmapLock !in held && (forall h :: h in held ==> LockLess(h, BitmapLock)) && Ordered(held, rest)
    ensures Ordered(held, BitmapSections(n) + rest)
  {
    if n == 0 {
      assert [] + rest == rest;
    } else {
      BitmapSectionsOrdered(held, n - 1, rest);
      BriefIsOrdered(held, BitmapLock, BitmapSections(n - 1) + rest);
      assert BitmapSections(n) + rest == Brief(BitmapLock) + (BitmapSections(n - 1) + rest);
    }
  }

  /** Taking lock l, doing what is disciplined while it is held, and going on. */
  lemma AcquireIsOrdered(held: set<Lock>, l: Lock, rest: seq<Action>)
    requires l !in held && (forall h :: h in held ==> LockLess(h, l)) && Ordered(held + {l}, rest)
    ensures Ordered(held, [Acquire(l)] + rest)
  {
    assert ([Acquire(l)] + rest)[1..] == rest;
  }

  lemma ReleaseIsOrdered(held: set<Lock>, l: Lock, rest: seq<Action>)
    requires l in held && Ordered(held - {l}, rest)
    ensures Ordered(held, [Release(l)] + rest)
  {
    assert ([Release(l)] + rest)[1..] == rest;
  }

  lemma FileSectionOrdered(name: string, inner: seq<Action>, rest: seq<Action>)
    requires Ordered({FileLock(name)}, inner + ([Release(FileLock(name))] + rest))
    ensures Ordered({}, FileSection(name, inner) + rest)
  {
    var f := FileLock(name);
    AcquireIsOrdered({}, f, inner + ([Release(f)] + rest)) by {
      assert {} + {f} == {f};
    }
    BriefIsOrdered({}, DictLock, [Acquire(f)] + (inner + ([Release(f)] + rest)));
    assert FileSection(name, inner) + rest == Brief(DictLock) + ([Acquire(f)] + (inner + ([Release(f)] + rest)));
  }

  /** TAG is only disciplined when its two lock names differ. */
  predicate Distinct(p: Path) {
    p.TagPath? ==> LockName(p.source) != LockName(p.target)
  }

  /** Every operation, on every path through it, follows the lock order. */
  lemma OperationsAreOrdered(p: Path)
    requires Distinct(p)
    ensures Ordered({}, Actions(p))
  {
    match p {
      case Refused =>
      case PlainPath(key, n) =>
        var name, f := LockName(key), FileLock(LockName(key));
        assert {f} - {f} == {};
        ReleaseIsOrdered({f}, f, []);
        BitmapSectionsOrdered({f}, n, [Release(f)] + []);
        FileSectionOrdered(name, BitmapSections(n), []);
        assert Actions(p) + [] == Actions(p);
      case CommitPath(key, n, m) => CommitIsOrdered(key, n, m);
      case DeletePath(key, n) =>
        var name, f := LockName(key), FileLock(LockName(key));
        BriefIsOrdered({}, DictLock, []);
        assert Brief(DictLock) + [] == Brief(DictLock);
        assert {f} - {f} == {};
        ReleaseIsOrdered({f}, f, Brief(DictLock));
        BitmapSectionsOrdered({f}, n, [Release(f)] + Brief(DictLock));
        FileSectionOrdered(name, BitmapSections(n), Brief(DictLock));
      case TagPath(source, target) => TagIsOrdered(LockName(source), LockName(target));
    }
  }

  lemma CommitIsOrdered(key: Key, n: nat, m: nat)
    ensures Ordered({}, Actions(CommitPath(key, n, m)))
  {
    var name, f := LockName(key), FileLock(LockName(key));
    var inner := [Acquire(HashLock)] + (BitmapSections(n) + ([Release(HashLock)] + BitmapSections(m)));
    assert {f} - {f} == {} && {f} + {HashLock} - {HashLock} == {f};
    ReleaseIsOrdered({f}, f, []);
    BitmapSectionsOrdered({f}, m, [Release(f)] + []);
    ReleaseIsOrdered({f} + {HashLock}, HashLock, BitmapSections(m) + ([Release(f)] + []));
    BitmapSectionsOrdered({f} + {HashLock}, n, [Release(HashLock)] + (BitmapSections(m) + ([Release(f)] + [])));
    AcquireIsOrdered({f}, HashLock,
        BitmapSections(n) + ([Release(HashLock)] + (BitmapSections(m) + ([Release(f)] + []))));
    assert inner + ([Release(f)] + [])
      == [Acquire(HashLock)] + (BitmapSections(n) + ([Release(HashLock)] + (BitmapSections(m) + ([Release(f)] + []))));
    FileSectionOrdered(name, inner, []);
    assert FileSection(name, inner) + [] == FileSection(name, inner);
  }

  lemma TagIsOrdered(source: string, target: string)
    requires source != target
    ensures Ordered({}, TagSection(source, target))
  {
    StrLessIsStrictTotal(source, target, source);
    var a := FileLock(if StrLess(source, target) then source else target);
    var b := FileLock(if StrLess(source, target) then target else source);
    assert LockLess(a, b);
    var tail := [Release(b), Release(a)];
    assert tail[1..] == [Release(a)] && tail[1..][1..] == [];
    assert {a} + {b} - {b} == {a} && {a} - {a} == {} && {} + {a} == {a};
    assert a != b by { LockLessIsStrict(a, a, a); }
    assert Ordered({a}, [Release(a)]);
    AcquireIsOrdered({a}, b, tail);
    AcquireIsOrdered({}, a, [Acquire(b)] + tail);
    BriefIsOrdered({}, DictLock, [Acquire(a)] + ([Acquire(b)] + tail));
    BriefIsOrdered({}, DictLock, Brief(DictLock) + ([Acquire(a)] + ([Acquire(b)] + tail)));
    assert [Acquire(a)] + ([Acquire(b)] + tail) == [Acquire(a), Acquire(b), Release(b), Release(a)];
  }

  lemma BriefGivesBack(l: Lock, rest: seq<Action>)
    requires Ordered({}, Brief(l) + rest)
    ensures Ordered({}, rest)
  {
    var all := Brief(l) + rest;
    assert all[1..] == [Release(l)] + rest && all[1..][1..] == rest;
    assert {} + {l} - {l} == {};
  }

  /** TAG of a File:Tag onto itself locks the same mutex twice. */
  lemma TagOntoItselfIsNotOrdered(name: string)
    ensures !Ordered({}, TagSection(name, name))
  {
    var f := FileLock(name);
    var locks := [Acquire(f), Acquire(f), Release(f), Release(f)];
    assert TagSection(name, name) == Brief(DictLock) + (Brief(DictLock) + locks);
    assert locks[1..][0] == Acquire(f) && {} + {f} == {f};
    assert !Ordered({f}, locks[1..]);
    if Ordered({}, TagSection(name, name)) {
      BriefGivesBack(DictLock, Brief(DictLock) + locks);
      BriefGivesBack(DictLock, locks);
    }
  }

  /** An operation follows the lock order exactly when it is not a TAG of a File:Tag onto one
      with the same lock. */
  lemma OrderedIff(p: Path)
    ensures Ordered({}, Actions(p)) <==> Distinct(p)
  {
    if Distinct(p) { OperationsAreOrdered(p); } else { TagOntoItselfIsNotOrdered(LockName(p.source)); }
  }

  // ------------------------------------------------------ what each path takes

  /** How often a thread that holds `held` takes lock l while holding all of `under`. */
  function Taken(held: set<Lock>, todo: seq<Action>, l: Lock, under: set<Lock>): nat
    decreases todo
  {
    if todo == [] then 0
    else match todo[0]
      case Acquire(x) => (if x == l && under <= held then 1 else 0) + Taken(held + {x}, todo[1..], l, under)
      case Release(x) => Taken(held - {x}, todo[1..], l, under)
  }

  lemma TakenFirst(held: set<Lock>, x: Lock, rest: seq<Action>, l: Lock, under: set<Lock>)
    ensures Taken(held, [Acquire(x)] + rest, l, under)
      == (if x == l && under <= held then 1 else 0) + Taken(held + {x}, rest, l, under)
    ensures Taken(held, [Release(x)] + rest, l, under) == Taken(held - {x}, rest, l, under)
  {
    assert ([Acquire(x)] + rest)[1..] == rest && ([Release(x)] + rest)[1..] == rest;
  }

  lemma TakenBrief(held: set<Lock>, x: Lock, rest: seq<Action>, l: Lock, under: set<Lock>)
    requires x !in held
    ensures Taken(held, Brief(x) + rest, l, under)
      == (if x == l && under <= held then 1 else 0) + Taken(held, rest, l, under)
  {
    assert Brief(x) + rest == [Acquire(x)] + ([Release(x)] + rest) && held + {x} - {x} == held;
    TakenFirst(held, x, [Release(x)] + rest, l, under);
    TakenFirst(held + {x}, x, rest, l, under);
  }

  lemma {:induction false} TakenBitmap(held: set<Lock>, n: nat, rest: seq<Action>, l: Lock, under: set<Lock>)
    requires BitmapLock !in held
    ensures Taken(held, BitmapSections(n) + rest, l, under)
      == (if BitmapLock == l && under <= held then n else 0) + Taken(held, rest, l, under)
  {
    if n == 0 {
      assert [] + rest == rest;
    } else {
      assert BitmapSections(n) + rest == Brief(BitmapLock) + (BitmapSections(n - 1) + rest);
      TakenBrief(held, BitmapLock, BitmapSections(n - 1) + rest, l, under);
      TakenBitmap(held, n - 1, rest, l, under);
    }
  }

  /** The dictionary and the mutex of the File:Tag, and then what is done under it. */
  lemma TakenFile(name: string, inner: seq<Action>, rest: seq<Action>, l: Lock, under: set<Lock>)
    ensures var f := FileLock(name);
      Taken({}, FileSection(name, inner) + rest, l, under)
      == (if (l == DictLock || l == f) && under == {} then 1 else 0)
         + Taken({f}, inner + ([Release(f)] + rest), l, under)
  {
    var f := FileLock(name);
    var after := inner + ([Release(f)] + rest);
    assert FileSection(name, inner) + rest == Brief(DictLock) + ([Acquire(f)] + after) && {} + {f} == {f};
    TakenBrief({}, DictLock, [Acquire(f)] + after, l, under);
    TakenFirst({}, f, after, l, under);
  }

  /** How often each operation takes each lock, while holding which others: the dictionary alone
      and once (twice for DELETE and TAG), the mutex of the File:Tag once, under it the bitmap
      as often as blocks are taken or freed, for COMMIT also the hash index, and under that the
      bitmap again; TAG has its second mutex under its first. */
  lemma PathTakes(p: Path, l: Lock, under: set<Lock>)
    requires Distinct(p)
    ensures Taken({}, Actions(p), l, under) == match p
      case Refused => 0
      case PlainPath(key, n) =>
        var f := FileLock(LockName(key));
        (if (l == DictLock || l == f) && under == {} then 1 else 0) + (if l == BitmapLock && under <= {f} then n else 0)
      case CommitPath(key, n, m) =>
        var f := FileLock(LockName(key));
        (if (l == DictLock || l == f) && under == {} then 1 else 0) + (if l == HashLock && under <= {f} then 1 else 0)
        + (if l == BitmapLock && under <= {f, HashLock} then n else 0)
        + (if l == BitmapLock && under <= {f} then m else 0)
      case DeletePath(key, n) =>
        var f := FileLock(LockName(key));
        (if (l == DictLock || l == f) && under == {} then 1 else 0) + (if l == BitmapLock && under <= {f} then n else 0)
        + (if l == DictLock && under == {} then 1 else 0)
      case TagPath(source, target) =>
        var a, b := FileLock(LockName(source)), FileLock(LockName(target));
        var first, second := if LockLess(a, b) then a else b, if LockLess(a, b) then b else a;
        (if l == DictLock && under == {} then 2 else 0)
        + (if l == first && under == {} then 1 else 0) + (if l == second && under <= {first} then 1 else 0)
  {
    match p
    case Refused =>
    case PlainPath(key, n) => PlainTakes(key, n, [], l, under);
    case CommitPath(key, n, m) => CommitTakes(key, n, m, l, under);
    case DeletePath(key, n) =>
      PlainTakes(key, n, Brief(DictLock), l, under);
      assert Brief(DictLock) + [] == Brief(DictLock);
      TakenBrief({}, DictLock, [], l, under);
    case TagPath(source, target) => TagTakes(LockName(source), LockName(target), l, under);
  }

  lemma PlainTakes(key: Key, n: nat, rest: seq<Action>, l: Lock, under: set<Lock>)
    ensures var f := FileLock(LockName(key));
      Taken({}, FileSection(LockName(key), BitmapSections(n)) + rest, l, under)
      == (if (l == DictLock || l == f) && under == {} then 1 else 0)
         + (if l == BitmapLock && under <= {f} then n else 0)
         + Taken({}, rest, l, under)
    ensures rest == [] ==>
      FileSection(LockName(key), BitmapSections(n)) + rest == FileSection(LockName(key), BitmapSections(n))
  {
    var f := FileLock(LockName(key));
    TakenFile(LockName(key), BitmapSections(n), rest, l, under);
    TakenBitmap({f}, n, [Release(f)] + rest, l, under);
    TakenFirst({f}, f, rest, l, under);
    assert {f} - {f} == {};
  }

  lemma CommitTakes(key: Key, n: nat, m: nat, l: Lock, under: set<Lock>)
    ensures var f := FileLock(LockName(key));
      Taken({}, Actions(CommitPath(key, n, m)), l, under)
      == (if (l == DictLock || l == f) && under == {} then 1 else 0) + (if l == HashLock && under <= {f} then 1 else 0)
         + (if l == BitmapLock && under <= {f, HashLock} then n else 0)
         + (if l == BitmapLock && under <= {f} then m else 0)
  {
    var f := FileLock(LockName(key));
    var last := [Release(f)] + [];
    var after := [Release(HashLock)] + (BitmapSections(m) + last);
    var inner := [Acquire(HashLock)] + (BitmapSections(n) + ([Release(HashLock)] + BitmapSections(m)));
    assert Actions(CommitPath(key, n, m)) + [] == Actions(CommitPath(key, n, m));
    assert inner + last == [Acquire(HashLock)] + (BitmapSections(n) + after);
    assert {f} + {HashLock} == {f, HashLock} && {f, HashLock} - {HashLock} == {f} && {f} - {f} == {};
    TakenFile(LockName(key), inner, [], l, under);
    TakenFirst({f}, HashLock, BitmapSections(n) + after, l, under);
    TakenBitmap({f, HashLock}, n, after, l, under);
    TakenFirst({f, HashLock}, HashLock, BitmapSections(m) + last, l, under);
    TakenBitmap({f}, m, last, l, under);
    TakenFirst({f}, f, [], l, under);
  }

  lemma TagTakes(source: string, target: string, l: Lock, under: set<Lock>)
    requires source != target
    ensures var first := FileLock(if StrLess(source, target) then source else target);
      var second := FileLock(if StrLess(source, target) then target else source);
      Taken({}, TagSection(source, target), l, under)
      == (if l == DictLock && under == {} then 2 else 0)
         + (if l == first && under == {} then 1 else 0) + (if l == second && under <= {first} then 1 else 0)
  {
    var a := FileLock(if StrLess(source, target) then source else target);
    var b := FileLock(if StrLess(source, target) then target else source);
    var locks := [Acquire(a), Acquire(b), Release(b), Release(a)];
    assert TagSection(source, target) == Brief(DictLock) + (Brief(DictLock) + locks);
    assert locks == [Acquire(a)] + ([Acquire(b)] + ([Release(b)] + ([Release(a)] + []))) && {} + {a} == {a};
    TakenBrief({}, DictLock, Brief(DictLock) + locks, l, under);
    TakenBrief({}, DictLock, locks, l, under);
    TakenFirst({}, a, [Acquire(b)] + ([Release(b)] + ([Release(a)] + [])), l, under);
    TakenFirst({a}, b, [Release(b)] + ([Release(a)] + []), l, under);
    TakenFirst({a} + {b}, b, [Release(a)] + [], l, under);
    TakenFirst({a} + {b} - {b}, a, [], l, under);
  }

  // ---------------------------------------------------------------- interleaving

  ghost predicate Free(s: State, l: Lock) {
    forall t :: t in s ==> l !in s[t].held
  }

  /** Thread t performs its next action. */
  ghost predicate Moves(s: State, s': State, t: nat) {
    && t in s && s[t].todo != []
    && match s[t].todo[0]
       case Acquire(l) => Free(s, l) && s' == s[t := Thread(s[t].held + {l}, s[t].todo[1..])]
       case Release(l) => s' == s[t := Thread(s[t].held - {l}, s[t].todo[1..])]
  }

  /** A new or idle thread starts an operation. */
  ghost predicate Starts(s: State, s': State, t: nat, p: Path) {
    && (t in s ==> s[t].todo == [] && s[t].held == {})
    && s' == s[t := Thread({}, Actions(p))]
  }

  /** One step, where only operations that take an allowed path are started. */
  ghost predicate Next(allowed: Path -> bool, s: State, s': State) {
    (exists t :: Moves(s, s', t)) || (exists t, p :: allowed(p) && Starts(s, s', t, p))
  }

  ghost predicate Execution(allowed: Path -> bool, states: seq<State>) {
    && states != [] && states[0] == map[]
    && forall i :: 0 <= i < |states| - 1 ==> Next(allowed, states[i], states[i + 1])
  }

  ghost predicate LockInv(s: State) {
    && (forall t :: t in s ==> Ordered(s[t].held, s[t].todo))
    && (forall t, u :: t in s && u in s && t != u ==> s[t].held !! s[u].held)
  }

  lemma NextKeepsLockInv(s: State, s': State)
    requires LockInv(s) && Next(Distinct, s, s')
    ensures LockInv(s')
  {
    if t :| Moves(s, s', t) {
    } else {
      var t, p :| Distinct(p) && Starts(s, s', t, p);
      OperationsAreOrdered(p);
    }
  }

  lemma {:induction false} ExecutionKeepsLockInv(states: seq<State>, i: nat)
    requires Execution(Distinct, states) && i < |states|
    ensures LockInv(states[i])
  {
    if i > 0 {
      ExecutionKeepsLockInv(states, i - 1);
      assert Next(Distinct, states[i - 1], states[i - 1 + 1]);
      NextKeepsLockInv(states[i - 1], states[i]);
    }
  }

  /** In every reachable state a lock has one holder at most. */
  lemma OneHolder(states: seq<State>, i: nat, t: nat, u: nat, l: Lock)
    requires Execution(Distinct, states) && i < |states| && t in states[i] && u in states[i]
    requires l in states[i][t].held && l in states[i][u].held
    ensures t == u
  {
    ExecutionKeepsLockInv(states, i);
  }

  /** Thread t is about to take lock l. */
  ghost predicate Wants(s: State, t: nat, l: Lock) {
    t in s && s[t].todo != [] && s[t].todo[0] == Acquire(l)
  }

  /** Thread t waits for a lock that thread u holds. */
  ghost predicate WaitsFor(s: State, t: nat, u: nat) {
    u in s && exists l :: Wants(s, t, l) && l in s[u].held
  }

  /** A circle of waiting threads: each waits for the next, the last for the first. */
  ghost predicate WaitCycle(s: State, circle: seq<nat>) {
    && circle != []
    && WaitsFor(s, circle[|circle| - 1], circle[0])
    && forall i :: 0 <= i < |circle| - 1 ==> WaitsFor(s, circle[i], circle[i + 1])
  }

  /** Along a chain of waiting threads the locks wanted strictly increase. */
  lemma {:induction false} WaitingClimbs(s: State, chain: seq<nat>, first: Lock, last: Lock)
    requires LockInv(s) && |chain| >= 2
    requires forall i :: 0 <= i < |chain| - 1 ==> WaitsFor(s, chain[i], chain[i + 1])
    requires Wants(s, chain[0], first) && Wants(s, chain[|chain| - 1], last)
    ensures LockLess(first, last)
  {
    var n := |chain| - 1;
    assert WaitsFor(s, chain[n - 1], chain[n - 1 + 1]);
    var l :| Wants(s, chain[n - 1], l) && l in s[chain[n]].held;
    assert LockLess(l, last);
    if n > 1 {
      WaitingClimbs(s, chain[..n], first, l);
      LockLessIsStrict(first, l, last);
    }
  }

  /** No reachable state has a circle of waiting threads, TAGs having two distinct locks. */
  lemma NoDeadlock(states: seq<State>, i: nat, circle: seq<nat>)
    requires Execution(Distinct, states) && i < |states|
    ensures !WaitCycle(states[i], circle)
  {
    ExecutionKeepsLockInv(states, i);
    var s := states[i];
    if WaitCycle(s, circle) {
      var last := circle[|circle| - 1];
      assert WaitsFor(s, last, circle[0]);
      var l :| Wants(s, last, l) && l in s[circle[0]].held;
      var chain := [last] + circle;
      forall j | 0 <= j < |chain| - 1 ensures WaitsFor(s, chain[j], chain[j + 1]) {
        if j > 0 { assert WaitsFor(s, circle[j - 1], circle[j - 1 + 1]); }
      }
      WaitingClimbs(s, chain, l, l);
      LockLessIsStrict(l, l, l);
    }
  }

  /** Threads that want a lock above l. */
  ghost function WantAbove(s: State, l: Lock): set<nat> {
    set t | t in s && s[t].todo != [] && s[t].todo[0].Acquire? && LockLess(l, s[t].todo[0].lock)
  }

  /** Following the holders from any thread that has work left leads to one that can move. */
  lemma {:induction false} SomeThreadCanMove(s: State, t: nat)
    requires LockInv(s) && t in s && s[t].todo != []
    ensures exists u, s' :: Moves(s, s', u)
    decreases if s[t].todo[0].Acquire? then |WantAbove(s, s[t].todo[0].lock)| + 1 else 0
  {
    match s[t].todo[0] {
      case Release(l) =>
        assert Moves(s, s[t := Thread(s[t].held - {l}, s[t].todo[1..])], t);
      case Acquire(l) =>
        if Free(s, l) {
          assert Moves(s, s[t := Thread(s[t].held + {l}, s[t].todo[1..])], t);
        } else {
          var u :| u in s && l in s[u].held;
          assert s[u].todo != [];
          if s[u].todo[0].Acquire? {
            var l' := s[u].todo[0].lock;
            assert LockLess(l, l');
            assert u in WantAbove(s, l) && u !in WantAbove(s, l') by { LockLessIsStrict(l', l', l'); }
            forall v | v in WantAbove(s, l') ensures v in WantAbove(s, l) {
              LockLessIsStrict(l, l', s[v].todo[0].lock);
            }
            assert WantAbove(s, l') < WantAbove(s, l);
            SmallerSet(WantAbove(s, l'), WantAbove(s, l));
          }
          SomeThreadCanMove(s, u);
        }
    }
  }

  lemma SmallerSet(a: set<nat>, b: set<nat>)
    requires a < b
    ensures |a| < |b|
  {
    assert b == a + (b - a);
    assert |b| == |a| + |b - a|;
  }

  /** Progress: in every reachable state where some thread is not finished, one can move. */
  lemma AlwaysProgress(states: seq<State>, i: nat, t: nat)
    requires Execution(Distinct, states) && i < |states| && t in states[i] && states[i][t].todo != []
    ensures exists u, s' :: Moves(states[i], s', u)
  {
    ExecutionKeepsLockInv(states, i);
    SomeThreadCanMove(states[i], t);
  }

  // -------------------------------------------------------- TAG with equal locks

  /** Thread t has still to do `todo`, holding `held`. */
  function At(s: State, t: nat, held: set<Lock>, todo: seq<Action>): State {
    s[t := Thread(held, todo)]
  }

  lemma TakesBrief(s: State, t: nat, l: Lock, rest: seq<Action>)
    requires forall u :: u in s && u != t ==> l !in s[u].held
    ensures var a, b, c := At(s, t, {}, Brief(l) + rest), At(s, t, {l}, [Release(l)] + rest), At(s, t, {}, rest);
      Moves(a, b, t) && Moves(b, c, t)
  {
    var a, b, c := At(s, t, {}, Brief(l) + rest), At(s, t, {l}, [Release(l)] + rest), At(s, t, {}, rest);
    assert (Brief(l) + rest)[1..] == [Release(l)] + rest && ([Release(l)] + rest)[1..] == rest;
    assert {} + {l} == {l} && {l} - {l} == {};
    assert b == a[t := Thread({l}, [Release(l)] + rest)];
    assert c == b[t := Thread({}, rest)];
  }

  lemma ExecutionGoesOn(allowed: Path -> bool, states: seq<State>, more: seq<State>)
    requires Execution(allowed, states) && more != [] && Next(allowed, states[|states| - 1], more[0])
    requires forall i :: 0 <= i < |more| - 1 ==> Next(allowed, more[i], more[i + 1])
    ensures Execution(allowed, states + more)
  {
    var all := states + more;
    forall i | 0 <= i < |all| - 1 ensures Next(allowed, all[i], all[i + 1]) {
      if i >= |states| { assert all[i] == more[i - |states|] && all[i + 1] == more[i - |states| + 1]; }
    }
  }

  /** With its locks free, TAG onto the same lock takes it and then waits for itself. */
  lemma TagOntoItselfWaitsForItself(allowed: Path -> bool, states: seq<State>, t: nat, p: Path)
    returns (more: seq<State>)
    requires Execution(allowed, states) && allowed(p) && !Distinct(p)
    requires var s := states[|states| - 1];
      && (t in s ==> s[t].todo == [] && s[t].held == {})
      && Free(s, DictLock) && Free(s, FileLock(LockName(p.source)))
    ensures more != [] && Execution(allowed, states + more) && WaitCycle(more[|more| - 1], [t])
  {
    var s, f := states[|states| - 1], FileLock(LockName(p.source));
    var locks := [Acquire(f), Acquire(f), Release(f), Release(f)];
    var waiting := [Acquire(f), Release(f), Release(f)];
    var last := At(s, t, {f}, waiting);
    more := [At(s, t, {}, Actions(p)),
             At(s, t, {DictLock}, [Release(DictLock)] + (Brief(DictLock) + locks)),
             At(s, t, {}, Brief(DictLock) + locks),
             At(s, t, {DictLock}, [Release(DictLock)] + locks),
             At(s, t, {}, locks),
             last];
    assert Actions(p) == Brief(DictLock) + (Brief(DictLock) + locks);
    assert Starts(s, more[0], t, p);
    TakesBrief(s, t, DictLock, Brief(DictLock) + locks);
    TakesBrief(s, t, DictLock, locks);
    assert locks[1..] == waiting && {} + {f} == {f} && last == more[4][t := Thread({f}, waiting)];
    assert Moves(more[4], last, t);
    ExecutionGoesOn(allowed, states, more);
    assert Wants(last, t, f);
    assert WaitsFor(last, t, t);
  }

  /** And it waits for ever. */
  lemma SelfWaitNeverEnds(allowed: Path -> bool, s: State, s': State, t: nat)
    requires WaitsFor(s, t, t) && Next(allowed, s, s')
    ensures WaitsFor(s', t, t)
  {
    var l :| Wants(s, t, l) && l in s[t].held;
    assert !Free(s, l);
    assert s'[t] == s[t];
    assert Wants(s', t, l);
  }

  ghost predicate DeadlockFree(allowed: Path -> bool) {
    forall states, i: nat, circle :: Execution(allowed, states) && i < |states| ==> !WaitCycle(states[i], circle)
  }

  /** Storage is free of deadlock exactly when no TAG is asked for whose two locks are one. */
  lemma DeadlockFreeIff(allowed: Path -> bool)
    ensures DeadlockFree(allowed) <==> forall p :: allowed(p) ==> Distinct(p)
  {
    if forall p :: allowed(p) ==> Distinct(p) {
      forall states, i: nat, circle | Execution(allowed, states) && i < |states| ensures !WaitCycle(states[i], circle) {
        forall j | 0 <= j < |states| - 1 ensures Next(Distinct, states[j], states[j + 1]) {
          assert Next(allowed, states[j], states[j + 1]);
        }
        NoDeadlock(states, i, circle);
      }
    } else {
      var p :| allowed(p) && !Distinct(p);
      var start: seq<State> := [map[]];
      assert start[|start| - 1] == map[];
      var more := TagOntoItselfWaitsForItself(allowed, start, 0, p);
      var all := start + more;
      assert all[|all| - 1] == more[|more| - 1];
    }
  }
}
