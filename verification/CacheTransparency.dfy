/** The cache over its memory behaves as one flat memory of 2^32 bytes. */
module CacheTransparency {
  import opened Words
  import opened Outcomes
  import opened CacheModel
  import opened CacheInvariants

  const SIZE := 0x1_0000_0000

  /** All bytes the cache and its memory hold, by address. */
  function Flat(s: State): (m: seq<byte>)
    requires |s.lines| == NUM_LINES
    ensures |m| == SIZE
  {
    seq(SIZE, (a: nat) requires a < SIZE => View(s, a))
  }

  /** All bytes of the memory alone. */
  function FlatMemory(storage: Storage): (m: seq<byte>)
    ensures |m| == SIZE
  {
    seq(SIZE, (a: nat) requires a < SIZE => MemoryByte(storage, a))
  }

  /** The same operations on a flat memory, where flushing means nothing. */
  function FlatStep(m: seq<byte>, op: Op): (r: (seq<byte>, Option<byte>))
    requires |m| == SIZE
    ensures |r.0| == SIZE
  {
    match op
    case Read(a) => (m, Some(m[a]))
    case Write(a, v) => (m[a := v], None)
    case FlushAll => (m, None)
  }

  function FlatRun(m: seq<byte>, ops: seq<Op>): (r: (seq<byte>, seq<Option<byte>>))
    requires |m| == SIZE
    ensures |r.0| == SIZE && |r.1| == |ops|
    decreases |ops|
  {
    if ops == [] then (m, [])
    else
      var (m', out) := FlatStep(m, ops[0]);
      var (final, outs) := FlatRun(m', ops[1..]);
      (final, [out] + outs)
  }

  lemma AccessFlat(s: State, a: uint32, w: Option<byte>)
    requires Inv(s)
    ensures s.lines[IndexOf(a)].tag < 0x80_0000
    ensures Flat(Accessed(s, a, w)) == if w.Some? then Flat(s)[a := w.value] else Flat(s)
  {
    hide Accessed, Held, BlockOf;
    assert LineInv(s.lines[IndexOf(a)], IndexOf(a), s.storage);
    var r := Accessed(s, a, w);
    var m := if w.Some? then Flat(s)[a := w.value] else Flat(s);
    forall x: nat | x < SIZE
      ensures Flat(r)[x] == m[x]
    {
      AccessHeld(s, a, w, x);
      SameByte(x, a);
      if BlockOf(x) == BlockOf(a) {
        SameBlock(s, x, a);
      }
    }
  }

  lemma SameBlock(s: State, x: uint32, a: uint32)
    requires |s.lines| == NUM_LINES && BlockOf(x) == BlockOf(a)
    ensures Held(s, x) == Held(s, a)
  {
    hide TagOf, IndexOf, BlockOf, BlockAt;
    SameParts(x, a);
  }

  lemma FlushFlat(s: State)
    requires Inv(s)
    ensures Flat(Flush(s)) == Flat(s)
  {
    hide Held, FlushFrom;
    FlushFromKeeps(s, 0);
  }

  /** One operation does to the flat view what it does to a flat memory, and returns the same. */
  lemma StepTransparent(s: State, op: Op)
    requires Inv(s)
    ensures Inv(Step(s, op).0)
    ensures FlatStep(Flat(s), op) == (Flat(Step(s, op).0), Step(s, op).1)
  {
    hide Flat, LineInv, Accessed, ReadStep, WriteStep, Flush;
    StepInv(s, op);
    match op
    case Read(a) => ReadIsAccess(s, a); AccessFlat(s, a, None); FlatAt(s, a);
    case Write(a, v) => WriteIsAccess(s, a, v); AccessFlat(s, a, Some(v));
    case FlushAll => FlushFlat(s);
  }

  lemma FlatAt(s: State, a: uint32)
    requires |s.lines| == NUM_LINES
    ensures Flat(s)[a] == View(s, a)
  {
  }

  lemma {:induction false} RunTransparent(s: State, ops: seq<Op>)
    requires Inv(s)
    ensures Inv(Run(s, ops).0)
    ensures FlatRun(Flat(s), ops) == (Flat(Run(s, ops).0), Run(s, ops).1)
    decreases |ops|
  {
    hide Flat, LineInv, Step, FlatStep;
    if ops != [] {
      StepTransparent(s, ops[0]);
      RunTransparent(Step(s, ops[0]).0, ops[1..]);
    }
  }

  lemma FreshFlat(storage: Storage)
    ensures Flat(FreshCache(storage)) == FlatMemory(storage)
  {
    forall a: nat | a < SIZE
      ensures View(FreshCache(storage), a) == MemoryByte(storage, a)
    {
      assert FreshCache(storage).lines[IndexOf(a)] == EMPTY_LINE;
    }
  }

  /** Transparency: over any initial memory, a fresh cache answers every sequence of reads, writes
      and flushes as a flat memory with the same initial bytes would, and ends holding the same
      bytes at every address. `CacheRuns.RunAndFlush` carries this to the cache's own methods, which
      split and rebuild addresses by the bit codec. */
  lemma CacheIsTransparent(storage: Storage, ops: seq<Op>)
    ensures var (final, outs) := Run(FreshCache(storage), ops);
            FlatRun(FlatMemory(storage), ops) == (Flat(final), outs)
  {
    hide Flat, FlatMemory, Run, FlatRun;
    FreshInv(storage);
    FreshFlat(storage);
    RunTransparent(FreshCache(storage), ops);
  }

  // ---------------------------------------------------------------- after a flush

  predicate AllClean(s: State)
  {
    forall line | line in s.lines :: !line.dirty
  }

  /** A cache without dirty lines holds nothing its memory does not. */
  lemma CleanIsMemory(s: State)
    requires Inv(s) && AllClean(s)
    ensures Flat(s) == FlatMemory(s.storage)
  {
    hide BlockOf, LineAddress, IndexOf, TagOf;
    forall a: nat | a < SIZE
      ensures Held(s, a) == BlockAt(s.storage, BlockOf(a))
    {
      IndexBound(a);
      var line := s.lines[IndexOf(a)];
      assert LineInv(line, IndexOf(a), s.storage) && line in s.lines;
      BlockNames(a, line.tag, IndexOf(a));
    }
  }

  /** The transfers a flush makes: one store for each dirty line from `i` on. */
  function FlushLog(lines: seq<CacheLine>, i: nat): seq<Transfer>
    requires i <= NUM_LINES == |lines|
    requires forall line | line in lines :: line.tag < 0x80_0000
    decreases NUM_LINES - i
  {
    if i == NUM_LINES then []
    else (if lines[i].dirty then [Stored(LineAddress(lines[i].tag, i))] else []) + FlushLog(lines, i + 1)
  }

  lemma {:induction false} FlushLogLocal(a: seq<CacheLine>, b: seq<CacheLine>, i: nat)
    requires i <= NUM_LINES == |a| == |b| && a[i..] == b[i..]
    requires forall line | line in a + b :: line.tag < 0x80_0000
    ensures FlushLog(a, i) == FlushLog(b, i)
    decreases NUM_LINES - i
  {
    if i < NUM_LINES {
      assert a[i..][0] == a[i] && b[i..][0] == b[i];
      assert a[i + 1..] == a[i..][1..] && b[i + 1..] == b[i..][1..];
      FlushLogLocal(a, b, i + 1);
    }
  }

  lemma TagsBounded(s: State)
    requires Inv(s)
    ensures forall line | line in s.lines :: line.tag < 0x80_0000
  {
    forall line | line in s.lines
      ensures line.tag < 0x80_0000
    {
      var i :| 0 <= i < |s.lines| && s.lines[i] == line;
      assert LineInv(s.lines[i], i, s.storage);
    }
  }

  lemma {:induction false} FlushStores(s: State, i: nat)
    requires Inv(s) && i <= NUM_LINES
    requires forall line | line in s.lines :: line.tag < 0x80_0000
    ensures FlushFrom(s, i).log == s.log + FlushLog(s.lines, i)
    decreases NUM_LINES - i
  {
    hide LineInv, FlushFrom, WrittenBack;
    if i < NUM_LINES {
      FlushStep(s, i);
      CleanedInv(s, i);
      var r := Cleaned(s, i);
      assert forall line | line in r.lines :: line.tag < 0x80_0000;
      FlushStores(r, i + 1);
      assert r.lines[i + 1..] == s.lines[i + 1..];
      FlushLogLocal(r.lines, s.lines, i + 1);
    } else {
      FlushDone(s);
    }
  }

  /** No block is stored twice: the stores go up through the lines. */
  lemma {:induction false} FlushLogDistinct(lines: seq<CacheLine>, i: nat)
    requires i <= NUM_LINES == |lines|
    requires forall line | line in lines :: line.tag < 0x80_0000
    ensures forall t | t in FlushLog(lines, i) :: t.Stored? && i <= IndexOf(t.address)
    ensures forall p, q | 0 <= p < q < |FlushLog(lines, i)| ::
              IndexOf(FlushLog(lines, i)[p].address) < IndexOf(FlushLog(lines, i)[q].address)
    decreases NUM_LINES - i
  {
    hide LineAddress, IndexOf;
    if i < NUM_LINES {
      FlushLogDistinct(lines, i + 1);
      BlockNames(0, lines[i].tag, i);
    }
  }

  /** After a flush no line is dirty and the memory alone holds every byte; the stores it made go up
      through the lines, at most one for each, and flushing again at once changes and stores nothing. */
  lemma FlushSettles(s: State)
    requires Inv(s)
    ensures var r := Flush(s);
            && AllClean(r) && FlatMemory(r.storage) == Flat(s)
            && Flush(r) == r
            && |s.log| <= |r.log| && r.log[..|s.log|] == s.log
            && (forall t | t in r.log[|s.log|..] :: t.Stored?)
            && forall p, q | |s.log| <= p < q < |r.log| :: IndexOf(r.log[p].address) < IndexOf(r.log[q].address)
  {
    hide Flat, FlatMemory, LineInv, FlushFrom, FlushLog, Held;
    var r := Flush(s);
    FlushFromKeeps(s, 0);
    FlushFlat(s);
    CleanIsMemory(r);
    TagsBounded(s);
    FlushStores(s, 0);
    FlushLogDistinct(s.lines, 0);
    CleanFlushIsNothing(r, 0);
  }

  lemma {:induction false} CleanFlushIsNothing(s: State, i: nat)
    requires |s.lines| == NUM_LINES && i <= NUM_LINES && AllClean(s)
    ensures FlushFrom(s, i) == s
    decreases NUM_LINES - i
  {
    if i < NUM_LINES {
      assert s.lines[i] in s.lines;
      CleanFlushIsNothing(s, i + 1);
    }
  }
}
