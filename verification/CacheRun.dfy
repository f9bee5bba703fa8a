/** Running the cache itself: the classes, the bit codec under them, and the law of runs together. */
module CacheRuns {
  import opened Words
  import opened Outcomes
  import opened CacheModel
  import opened CacheInvariants
  import opened CacheTransparency
  import opened BackingMemories
  import opened DirectMapCaches

  /** A cache over a memory, given any operations and a last flush: it answers as a flat memory of
      the same initial bytes would, and leaves exactly that memory's final bytes behind. Every
      address is taken apart and put together by the bit loops of a reader and a writer. */
  method RunAndFlush(memory: BackingMemory, ops: seq<Op>) returns (outs: seq<Option<byte>>)
    modifies memory
    ensures (FlatMemory(memory.storage), outs) == FlatRun(FlatMemory(old(memory.storage)), ops)
  {
    hide Flat, FlatMemory, FlatStep, FlatRun, Later, Inv, Step, CacheModel.Flush, MemoryByte;
    ghost var before := FlatMemory(memory.storage);
    var cache := new DirectMapCache(memory);
    FreshOver(memory.storage, memory.log);
    outs := [];
    LaterAll(before, ops);
    assert ops[0..] == ops;
    for i := 0 to |ops|
      invariant cache.Valid() && fresh(cache) && fresh(cache.lines) && cache.memory == memory
      invariant Inv(cache.View())
      invariant FlatRun(before, ops) == Later(Flat(cache.View()), ops[i..], outs)
    {
      StepTransparent(cache.View(), ops[i]);
      LaterStep(Flat(cache.View()), ops, i, outs);
      var out := Perform(cache, ops[i]);
      outs := outs + [out];
    }
    LaterAll(Flat(cache.View()), []);
    assert ops[|ops|..] == [];
    FlushSettles(cache.View());
    cache.Flush();
  }

  /** All bytes of a memory nothing was ever stored in. */
  function ZeroMemory(): (m: seq<byte>)
    ensures |m| == SIZE
  {
    seq(SIZE, (a: nat) => 0)
  }

  /** A flat memory after a list of byte writes. */
  function Loaded(m: seq<byte>, bytes: seq<(uint32, byte)>): (r: seq<byte>)
    requires |m| == SIZE
    ensures |r| == SIZE
    decreases |bytes|
  {
    if bytes == [] then m
    else
      var last := bytes[|bytes| - 1];
      Loaded(m, bytes[..|bytes| - 1])[last.0 := last.1]
  }

  /** The simulation from nothing: a new memory with some bytes loaded into it, any operations through
      a cache over it, and a last flush. It answers as 2^32 bytes of zeros with those bytes written
      into them would, and leaves the same bytes behind. */
  method Simulate(bytes: seq<(uint32, byte)>, ops: seq<Op>)
    returns (memory: BackingMemory, outs: seq<Option<byte>>)
    ensures fresh(memory)
    ensures (FlatMemory(memory.storage), outs) == FlatRun(Loaded(ZeroMemory(), bytes), ops)
  {
    hide FlatMemory, FlatRun, Loaded, MemoryByte;
    memory := new BackingMemory();
    NewMemory(memory.storage);
    LoadedNext(ZeroMemory(), bytes, 0);
    for i := 0 to |bytes|
      invariant fresh(memory)
      invariant FlatMemory(memory.storage) == Loaded(ZeroMemory(), bytes[..i])
    {
      ghost var before := memory.storage;
      memory.WriteByte(bytes[i].0, bytes[i].1);
      OneByte(before, memory.storage, bytes[i].0, bytes[i].1);
      LoadedNext(ZeroMemory(), bytes, i);
    }
    assert bytes[..|bytes|] == bytes;
    outs := RunAndFlush(memory, ops);
  }

  lemma NewMemory(storage: Storage)
    requires forall a: uint32 :: MemoryByte(storage, a) == 0
    ensures FlatMemory(storage) == ZeroMemory()
  {
    hide MemoryByte;
  }

  lemma OneByte(before: Storage, after: Storage, x: uint32, v: byte)
    requires forall a: uint32 :: MemoryByte(after, a) == if a == x then v else MemoryByte(before, a)
    ensures FlatMemory(after) == FlatMemory(before)[x := v]
  {
    hide MemoryByte;
  }

  lemma LoadedNext(m: seq<byte>, bytes: seq<(uint32, byte)>, i: nat)
    requires |m| == SIZE && i <= |bytes|
    ensures Loaded(m, bytes[..0]) == m
    ensures i < |bytes| ==> Loaded(m, bytes[..i + 1]) == Loaded(m, bytes[..i])[bytes[i].0 := bytes[i].1]
  {
    if i < |bytes| {
      assert bytes[..i + 1][..i] == bytes[..i];
    }
  }

  /** One operation on the class is one step of the model. */
  method Perform(cache: DirectMapCache, op: Op) returns (out: Option<byte>)
    requires cache.Valid()
    modifies cache, cache.lines, cache.memory
    ensures cache.Valid() && cache.lines == old(cache.lines)
    ensures (cache.View(), out) == Step(old(cache.View()), op)
  {
    hide ReadStep, WriteStep, CacheModel.Flush;
    out := None;
    match op
    case Read(a) =>
      var value := cache.Read(a);
      out := Some(value);
    case Write(a, v) => cache.Write(a, v);
    case FlushAll => cache.Flush();
  }

  /** What a run that has returned `outs` goes on to return. */
  function Later(m: seq<byte>, ops: seq<Op>, outs: seq<Option<byte>>): (seq<byte>, seq<Option<byte>>)
    requires |m| == SIZE
  {
    (FlatRun(m, ops).0, outs + FlatRun(m, ops).1)
  }

  lemma LaterStep(m: seq<byte>, ops: seq<Op>, i: nat, outs: seq<Option<byte>>)
    requires |m| == SIZE && i < |ops|
    ensures var (m', out) := FlatStep(m, ops[i]);
            Later(m, ops[i..], outs) == Later(m', ops[i + 1..], outs + [out])
  {
    hide FlatStep;
    assert ops[i..][0] == ops[i] && ops[i..][1..] == ops[i + 1..];
    var (m', out) := FlatStep(m, ops[i]);
    assert outs + ([out] + FlatRun(m', ops[i + 1..]).1) == outs + [out] + FlatRun(m', ops[i + 1..]).1;
  }

  lemma LaterAll(m: seq<byte>, ops: seq<Op>)
    requires |m| == SIZE
    ensures FlatRun(m, ops) == Later(m, ops, [])
    ensures forall outs :: Later(m, [], outs) == (m, outs)
  {
    assert [] + FlatRun(m, ops).1 == FlatRun(m, ops).1;
    forall outs: seq<Option<byte>>
      ensures Later(m, [], outs) == (m, outs)
    {
      assert outs + [] == outs;
    }
  }

  lemma FreshOver(storage: Storage, log: seq<Transfer>)
    ensures Inv(FreshCache(storage).(log := log))
    ensures Flat(FreshCache(storage).(log := log)) == FlatMemory(storage)
  {
    hide FlatMemory;
    FreshInv(storage);
    FreshFlat(storage);
    assert Flat(FreshCache(storage).(log := log)) == Flat(FreshCache(storage));
  }
}
