/** The invariant of the cache, and each operation's effect on what the cache holds for an address. */
module CacheInvariants {
  import opened Words
  import opened Outcomes
  import opened CacheAddresses
  import opened CacheModel

  function IndexOf(a: uint32): nat
  {
    SplitAddress(a).index
  }

  function TagOf(a: uint32): nat
  {
    SplitAddress(a).tag
  }

  /** Where the block of line `i` with tag `t` lives in memory. */
  function LineAddress(t: nat, i: nat): (b: uint32)
    requires t < 0x80_0000 && i < NUM_LINES
    ensures b % 64 == 0
  {
    t * 512 + i * 64
  }

  /** It is what the codec joins tag and index to. */
  lemma LineAddressIsJoin(t: nat, i: nat)
    requires t < 0x80_0000 && i < NUM_LINES
    ensures JoinAddress(t, i, 0) == LineAddress(t, i)
  {
    hide JoinAddress;
    JoinInRange(t, i, 0);
  }

  /** The codec splits an address by its tag, index and offset in a block. */
  lemma SplitParts(a: uint32)
    ensures SplitAddress(a) == AddressFields(TagOf(a), IndexOf(a), a % 64)
    ensures TagOf(a) == a / 512 && IndexOf(a) == a / 64 % 8
    ensures BlockOf(a) == a - SplitAddress(a).offset
  {
  }

  lemma SameParts(x: uint32, a: uint32)
    requires BlockOf(x) == BlockOf(a)
    ensures IndexOf(x) == IndexOf(a) && TagOf(x) == TagOf(a)
  {
    assert x / 64 == a / 64;
    assert x / 512 == x / 64 / 8 && a / 512 == a / 64 / 8;
  }

  /** Tag and index name a block. */
  lemma BlockNames(a: uint32, t: nat, i: nat)
    requires t < 0x80_0000 && i < NUM_LINES
    ensures TagOf(a) < 0x80_0000 && IndexOf(a) < NUM_LINES
    ensures LineAddress(t, i) == BlockOf(a) <==> t == TagOf(a) && i == IndexOf(a)
    ensures IndexOf(LineAddress(t, i)) == i && TagOf(LineAddress(t, i)) == t
  {
    Recombine(a);
    Separate(t, i, 0);
    Separate(TagOf(a), IndexOf(a), 0);
  }

  /** Dirty lines are valid, a valid clean line equals its memory block and stored tags have 23
      bits. Nothing is asked of the memory's keys. */
  ghost predicate Inv(s: State)
  {
    && |s.lines| == NUM_LINES
    && (forall i | 0 <= i < NUM_LINES :: LineInv(s.lines[i], i, s.storage))
  }

  predicate LineInv(line: CacheLine, i: nat, storage: Storage)
    requires i < NUM_LINES
  {
    && line.tag < 0x80_0000
    && (line.dirty ==> line.valid)
    && (line.valid && !line.dirty ==> line.data == BlockAt(storage, LineAddress(line.tag, i)))
  }

  predicate IsHit(s: State, a: uint32)
    requires |s.lines| == NUM_LINES
  {
    s.lines[IndexOf(a)].valid && s.lines[IndexOf(a)].tag == TagOf(a)
  }

  /** The block an address would be served from: its line if it is there, else memory. */
  function Held(s: State, a: uint32): Block
    requires |s.lines| == NUM_LINES
  {
    if IsHit(s, a) then s.lines[IndexOf(a)].data else BlockAt(s.storage, BlockOf(a))
  }

  /** The byte the cache and its memory together hold at an address. */
  function View(s: State, a: uint32): byte
    requires |s.lines| == NUM_LINES
  {
    Held(s, a)[a % 64]
  }

  /** Memory after line `i` has been written back if it needs to be. */
  function WrittenBack(s: State, i: nat): Storage
    requires i < NUM_LINES == |s.lines| && s.lines[i].tag < 0x80_0000
  {
    if s.lines[i].dirty then s.storage[LineAddress(s.lines[i].tag, i) := s.lines[i].data] else s.storage
  }

  function WriteBackLog(s: State, i: nat): seq<Transfer>
    requires i < NUM_LINES == |s.lines| && s.lines[i].tag < 0x80_0000
  {
    if s.lines[i].dirty then [Stored(LineAddress(s.lines[i].tag, i))] else []
  }

  /** One access as one update of its line, with the byte written if it is a write. */
  function Accessed(s: State, a: uint32, w: Option<byte>): (r: State)
    requires |s.lines| == NUM_LINES && s.lines[IndexOf(a)].tag < 0x80_0000
    ensures |r.lines| == NUM_LINES
  {
    var i, held := IndexOf(a), Held(s, a);
    var data := if w.Some? then held[a % 64 := w.value] else held;
    if IsHit(s, a) then
      State(s.lines[i := CacheLine(true, w.Some? || s.lines[i].dirty, TagOf(a), data)],
            s.storage, Increment(s.hits), s.misses, s.log)
    else
      State(s.lines[i := CacheLine(true, w.Some?, TagOf(a), data)],
            Touch(WrittenBack(s, i), BlockOf(a)), s.hits, Increment(s.misses),
            s.log + WriteBackLog(s, i) + [Fetched(BlockOf(a))])
  }

  /** On a miss the evicted block is not the block being fetched. */
  lemma EvictionKeeps(s: State, a: uint32)
    requires Inv(s) && !IsHit(s, a)
    ensures BlockAt(WrittenBack(s, IndexOf(a)), BlockOf(a)) == BlockAt(s.storage, BlockOf(a))
  {
    hide LineAddress, BlockOf, TagOf, IndexOf;
    assert IndexOf(a) < NUM_LINES by { IndexBound(a); }
    var line := s.lines[IndexOf(a)];
    assert LineInv(line, IndexOf(a), s.storage);
    BlockNames(a, line.tag, IndexOf(a));
  }

  lemma IndexBound(a: uint32)
    ensures IndexOf(a) < NUM_LINES && TagOf(a) < 0x80_0000
  {
  }

  lemma StoreIs(s: State, b: uint32, data: Block)
    ensures s.Store(b, data) == s.(storage := s.storage[b := data], log := s.log + [Stored(b)])
  {
    assert Touch(s.storage, b)[b := data] == s.storage[b := data];
  }

  /** Evicting a line writes it back if it is dirty and leaves it invalid and clean. */
  lemma EvictIs(s: State, i: nat)
    requires i < NUM_LINES == |s.lines| && s.lines[i].tag < 0x80_0000
    ensures Evict(s, i) == State(s.lines[i := s.lines[i].(valid := false, dirty := false)], WrittenBack(s, i),
                                 s.hits, s.misses, s.log + WriteBackLog(s, i))
  {
    hide JoinAddress, LineAddress, Touch;
    LineAddressIsJoin(s.lines[i].tag, i);
    StoreIs(s, LineAddress(s.lines[i].tag, i), s.lines[i].data);
    assert s.log + [] == s.log;
  }

  /** A read is an access that writes nothing and returns the byte held. */
  lemma ReadIsAccess(s: State, a: uint32)
    requires Inv(s)
    ensures ReadStep(s, a) == (Accessed(s, a, None), View(s, a))
  {
    hide SplitAddress, LineAddress, BlockOf, TagOf, IndexOf, BlockAt, Increment, Evict;
    SplitParts(a);
    IndexBound(a);
    var i, line := IndexOf(a), s.lines[IndexOf(a)];
    assert LineInv(line, i, s.storage);
    EvictIs(s, i);
    assert s.log + [] == s.log;
    if IsHit(s, a) {
      assert s.lines[i := line] == s.lines;
    } else {
      EvictionKeeps(s, a);
      var loaded := CacheLine(true, false, TagOf(a), Held(s, a));
      assert s.lines[i := line.(valid := false, dirty := false)][i := loaded] == s.lines[i := loaded];
    }
  }

  /** A write is an access that stores its byte into the line and leaves it dirty. */
  lemma WriteIsAccess(s: State, a: uint32, v: byte)
    requires Inv(s)
    ensures WriteStep(s, a, v) == Accessed(s, a, Some(v))
  {
    hide SplitAddress, LineAddress, BlockOf, TagOf, IndexOf, BlockAt, Increment, Evict;
    SplitParts(a);
    IndexBound(a);
    var i, line := IndexOf(a), s.lines[IndexOf(a)];
    assert LineInv(line, i, s.storage);
    EvictIs(s, i);
    assert s.log + [] == s.log;
    if !IsHit(s, a) {
      EvictionKeeps(s, a);
    }
  }

  /** An access keeps the invariant. */
  lemma AccessInv(s: State, a: uint32, w: Option<byte>)
    requires Inv(s)
    ensures Inv(Accessed(s, a, w))
  {
    hide LineAddress, BlockOf, TagOf, IndexOf;
    IndexBound(a);
    var r, i := Accessed(s, a, w), IndexOf(a);
    assert LineInv(s.lines[i], i, s.storage);
    BlockNames(a, s.lines[i].tag, i);
    BlockNames(a, TagOf(a), i);
    if !IsHit(s, a) {
      EvictionKeeps(s, a);
    }
    forall j | 0 <= j < NUM_LINES
      ensures LineInv(r.lines[j], j, r.storage)
    {
      assert LineInv(s.lines[j], j, s.storage);
      if j != i {
        BlockNames(a, s.lines[j].tag, j);
        BlockNames(LineAddress(s.lines[i].tag, i), s.lines[j].tag, j);
      }
    }
  }

  /** An access changes what is held for its own block by the byte written, and for no other. */
  lemma AccessHeld(s: State, a: uint32, w: Option<byte>, x: uint32)
    requires Inv(s)
    ensures Held(Accessed(s, a, w), x) ==
            if w.Some? && BlockOf(x) == BlockOf(a) then Held(s, a)[a % 64 := w.value] else Held(s, x)
  {
    hide LineAddress, BlockOf, TagOf, IndexOf;
    IndexBound(a);
    IndexBound(x);
    var i, j := IndexOf(a), IndexOf(x);
    assert LineInv(s.lines[i], i, s.storage) && LineInv(s.lines[j], j, s.storage);
    BlockNames(x, s.lines[i].tag, i);
    BlockNames(x, TagOf(a), i);
    BlockNames(a, TagOf(a), i);
    if !IsHit(s, a) {
      EvictionKeeps(s, a);
    }
  }

  // ---------------------------------------------------------------- flushing

  /** What the flush loop does at line `i`. */
  function Cleaned(s: State, i: nat): (r: State)
    requires i < NUM_LINES == |s.lines| && s.lines[i].tag < 0x80_0000
    ensures |r.lines| == NUM_LINES
  {
    State(s.lines[i := s.lines[i].(dirty := false)], WrittenBack(s, i), s.hits, s.misses,
          s.log + WriteBackLog(s, i))
  }

  lemma FlushStep(s: State, i: nat)
    requires Inv(s) && i < NUM_LINES
    ensures s.lines[i].tag < 0x80_0000
    ensures FlushFrom(s, i) == FlushFrom(Cleaned(s, i), i + 1)
  {
    hide JoinAddress, LineAddress, BlockAt, Touch;
    assert LineInv(s.lines[i], i, s.storage);
    LineAddressIsJoin(s.lines[i].tag, i);
    StoreIs(s, LineAddress(s.lines[i].tag, i), s.lines[i].data);
    if !s.lines[i].dirty {
      assert s.lines[i := s.lines[i].(dirty := false)] == s.lines;
      assert s.log + [] == s.log;
    }
  }

  lemma CleanedInv(s: State, i: nat)
    requires Inv(s) && i < NUM_LINES
    ensures s.lines[i].tag < 0x80_0000 && Inv(Cleaned(s, i))
    ensures forall x :: Held(Cleaned(s, i), x) == Held(s, x)
  {
    hide LineAddress, BlockOf, TagOf, IndexOf;
    assert LineInv(s.lines[i], i, s.storage);
    var r := Cleaned(s, i);
    var b := LineAddress(s.lines[i].tag, i);
    BlockNames(0, s.lines[i].tag, i);
    forall j | 0 <= j < NUM_LINES
      ensures LineInv(r.lines[j], j, r.storage)
    {
      assert LineInv(s.lines[j], j, s.storage);
      BlockNames(b, s.lines[j].tag, j);
    }
    forall x
      ensures Held(r, x) == Held(s, x)
    {
      IndexBound(x);
      BlockNames(x, s.lines[i].tag, i);
    }
  }

  /** Flushing keeps the invariant and what is held; it only turns lines clean. */
  lemma {:induction false} FlushFromKeeps(s: State, i: nat)
    requires Inv(s) && i <= NUM_LINES
    ensures var r := FlushFrom(s, i);
            && Inv(r)
            && (forall x :: Held(r, x) == Held(s, x))
            && r.hits == s.hits && r.misses == s.misses
            && forall j | 0 <= j < NUM_LINES ::
                 r.lines[j] == if j < i then s.lines[j] else s.lines[j].(dirty := false)
    decreases NUM_LINES - i
  {
    hide Held, LineInv, FlushFrom, WrittenBack, WriteBackLog;
    if i < NUM_LINES {
      FlushStep(s, i);
      CleanedInv(s, i);
      FlushFromKeeps(Cleaned(s, i), i + 1);
    } else {
      FlushDone(s);
    }
  }

  lemma FlushDone(s: State)
    requires |s.lines| == NUM_LINES
    ensures FlushFrom(s, NUM_LINES) == s
  {
  }

  /** Every operation keeps the invariant. */
  lemma StepInv(s: State, op: Op)
    requires Inv(s)
    ensures Inv(Step(s, op).0)
  {
    hide Inv, ReadStep, WriteStep, FlushFrom, Accessed;
    match op
    case Read(a) => ReadIsAccess(s, a); AccessInv(s, a, None);
    case Write(a, v) => WriteIsAccess(s, a, v); AccessInv(s, a, Some(v));
    case FlushAll => FlushFromKeeps(s, 0);
  }

  /** Every key an operation adds to the memory is a line address, whatever keys were there; so a
      memory whose keys are multiples of 64 stays one. No key is lost, and a miss leaves the block
      of its address in the memory. */
  lemma StepKeys(s: State, op: Op)
    requires Inv(s)
    ensures forall k | k in Step(s, op).0.storage :: k in s.storage || k % 64 == 0
    ensures AlignedKeys(s.storage) ==> AlignedKeys(Step(s, op).0.storage)
    ensures s.storage.Keys <= Step(s, op).0.storage.Keys
    ensures !op.FlushAll? && !IsHit(s, op.address) ==> BlockOf(op.address) in Step(s, op).0.storage
  {
    hide ReadStep, WriteStep, FlushFrom, Accessed, LineInv;
    match op
    case Read(a) => ReadIsAccess(s, a); AccessKeys(s, a, None);
    case Write(a, v) => WriteIsAccess(s, a, v); AccessKeys(s, a, Some(v));
    case FlushAll => FlushKeys(s, 0);
  }

  lemma AccessKeys(s: State, a: uint32, w: Option<byte>)
    requires Inv(s)
    ensures s.lines[IndexOf(a)].tag < 0x80_0000
    ensures forall k | k in Accessed(s, a, w).storage :: k in s.storage || k % 64 == 0
    ensures s.storage.Keys <= Accessed(s, a, w).storage.Keys
    ensures !IsHit(s, a) ==> BlockOf(a) in Accessed(s, a, w).storage
  {
    hide IndexOf, TagOf, Held, LineAddress, BlockOf;
    IndexBound(a);
    assert LineInv(s.lines[IndexOf(a)], IndexOf(a), s.storage);
  }

  lemma {:induction false} FlushKeys(s: State, i: nat)
    requires Inv(s) && i <= NUM_LINES
    ensures forall k | k in FlushFrom(s, i).storage :: k in s.storage || k % 64 == 0
    ensures s.storage.Keys <= FlushFrom(s, i).storage.Keys
    decreases NUM_LINES - i
  {
    hide LineInv, FlushFrom, LineAddress;
    if i < NUM_LINES {
      FlushStep(s, i);
      CleanedInv(s, i);
      FlushKeys(Cleaned(s, i), i + 1);
    } else {
      FlushDone(s);
    }
  }

  lemma FreshInv(storage: Storage)
    ensures Inv(FreshCache(storage))
  {
  }
}
