/** Accounting of the transfers between the cache and its memory. */
module CacheTraffic {
  import opened CacheModel
  import opened CacheInvariants
  import opened CacheHistory
  import opened CacheSwap

  function Fetches(log: seq<Transfer>): nat
  {
    if log == [] then 0 else Fetches(log[..|log| - 1]) + (if log[|log| - 1].Fetched? then 1 else 0)
  }

  function Stores(log: seq<Transfer>): nat
  {
    if log == [] then 0 else Stores(log[..|log| - 1]) + (if log[|log| - 1].Stored? then 1 else 0)
  }

  lemma CountNext(log: seq<Transfer>, t: Transfer)
    ensures Fetches(log + [t]) == Fetches(log) + (if t.Fetched? then 1 else 0)
    ensures Stores(log + [t]) == Stores(log) + (if t.Stored? then 1 else 0)
  {
    assert (log + [t])[..|log|] == log;
  }

  function DirtyCount(lines: seq<CacheLine>): nat
  {
    if lines == [] then 0 else (if lines[0].dirty then 1 else 0) + DirtyCount(lines[1..])
  }

  lemma {:induction false} DirtyUpdate(lines: seq<CacheLine>, i: nat, line: CacheLine)
    requires i < |lines|
    ensures DirtyCount(lines[i := line]) + (if lines[i].dirty then 1 else 0) ==
            DirtyCount(lines) + (if line.dirty then 1 else 0)
    decreases i
  {
    if i == 0 {
      assert lines[0 := line][1..] == lines[1..];
    } else {
      assert lines[i := line][1..] == lines[1..][i - 1 := line];
      DirtyUpdate(lines[1..], i - 1, line);
    }
  }

  /** A write that finds its line absent or clean, and so makes a line dirty. */
  predicate Dirties(s: State, op: Op)
    requires |s.lines| == NUM_LINES
  {
    op.Write? && !(IsHit(s, op.address) && s.lines[IndexOf(op.address)].dirty)
  }

  function DirtyingWrites(s: State, ops: seq<Op>): (n: nat)
    requires |s.lines| == NUM_LINES
    ensures n <= Writes(ops)
    decreases |ops|
  {
    if ops == [] then 0
    else (if Dirties(s, ops[0]) then 1 else 0) + DirtyingWrites(Step(s, ops[0]).0, ops[1..])
  }

  function Writes(ops: seq<Op>): nat
  {
    if ops == [] then 0 else (if ops[0].Write? then 1 else 0) + Writes(ops[1..])
  }

  lemma WriteBackCounts(s: State, i: nat)
    requires i < NUM_LINES == |s.lines| && s.lines[i].tag < 0x80_0000
    ensures var log := s.log + WriteBackLog(s, i);
            && Stores(log) == Stores(s.log) + (if s.lines[i].dirty then 1 else 0)
            && Fetches(log) == Fetches(s.log)
  {
    hide LineAddress, Stores, Fetches;
    if s.lines[i].dirty {
      CountNext(s.log, Stored(LineAddress(s.lines[i].tag, i)));
    } else {
      assert s.log + [] == s.log;
    }
  }

  /** The transfers of one access, in order: none on a hit; on a miss the evicted block is stored if
      it is dirty, and then the block of the address is fetched. */
  lemma AccessTransfers(s: State, op: Op)
    requires Inv(s) && IsAccess(op)
    ensures var a := op.address;
            var i := a / 64 % 8;
            var r, line := Step(s, op).0, s.lines[i];
            r.log ==
              if line.valid && line.tag == a / 512 then s.log
              else if line.dirty then s.log + [Stored(line.tag * 512 + i * 64), Fetched(a - a % 64)]
              else s.log + [Fetched(a - a % 64)]
  {
    hide Step, Held, IndexOf, TagOf, WrittenBack;
    var a, i := op.address, IndexOf(op.address);
    SplitParts(a);
    IndexBound(a);
    assert LineInv(s.lines[i], i, s.storage);
    StepIsAccess(s, op);
    var b := Fetched(BlockOf(a));
    assert s.log + [] + [b] == s.log + [b];
    assert s.log + [Stored(LineAddress(s.lines[i].tag, i))] + [b] ==
           s.log + [Stored(LineAddress(s.lines[i].tag, i)), b];
  }

  /** What one access costs: a fetch exactly on a miss, a store exactly when it evicts a dirty line. */
  lemma AccessBalance(s: State, op: Op)
    requires Inv(s) && IsAccess(op)
    ensures var r := Step(s, op).0;
            && Fetches(r.log) == Fetches(s.log) + (if IsHit(s, op.address) then 0 else 1)
            && Stores(r.log) + DirtyCount(r.lines) ==
               Stores(s.log) + DirtyCount(s.lines) + (if Dirties(s, op) then 1 else 0)
  {
    hide Step, Held, IndexOf, TagOf, BlockOf, Stores, Fetches, DirtyCount;
    hide WrittenBack, WriteBackLog, LineInv;
    var a, w := op.address, ByteWritten(op);
    var i := IndexOf(a);
    IndexBound(a);
    StepIsAccess(s, op);
    WriteBackCounts(s, i);
    CountNext(s.log + WriteBackLog(s, i), Fetched(BlockOf(a)));
    DirtyUpdate(s.lines, i, Accessed(s, a, w).lines[i]);
  }

  /** Flushing turns dirty lines into stores one for one. */
  lemma {:induction false} FlushBalance(s: State, i: nat)
    requires Inv(s) && i <= NUM_LINES
    ensures var r := FlushFrom(s, i);
            && Fetches(r.log) == Fetches(s.log)
            && Stores(r.log) + DirtyCount(r.lines) == Stores(s.log) + DirtyCount(s.lines)
    decreases NUM_LINES - i
  {
    hide FlushFrom, Held, Stores, Fetches, DirtyCount, WrittenBack, WriteBackLog, LineInv;
    if i < NUM_LINES {
      FlushStep(s, i);
      CleanedInv(s, i);
      FlushBalance(Cleaned(s, i), i + 1);
      WriteBackCounts(s, i);
      DirtyUpdate(s.lines, i, s.lines[i].(dirty := false));
    } else {
      FlushDone(s);
    }
  }

  lemma {:induction false} StoreBalance(s: State, ops: seq<Op>)
    requires Inv(s)
    ensures var r := Run(s, ops).0;
            Stores(r.log) + DirtyCount(r.lines) ==
            Stores(s.log) + DirtyCount(s.lines) + DirtyingWrites(s, ops)
    decreases |ops|
  {
    hide Step, Stores, DirtyCount, LineInv, Dirties;
    if ops != [] {
      var op, s' := ops[0], Step(s, ops[0]).0;
      StepInv(s, op);
      StoreBalance(s', ops[1..]);
      if IsAccess(op) {
        AccessBalance(s, op);
      } else {
        FlushStepBalance(s, op);
      }
    }
  }

  lemma FlushStepBalance(s: State, op: Op)
    requires Inv(s) && !IsAccess(op)
    ensures var r := Step(s, op).0;
            && Fetches(r.log) == Fetches(s.log)
            && Stores(r.log) + DirtyCount(r.lines) == Stores(s.log) + DirtyCount(s.lines)
            && !Dirties(s, op)
  {
    hide FlushFrom, Stores, Fetches, DirtyCount, LineInv;
    FlushBalance(s, 0);
  }

  lemma {:induction false} FetchBalance(s: State, trace: seq<Op>, ops: seq<Op>)
    requires Inv(s) && Tracks(s, trace)
    ensures Fetches(Run(s, ops).0.log) + OracleMisses(trace) ==
            Fetches(s.log) + OracleMisses(trace + ops)
    decreases |ops|
  {
    hide Step, Fetches, LineInv, Tracks, OracleHit;
    if ops == [] {
      assert trace + ops == trace;
    } else {
      var op, s' := ops[0], Step(s, ops[0]).0;
      StepInv(s, op);
      StepTracks(s, trace, op);
      FetchBalance(s', trace + [op], ops[1..]);
      assert trace + [op] + ops[1..] == trace + ops;
      assert (trace + [op])[..|trace|] == trace;
      if IsAccess(op) {
        AccessBalance(s, op);
      } else {
        FlushStepBalance(s, op);
        HitIsAccess(trace, op);
      }
    }
  }

  lemma FreshCounts(storage: Storage)
    ensures DirtyCount(FreshCache(storage).lines) == 0 && FreshCache(storage).log == []
  {
    CleanCount(EmptyLines());
  }

  lemma {:induction false} CleanCount(lines: seq<CacheLine>)
    requires forall line | line in lines :: !line.dirty
    ensures DirtyCount(lines) == 0
  {
    if lines != [] {
      assert lines[0] in lines;
      CleanCount(lines[1..]);
    }
  }

  /** Over every run of a fresh cache: lines fetched are exactly the misses; stores made plus lines
      still dirty are exactly the writes that found their line absent or clean, hence at most the
      writes; and the two wrapping counters add up to the accesses. */
  lemma TrafficAccounting(storage: Storage, ops: seq<Op>)
    ensures var s := FreshCache(storage);
            var r := Run(s, ops).0;
            && Fetches(r.log) == OracleMisses(ops)
            && Stores(r.log) + DirtyCount(r.lines) == DirtyingWrites(s, ops) <= Writes(ops)
            && (r.hits + r.misses) % 0x1_0000_0000 == Accesses(ops) % 0x1_0000_0000
  {
    hide Run, DirtyingWrites, DirtyCount, LineInv, OracleHits, Accesses;
    var s := FreshCache(storage);
    FreshInv(storage);
    FreshTracks(storage);
    FreshCounts(storage);
    StoreBalance(s, ops);
    FetchBalance(s, [], ops);
    RunTracks(s, [], ops);
    assert [] + ops == ops;
    HitsAndMisses(ops);
    AddWrapped(OracleHits(ops), OracleMisses(ops));
  }

  lemma AddWrapped(a: nat, b: nat)
    ensures (a % 0x1_0000_0000 + b % 0x1_0000_0000) % 0x1_0000_0000 == (a + b) % 0x1_0000_0000
  {
  }
}
