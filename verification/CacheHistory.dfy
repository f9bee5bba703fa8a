/** Hits and misses as a function of the address trace alone. */
module CacheHistory {
  import opened Words
  import opened Outcomes
  import opened CacheModel
  import opened CacheInvariants

  predicate IsAccess(op: Op)
  {
    !op.FlushAll?
  }

  /** The tag of the latest access to line `i`, if there was one. */
  function LastTag(trace: seq<Op>, i: nat): Option<nat>
    decreases |trace|
  {
    if trace == [] then None
    else
      var op := trace[|trace| - 1];
      if IsAccess(op) && IndexOf(op.address) == i then Some(TagOf(op.address))
      else LastTag(trace[..|trace| - 1], i)
  }

  /** An access after `trace` hits when the latest access with its index had its tag. */
  predicate OracleHit(trace: seq<Op>, op: Op)
  {
    IsAccess(op) && LastTag(trace, IndexOf(op.address)) == Some(TagOf(op.address))
  }

  function OracleHits(trace: seq<Op>): nat
    decreases |trace|
  {
    if trace == [] then 0
    else
      var before, op := trace[..|trace| - 1], trace[|trace| - 1];
      OracleHits(before) + (if OracleHit(before, op) then 1 else 0)
  }

  function OracleMisses(trace: seq<Op>): nat
    decreases |trace|
  {
    if trace == [] then 0
    else
      var before, op := trace[..|trace| - 1], trace[|trace| - 1];
      OracleMisses(before) + (if IsAccess(op) && !OracleHit(before, op) then 1 else 0)
  }

  function Accesses(trace: seq<Op>): nat
    decreases |trace|
  {
    if trace == [] then 0
    else Accesses(trace[..|trace| - 1]) + (if IsAccess(trace[|trace| - 1]) then 1 else 0)
  }

  /** The tags in the lines and the two wrapping counters are what the trace says. */
  ghost predicate Tracks(s: State, trace: seq<Op>)
  {
    && |s.lines| == NUM_LINES
    && (forall i | 0 <= i < NUM_LINES ::
          LastTag(trace, i) == if s.lines[i].valid then Some(s.lines[i].tag) else None)
    && s.hits == OracleHits(trace) % 0x1_0000_0000
    && s.misses == OracleMisses(trace) % 0x1_0000_0000
  }

  lemma Incremented(n: nat)
    ensures Increment(n % 0x1_0000_0000) == (n + 1) % 0x1_0000_0000
  {
  }

  lemma StepTracks(s: State, trace: seq<Op>, op: Op)
    requires Inv(s) && Tracks(s, trace)
    ensures Tracks(Step(s, op).0, trace + [op])
    ensures IsAccess(op) ==> IsHit(s, op.address) == OracleHit(trace, op)
  {
    hide IndexOf, TagOf, Held, WrittenBack, LineInv, ReadStep, WriteStep, FlushFrom, Increment;
    assert (trace + [op])[..|trace|] == trace;
    Incremented(OracleHits(trace));
    Incremented(OracleMisses(trace));
    match op
    case Read(a) => IndexBound(a); ReadIsAccess(s, a); AccessTracks(s, trace, op, None);
    case Write(a, v) => IndexBound(a); WriteIsAccess(s, a, v); AccessTracks(s, trace, op, Some(v));
    case FlushAll => FlushFromKeeps(s, 0);
  }

  lemma AccessTracks(s: State, trace: seq<Op>, op: Op, w: Option<byte>)
    requires Inv(s) && Tracks(s, trace) && IsAccess(op)
    ensures s.lines[IndexOf(op.address)].tag < 0x80_0000
    ensures Tracks(Accessed(s, op.address, w), trace + [op])
    ensures IsHit(s, op.address) == OracleHit(trace, op)
  {
    hide IndexOf, TagOf, Held, WrittenBack, Increment;
    var a := op.address;
    IndexBound(a);
    assert LineInv(s.lines[IndexOf(a)], IndexOf(a), s.storage);
    assert (trace + [op])[..|trace|] == trace;
    Incremented(OracleHits(trace));
    Incremented(OracleMisses(trace));
  }

  lemma {:induction false} RunTracks(s: State, trace: seq<Op>, ops: seq<Op>)
    requires Inv(s) && Tracks(s, trace)
    ensures Inv(Run(s, ops).0) && Tracks(Run(s, ops).0, trace + ops)
    decreases |ops|
  {
    hide Tracks, LineInv, Step;
    if ops == [] {
      assert trace + ops == trace;
    } else {
      StepTracks(s, trace, ops[0]);
      StepInv(s, ops[0]);
      RunTracks(Step(s, ops[0]).0, trace + [ops[0]], ops[1..]);
      assert trace + [ops[0]] + ops[1..] == trace + ops;
    }
  }

  lemma FreshTracks(storage: Storage)
    ensures Tracks(FreshCache(storage), [])
  {
  }

  /** The hit oracle: in every run of a fresh cache an access hits exactly when the latest earlier
      access with its index had its tag, and the counters are the oracle's counts of the trace,
      modulo 2^32. */
  lemma HitOracle(storage: Storage, trace: seq<Op>, op: Op)
    ensures var s := Run(FreshCache(storage), trace).0;
            && (IsAccess(op) ==> IsHit(s, op.address) == OracleHit(trace, op))
            && s.hits == OracleHits(trace) % 0x1_0000_0000
            && s.misses == OracleMisses(trace) % 0x1_0000_0000
  {
    hide Run, Step;
    FreshInv(storage);
    FreshTracks(storage);
    RunTracks(FreshCache(storage), [], trace);
    assert [] + trace == trace;
    StepTracks(Run(FreshCache(storage), trace).0, trace, op);
  }

  /** Every access is a hit or a miss. */
  lemma {:induction false} HitsAndMisses(trace: seq<Op>)
    ensures OracleHits(trace) + OracleMisses(trace) == Accesses(trace)
    decreases |trace|
  {
    hide OracleHit;
    if trace != [] {
      HitsAndMisses(trace[..|trace| - 1]);
      assert OracleHit(trace[..|trace| - 1], trace[|trace| - 1]) ==> IsAccess(trace[|trace| - 1]) by {
        HitIsAccess(trace[..|trace| - 1], trace[|trace| - 1]);
      }
    }
  }

  lemma HitIsAccess(trace: seq<Op>, op: Op)
    ensures OracleHit(trace, op) ==> IsAccess(op)
  {
  }

  // ---------------------------------------------------------------- flushing changes nothing

  /** Two states that differ at most in which lines are dirty and in how far memory has caught up. */
  ghost predicate Alike(s: State, t: State)
  {
    && |s.lines| == |t.lines| == NUM_LINES
    && s.hits == t.hits && s.misses == t.misses
    && (forall i | 0 <= i < NUM_LINES :: s.lines[i].(dirty := false) == t.lines[i].(dirty := false))
    && forall x :: Held(s, x) == Held(t, x)
  }

  lemma AccessAlike(s: State, t: State, a: uint32, w: Option<byte>)
    requires Inv(s) && Inv(t) && Alike(s, t)
    ensures s.lines[IndexOf(a)].tag < 0x80_0000 && t.lines[IndexOf(a)].tag < 0x80_0000
    ensures Alike(Accessed(s, a, w), Accessed(t, a, w))
  {
    hide IndexOf, TagOf, Held, WrittenBack, Increment, BlockOf;
    IndexBound(a);
    var i := IndexOf(a);
    assert LineInv(s.lines[i], i, s.storage) && LineInv(t.lines[i], i, t.storage);
    assert s.lines[i].(dirty := false) == t.lines[i].(dirty := false);
    forall x
      ensures Held(Accessed(s, a, w), x) == Held(Accessed(t, a, w), x)
    {
      AccessHeld(s, a, w, x);
      AccessHeld(t, a, w, x);
    }
  }

  lemma StepAlike(s: State, t: State, op: Op)
    requires Inv(s) && Inv(t) && Alike(s, t)
    ensures Alike(Step(s, op).0, Step(t, op).0) && Step(s, op).1 == Step(t, op).1
  {
    hide Held, LineInv, Accessed, ReadStep, WriteStep, FlushFrom;
    match op
    case Read(a) => ReadIsAccess(s, a); ReadIsAccess(t, a); AccessAlike(s, t, a, None);
    case Write(a, v) => WriteIsAccess(s, a, v); WriteIsAccess(t, a, v); AccessAlike(s, t, a, Some(v));
    case FlushAll => FlushFromKeeps(s, 0); FlushFromKeeps(t, 0);
  }

  lemma {:induction false} RunAlike(s: State, t: State, ops: seq<Op>)
    requires Inv(s) && Inv(t) && Alike(s, t)
    ensures Alike(Run(s, ops).0, Run(t, ops).0) && Run(s, ops).1 == Run(t, ops).1
    decreases |ops|
  {
    hide Alike, LineInv, Step;
    if ops != [] {
      StepAlike(s, t, ops[0]);
      StepInv(s, ops[0]);
      StepInv(t, ops[0]);
      RunAlike(Step(s, ops[0]).0, Step(t, ops[0]).0, ops[1..]);
    }
  }

  lemma {:induction false} RunConcat(s: State, a: seq<Op>, b: seq<Op>)
    requires |s.lines| == NUM_LINES
    ensures var (mid, outs) := Run(s, a);
            Run(s, a + b) == (Run(mid, b).0, outs + Run(mid, b).1)
    decreases |a|
  {
    hide Step;
    if a == [] {
      assert a + b == b && [] + Run(s, b).1 == Run(s, b).1;
    } else {
      var s', out := Step(s, a[0]).0, Step(s, a[0]).1;
      assert (a + b)[1..] == a[1..] + b;
      RunConcat(s', a[1..], b);
      var (mid, outs) := Run(s', a[1..]);
      assert [out] + (outs + Run(mid, b).1) == ([out] + outs) + Run(mid, b).1;
    }
  }

  lemma {:induction false} RunInv(s: State, ops: seq<Op>)
    requires Inv(s)
    ensures Inv(Run(s, ops).0)
    decreases |ops|
  {
    hide LineInv, Step;
    if ops != [] {
      StepInv(s, ops[0]);
      RunInv(Step(s, ops[0]).0, ops[1..]);
    }
  }

  lemma FlushIsAlike(s: State)
    requires Inv(s)
    ensures Alike(s, Flush(s))
  {
    hide Held, FlushFrom;
    FlushFromKeeps(s, 0);
  }

  lemma RunOne(s: State, op: Op)
    requires |s.lines| == NUM_LINES
    ensures Run(s, [op]) == (Step(s, op).0, [Step(s, op).1])
  {
    hide Step;
    assert [op][1..] == [];
    assert [Step(s, op).1] + [] == [Step(s, op).1];
  }

  /** A flush put anywhere into a run changes no value read before or after, no hit or miss count
      and no line's validity, tag or data. */
  lemma FlushInsertion(s: State, a: seq<Op>, b: seq<Op>)
    requires Inv(s)
    ensures var (plain, outs) := Run(s, a + b);
            var (flushed, outs') := Run(s, a + [FlushAll] + b);
            && Alike(plain, flushed)
            && outs' == outs[..|a|] + [None] + outs[|a|..]
  {
    hide Alike, LineInv, Run, Flush;
    var mid := Run(s, a).0;
    RunInv(s, a);
    RunConcat(s, a, b);
    RunConcat(s, a, [FlushAll]);
    RunConcat(s, a + [FlushAll], b);
    RunOne(mid, FlushAll);
    StepInv(mid, FlushAll);
    FlushIsAlike(mid);
    RunAlike(mid, Flush(mid), b);
  }
}
