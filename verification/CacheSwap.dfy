/** Accesses to different lines commute. */
module CacheSwap {
  import opened Words
  import opened Outcomes
  import opened CacheModel
  import opened CacheInvariants
  import opened CacheHistory

  /** Equal but for the order of past memory transfers. */
  predicate SameButLog(s: State, t: State)
  {
    s.(log := []) == t.(log := [])
  }

  function ByteWritten(op: Op): Option<byte>
  {
    if op.Write? then Some(op.value) else None
  }

  lemma StepIsAccess(s: State, op: Op)
    requires Inv(s) && IsAccess(op)
    ensures s.lines[IndexOf(op.address)].tag < 0x80_0000
    ensures Step(s, op).0 == Accessed(s, op.address, ByteWritten(op))
    ensures Step(s, op).1 == if op.Read? then Some(View(s, op.address)) else None
  {
    hide IndexOf, Accessed, ReadStep, WriteStep, View;
    IndexBound(op.address);
    assert LineInv(s.lines[IndexOf(op.address)], IndexOf(op.address), s.storage);
    match op
    case Read(a) => ReadIsAccess(s, a);
    case Write(a, v) => WriteIsAccess(s, a, v);
  }

  /** What one access reads of the state beyond the counters: its own line, and its block when it
      misses. */
  lemma AccessElsewhere(s: State, a: uint32, w: Option<byte>, b: uint32)
    requires Inv(s) && IndexOf(a) != IndexOf(b)
    ensures s.lines[IndexOf(a)].tag < 0x80_0000
    ensures var r := Accessed(s, a, w);
            && IndexOf(b) < NUM_LINES
            && r.lines[IndexOf(b)] == s.lines[IndexOf(b)]
            && Held(r, b) == Held(s, b)
            && (forall t | 0 <= t < 0x80_0000 ::
                  BlockAt(r.storage, LineAddress(t, IndexOf(b))) == BlockAt(s.storage, LineAddress(t, IndexOf(b))))
  {
    hide LineAddress, IndexOf, TagOf, BlockOf, Increment;
    IndexBound(a);
    IndexBound(b);
    var i, j := IndexOf(a), IndexOf(b);
    assert LineInv(s.lines[i], i, s.storage);
    forall t | 0 <= t < 0x80_0000
      ensures BlockAt(Accessed(s, a, w).storage, LineAddress(t, j)) == BlockAt(s.storage, LineAddress(t, j))
    {
      BlockNames(a, t, j);
      BlockNames(LineAddress(s.lines[i].tag, i), t, j);
      BlockNames(a, s.lines[i].tag, i);
    }
    BlockNames(b, TagOf(b), j);
  }

  /** The memory updates of one access, in order. */
  function Updates(s: State, a: uint32): seq<(uint32, Block)>
    requires |s.lines| == NUM_LINES && s.lines[IndexOf(a)].tag < 0x80_0000
  {
    var line := s.lines[IndexOf(a)];
    if IsHit(s, a) then []
    else
      (if line.dirty then [(LineAddress(line.tag, IndexOf(a)), line.data)] else []) +
      [(BlockOf(a), Held(s, a))]
  }

  function Apply(m: Storage, us: seq<(uint32, Block)>): Storage
    decreases |us|
  {
    if us == [] then m else Apply(m[us[0].0 := us[0].1], us[1..])
  }

  lemma AccessApplies(s: State, a: uint32, w: Option<byte>)
    requires Inv(s)
    ensures s.lines[IndexOf(a)].tag < 0x80_0000
    ensures Accessed(s, a, w).storage == Apply(s.storage, Updates(s, a))
    ensures forall u | u in Updates(s, a) :: IndexOf(u.0) == IndexOf(a)
  {
    hide LineAddress, IndexOf, TagOf, BlockOf, Increment;
    IndexBound(a);
    var i, line := IndexOf(a), s.lines[IndexOf(a)];
    assert LineInv(line, i, s.storage);
    BlockNames(a, line.tag, i);
    BlockNames(a, TagOf(a), i);
    if !IsHit(s, a) {
      EvictionKeeps(s, a);
      var load := (BlockOf(a), Held(s, a));
      if line.dirty {
        ApplyTwo(s.storage, (LineAddress(line.tag, i), line.data), load);
      } else {
        assert [] + [load] == [load];
        ApplySingle(s.storage, load);
      }
    }
  }

  lemma ApplySingle(m: Storage, u: (uint32, Block))
    ensures Apply(m, [u]) == m[u.0 := u.1]
  {
    assert [u][1..] == [];
  }

  lemma ApplyTwo(m: Storage, u: (uint32, Block), v: (uint32, Block))
    ensures Apply(m, [u] + [v]) == m[u.0 := u.1][v.0 := v.1]
  {
    assert ([u] + [v])[1..] == [v];
    ApplySingle(m[u.0 := u.1], v);
  }

  lemma {:induction false} ApplyOne(m: Storage, k: uint32, v: Block, us: seq<(uint32, Block)>)
    requires forall u | u in us :: u.0 != k
    ensures Apply(m[k := v], us) == Apply(m, us)[k := v]
    decreases |us|
  {
    if us != [] {
      var u := us[0];
      assert m[k := v][u.0 := u.1] == m[u.0 := u.1][k := v];
      ApplyOne(m[u.0 := u.1], k, v, us[1..]);
    }
  }

  lemma {:induction false} ApplyCommutes(m: Storage, us: seq<(uint32, Block)>, vs: seq<(uint32, Block)>)
    requires forall u, v | u in us && v in vs :: u.0 != v.0
    ensures Apply(Apply(m, us), vs) == Apply(Apply(m, vs), us)
    decreases |us|
  {
    if us != [] {
      ApplyCommutes(m[us[0].0 := us[0].1], us[1..], vs);
      ApplyOne(m, us[0].0, us[0].1, vs);
    }
  }

  /** Two accesses to different lines leave the same lines, memory and counters in either order,
      and each returns what it returns in the other order. */
  lemma AccessesCommute(s: State, x: Op, y: Op)
    requires Inv(s) && IsAccess(x) && IsAccess(y) && IndexOf(x.address) != IndexOf(y.address)
    ensures var (sx, ox) := Step(s, x);
            var (sy, oy) := Step(s, y);
            && SameButLog(Step(sx, y).0, Step(sy, x).0)
            && Step(sx, y).1 == oy && Step(sy, x).1 == ox
  {
    hide Step, Accessed, IndexOf, LineInv, Held;
    StepInv(s, x);
    StepInv(s, y);
    StepIsAccess(s, x);
    StepIsAccess(s, y);
    var sx, sy := Step(s, x).0, Step(s, y).0;
    StepIsAccess(sx, y);
    StepIsAccess(sy, x);
    AccessElsewhere(s, x.address, ByteWritten(x), y.address);
    AccessElsewhere(s, y.address, ByteWritten(y), x.address);
    UpdatesCommute(s, x.address, ByteWritten(x), y.address, ByteWritten(y));
  }

  lemma UpdatesCommute(s: State, a: uint32, w: Option<byte>, b: uint32, v: Option<byte>)
    requires Inv(s) && IndexOf(a) != IndexOf(b)
    requires s.lines[IndexOf(a)].tag < 0x80_0000 && s.lines[IndexOf(b)].tag < 0x80_0000
    requires Inv(Accessed(s, a, w)) && Inv(Accessed(s, b, v))
    requires Accessed(s, a, w).lines[IndexOf(b)] == s.lines[IndexOf(b)] && Held(Accessed(s, a, w), b) == Held(s, b)
    requires Accessed(s, b, v).lines[IndexOf(a)] == s.lines[IndexOf(a)] && Held(Accessed(s, b, v), a) == Held(s, a)
    ensures SameButLog(Accessed(Accessed(s, a, w), b, v), Accessed(Accessed(s, b, v), a, w))
  {
    hide IndexOf, TagOf, BlockOf, LineInv, Held, LineAddress, Increment, WrittenBack, WriteBackLog, Touch;
    IndexBound(a);
    IndexBound(b);
    var sa, sb := Accessed(s, a, w), Accessed(s, b, v);
    StorageCommutes(s, a, w, b, v);
    var i, j := IndexOf(a), IndexOf(b);
    var la, lb := sa.lines[i], sb.lines[j];
    assert sb.lines[i := la] == s.lines[j := lb][i := la] == s.lines[i := la][j := lb] == sa.lines[j := lb];
  }

  lemma StorageCommutes(s: State, a: uint32, w: Option<byte>, b: uint32, v: Option<byte>)
    requires Inv(s) && IndexOf(a) != IndexOf(b)
    requires s.lines[IndexOf(a)].tag < 0x80_0000 && s.lines[IndexOf(b)].tag < 0x80_0000
    requires Inv(Accessed(s, a, w)) && Inv(Accessed(s, b, v))
    requires Accessed(s, a, w).lines[IndexOf(b)] == s.lines[IndexOf(b)] && Held(Accessed(s, a, w), b) == Held(s, b)
    requires Accessed(s, b, v).lines[IndexOf(a)] == s.lines[IndexOf(a)] && Held(Accessed(s, b, v), a) == Held(s, a)
    ensures Accessed(Accessed(s, a, w), b, v).storage == Accessed(Accessed(s, b, v), a, w).storage
  {
    hide IndexOf, TagOf, BlockOf, LineInv, Held, LineAddress, Apply, Accessed;
    IndexBound(a);
    IndexBound(b);
    var sa, sb := Accessed(s, a, w), Accessed(s, b, v);
    AccessApplies(s, a, w);
    AccessApplies(s, b, v);
    AccessApplies(sa, b, v);
    AccessApplies(sb, a, w);
    ApplyCommutes(s.storage, Updates(s, a), Updates(s, b));
  }

  // ---------------------------------------------------------------- inside a run

  lemma StepIgnoresLog(s: State, t: State, op: Op)
    requires Inv(s) && Inv(t) && SameButLog(s, t)
    ensures SameButLog(Step(s, op).0, Step(t, op).0) && Step(s, op).1 == Step(t, op).1
  {
    hide LineInv, IndexOf, TagOf, BlockOf, Increment, LineAddress, Step;
    if IsAccess(op) {
      IndexBound(op.address);
      StepIsAccess(s, op);
      StepIsAccess(t, op);
    } else {
      FlushIgnoresLog(s, t, 0);
      FlushStepIs(s);
      FlushStepIs(t);
    }
  }

  lemma FlushStepIs(s: State)
    requires |s.lines| == NUM_LINES
    ensures Step(s, FlushAll) == (FlushFrom(s, 0), None)
  {
  }

  lemma {:induction false} FlushIgnoresLog(s: State, t: State, i: nat)
    requires Inv(s) && Inv(t) && SameButLog(s, t) && i <= NUM_LINES
    ensures SameButLog(FlushFrom(s, i), FlushFrom(t, i))
    decreases NUM_LINES - i
  {
    hide LineInv, FlushFrom, LineAddress;
    if i < NUM_LINES {
      FlushStep(s, i);
      FlushStep(t, i);
      CleanedInv(s, i);
      CleanedInv(t, i);
      FlushIgnoresLog(Cleaned(s, i), Cleaned(t, i), i + 1);
    } else {
      FlushDone(s);
      FlushDone(t);
    }
  }

  lemma {:induction false} RunIgnoresLog(s: State, t: State, ops: seq<Op>)
    requires Inv(s) && Inv(t) && SameButLog(s, t)
    ensures SameButLog(Run(s, ops).0, Run(t, ops).0) && Run(s, ops).1 == Run(t, ops).1
    decreases |ops|
  {
    hide LineInv, Step, SameButLog;
    if ops != [] {
      StepIgnoresLog(s, t, ops[0]);
      StepInv(s, ops[0]);
      StepInv(t, ops[0]);
      RunIgnoresLog(Step(s, ops[0]).0, Step(t, ops[0]).0, ops[1..]);
    }
  }

  lemma RunTwo(s: State, x: Op, y: Op)
    requires |s.lines| == NUM_LINES
    ensures var (s1, out1) := Step(s, x);
            var (s2, out2) := Step(s1, y);
            Run(s, [x, y]) == (s2, [out1, out2])
  {
    hide Step, Run;
    var (s1, out1) := Step(s, x);
    var (s2, out2) := Step(s1, y);
    RunOne(s, x);
    RunOne(s1, y);
    RunConcat(s, [x], [y]);
    assert [x] + [y] == [x, y] && [out1] + [out2] == [out1, out2];
  }

  /** Swapping two adjacent accesses to different lines anywhere in a run changes no value returned
      by any operation, and not the final lines, memory or counters. */
  lemma SwapInRun(s: State, a: seq<Op>, x: Op, y: Op, b: seq<Op>)
    requires Inv(s) && IsAccess(x) && IsAccess(y) && IndexOf(x.address) != IndexOf(y.address)
    ensures var (r, outs) := Run(s, a + [x, y] + b);
            var (r', outs') := Run(s, a + [y, x] + b);
            && SameButLog(r, r')
            && outs' == outs[..|a|] + [outs[|a| + 1], outs[|a|]] + outs[|a| + 2..]
  {
    hide LineInv, Run, Step, SameButLog, IndexOf;
    var mid := Run(s, a).0;
    RunInv(s, a);
    RunConcat(s, a, [x, y]);
    RunConcat(s, a, [y, x]);
    RunConcat(s, a + [x, y], b);
    RunConcat(s, a + [y, x], b);
    RunTwo(mid, x, y);
    RunTwo(mid, y, x);
    AccessesCommute(mid, x, y);
    RunInv(mid, [x, y]);
    RunInv(mid, [y, x]);
    RunIgnoresLog(Run(mid, [x, y]).0, Run(mid, [y, x]).0, b);
  }
}
