/** The state of the direct-mapped cache and its backing memory, and what each operation does. */
module CacheModel {
  import opened Words
  import opened Outcomes
  import opened CacheAddresses

  const LINE_SIZE := 64
  const NUM_LINES := 8

  /** The contents of one line. */
  type Block = b: seq<byte> | |b| == LINE_SIZE witness seq(LINE_SIZE, (i: nat) => 0)

  function ZeroBlock(): Block
  {
    seq(LINE_SIZE, (i: nat) => 0)
  }

  type Storage = map<uint32, Block>

  /** Blocks never stored read as zeros. */
  function BlockAt(storage: Storage, address: uint32): Block
  {
    if address in storage then storage[address] else ZeroBlock()
  }

  /** Looking a block up inserts it. */
  function Touch(storage: Storage, address: uint32): Storage
  {
    storage[address := BlockAt(storage, address)]
  }

  /** Keys are line addresses. */
  predicate AlignedKeys(storage: Storage)
  {
    forall a | a in storage :: a % 64 == 0
  }

  /** The block an address lies in. */
  function BlockOf(address: uint32): (b: uint32)
    ensures b % 64 == 0 && b <= address < b + 64
  {
    address - address % 64
  }

  /** Block and offset identify a byte. */
  lemma SameByte(x: uint32, a: uint32)
    ensures BlockOf(x) == BlockOf(a) && x % 64 == a % 64 <==> x == a
  {
  }

  function MemoryByte(storage: Storage, address: uint32): byte
  {
    BlockAt(storage, BlockOf(address))[address % 64]
  }

  /** A byte of a block never stored is zero. */
  lemma UnstoredIsZero(storage: Storage, a: uint32)
    requires BlockOf(a) !in storage
    ensures MemoryByte(storage, a) == 0
  {
  }

  datatype CacheLine = CacheLine(valid: bool, dirty: bool, tag: uint32, data: Block)

  /** Line transfers between the cache and the memory, in order. */
  datatype Transfer = Fetched(address: uint32) | Stored(address: uint32)

  datatype State = State(lines: seq<CacheLine>, storage: Storage, hits: uint32, misses: uint32, log: seq<Transfer>)
  {
    function Store(address: uint32, data: Block): State {
      this.(storage := Touch(storage, address)[address := data], log := log + [Stored(address)])
    }

    function Fetch(address: uint32): State {
      this.(storage := Touch(storage, address), log := log + [Fetched(address)])
    }
  }

  const EMPTY_LINE := CacheLine(false, false, 0, ZeroBlock())

  function EmptyLines(): (ls: seq<CacheLine>)
    ensures |ls| == NUM_LINES
  {
    seq(NUM_LINES, (i: nat) => EMPTY_LINE)
  }

  /** A cache just constructed over a memory. */
  function FreshCache(storage: Storage): State
  {
    State(EmptyLines(), storage, 0, 0, [])
  }

  function Increment(n: uint32): uint32
  {
    (n + 1) % 0x1_0000_0000
  }

  // ---------------------------------------------------------------- operations

  function Evict(s: State, index: nat): (r: State)
    requires index < |s.lines|
    ensures |r.lines| == |s.lines|
  {
    var line := s.lines[index];
    var stored := if line.dirty then s.Store(JoinAddress(line.tag, index, 0), line.data) else s;
    stored.(lines := s.lines[index := line.(valid := false, dirty := false)])
  }

  function ReadStep(s: State, address: uint32): (r: (State, byte))
    requires |s.lines| == NUM_LINES
    ensures |r.0.lines| == NUM_LINES
  {
    var f := SplitAddress(address);
    var line := s.lines[f.index];
    if line.valid && line.tag == f.tag then
      (s.(hits := Increment(s.hits)), line.data[f.offset])
    else
      var evicted := if line.valid then Evict(s, f.index) else s;
      var fetched := evicted.(misses := Increment(s.misses)).Fetch(address - f.offset);
      var data := BlockAt(evicted.storage, address - f.offset);
      (fetched.(lines := fetched.lines[f.index := CacheLine(true, false, f.tag, data)]), data[f.offset])
  }

  function WriteStep(s: State, address: uint32, value: byte): (r: State)
    requires |s.lines| == NUM_LINES
    ensures |r.lines| == NUM_LINES
  {
    var f := SplitAddress(address);
    var line := s.lines[f.index];
    var ready :=
      if line.valid && line.tag == f.tag then
        s.(hits := Increment(s.hits))
      else
        var evicted := if line.valid then Evict(s, f.index) else s;
        var fetched := evicted.(misses := Increment(s.misses)).Fetch(address - f.offset);
        var data := BlockAt(evicted.storage, address - f.offset);
        fetched.(lines := fetched.lines[f.index :=
          fetched.lines[f.index].(data := data, valid := true, tag := f.tag)]);
    var held := ready.lines[f.index];
    ready.(lines := ready.lines[f.index := held.(data := held.data[f.offset := value], dirty := true)])
  }

  /** Write-back of the lines from `i` on. */
  function FlushFrom(s: State, i: nat): (r: State)
    requires i <= NUM_LINES == |s.lines|
    ensures |r.lines| == NUM_LINES
    decreases NUM_LINES - i
  {
    if i == NUM_LINES then s
    else
      var line := s.lines[i];
      if line.valid && line.dirty then
        var stored := s.Store(JoinAddress(line.tag, i, 0), line.data);
        FlushFrom(stored.(lines := s.lines[i := line.(dirty := false)]), i + 1)
      else
        FlushFrom(s, i + 1)
  }

  function Flush(s: State): State
    requires |s.lines| == NUM_LINES
  {
    FlushFrom(s, 0)
  }

  // ---------------------------------------------------------------- runs

  datatype Op = Read(address: uint32) | Write(address: uint32, value: byte) | FlushAll

  /** The next state and, for a read, the byte returned. */
  function Step(s: State, op: Op): (r: (State, Option<byte>))
    requires |s.lines| == NUM_LINES
    ensures |r.0.lines| == NUM_LINES
  {
    match op
    case Read(a) => var (s', b) := ReadStep(s, a); (s', Some(b))
    case Write(a, v) => (WriteStep(s, a, v), None)
    case FlushAll => (Flush(s), None)
  }

  /** The final state and what each operation returned. */
  function Run(s: State, ops: seq<Op>): (r: (State, seq<Option<byte>>))
    requires |s.lines| == NUM_LINES
    ensures |r.0.lines| == NUM_LINES && |r.1| == |ops|
    decreases |ops|
  {
    if ops == [] then (s, [])
    else
      var (s', out) := Step(s, ops[0]);
      var (final, outs) := Run(s', ops[1..]);
      (final, [out] + outs)
  }
}
