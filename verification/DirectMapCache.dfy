/** The direct-mapped write-back, write-allocate cache. */
module DirectMapCaches {
  import opened Words
  import opened CacheAddresses
  import opened CacheModel
  import opened BackingMemories

  class DirectMapCache {
    var lines: array<CacheLine>
    const memory: BackingMemory
    var hits: uint32
    var misses: uint32

    ghost predicate Valid()
      reads this
    {
      lines.Length == NUM_LINES
    }

    ghost function View(): (s: State)
      reads this, lines, memory
      ensures Valid() ==> |s.lines| == NUM_LINES
    {
      State(lines[..], memory.storage, hits, misses, memory.log)
    }

    constructor (memory: BackingMemory)
      ensures Valid() && this.memory == memory && fresh(lines)
      ensures View() == FreshCache(memory.storage).(log := memory.log)
      ensures hits == 0 && misses == 0
      ensures forall i | 0 <= i < NUM_LINES ::
                && !lines[i].valid && !lines[i].dirty && lines[i].tag == 0
                && forall j | 0 <= j < LINE_SIZE :: lines[i].data[j] == 0
    {
      this.memory := memory;
      lines := new CacheLine[NUM_LINES](_ => EMPTY_LINE);
      hits, misses := 0, 0;
    }

    method Read(address: uint32) returns (value: byte)
      requires Valid()
      modifies this, lines, memory
      ensures Valid() && lines == old(lines)
      ensures (View(), value) == ReadStep(old(View()), address)
    {
      hide SplitAddress, JoinAddress, BlockAt, Touch, Increment, CacheModel.Evict;
      var f := DeserializeAddress(address);
      var index := f.index;
      var lineAddr := address - f.offset;
      if lines[index].valid && lines[index].tag == f.tag {
        hits := Increment(hits);
        return lines[index].data[f.offset];
      }
      if lines[index].valid {
        Evict(index);
      }
      ghost var before := lines[..];
      misses := Increment(misses);
      var data := memory.FetchLine(lineAddr);
      lines[index] := lines[index].(data := data);
      lines[index] := lines[index].(valid := true);
      lines[index] := lines[index].(dirty := false);
      lines[index] := lines[index].(tag := f.tag);
      assert lines[..] == before[index := CacheLine(true, false, f.tag, data)];
      return lines[index].data[f.offset];
    }

    method Write(address: uint32, value: byte)
      requires Valid()
      modifies this, lines, memory
      ensures Valid() && lines == old(lines)
      ensures View() == WriteStep(old(View()), address, value)
    {
      hide SplitAddress, JoinAddress, BlockAt, Touch, Increment, CacheModel.Evict;
      var f := DeserializeAddress(address);
      var index := f.index;
      var lineAddr := address - f.offset;
      if lines[index].valid && lines[index].tag == f.tag {
        hits := Increment(hits);
      } else {
        if lines[index].valid {
          Evict(index);
        }
        misses := Increment(misses);
        var data := memory.FetchLine(lineAddr);
        lines[index] := lines[index].(data := data);
        lines[index] := lines[index].(valid := true);
        lines[index] := lines[index].(tag := f.tag);
      }
      lines[index] := lines[index].(data := lines[index].data[f.offset := value]);
      lines[index] := lines[index].(dirty := true);
    }

    method Flush()
      requires Valid()
      modifies lines, memory
      ensures Valid() && lines == old(lines)
      ensures View() == CacheModel.Flush(old(View()))
    {
      hide JoinAddress, Touch;
      ghost var s := View();
      for lineNum := 0 to NUM_LINES
        invariant Valid()
        invariant FlushFrom(s, 0) == FlushFrom(View(), lineNum)
      {
        var line := lines[lineNum];
        if line.valid && line.dirty {
          var lineAddr := SerializeAddress(line.tag, lineNum, 0);
          memory.StoreLine(lineAddr, line.data);
          lines[lineNum] := line.(dirty := false);
        }
      }
    }

    method Evict(index: uint32)
      requires Valid() && index < NUM_LINES
      modifies lines, memory
      ensures Valid()
      ensures View() == CacheModel.Evict(old(View()), index)
    {
      hide JoinAddress, Touch;
      var evictAddr := SerializeAddress(lines[index].tag, index, 0);
      if lines[index].dirty {
        memory.StoreLine(evictAddr, lines[index].data);
      }
      lines[index] := lines[index].(valid := false);
      lines[index] := lines[index].(dirty := false);
    }
  }
}
