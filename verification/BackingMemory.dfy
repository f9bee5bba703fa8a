/** The sparse backing memory. */
module BackingMemories {
  import opened Words
  import opened CacheAddresses
  import opened CacheModel

  class BackingMemory {
    var storage: Storage
    /** The line transfers so far, which the original prints. */
    ghost var log: seq<Transfer>

    constructor ()
      ensures storage == map[] && log == []
      ensures forall a: uint32 :: MemoryByte(storage, a) == 0
    {
      storage := map[];
      log := [];
    }

    method LineAt(lineAddr: uint32) returns (data: Block)
      modifies this`storage
      ensures storage == Touch(old(storage), lineAddr) && data == BlockAt(old(storage), lineAddr)
      ensures storage.Keys == old(storage).Keys + {lineAddr}
      ensures lineAddr !in old(storage) ==> forall i | 0 <= i < LINE_SIZE :: data[i] == 0
    {
      if lineAddr !in storage {
        storage := storage[lineAddr := ZeroBlock()];
      }
      data := storage[lineAddr];
    }

    method WriteByte(address: uint32, value: byte)
      modifies this`storage
      ensures forall a: uint32 :: MemoryByte(storage, a) ==
                if a == address then value else MemoryByte(old(storage), a)
      ensures old(AlignedKeys(storage)) ==> AlignedKeys(storage)
    {
      var f := DeserializeAddress(address);
      var lineAddr := address - f.offset;
      var data := LineAt(lineAddr);
      storage := storage[lineAddr := data[f.offset := value]];
      forall a: uint32
        ensures BlockOf(a) == BlockOf(address) && a % 64 == address % 64 <==> a == address
      {
        SameByte(a, address);
      }
    }

    method ReadByte(address: uint32) returns (value: byte)
      modifies this`storage
      ensures value == MemoryByte(old(storage), address)
      ensures forall a: uint32 :: MemoryByte(storage, a) == MemoryByte(old(storage), a)
      ensures storage.Keys == old(storage).Keys + {address - address % 64}
      ensures old(AlignedKeys(storage)) ==> AlignedKeys(storage)
    {
      var f := DeserializeAddress(address);
      var lineAddr := address - f.offset;
      var data := LineAt(lineAddr);
      value := data[f.offset];
    }

    method FetchLine(lineAddr: uint32) returns (data: Block)
      modifies this
      ensures storage == Touch(old(storage), lineAddr) && data == BlockAt(old(storage), lineAddr)
      ensures lineAddr % 64 == 0 ==>
                forall i | 0 <= i < LINE_SIZE :: data[i] == MemoryByte(old(storage), lineAddr + i)
      ensures forall a: uint32 :: MemoryByte(storage, a) == MemoryByte(old(storage), a)
      ensures log == old(log) + [Fetched(lineAddr)]
    {
      data := LineAt(lineAddr);
      log := log + [Fetched(lineAddr)];
    }

    method StoreLine(lineAddr: uint32, data: Block)
      modifies this
      ensures storage == Touch(old(storage), lineAddr)[lineAddr := data]
      ensures lineAddr % 64 == 0 ==>
                forall a: uint32 :: MemoryByte(storage, a) ==
                  if lineAddr <= a < lineAddr + LINE_SIZE then data[a - lineAddr] else MemoryByte(old(storage), a)
      ensures log == old(log) + [Stored(lineAddr)]
    {
      var oldData := LineAt(lineAddr);
      storage := storage[lineAddr := data];
      log := log + [Stored(lineAddr)];
    }
  }
}
