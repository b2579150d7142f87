/** A block device of 512-byte sectors, and access to it relative to a partition. */
module Gpt {
  import opened Bits

  /** `bytes` with those from `at` on replaced by `data`. */
  function Overwrite(bytes: seq<Byte>, at: nat, data: seq<Byte>): (r: seq<Byte>)
    requires at + |data| <= |bytes|
    ensures |r| == |bytes|
    ensures forall i :: 0 <= i < |bytes| ==> r[i] == if at <= i < at + |data| then data[i - at] else bytes[i]
  {
    bytes[..at] + data + bytes[at + |data|..]
  }

  /** Sectors start, start + 1, ... can be read: they are on the device and none is bad. */
  predicate Within(bytes: seq<Byte>, bad: set<nat>, start: nat, count: nat) {
    512 * (start + count) <= |bytes| && forall s :: s in bad ==> !(start <= s < start + count)
  }

  /** A sector is on the device and not bad. */
  predicate SectorReadable(bytes: seq<Byte>, bad: set<nat>, s: nat) { 512 * s + 512 <= |bytes| && s !in bad }

  /** Some sectors in a row can be read exactly if each of them can. */
  lemma {:induction false} ReadableSectors(bytes: seq<Byte>, bad: set<nat>, start: nat, count: nat)
    requires count > 0
    ensures Within(bytes, bad, start, count) <==> forall s :: start <= s < start + count ==> SectorReadable(bytes, bad, s)
  {
    if forall s :: start <= s < start + count ==> SectorReadable(bytes, bad, s) {
      assert SectorReadable(bytes, bad, start + count - 1);
      forall s | s in bad
        ensures !(start <= s < start + count)
      {
        assert start <= s < start + count ==> SectorReadable(bytes, bad, s);
      }
    }
  }

  /** The device behind ahci_read_virt and ahci_write_virt: an access succeeds when it stays on
      the device and touches no bad sector. */
  class Disk {
    var bytes: seq<Byte>
    const bad: set<nat>

    constructor (bytes: seq<Byte>, bad: set<nat>)
      ensures this.bytes == bytes && this.bad == bad
    {
      this.bytes, this.bad := bytes, bad;
    }

    predicate Reachable(start: nat, count: nat)
      reads this
    {
      Within(bytes, bad, start, count)
    }

    method Read(start: nat, count: nat) returns (ok: bool, data: seq<Byte>)
      ensures ok == Reachable(start, count)
      ensures ok ==> data == bytes[512 * start..512 * (start + count)]
    {
      ok := Reachable(start, count);
      data := if ok then bytes[512 * start..512 * (start + count)] else [];
    }

    method Write(start: nat, count: nat, data: seq<Byte>) returns (ok: bool)
      requires |data| == 512 * count
      modifies this
      ensures ok == old(Reachable(start, count))
      ensures bytes == if ok then Overwrite(old(bytes), 512 * start, data) else old(bytes)
    {
      ok := Reachable(start, count);
      if ok {
        bytes := Overwrite(bytes, 512 * start, data);
      }
    }
  }

  /** A partition: the disk it is on and its first sector. */
  datatype Partition = Partition(disk: Disk, startSector: U64)

  /** The bytes of `count` sectors of a partition. */
  function Sectors(bytes: seq<Byte>, start: nat, count: nat): seq<Byte>
    requires 512 * (start + count) <= |bytes|
  {
    bytes[512 * start..512 * (start + count)]
  }

  /** gpt_read_partition */
  method ReadPartition(p: Partition, startSector: U64, count: nat) returns (ok: bool, data: seq<Byte>)
    ensures ok == p.disk.Reachable(AddU64(p.startSector, startSector), count)
    ensures ok ==> data == Sectors(p.disk.bytes, AddU64(p.startSector, startSector), count) && |data| == 512 * count
  {
    var start: nat := AddU64(p.startSector, startSector);
    ok, data := p.disk.Read(start, count);
  }

  /** Changing part of a range and writing the range back changes just that part. */
  lemma OverwriteInside(bytes: seq<Byte>, at: nat, size: nat, offset: nat, data: seq<Byte>)
    requires at + size <= |bytes| && offset + |data| <= size
    ensures Overwrite(bytes, at, Overwrite(bytes[at..at + size], offset, data)) == Overwrite(bytes, at + offset, data)
  {
  }

  /** gpt_write_partition_offset: reads the sectors, replaces some of their bytes and writes them
      back; exactly the bytes named change, or none. The count stays below what makes 512 * count
      wrap in 32 bits. */
  method WritePartitionOffset(p: Partition, startSector: U64, byteOffset: nat, count: nat, buffer: seq<Byte>, writeSize: nat)
    returns (ok: bool)
    requires writeSize <= |buffer| && count < 0x80_0000 && byteOffset + writeSize < TWO64
    modifies p.disk
    ensures ok == (byteOffset + writeSize <= 512 * count && old(p.disk.Reachable(AddU64(p.startSector, startSector), count)))
    ensures ok ==> 512 * AddU64(p.startSector, startSector) + byteOffset + writeSize <= |old(p.disk.bytes)| &&
                   p.disk.bytes == Overwrite(old(p.disk.bytes), 512 * AddU64(p.startSector, startSector) + byteOffset, buffer[..writeSize])
    ensures !ok ==> p.disk.bytes == old(p.disk.bytes)
  {
    if byteOffset + writeSize > 512 * count {
      return false;
    }
    var start: nat := AddU64(p.startSector, startSector);
    var readSuccess, read := p.disk.Read(start, count);
    if !readSuccess {
      return false;
    }
    OverwriteInside(p.disk.bytes, 512 * start, 512 * count, byteOffset, buffer[..writeSize]);
    read := Overwrite(read, byteOffset, buffer[..writeSize]);
    ok := p.disk.Write(start, count, read);
  }
}
