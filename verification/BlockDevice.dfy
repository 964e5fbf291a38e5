/**
 The sector device under the FAT filesystem: the byte-range operations that
 kernel/src/drivers/traits.rs builds from whole-sector reads and writes, on the memory device of
 kernel/src/drivers/block/mod.rs.
 */
module BlockDevice {
  import opened Base
  import opened Bytes

  datatype DeviceError = InvalidArgument | NotReady

  class MemoryBlockDevice {
    const sectorSize: nat
    const sectors: nat
    var data: seq<byte>

    ghost predicate Valid()
      reads this
    {
      sectorSize > 0 && |data| == sectors * sectorSize
    }

    /** `new`: the data must be whole sectors. */
    static method New(data: seq<byte>, sectorSize: nat) returns (r: Result<MemoryBlockDevice, DeviceError>)
      ensures r.Err? <==> sectorSize == 0 || |data| % sectorSize != 0
      ensures r.Err? ==> r.error == DeviceError.InvalidArgument
      ensures r.Ok? ==> fresh(r.value) && r.value.Valid() && r.value.data == data && r.value.sectorSize == sectorSize
    {
      if sectorSize == 0 || |data| % sectorSize != 0 {
        return Err(DeviceError.InvalidArgument);
      }
      var device := new MemoryBlockDevice(data, sectorSize);
      return Ok(device);
    }

    constructor (data: seq<byte>, sectorSize: nat)
      requires sectorSize > 0 && |data| % sectorSize == 0
      ensures Valid() && this.data == data && this.sectorSize == sectorSize
    {
      this.sectorSize := sectorSize;
      this.sectors := |data| / sectorSize;
      this.data := data;
    }

    function SectorStart(sector: nat): int {
      sector * sectorSize
    }

    /** `read_sector`. */
    method ReadSector(sector: nat) returns (r: Result<seq<byte>, DeviceError>)
      requires Valid()
      ensures sector >= sectors <==> r.Err?
      ensures sector < sectors ==>
        && 0 <= SectorStart(sector) && SectorStart(sector) + sectorSize <= |data|
        && r == Ok(data[SectorStart(sector)..SectorStart(sector) + sectorSize])
    {
      if sector >= sectors {
        return Err(DeviceError.InvalidArgument);
      }
      Multiples(sectorSize, sector, sectors);
      var start := sector * sectorSize;
      return Ok(data[start..start + sectorSize]);
    }

    /** `write_sector`. */
    method WriteSector(sector: nat, buf: seq<byte>) returns (r: Result<(), DeviceError>)
      requires Valid()
      modifies this
      ensures Valid()
      ensures sector >= sectors || |buf| != sectorSize <==> r.Err?
      ensures r.Err? ==> data == old(data)
      ensures r.Ok? ==>
        && 0 <= SectorStart(sector) && SectorStart(sector) + sectorSize <= |old(data)|
        && data == Splice(old(data), SectorStart(sector), buf)
    {
      if sector >= sectors || |buf| != sectorSize {
        return Err(DeviceError.InvalidArgument);
      }
      Multiples(sectorSize, sector, sectors);
      data := Splice(data, sector * sectorSize, buf);
      return Ok(());
    }

    // An offset is in the device exactly when its sector is.
    lemma Covers(current: nat)
      requires Valid()
      ensures sectorSize > 0
      ensures current / sectorSize >= sectors <==> current >= |data|
      ensures current == SectorStart(current / sectorSize) + current % sectorSize
      ensures 0 <= current % sectorSize < sectorSize
    {
      InSector(current, sectorSize, sectors);
    }

    // The part of `read_bytes` that falls into one sector.
    method ReadPart(current: nat, len: nat) returns (part: seq<byte>)
      requires Valid() && current < |data| && current % sectorSize + len <= sectorSize
      ensures current + len <= |data| && part == data[current..current + len]
    {
      hide Valid, SectorStart;
      Covers(current);
      var content := ReadSector(current / sectorSize);
      part := content.value[current % sectorSize..current % sectorSize + len];
    }

    /** `read_bytes`: any byte range, read sector by sector; a range past the end is an error. */
    method ReadBytes(offset: nat, len: nat) returns (r: Result<seq<byte>, DeviceError>)
      requires Valid()
      ensures len == 0 ==> r == Ok([])
      ensures offset + len <= |data| ==> r == Ok(data[offset..offset + len])
      ensures len > 0 && offset + len > |data| ==> r == Err(DeviceError.InvalidArgument)
    {
      hide Valid;
      var buf: seq<byte> := [];
      while |buf| < len
        invariant |buf| <= len
        invariant |buf| > 0 ==> offset + |buf| <= |data|
        invariant |buf| > 0 ==> buf == data[offset..offset + |buf|]
      {
        var current := offset + |buf|;
        Covers(current);
        var sector := current / sectorSize;
        if sector >= sectors {
          return Err(DeviceError.InvalidArgument);
        }
        var part := ReadPart(current, Min(len - |buf|, sectorSize - current % sectorSize));
        buf := buf + part;
      }
      assert offset <= |data| ==> data[offset..offset] == [];
      return Ok(buf);
    }

    // The part of `write_bytes` that falls into one sector.
    method WritePart(current: nat, part: seq<byte>)
      requires Valid() && current < |data| && current % sectorSize + |part| <= sectorSize
      modifies this
      ensures Valid() && current + |part| <= |old(data)| && data == Splice(old(data), current, part)
    {
      hide Valid, SectorStart, Splice;
      Covers(current);
      var sector := current / sectorSize;
      var sectorOffset := current % sectorSize;
      var sectorBuf := Zeros(sectorSize);
      if |part| != sectorSize {
        var content := ReadSector(sector);
        sectorBuf := content.value;
        SpliceInside(data, SectorStart(sector), sectorSize, sectorOffset, part);
      } else {
        SpliceWhole(sectorBuf, part);
      }
      sectorBuf := Splice(sectorBuf, sectorOffset, part);
      var done := WriteSector(sector, sectorBuf);
    }

    /**
     `write_bytes`: any byte range, with the sectors at its ends read, changed and written back.
     Exactly the bytes of the range change; a range past the end is an error that has by then
     written the part before the end.
     */
    method WriteBytes(offset: nat, buf: seq<byte>) returns (r: Result<(), DeviceError>)
      requires Valid()
      modifies this
      ensures Valid()
      ensures offset + |buf| <= |old(data)| ==> r == Ok(()) && data == Splice(old(data), offset, buf)
      ensures buf == [] ==> r == Ok(()) && data == old(data)
      ensures buf != [] && offset + |buf| > |old(data)| ==>
        && r == Err(DeviceError.InvalidArgument)
        && data == if offset < |old(data)| then Splice(old(data), offset, buf[..|old(data)| - offset]) else old(data)
    {
      hide Valid, Wrote;
      WroteEnds(data, offset, buf);
      var written := 0;
      while written < |buf|
        invariant Valid() && written <= |buf| && |data| == |old(data)|
        invariant written > 0 ==> offset + written <= |data|
        invariant data == Wrote(old(data), offset, buf, written)
      {
        var current := offset + written;
        Covers(current);
        var sector := current / sectorSize;
        if sector >= sectors {
          return Err(DeviceError.InvalidArgument);
        }
        var chunk := Min(|buf| - written, sectorSize - current % sectorSize);
        WritePart(current, buf[written..written + chunk]);
        WroteMore(old(data), offset, buf, written, chunk);
        written := written + chunk;
      }
      return Ok(());
    }
  }

  // The device after the first n bytes of a write, as far as they fit.
  function Wrote(s: seq<byte>, at: nat, b: seq<byte>, n: nat): seq<byte>
    requires n <= |b|
  {
    if at + n <= |s| then Splice(s, at, b[..n]) else s
  }

  lemma WroteEnds(s: seq<byte>, at: nat, b: seq<byte>)
    ensures Wrote(s, at, b, 0) == s
    ensures at + |b| <= |s| ==> Wrote(s, at, b, |b|) == Splice(s, at, b)
    ensures at < |s| < at + |b| ==> Wrote(s, at, b, |s| - at) == Splice(s, at, b[..|s| - at])
  {
    assert b[..|b|] == b;
  }

  lemma WroteMore(s: seq<byte>, at: nat, b: seq<byte>, n: nat, more: nat)
    requires n + more <= |b| && at + n + more <= |s|
    ensures |Wrote(s, at, b, n)| == |s|
    ensures Splice(Wrote(s, at, b, n), at + n, b[n..n + more]) == Wrote(s, at, b, n + more)
  {
    SpliceTwice(s, at, b[..n], b[n..n + more]);
    assert b[..n] + b[n..n + more] == b[..n + more];
  }

  // An offset is in the device exactly when its sector is.
  lemma InSector(current: nat, sectorSize: nat, sectors: nat)
    requires sectorSize > 0
    ensures current / sectorSize < sectors <==> current < sectors * sectorSize
    ensures current == current / sectorSize * sectorSize + current % sectorSize
    ensures current / sectorSize < sectors ==> current / sectorSize * sectorSize + sectorSize <= sectors * sectorSize
  {
    Multiples(sectorSize, current / sectorSize, sectors);
    Multiples(sectorSize, sectors, current / sectorSize);
  }

  // Writing back a sector in which only a part was changed changes only that part.
  lemma SpliceInside(s: seq<byte>, start: nat, size: nat, at: nat, part: seq<byte>)
    requires start + size <= |s| && at + |part| <= size
    ensures Splice(s, start, Splice(s[start..start + size], at, part)) == Splice(s, start + at, part)
  {
  }

  lemma SpliceWhole(s: seq<byte>, part: seq<byte>)
    requires |part| == |s|
    ensures Splice(s, 0, part) == part
  {
  }
}
