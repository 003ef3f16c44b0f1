/**
 Reading and writing a file's bytes through 512-byte sectors.

 A file occupies consecutive sectors of the device. `ReadAt` and `WriteAt` are the chunk
 loops of the inode layer; their contracts speak of the device as one flat sequence of
 bytes, in which the file is a window and a write is the update of a slice of it.
 */
module InodeIo {
  import opened Bytes

  const SECTOR: nat := 512

  /** The part of an in-memory inode that the transfer loops use. */
  datatype Extent = Extent(start: nat, length: nat)

  function SectorsFor(size: nat): nat {
    (size + SECTOR - 1) / SECTOR
  }

  /** Just as many sectors as the bytes need. */
  lemma SectorsExact(size: nat)
    ensures size == 0 ==> SectorsFor(size) == 0
    ensures size > 0 ==> 512 * (SectorsFor(size) - 1) < size <= 512 * SectorsFor(size)
  {
  }

  predicate WellFormed(sectors: seq<seq<byte>>) {
    forall k :: 0 <= k < |sectors| ==> |sectors[k]| == SECTOR
  }

  predicate Fits(sectors: seq<seq<byte>>, e: Extent) {
    e.start + SectorsFor(e.length) <= |sectors|
  }

  /** Byte `p` of the whole device. */
  function At(sectors: seq<seq<byte>>, p: nat): byte
    requires WellFormed(sectors) && p < SECTOR * |sectors|
  {
    sectors[p / SECTOR][p % SECTOR]
  }

  /** The file's bytes. */
  function Contents(sectors: seq<seq<byte>>, e: Extent): (c: seq<byte>)
    requires WellFormed(sectors) && Fits(sectors, e)
    ensures |c| == e.length
  {
    seq(e.length, i requires 0 <= i < e.length => At(sectors, SECTOR * e.start + i))
  }

  function Min(a: int, b: int): int {
    if a < b then a else b
  }

  /** How many bytes lie both in the request and in the file. */
  function Available(e: Extent, size: int, offset: nat): nat {
    if size <= 0 || offset >= e.length then 0 else Min(size, e.length - offset)
  }

  /** How many bytes are transferred: all of them, or without a bounce buffer only leading whole sectors. */
  function Transferred(e: Extent, size: int, offset: nat, bounce: bool): nat {
    var n := Available(e, size, offset);
    if bounce then n else if offset % SECTOR == 0 then n - n % SECTOR else 0
  }

  /** The sector that holds byte `pos` of the file, or none beyond its end. */
  function ByteToSector(e: Extent, pos: nat): (s: int)
    ensures pos < e.length ==> e.start <= s < e.start + SectorsFor(e.length) &&
                               SECTOR * e.start + pos == SECTOR * s + pos % SECTOR
    ensures pos >= e.length ==> s == -1
  {
    if pos < e.length then e.start + pos / SECTOR else -1
  }

  /** The chunk that one iteration moves. */
  function Chunk(e: Extent, size: int, offset: nat): int {
    var inodeLeft := e.length - offset;
    var sectorLeft := SECTOR - offset % SECTOR;
    var minLeft := if inodeLeft < sectorLeft then inodeLeft else sectorLeft;
    if size < minLeft then size else minLeft
  }

  /** The device that a transfer of `n` bytes of `data` at device position `p` leaves behind. */
  ghost predicate Updated(old_: seq<seq<byte>>, new_: seq<seq<byte>>, p: nat, data: seq<byte>) {
    && WellFormed(old_) && WellFormed(new_) && |new_| == |old_|
    && p + |data| <= SECTOR * |old_|
    && forall i {:trigger At(new_, i)} :: 0 <= i < SECTOR * |old_| ==>
         At(new_, i) == if p <= i < p + |data| then data[i - p] else At(old_, i)
  }

  lemma SectorIndex(p: nat, n: nat)
    requires p < SECTOR * n
    ensures p / SECTOR < n && p == SECTOR * (p / SECTOR) + p % SECTOR
  {
  }

  /** Replacing part of one sector is a slice update of the device. */
  lemma SectorUpdate(sectors: seq<seq<byte>>, s: nat, ofs: nat, data: seq<byte>)
    requires WellFormed(sectors) && s < |sectors| && ofs + |data| <= SECTOR
    ensures var t := sectors[s][..ofs] + data + sectors[s][ofs + |data|..];
            |t| == SECTOR && Updated(sectors, sectors[s := t], SECTOR * s + ofs, data)
  {
    var t := sectors[s][..ofs] + data + sectors[s][ofs + |data|..];
    var new_ := sectors[s := t];
    forall i | 0 <= i < SECTOR * |sectors|
      ensures At(new_, i) == if SECTOR * s + ofs <= i < SECTOR * s + ofs + |data| then data[i - SECTOR * s - ofs]
                else At(sectors, i)
    {
      SectorIndex(i, |sectors|);
    }
  }

  /** Adjacent updates compose. */
  lemma UpdatedCompose(a: seq<seq<byte>>, b: seq<seq<byte>>, c: seq<seq<byte>>, p: nat, d: seq<byte>, e: seq<byte>)
    requires Updated(a, b, p, d) && Updated(b, c, p + |d|, e)
    ensures Updated(a, c, p, d + e)
  {
    forall i | 0 <= i < SECTOR * |a|
      ensures At(c, i) == if p <= i < p + |d + e| then (d + e)[i - p] else At(a, i)
    {
      assert At(c, i) == if p + |d| <= i < p + |d| + |e| then e[i - p - |d|] else At(b, i);
      assert At(b, i) == if p <= i < p + |d| then d[i - p] else At(a, i);
    }
  }

  /** A file whose sectors do not meet the updated window keeps its bytes. */
  lemma UpdateElsewhere(a: seq<seq<byte>>, b: seq<seq<byte>>, p: nat, d: seq<byte>, e: Extent)
    requires Updated(a, b, p, d) && Fits(a, e)
    requires p + |d| <= SECTOR * e.start || SECTOR * e.start + e.length <= p
    ensures Contents(b, e) == Contents(a, e)
  {
    forall i | 0 <= i < e.length ensures Contents(b, e)[i] == Contents(a, e)[i] {
      assert At(b, SECTOR * e.start + i) == At(a, SECTOR * e.start + i);
    }
  }

  /** Writing inside a file is a slice update of its bytes. */
  lemma UpdateWithin(a: seq<seq<byte>>, b: seq<seq<byte>>, e: Extent, offset: nat, d: seq<byte>)
    requires Fits(a, e) && offset + |d| <= e.length && Updated(a, b, SECTOR * e.start + offset, d)
    ensures Contents(b, e) == Contents(a, e)[..offset] + d + Contents(a, e)[offset + |d|..]
  {
    forall i | 0 <= i < e.length
      ensures Contents(b, e)[i] == (Contents(a, e)[..offset] + d + Contents(a, e)[offset + |d|..])[i]
    {
      assert At(b, SECTOR * e.start + i) == Contents(b, e)[i];
    }
  }

  /** A chunk stays inside one sector and inside the file; without a chunk there is nothing left to move. */
  lemma ChunkBounds(e: Extent, size: int, offset: nat)
    ensures Chunk(e, size, offset) <= 0 <==> Available(e, size, offset) == 0
    ensures Chunk(e, size, offset) <= Available(e, size, offset)
    ensures Chunk(e, size, offset) > 0 ==> offset + Chunk(e, size, offset) <= e.length
    ensures Chunk(e, size, offset) > 0 ==> offset % SECTOR + Chunk(e, size, offset) <= SECTOR
    ensures Chunk(e, size, offset) <= size
    ensures Chunk(e, size, offset) <= 0 ==> forall bounce :: Transferred(e, size, offset, bounce) == 0
  {
  }

  /** What remains after a chunk is what the loop still has to move. */
  lemma ChunkStep(e: Extent, size: int, offset: nat, bounce: bool)
    requires Chunk(e, size, offset) > 0
    ensures var c := Chunk(e, size, offset);
            if bounce || (offset % SECTOR == 0 && c == SECTOR)
            then Transferred(e, size, offset, bounce) == c + Transferred(e, size - c, offset + c, bounce)
            else Transferred(e, size, offset, bounce) == 0
  {
  }

  /**
   In numbers: what the request and the file have in common, or, without memory, the whole
   sectors at the front of it.
   */
  lemma TransferredMeans(e: Extent, size: int, offset: nat, bounce: bool)
    ensures size <= 0 || e.length <= offset ==> Transferred(e, size, offset, bounce) == 0
    ensures 0 < size && offset < e.length && bounce ==>
              Transferred(e, size, offset, bounce) == if size < e.length - offset then size else e.length - offset
    ensures 0 < size && offset < e.length && !bounce && offset % 512 == 0 ==>
              Transferred(e, size, offset, bounce) ==
                  (if size < e.length - offset then size else e.length - offset) / 512 * 512
    ensures !bounce && offset % 512 != 0 ==> Transferred(e, size, offset, bounce) == 0
  {
  }

  /** The block device, as the sectors it holds. */
  class Device {
    var sectors: seq<seq<byte>>

    ghost predicate Valid()
      reads this
    {
      WellFormed(sectors)
    }

    constructor (n: nat)
      ensures Valid() && |sectors| == n
      ensures forall k :: 0 <= k < n ==> sectors[k] == seq(SECTOR, i => 0)
    {
      sectors := seq(n, i => seq(SECTOR, j => 0));
    }

    method BlockRead(s: nat) returns (data: seq<byte>)
      requires Valid() && s < |sectors|
      ensures data == sectors[s]
    {
      data := sectors[s];
    }

    method BlockWrite(s: nat, data: seq<byte>)
      requires Valid() && s < |sectors| && |data| == SECTOR
      modifies this
      ensures Valid() && sectors == old(sectors)[s := data]
    {
      sectors := sectors[s := data];
    }
  }

  /**
   `inode_read_at`. `mallocOk` tells whether the bounce buffer can be allocated, should one be needed.
   */
  method ReadAt(dev: Device, e: Extent, buffer: array<byte>, size0: int, offset0: nat, mallocOk: bool)
    returns (bytesRead: nat)
    requires dev.Valid() && Fits(dev.sectors, e) && size0 <= buffer.Length
    modifies buffer
    ensures bytesRead == Transferred(e, size0, offset0, mallocOk) <= buffer.Length
    ensures size0 <= 0 || e.length <= offset0 ==> bytesRead == 0
    ensures 0 < size0 && offset0 < e.length && mallocOk ==>
              bytesRead == if size0 < e.length - offset0 then size0 else e.length - offset0
    ensures 0 < size0 && offset0 < e.length && !mallocOk && offset0 % 512 == 0 ==>
              bytesRead == (if size0 < e.length - offset0 then size0 else e.length - offset0) / 512 * 512
    ensures !mallocOk && offset0 % 512 != 0 ==> bytesRead == 0
    ensures bytesRead > 0 ==> offset0 + bytesRead <= e.length
    ensures bytesRead > 0 ==> buffer[..bytesRead] == Contents(dev.sectors, e)[offset0..offset0 + bytesRead]
    ensures buffer[bytesRead..] == old(buffer[bytesRead..])
  {
    hide Chunk, Transferred, Available;
    TransferredMeans(e, size0, offset0, mallocOk);
    var size, offset := size0, offset0;
    bytesRead := 0;
    ghost var goal := Transferred(e, size, offset, mallocOk);
    ghost var c := Contents(dev.sectors, e);
    while size > 0
      invariant offset == offset0 + bytesRead && size == size0 - bytesRead
      invariant bytesRead + Transferred(e, size, offset, mallocOk) == goal
      invariant bytesRead <= buffer.Length && (bytesRead > 0 ==> offset <= e.length)
      invariant forall i :: 0 <= i < bytesRead ==> buffer[i] == c[offset0 + i]
      invariant forall i :: bytesRead <= i < buffer.Length ==> buffer[i] == old(buffer[i])
      decreases size
    {
      var chunk := Chunk(e, size, offset);
      ChunkBounds(e, size, offset);
      if chunk <= 0 {
        break;
      }
      ChunkStep(e, size, offset, mallocOk);
      var ok := ReadChunk(dev, e, buffer, bytesRead, offset, chunk, mallocOk);
      if !ok {
        break;
      }
      size := size - chunk;
      offset := offset + chunk;
      bytesRead := bytesRead + chunk;
    }
    TransferredMeans(e, size, offset, mallocOk);
  }

  /** One iteration of the read loop: straight into the caller's buffer, or through the bounce buffer. */
  method ReadChunk(dev: Device, e: Extent, buffer: array<byte>, at: nat, offset: nat, chunk: nat, mallocOk: bool)
    returns (ok: bool)
    requires dev.Valid() && Fits(dev.sectors, e) && 0 < chunk && offset + chunk <= e.length &&
             offset % SECTOR + chunk <= SECTOR
    requires at + chunk <= buffer.Length
    modifies buffer
    ensures ok <==> mallocOk || (offset % SECTOR == 0 && chunk == SECTOR)
    ensures ok ==> forall i :: at <= i < at + chunk ==> buffer[i] == Contents(dev.sectors, e)[offset + (i - at)]
    ensures forall i :: 0 <= i < buffer.Length && !(ok && at <= i < at + chunk) ==> buffer[i] == old(buffer[i])
  {
    var sectorIdx := ByteToSector(e, offset);
    var sectorOfs := offset % SECTOR;
    if sectorOfs == 0 && chunk == SECTOR {
      var data := dev.BlockRead(sectorIdx);
      CopyInto(buffer, at, data);
    } else {
      if !mallocOk {
        return false;
      }
      var bounce := dev.BlockRead(sectorIdx);
      CopyInto(buffer, at, bounce[sectorOfs..sectorOfs + chunk]);
    }
    forall i | at <= i < at + chunk
      ensures buffer[i] == Contents(dev.sectors, e)[offset + (i - at)]
    {
      AtSector(dev.sectors, sectorIdx, sectorOfs + i - at);
    }
    ok := true;
  }

  /** `memcpy` into a caller's buffer. */
  method CopyInto(buffer: array<byte>, at: nat, data: seq<byte>)
    requires at + |data| <= buffer.Length
    modifies buffer
    ensures forall i :: 0 <= i < buffer.Length ==>
              buffer[i] == if at <= i < at + |data| then data[i - at] else old(buffer[i])
  {
    var i := 0;
    while i < |data|
      invariant 0 <= i <= |data|
      invariant forall k :: 0 <= k < buffer.Length ==>
                  buffer[k] == if at <= k < at + i then data[k - at] else old(buffer[k])
    {
      buffer[at + i] := data[i];
      i := i + 1;
    }
  }

  lemma AtSector(sectors: seq<seq<byte>>, s: nat, j: nat)
    requires WellFormed(sectors) && s < |sectors| && j < SECTOR
    ensures At(sectors, SECTOR * s + j) == sectors[s][j]
  {
    assert (SECTOR * s + j) / SECTOR == s && (SECTOR * s + j) % SECTOR == j;
  }

  /**
   `inode_write_at`: the device changes in exactly the transferred slice.
   */
  method WriteAt(dev: Device, e: Extent, denyWriteCnt: nat, buffer: seq<byte>, size0: int, offset0: nat, mallocOk: bool)
    returns (bytesWritten: nat)
    requires dev.Valid() && Fits(dev.sectors, e) && size0 <= |buffer|
    modifies dev
    ensures dev.Valid()
    ensures bytesWritten == (if denyWriteCnt > 0 then 0 else Transferred(e, size0, offset0, mallocOk)) <= |buffer|
    ensures denyWriteCnt > 0 ==> bytesWritten == 0
    ensures size0 <= 0 || e.length <= offset0 ==> bytesWritten == 0
    ensures denyWriteCnt == 0 && 0 < size0 && offset0 < e.length && mallocOk ==>
              bytesWritten == if size0 < e.length - offset0 then size0 else e.length - offset0
    ensures denyWriteCnt == 0 && 0 < size0 && offset0 < e.length && !mallocOk && offset0 % 512 == 0 ==>
              bytesWritten == (if size0 < e.length - offset0 then size0 else e.length - offset0) / 512 * 512
    ensures !mallocOk && offset0 % 512 != 0 ==> bytesWritten == 0
    ensures bytesWritten == 0 ==> dev.sectors == old(dev.sectors)
    ensures bytesWritten > 0 ==> offset0 + bytesWritten <= e.length
    ensures bytesWritten > 0 ==> Updated(old(dev.sectors), dev.sectors, SECTOR * e.start + offset0,
              buffer[..bytesWritten])
  {
    hide Updated, Chunk, Transferred, Available;
    TransferredMeans(e, size0, offset0, mallocOk);
    bytesWritten := 0;
    if denyWriteCnt != 0 {
      return;
    }
    var size, offset := size0, offset0;
    ghost var goal := Transferred(e, size, offset, mallocOk);
    ghost var was := dev.sectors;
    while size > 0
      invariant dev.Valid() && |dev.sectors| == |was|
      invariant offset == offset0 + bytesWritten && size == size0 - bytesWritten && bytesWritten <= |buffer|
      invariant bytesWritten + Transferred(e, size, offset, mallocOk) == goal
      invariant bytesWritten == 0 ==> dev.sectors == was
      invariant bytesWritten > 0 ==> offset <= e.length
      invariant bytesWritten > 0 ==> Updated(was, dev.sectors, SECTOR * e.start + offset0, buffer[..bytesWritten])
      decreases size
    {
      var chunk := Chunk(e, size, offset);
      ChunkBounds(e, size, offset);
      if chunk <= 0 {
        break;
      }
      ChunkStep(e, size, offset, mallocOk);
      ghost var before := dev.sectors;
      var ok := WriteChunk(dev, e, buffer[bytesWritten..bytesWritten + chunk], offset, mallocOk);
      if !ok {
        break;
      }
      WriteStep(was, before, dev.sectors, e, offset0, buffer, bytesWritten, chunk);
      size := size - chunk;
      offset := offset + chunk;
      bytesWritten := bytesWritten + chunk;
    }
    TransferredMeans(e, size, offset, mallocOk);
  }

  /** One iteration of the write loop: a whole sector at once, or read, patch and write back. */
  method WriteChunk(dev: Device, e: Extent, piece: seq<byte>, offset: nat, mallocOk: bool) returns (ok: bool)
    requires dev.Valid() && Fits(dev.sectors, e) && 0 < |piece| && offset + |piece| <= e.length &&
             offset % SECTOR + |piece| <= SECTOR
    modifies dev
    ensures dev.Valid()
    ensures ok <==> mallocOk || (offset % SECTOR == 0 && |piece| == SECTOR)
    ensures !ok ==> dev.sectors == old(dev.sectors)
    ensures ok ==> Updated(old(dev.sectors), dev.sectors, SECTOR * e.start + offset, piece)
  {
    var sectorIdx := ByteToSector(e, offset);
    var sectorOfs := offset % SECTOR;
    var sectorLeft := SECTOR - sectorOfs;
    SectorUpdate(dev.sectors, sectorIdx, sectorOfs, piece);
    if sectorOfs == 0 && |piece| == SECTOR {
      assert dev.sectors[sectorIdx][..0] + piece + dev.sectors[sectorIdx][SECTOR..] == piece;
      dev.BlockWrite(sectorIdx, piece);
    } else {
      if !mallocOk {
        return false;
      }
      var bounce: seq<byte> := seq(SECTOR, i => 0);
      if sectorOfs > 0 || |piece| < sectorLeft {
        bounce := dev.BlockRead(sectorIdx);
      }
      bounce := bounce[..sectorOfs] + piece + bounce[sectorOfs + |piece|..];
      dev.BlockWrite(sectorIdx, bounce);
    }
    ok := true;
  }

  lemma WriteStep(was: seq<seq<byte>>, before: seq<seq<byte>>, after: seq<seq<byte>>, e: Extent, offset0: nat,
                  buffer: seq<byte>, done: nat, chunk: nat)
    requires done + chunk <= |buffer|
    requires if done == 0 then before == was else Updated(was, before, SECTOR * e.start + offset0, buffer[..done])
    requires Updated(before, after, SECTOR * e.start + offset0 + done, buffer[done..done + chunk])
    ensures Updated(was, after, SECTOR * e.start + offset0, buffer[..done + chunk])
  {
    hide Updated;
    if done == 0 {
      assert buffer[..done + chunk] == buffer[done..done + chunk];
    } else {
      UpdatedCompose(was, before, after, SECTOR * e.start + offset0, buffer[..done], buffer[done..done + chunk]);
      assert buffer[..done] + buffer[done..done + chunk] == buffer[..done + chunk];
    }
  }
}
