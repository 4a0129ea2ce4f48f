/** Byte ranges cut into blocks of 4096 bytes, as the caches cut them. */
module ByteRanges {
  import opened Bytes

  const BLOCK_SIZE: nat := 4096

  /** The first block after a byte range. */
  function EndBlock(offset: nat, count: nat): nat {
    if count == 0 then offset / BLOCK_SIZE else (offset + count - 1) / BLOCK_SIZE + 1
  }

  /** How many of `count` bytes from `place` on lie in the block of the first of them. */
  function Piece(place: nat, count: nat): (n: nat)
    ensures n <= count && place % BLOCK_SIZE + n <= BLOCK_SIZE
    ensures n == count || (place + n) % BLOCK_SIZE == 0
    ensures count > 0 ==> n > 0
  {
    var room := BLOCK_SIZE - place % BLOCK_SIZE;
    if room < count then room else count
  }

  /** The bytes of a page with some of them replaced. */
  function Overwrite(page: seq<Byte>, offset: nat, bytes: seq<Byte>): (r: seq<Byte>)
    requires offset + |bytes| <= |page|
    ensures |r| == |page|
  {
    page[..offset] + bytes + page[offset + |bytes|..]
  }

  method CopyOut(page: seq<Byte>, offset: nat, count: nat, buffer: array<Byte>, at: nat)
    requires offset + count <= |page| && at + count <= buffer.Length
    modifies buffer
    ensures forall j :: 0 <= j < buffer.Length ==>
              buffer[j] == if at <= j < at + count then page[offset + (j - at)] else old(buffer[j])
    ensures buffer[..at + count] == old(buffer[..at]) + page[offset..offset + count]
  {
    forall j | at <= j < at + count {
      buffer[j] := page[offset + (j - at)];
    }
  }
}
