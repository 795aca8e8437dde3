/** The flash chip behind the driver calls of the child (sw/child/src/drivers/macos): erase fills a
    block with 0xFF, write copies over the front of a page, read copies out. */
module FakeFlash {
  import opened Layout
  import opened PageEncoder
  import L = LogFs

  /** memcpy into a byte array. */
  method Copy(dst: array<Byte>, at: nat, src: seq<Byte>)
    requires at + |src| <= dst.Length
    modifies dst
    ensures dst[..] == old(dst[..at]) + src + old(dst[at + |src|..])
    ensures dst[..at + |src|] == old(dst[..at]) + src
  {
    forall i | 0 <= i < |src| {
      dst[at + i] := src[i];
    }
  }

  class Flash {
    const blocks: array<L.Block>

    ghost predicate Valid()
      reads blocks
    {
      blocks.Length == BLOCK_COUNT && L.DiskShape(blocks[..])
    }

    ghost function Image(): (d: L.Disk)
      requires Valid()
      reads blocks
      ensures L.DiskShape(d)
    {
      blocks[..]
    }

    constructor ()
      ensures Valid() && fresh(blocks) && Image() == L.BlankDisk()
    {
      blocks := new L.Block[BLOCK_COUNT](i => L.BlankBlock());
    }

    /** mxfs_driver_read: at most one page is copied, the rest of the buffer stays. */
    method Read(block: nat, page: nat, buffer: array<Byte>)
      requires Valid() && block < BLOCK_COUNT && page < PAGE_COUNT
      modifies buffer
      ensures Valid() && Image() == old(Image())
      ensures var n := Min(buffer.Length, PAGE_SIZE);
              buffer[..] == Image()[block][page][..n] + old(buffer[n..])
    {
      assert L.BlockShape(blocks[..][block]);
      var n := Min(buffer.Length, PAGE_SIZE);
      Copy(buffer, 0, blocks[block][page][..n]);
    }

    /** mxfs_driver_write with the driver's answer; a refused call changes nothing. */
    method Write(block: nat, page: nat, data: array<Byte>, length: nat, ok: bool) returns (r: int)
      requires Valid() && block < BLOCK_COUNT && page < PAGE_COUNT && length <= data.Length
      modifies blocks
      ensures Valid() && r == (if ok then OK else ERR)
      ensures Image() == if ok then L.Apply(old(Image()), L.Program(block, page, data[..length])) else old(Image())
    {
      if !ok {
        return ERR;
      }
      assert L.BlockShape(blocks[..][block]);
      var n := Min(length, PAGE_SIZE);
      var old_page := blocks[block][page];
      blocks[block] := blocks[block][page := data[..n] + old_page[n..]];
      assert data[..n] == data[..length][..n];
      assert blocks[..] == L.Apply(old(Image()), L.Program(block, page, data[..length]));
      return OK;
    }

    /** mxfs_driver_erase with the driver's answer. */
    method Erase(block: nat, ok: bool) returns (r: int)
      requires Valid() && block < BLOCK_COUNT
      modifies blocks
      ensures Valid() && r == (if ok then OK else ERR)
      ensures Image() == if ok then L.Apply(old(Image()), L.Erase(block)) else old(Image())
    {
      if !ok {
        return ERR;
      }
      ghost var before := blocks[..];
      for page := 0 to PAGE_COUNT
        invariant blocks.Length == BLOCK_COUNT && |blocks[block]| == PAGE_COUNT
        invariant forall b | 0 <= b < BLOCK_COUNT && b != block :: blocks[b] == before[b]
        invariant forall p | 0 <= p < page :: blocks[block][p] == BlankPage()
      {
        blocks[block] := blocks[block][page := BlankPage()];
      }
      assert blocks[block] == L.BlankBlock();
      assert blocks[..] == L.Apply(before, L.Erase(block));
      return OK;
    }
  }
}
