/** The backing file seen as numbered blocks: the storage the regions read from and flush to. */
module Disk {
  import opened Bytes

  class Disk {
    /** The bytes last written to each block, by block number. */
    var blocks: map<int, seq<byte>>

    constructor()
      ensures blocks == map[]
    {
      blocks := map[];
    }

    /** `writeBlock(id, consumer)`: the block now holds the bytes the consumer put. */
    method WriteBlock(id: int, bytes: seq<byte>)
      modifies this
      ensures blocks == old(blocks)[id := bytes]
    {
      blocks := blocks[id := bytes];
    }
  }
}
