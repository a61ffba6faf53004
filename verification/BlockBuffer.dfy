/** The store in which block writes are reassembled from 64-byte packets. */
module BlockBuffer {
  import opened Bytes

  const PACKET := 64
  const BLOCK_SEQ_TIMEOUT := 5

  // templen, and the part of temp before tempptr.
  datatype Block = Block(len: nat, stored: seq<byte>)

  const EMPTY := Block(0, [])

  // What becomes of the store when a block command finds the tick counter at count.
  function AfterPause(block: Block, count: nat): Block {
    if block.len > 0 && count > BLOCK_SEQ_TIMEOUT then EMPTY else block
  }

  // The effect of one packet: the store after it, and the frame that is now complete.
  datatype Accepted = Accepted(next: Block, frame: Option<seq<byte>>)

  function Accept(block: Block, ep0: seq<byte>): Accepted
    requires |ep0| == 2 * PACKET && |block.stored| <= block.len <= 0xFF
  {
    if block.len == 0 && ep0[0] > PACKET then
      Accepted(Block(ep0[0], ep0[1..PACKET]), None)
    else if block.len > 0 then
      var n := Min(block.len - |block.stored|, PACKET);
      var stored := block.stored + ep0[..n];
      Accepted(Block(block.len, stored), if |stored| == block.len then Some([block.len as byte] + stored) else None)
    else
      Accepted(block, Some(ep0[..1 + ep0[0]]))
  }

  lemma HeaderAndFrame(address: byte, command: byte, len: byte, data: seq<byte>)
    ensures [address, command, len] + data == [address, command] + ([len] + data)
  {
  }

  // What one packet can carry of some bytes, and what is left.
  function Head(bytes: seq<byte>): seq<byte> {
    bytes[..Min(|bytes|, PACKET)]
  }

  function Tail(bytes: seq<byte>): seq<byte> {
    bytes[Min(|bytes|, PACKET)..]
  }

  lemma OutstandingSplits(temp: seq<byte>, ptr: nat, len: nat)
    requires ptr <= len <= |temp|
    ensures var n := Min(len - ptr, PACKET);
      Head(temp[ptr..len]) == temp[ptr..ptr + n] && Tail(temp[ptr..len]) == temp[ptr + n..len]
  {
  }
}
