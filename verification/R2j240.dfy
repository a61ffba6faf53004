/** The R2J240 flasher: RAM written and read in chunks, and the static checksum. */
module R2j240 {
  import opened Bytes

  const CMD_READ_RAM: byte := 0xFC
  const CMD_WRITE_RAM: byte := 0xFD

  // ----- The chip

  // RAM with some of its bytes replaced.
  function Splice(ram: seq<byte>, at: nat, data: seq<byte>): (r: seq<byte>)
    requires at + |data| <= |ram|
    ensures |r| == |ram|
    ensures forall i | 0 <= i < |ram| :: r[i] == if at <= i < at + |data| then data[i - at] else ram[i]
  {
    ram[..at] + data + ram[at + |data|..]
  }

  // RAM once the first ptr bytes of data are in.
  function Written(ram: seq<byte>, at: nat, data: seq<byte>, ptr: nat): (r: seq<byte>)
    requires at + |data| <= |ram| && ptr <= |data|
    ensures |r| == |ram|
  {
    Splice(ram, at, data[..ptr])
  }

  lemma NextWritten(ram: seq<byte>, at: nat, data: seq<byte>, ptr: nat, cur: nat)
    requires at + |data| <= |ram| && ptr + cur <= |data|
    ensures Splice(Written(ram, at, data, ptr), at + ptr, data[ptr..ptr + cur]) == Written(ram, at, data, ptr + cur)
  {
  }

  lemma SplicedBack(ram: seq<byte>, at: nat, data: seq<byte>)
    requires at + |data| <= |ram|
    ensures Splice(ram, at, data)[at..at + |data|] == data
  {
  }

  // Command, address (low byte first), count (low byte first).
  function Header(command: byte, address: nat, count: nat): (h: seq<byte>)
    ensures |h| == 6 && h[0] == command
    ensures address < 0x100_0000 ==> h[1] as int + 0x100 * h[2] as int + 0x1_0000 * h[3] as int == address
    ensures count < 0x1_0000 ==> h[4] as int + 0x100 * h[5] as int == count
  {
    assert address < 0x100_0000 ==> address / 0x100 % 0x100 == address / 0x100 - 0x100 * (address / 0x1_0000);
    [command, address % 0x100, address / 0x100 % 0x100, address / 0x1_0000 % 0x100, count % 0x100,
      count / 0x100 % 0x100]
  }

  function AddressOf(message: seq<byte>): nat
    requires |message| >= 6
  {
    message[1] + 0x100 * message[2] as int + 0x1_0000 * message[3] as int
  }

  function CountOf(message: seq<byte>): nat
    requires |message| >= 6
  {
    message[4] + 0x100 * message[5] as int
  }

  lemma HeaderDecodes(message: seq<byte>, command: byte, address: nat, count: nat, data: seq<byte>)
    requires address < 0x100_0000 && count < 0x1_0000 && message == Header(command, address, count) + data
    ensures |message| == 6 + |data| && message[0] == command && message[6..] == data
    ensures AddressOf(message) == address && CountOf(message) == count
  {
  }

  // A chip that carries out the messages it accepts.
  class Chip {
    const accepts: nat -> bool
    var transfers: nat
    var ram: seq<byte>

    constructor (accepts: nat -> bool, ram: seq<byte>)
      ensures this.ram == ram && this.accepts == accepts
    {
      this.accepts := accepts;
      transfers := 0;
      this.ram := ram;
    }

    method Write(message: seq<byte>) returns (sts: int)
      requires |message| >= 6 && message[0] == 0xFD
      requires CountOf(message) == |message| - 6 && AddressOf(message) + CountOf(message) <= |ram|
      modifies this
      ensures ram == if sts < 0 then old(ram) else Splice(old(ram), AddressOf(message), message[6..])
      ensures transfers == old(transfers) + 1
      ensures (forall k :: accepts(k)) ==> sts >= 0
    {
      sts := -1;
      if accepts(transfers) {
        ram := Splice(ram, AddressOf(message), message[6..]);
        sts := 1;
      }
      transfers := transfers + 1;
    }

    method Read(message: seq<byte>, n: nat) returns (sts: int, reply: seq<byte>)
      requires |message| == 6 && message[0] == 0xFC
      requires CountOf(message) == n && AddressOf(message) + n <= |ram|
      modifies this`transfers
      ensures sts >= 0 ==> reply == ram[AddressOf(message)..AddressOf(message) + n]
      ensures transfers == old(transfers) + 1
      ensures (forall k :: accepts(k)) ==> sts >= 0
    {
      sts, reply := -1, [];
      if accepts(transfers) {
        sts, reply := 2, ram[AddressOf(message)..AddressOf(message) + n];
      }
      transfers := transfers + 1;
    }
  }

  // ----- The chunkers

  method WriteChunk(chip: Chip, addr: nat, chunk: seq<byte>) returns (sts: int)
    requires |chip.ram| <= 0x100_0000 && addr + |chunk| <= |chip.ram| && 0 < |chunk| <= 26
    modifies chip
    ensures chip.ram == if sts < 0 then old(chip.ram) else Splice(old(chip.ram), addr, chunk)
    ensures chip.transfers == old(chip.transfers) + 1
    ensures (forall k :: chip.accepts(k)) ==> sts >= 0
  {
    var message := Header(CMD_WRITE_RAM, addr, |chunk|) + chunk;
    HeaderDecodes(message, CMD_WRITE_RAM, addr, |chunk|, chunk);
    sts := chip.Write(message);
  }

  lemma OneMoreChunk(ptr: nat, cur: nat, chunk: nat)
    requires chunk == 26 || chunk == 64
    requires ptr % chunk == 0 && 0 < cur <= chunk
    ensures (ptr + cur + chunk - 1) / chunk == (ptr + chunk - 1) / chunk + 1
  {
  }

  // done: how many bytes went in before a transfer failed.
  method WriteRam(chip: Chip, address: nat, buf: seq<byte>) returns (status: int, ghost done: nat)
    requires |chip.ram| <= 0x100_0000 && address + |buf| <= |chip.ram|
    modifies chip
    ensures done <= |buf| && chip.ram == Written(old(chip.ram), address, buf, done)
    ensures status == if done == |buf| then |buf| else -1
    ensures done == |buf| ==> chip.transfers == old(chip.transfers) + (|buf| + 25) / 26
    ensures (forall k :: chip.accepts(k)) ==> done == |buf|
  {
    var remain, ptr, addr, sts := |buf|, 0, address, 0;
    while remain != 0
      invariant 0 <= ptr <= |buf| && ptr + remain == |buf| && addr == address + ptr
      invariant chip.ram == Written(old(chip.ram), address, buf, ptr)
      invariant chip.transfers == old(chip.transfers) + (ptr + 25) / 26 && (remain == 0 || ptr % 26 == 0)
    {
      var cur := if remain < 26 then remain else 26;
      NextWritten(old(chip.ram), address, buf, ptr, cur);
      OneMoreChunk(ptr, cur, 26);
      sts := WriteChunk(chip, addr, buf[ptr..ptr + cur]);
      if sts < 0 {
        return -1, ptr;
      }
      remain, ptr, addr := remain - cur, ptr + cur, addr + cur;
    }
    return |buf|, ptr;
  }

  method ReadChunk(chip: Chip, addr: nat, cur: nat) returns (sts: int, reply: seq<byte>)
    requires |chip.ram| <= 0x100_0000 && addr + cur <= |chip.ram| && 0 < cur <= 64
    modifies chip`transfers
    ensures sts >= 0 ==> reply == chip.ram[addr..addr + cur]
    ensures chip.transfers == old(chip.transfers) + 1
    ensures (forall k :: chip.accepts(k)) ==> sts >= 0
  {
    var message := Header(CMD_READ_RAM, addr, cur);
    HeaderDecodes(message, CMD_READ_RAM, addr, cur, []);
    sts, reply := chip.Read(message, cur);
  }

  lemma MoreRead(ram: seq<byte>, address: nat, addr: nat, cur: nat, before: seq<byte>, reply: seq<byte>)
    requires address <= addr && addr + cur <= |ram| && before == ram[address..addr] && reply == ram[addr..addr + cur]
    ensures before + reply == ram[address..addr + cur]
  {
  }

  method ReadRam(chip: Chip, address: nat, size: nat, buf: array<byte>) returns (status: int, ghost done: nat)
    requires |chip.ram| <= 0x100_0000 && address + size <= |chip.ram| && size <= buf.Length
    modifies chip`transfers, buf
    ensures done <= size && buf[..done] == chip.ram[address..address + done]
    ensures status == if done == size then size else -1
    ensures done == size ==> chip.transfers == old(chip.transfers) + (size + 63) / 64
    ensures (forall k :: chip.accepts(k)) ==> done == size
  {
    var remain, ptr, addr, sts := size, 0, address, 0;
    while remain != 0
      invariant 0 <= ptr <= size && ptr + remain == size && addr == address + ptr
      invariant buf[..ptr] == chip.ram[address..addr]
      invariant chip.transfers == old(chip.transfers) + (ptr + 63) / 64 && (remain == 0 || ptr % 64 == 0)
    {
      var cur := if remain < 64 then remain else 64;
      var reply;
      sts, reply := ReadChunk(chip, addr, cur);
      if sts < 0 {
        return -1, ptr;
      }
      OneMoreChunk(ptr, cur, 64);
      MoreRead(chip.ram, address, addr, cur, buf[..ptr], reply);
      CopyOut(buf, ptr, reply);
      remain, ptr, addr := remain - cur, ptr + cur, addr + cur;
    }
    return size, ptr;
  }

  // What was written is read back, and nothing else has changed.
  method WriteThenRead(chip: Chip, address: nat, data: seq<byte>, buf: array<byte>) returns (ok: bool)
    requires |chip.ram| <= 0x100_0000 && address + |data| <= |chip.ram| && |data| <= buf.Length
    modifies chip, buf
    ensures ok ==> buf[..|data|] == data && chip.ram == Splice(old(chip.ram), address, data)
    ensures (forall k :: chip.accepts(k)) ==> ok
  {
    ghost var done;
    var written, read;
    written, done := WriteRam(chip, address, data);
    read, done := ReadRam(chip, address, |data|, buf);
    ok := written == |data| && read == |data|;
    SplicedBack(old(chip.ram), address, data);
    assert data[..|data|] == data;
  }

  // ----- The static checksum

  type uint32 = x: int | 0 <= x < 0x1_0000_0000

  function SumWords(words: seq<uint32>): nat {
    if words == [] then 0 else SumWords(words[..|words| - 1]) + words[|words| - 1]
  }

  lemma SumWordsSnoc(words: seq<uint32>, w: uint32)
    ensures SumWords(words + [w]) == SumWords(words) + w
  {
  }

  lemma {:induction false} SumWordsConcat(x: seq<uint32>, y: seq<uint32>)
    ensures SumWords(x + y) == SumWords(x) + SumWords(y)
    decreases |y|
  {
    if y == [] {
      assert x + y == x;
    } else {
      var k := |y| - 1;
      assert x + y == (x + y[..k]) + [y[k]];
      SumWordsSnoc(x + y[..k], y[k]);
      SumWordsConcat(x, y[..k]);
    }
  }

  lemma SumWordsOfOne(w: uint32)
    ensures SumWords([w]) == w && SumWords([]) == 0
  {
  }

  // chk makes the words sum up to 0.
  predicate Balances(words: seq<uint32>, chk: uint32) {
    (SumWords(words) + chk) % 0x1_0000_0000 == 0
  }

  lemma BalancesNext(words: seq<uint32>, chk: uint32, w: uint32)
    requires Balances(words, chk)
    ensures Balances(words + [w], (chk - w) % 0x1_0000_0000)
  {
    SumWordsSnoc(words, w);
  }

  lemma BalancedWhole(words: seq<uint32>, chk: uint32)
    requires Balances(words, chk)
    ensures SumWords(words + [chk]) % 0x1_0000_0000 == 0
  {
  }

  // The last word that makes all words sum up to 0.
  method FixChecksum(block: array<uint32>)
    requires block.Length > 0
    modifies block
    ensures SumWords(block[..]) % 0x1_0000_0000 == 0
    ensures block[..block.Length - 1] == old(block[..block.Length - 1])
  {
    var chk: uint32 := 0;
    var j := 0;
    while j < block.Length - 1
      invariant 0 <= j <= block.Length - 1 && block[..] == old(block[..])
      invariant Balances(block[..j], chk)
    {
      BalancesNext(block[..j], chk, block[j]);
      assert block[..j + 1] == block[..j] + [block[j]];
      chk := (chk - block[j]) % 0x1_0000_0000;
      j := j + 1;
    }
    BalancedWhole(block[..j], chk);
    block[j] := chk;
    assert block[..] == block[..j] + [chk];
  }
}
