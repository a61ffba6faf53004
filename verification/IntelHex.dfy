/** Intel HEX records: reading a line, and uploading a file into the RAM of the FX2. */
module IntelHex {
  import opened Bytes

  // ----- sscanf("%02x") and sscanf("%04x")

  predicate IsHexDigit(c: char) {
    '0' <= c <= '9' || 'a' <= c <= 'f' || 'A' <= c <= 'F'
  }

  function Digit(c: char): (v: nat)
    ensures v < 16
  {
    if !IsHexDigit(c) then 0
    else if c <= '9' then c as int - '0' as int
    else if c <= 'F' then c as int - 'A' as int + 10
    else c as int - 'a' as int + 10
  }

  // The number of hexadecimal digits at p, at most n.
  function Run(s: string, p: nat, n: nat): (k: nat)
    ensures k <= n && (k > 0 ==> p + k <= |s|)
    decreases n
  {
    if n > 0 && p < |s| && IsHexDigit(s[p]) then 1 + Run(s, p + 1, n - 1) else 0
  }

  function Hex(s: string, p: nat, k: nat): (v: nat)
    requires p + k <= |s|
    ensures (k <= 0 ==> v == 0) && (k <= 1 ==> v < 0x10) && (k <= 2 ==> v < 0x100)
    ensures (k <= 3 ==> v < 0x1000) && (k <= 4 ==> v < 0x1_0000)
  {
    if k == 0 then 0 else 16 * Hex(s, p, k - 1) + Digit(s[p + k - 1])
  }

  function Scan(s: string, p: nat, n: nat): (r: Option<nat>)
    ensures r.Some? && n == 2 ==> r.value < 0x100
    ensures r.Some? && n == 4 ==> r.value < 0x1_0000
  {
    var k := Run(s, p, n);
    if k == 0 then None else Some(Hex(s, p, k))
  }

  // ----- Records

  datatype Record = Record(code: nat, address: nat, data: seq<byte>)

  // The fields have room on a line.
  predicate Printable(r: Record) {
    r.code < 0x100 && r.address < 0x1_0000 && |r.data| <= 255
  }

  function Sum(data: seq<byte>): nat {
    if data == [] then 0 else Sum(data[..|data| - 1]) + data[|data| - 1]
  }

  function Total(r: Record): nat {
    |r.data| + r.address / 0x100 + r.address % 0x100 + r.code + Sum(r.data)
  }

  function Checksum(r: Record): byte {
    (-(Total(r) as int)) % 0x100
  }

  // The i-th byte behind the header.
  function ScanByte(line: string, i: nat): (r: Option<nat>)
    ensures r.Some? ==> r.value < 0x100
  {
    Scan(line, 9 + 2 * i, 2)
  }

  predicate DataReads(line: string, data: seq<byte>) {
    forall i | 0 <= i < |data| :: ScanByte(line, i) == Some(data[i] as nat)
  }

  // What a line says; the checksum it ends in need not be right.
  ghost predicate Reads(line: string, r: Record, checksum: byte) {
    && |line| >= 11 + 2 * |r.data| && line[0] == ':'
    && Scan(line, 1, 2) == Some(|r.data|) && Scan(line, 3, 4) == Some(r.address) && Scan(line, 7, 2) == Some(r.code)
    && DataReads(line, r.data)
    && ScanByte(line, |r.data|) == Some(checksum as nat)
  }

  lemma SumSnoc(data: seq<byte>, b: byte)
    ensures Sum(data + [b]) == Sum(data) + b
  {
  }

  // Sum adds up bytes, in parts if need be.
  lemma {:induction false} SumConcat(x: seq<byte>, y: seq<byte>)
    ensures Sum(x + y) == Sum(x) + Sum(y)
    decreases |y|
  {
    if y == [] {
      assert x + y == x;
    } else {
      var k := |y| - 1;
      assert x + y == (x + y[..k]) + [y[k]];
      SumSnoc(x + y[..k], y[k]);
      SumConcat(x, y[..k]);
    }
  }

  lemma SumOfOne(b: byte)
    ensures Sum([b]) == b && Sum([]) == 0
  {
  }

  // All bytes of a record, the checksum included, add up to 0.
  predicate AddsUp(r: Record, checksum: byte)
    requires Printable(r)
  {
    Sum([|r.data|, r.address / 0x100, r.address % 0x100, r.code] + r.data + [checksum]) % 0x100 == 0
  }

  lemma SumOfRecord(r: Record, checksum: byte)
    requires Printable(r)
    ensures Sum([|r.data|, r.address / 0x100, r.address % 0x100, r.code] + r.data + [checksum]) == Total(r) + checksum
  {
    var head: seq<byte> := [|r.data|, r.address / 0x100, r.address % 0x100, r.code];
    SumConcat(head + r.data, [checksum]);
    SumConcat(head, r.data);
    SumOfOne(checksum);
    SumOfFour(head[0], head[1], head[2], head[3]);
  }

  lemma SumOfThree(a: byte, b: byte, c: byte)
    ensures Sum([a, b, c]) == a + b + c
  {
    SumOfOne(a);
    SumSnoc([a], b);
    SumSnoc([a, b], c);
    assert [a] + [b] == [a, b] && [a, b] + [c] == [a, b, c];
  }

  lemma SumOfFour(a: byte, b: byte, c: byte, d: byte)
    ensures Sum([a, b, c, d]) == a + b + c + d
  {
    SumOfThree(a, b, c);
    SumSnoc([a, b, c], d);
    assert [a, b, c] + [d] == [a, b, c, d];
  }

  lemma Complement(sum: int, checksum: byte)
    ensures (sum + checksum) % 0x100 == 0 <==> checksum == (-sum) % 0x100
  {
  }

  lemma ChecksumAddsUp(r: Record, checksum: byte)
    requires Printable(r)
    ensures AddsUp(r, checksum) <==> checksum == Checksum(r)
  {
    SumOfRecord(r, checksum);
    Complement(Total(r), checksum);
  }

  lemma DataReadsSnoc(line: string, data: seq<byte>, b: byte)
    requires DataReads(line, data) && ScanByte(line, |data|) == Some(b as nat)
    ensures DataReads(line, data + [b])
  {
    var more := data + [b];
    forall i | 0 <= i < |more|
      ensures ScanByte(line, i) == Some(more[i] as nat)
    {
      if i < |data| {
        assert more[i] == data[i];
      }
    }
  }

  // The data bytes, up to the first that cannot be read.
  method ParseData(line: string, bytes: array<byte>, len: nat) returns (ok: bool, num: nat, sum: nat)
    requires bytes.Length == 256 && len <= 255
    modifies bytes
    ensures num <= len && DataReads(line, bytes[..num]) && sum == Sum(bytes[..num])
    ensures if ok then num == len else num < len && ScanByte(line, num).None?
  {
    num, sum := 0, 0;
    while num != len
      invariant num <= len
      invariant DataReads(line, bytes[..num]) && sum == Sum(bytes[..num])
    {
      var b := ScanByte(line, num);
      if b.None? {
        return false, num, sum;
      }
      DataReadsSnoc(line, bytes[..num], b.value);
      SumSnoc(bytes[..num], b.value);
      bytes[num] := b.value;
      assert bytes[..num + 1] == bytes[..num] + [b.value];
      sum := sum + b.value;
      num := num + 1;
    }
    ok := true;
  }

  lemma ChecksumTest(sum: int, checksum: byte)
    ensures (sum % 0x100 + checksum) % 0x100 == 0 <==> checksum == (-sum) % 0x100
  {
  }

  // The colon, the lengths, and the first three fields.
  ghost predicate HeaderReads(line: string, len: nat, addr: nat, code: nat) {
    && |line| >= 11 + 2 * len && line[0] == ':'
    && Scan(line, 1, 2) == Some(len) && Scan(line, 3, 4) == Some(addr) && Scan(line, 7, 2) == Some(code)
  }

  // addr and code keep their old values where the line does not get that far.
  method ParseHeader(line: string, addr0: nat, code0: nat) returns (ok: bool, len: nat, addr: nat, code: nat)
    ensures ok ==> HeaderReads(line, len, addr, code) && len < 0x100 && addr < 0x1_0000
    ensures !ok ==> forall r, checksum :: !Reads(line, r, checksum)
  {
    ok, len, addr, code := false, 0, addr0, code0;
    if line == [] || line[0] != ':' || |line| < 11 {
      return;
    }
    var field := Scan(line, 1, 2);
    if field.None? || |line| < 11 + field.value * 2 {
      return;
    }
    len := field.value;
    field := Scan(line, 3, 4);
    if field.None? {
      return;
    }
    addr := field.value;
    field := Scan(line, 7, 2);
    if field.None? {
      return;
    }
    code := field.value;
    ok := true;
  }

  lemma RecordTest(addr: nat, code: nat, data: seq<byte>, sum: int, cksum: byte)
    requires addr < 0x1_0000 && sum == Sum(data) + |data| + addr / 0x100 % 0x100 + addr % 0x100 + code
    ensures (sum % 0x100 + cksum) % 0x100 == 0 <==> cksum == Checksum(Record(code, addr, data))
  {
    ChecksumTest(sum, cksum);
  }

  // What ParseHexLine reports.
  ghost predicate Reported(line: string, ok: bool, addr: nat, code: nat, data: seq<byte>) {
    && |data| <= 255
    && (ok ==> exists checksum :: Reads(line, Record(code, addr, data), checksum))
    && forall r, checksum :: Reads(line, r, checksum) ==>
         r == Record(code, addr, data) && (ok <==> AddsUp(r, checksum))
  }

  // A line says one thing only.
  lemma ReadsOnce(line: string, r: Record, checksum: byte, r': Record, checksum': byte)
    requires Reads(line, r, checksum) && Reads(line, r', checksum')
    ensures r == r' && checksum == checksum'
  {
  }

  lemma ReportedRead(line: string, ok: bool, addr: nat, code: nat, len: nat, data: seq<byte>, cksum: byte)
    requires |data| == len <= 255 && HeaderReads(line, len, addr, code) && DataReads(line, data)
    requires ScanByte(line, len) == Some(cksum as nat)
    requires ok <==> cksum == Checksum(Record(code, addr, data))
    ensures Reported(line, ok, addr, code, data)
  {
    var record := Record(code, addr, data);
    ChecksumAddsUp(record, cksum);
    assert Reads(line, record, cksum);
    forall r, checksum | Reads(line, r, checksum)
      ensures r == record && (ok <==> AddsUp(r, checksum))
    {
      ReadsOnce(line, record, cksum, r, checksum);
    }
  }

  lemma NotReported(line: string, addr: nat, code: nat, len: nat, num: nat, data: seq<byte>)
    requires HeaderReads(line, len, addr, code) && num <= len && ScanByte(line, num).None? && |data| <= 255
    ensures Reported(line, false, addr, code, data)
  {
  }

  method ParseHexLine(line: string, bytes: array<byte>, addr0: nat, code0: nat)
      returns (ok: bool, addr: nat, num: nat, code: nat)
    requires bytes.Length == 256
    modifies bytes
    ensures num <= 255 && Reported(line, ok, addr, code, bytes[..num])
  {
    var len;
    num := 0;
    ok, len, addr, code := ParseHeader(line, addr0, code0);
    if !ok {
      return;
    }
    var sum: int;
    ok, num, sum := ParseData(line, bytes, len);
    if !ok {
      NotReported(line, addr, code, len, num, bytes[..num]);
      return;
    }
    ghost var data := bytes[..num];
    sum := sum + len + addr / 0x100 % 0x100 + addr % 0x100 + code;
    var cksum := ScanByte(line, num);
    if cksum.None? {
      NotReported(line, addr, code, len, num, data);
      return false, addr, num, code;
    }
    ok := (sum % 0x100 + cksum.value) % 0x100 == 0;
    RecordTest(addr, code, data, sum, cksum.value);
    ReportedRead(line, ok, addr, code, len, data, cksum.value);
  }

  // ----- Printed records

  function HexChar(v: nat): (c: char)
    requires v < 16
    ensures IsHexDigit(c) && Digit(c) == v
  {
    if v < 10 then '0' + v as char else 'A' + (v - 10) as char
  }

  // v stands at p, in upper or lower case.
  predicate Shows(s: string, p: nat, v: nat) {
    && p + 2 <= |s| && IsHexDigit(s[p]) && IsHexDigit(s[p + 1])
    && v == 16 * Digit(s[p]) + Digit(s[p + 1])
  }

  function Print2(v: nat): (s: string)
    requires v < 0x100
    ensures |s| == 2 && Shows(s, 0, v)
  {
    [HexChar(v / 16), HexChar(v % 16)]
  }

  function PrintData(data: seq<byte>): (s: string)
    ensures |s| == 2 * |data|
  {
    if data == [] then [] else PrintData(data[..|data| - 1]) + Print2(data[|data| - 1])
  }

  function Line(r: Record, checksum: byte): string
    requires Printable(r)
  {
    ":" + Print2(|r.data|) + Print2(r.address / 0x100) + Print2(r.address % 0x100) + Print2(r.code) +
    PrintData(r.data) + Print2(checksum)
  }

  lemma Scan2(s: string, p: nat, v: nat)
    requires v < 0x100 && Shows(s, p, v)
    ensures Scan(s, p, 2) == Some(v)
  {
    assert Run(s, p + 2, 0) == 0 && Run(s, p + 1, 1) == 1 && Run(s, p, 2) == 2;
    assert Hex(s, p, 1) == v / 16 && Hex(s, p, 2) == v;
  }

  lemma Scan4(s: string, p: nat, v: nat)
    requires v < 0x1_0000 && Shows(s, p, v / 0x100) && Shows(s, p + 2, v % 0x100)
    ensures Scan(s, p, 4) == Some(v)
  {
    assert Run(s, p + 4, 0) == 0 && Run(s, p + 3, 1) == 1 && Run(s, p + 2, 2) == 2 && Run(s, p + 1, 3) == 3;
    assert Hex(s, p, 1) == v / 0x1000 && Hex(s, p, 2) == v / 0x100 && Hex(s, p, 3) == v / 0x10;
  }

  lemma {:induction false} PrintDataAt(data: seq<byte>, i: nat)
    requires i < |data|
    ensures Shows(PrintData(data), 2 * i, data[i])
  {
    var k := |data| - 1;
    if i < k {
      PrintDataAt(data[..k], i);
    }
  }

  // The fields of a printed line.
  ghost predicate Printed(s: string, r: Record, checksum: byte)
    requires Printable(r)
  {
    && |s| >= 11 + 2 * |r.data| && s[0] == ':' && Shows(s, 1, |r.data|)
    && Shows(s, 3, r.address / 0x100) && Shows(s, 5, r.address % 0x100) && Shows(s, 7, r.code)
    && (forall i | 0 <= i < |r.data| :: Shows(s, 9 + 2 * i, r.data[i]))
    && Shows(s, 9 + 2 * |r.data|, checksum)
  }

  lemma ShowsPrinted(s: string, p: nat, v: nat)
    requires v < 0x100 && p + 2 <= |s| && s[p..p + 2] == Print2(v)
    ensures Shows(s, p, v)
  {
  }

  lemma DataShown(s: string, data: seq<byte>, i: nat)
    requires i < |data| && |s| >= 9 + 2 * |data| && s[9..9 + 2 * |data|] == PrintData(data)
    ensures Shows(s, 9 + 2 * i, data[i])
  {
    PrintDataAt(data, i);
    assert s[9 + 2 * i] == PrintData(data)[2 * i] && s[10 + 2 * i] == PrintData(data)[2 * i + 1];
  }

  lemma LineParts(r: Record, checksum: byte, more: string)
    requires Printable(r)
    ensures var s, end := Line(r, checksum) + more, 9 + 2 * |r.data|;
      && |s| >= end + 2 && s[0] == ':' && s[1..3] == Print2(|r.data|)
      && s[3..5] == Print2(r.address / 0x100) && s[5..7] == Print2(r.address % 0x100) && s[7..9] == Print2(r.code)
      && s[9..end] == PrintData(r.data) && s[end..end + 2] == Print2(checksum)
  {
  }

  lemma LinePrinted(r: Record, checksum: byte, more: string)
    requires Printable(r)
    ensures Printed(Line(r, checksum) + more, r, checksum)
  {
    LineParts(r, checksum, more);
    PartsPrinted(Line(r, checksum) + more, r, checksum);
  }

  lemma PartsPrinted(s: string, r: Record, checksum: byte)
    requires Printable(r) && |s| >= 11 + 2 * |r.data| && s[0] == ':' && s[1..3] == Print2(|r.data|)
    requires s[3..5] == Print2(r.address / 0x100) && s[5..7] == Print2(r.address % 0x100) && s[7..9] == Print2(r.code)
    requires var end := 9 + 2 * |r.data|; s[9..end] == PrintData(r.data) && s[end..end + 2] == Print2(checksum)
    ensures Printed(s, r, checksum)
  {
    ShowsPrinted(s, 1, |r.data|);
    ShowsPrinted(s, 3, r.address / 0x100);
    ShowsPrinted(s, 5, r.address % 0x100);
    ShowsPrinted(s, 7, r.code);
    ShowsPrinted(s, 9 + 2 * |r.data|, checksum);
    forall i | 0 <= i < |r.data|
      ensures Shows(s, 9 + 2 * i, r.data[i])
    {
      DataShown(s, r.data, i);
    }
  }

  lemma PrintedReads(s: string, r: Record, checksum: byte)
    requires Printable(r) && Printed(s, r, checksum)
    ensures Reads(s, r, checksum)
  {
    Scan2(s, 1, |r.data|);
    Scan4(s, 3, r.address);
    Scan2(s, 7, r.code);
    forall i | 0 <= i < |r.data|
      ensures ScanByte(s, i) == Some(r.data[i] as nat)
    {
      Scan2(s, 9 + 2 * i, r.data[i]);
    }
    Scan2(s, 9 + 2 * |r.data|, checksum);
  }

  // What is printed reads back, whatever follows on the line.
  lemma LineReads(r: Record, checksum: byte, more: string)
    requires Printable(r)
    ensures Reads(Line(r, checksum) + more, r, checksum)
  {
    LinePrinted(r, checksum, more);
    PrintedReads(Line(r, checksum) + more, r, checksum);
  }

  lemma {:induction false} SumUpdate(data: seq<byte>, i: nat, b: byte)
    requires i < |data|
    ensures Sum(data[i := b]) == Sum(data) - data[i] + b
  {
    var k := |data| - 1;
    if i < k {
      SumUpdate(data[..k], i, b);
      assert data[i := b][..k] == data[..k][i := b];
    } else {
      assert data[i := b][..k] == data[..k];
    }
  }

  // One byte of the address, the type or the data is another.
  ghost predicate OneByteAltered(r: Record, r': Record) {
    || (r' == r.(code := r'.code) && r'.code != r.code)
    || (r' == r.(address := r'.address) &&
        (r'.address / 0x100 == r.address / 0x100) != (r'.address % 0x100 == r.address % 0x100))
    || exists i: nat, b: byte {:trigger r.data[i := b]} ::
         i < |r.data| && r.data[i] != b && r' == r.(data := r.data[i := b])
  }

  lemma ResiduesDiffer(x: int, y: int)
    requires 0 < x - y < 0x100
    ensures (-x) % 0x100 != (-y) % 0x100
  {
  }

  lemma AlteredTotal(r: Record, r': Record)
    requires Printable(r) && Printable(r') && OneByteAltered(r, r')
    ensures Total(r) != Total(r') && -0x100 < Total(r) - Total(r') < 0x100
  {
    if r'.data != r.data {
      var i: nat, b: byte :| i < |r.data| && r.data[i] != b && r' == r.(data := r.data[i := b]);
      SumUpdate(r.data, i, b);
    }
  }

  lemma AlteredChecksum(r: Record, r': Record)
    requires Printable(r) && Printable(r') && OneByteAltered(r, r')
    ensures Checksum(r) != Checksum(r')
  {
    AlteredTotal(r, r');
    if Total(r) > Total(r') {
      ResiduesDiffer(Total(r), Total(r'));
    } else {
      ResiduesDiffer(Total(r'), Total(r));
    }
  }

  // A line in which one byte was altered, or only the checksum, is refused.
  lemma AlteredRefused(line: string, ok: bool, addr: nat, code: nat, data: seq<byte>, r: Record, r': Record,
      checksum: byte)
    requires Printable(r) && Printable(r') && Reported(line, ok, addr, code, data)
    requires Reads(line, r', checksum)
    requires if r' == r then checksum != Checksum(r) else OneByteAltered(r, r') && checksum == Checksum(r)
    ensures !ok
  {
    ChecksumAddsUp(r', checksum);
    if r' != r {
      AlteredChecksum(r, r');
    }
  }

  // ----- Two lines of the standard

  lemma EndOfFileSpelt()
    ensures Printed(":00000001FF", Record(1, 0, []), 0xFF)
  {
  }

  lemma EndOfFileAddsUp()
    ensures AddsUp(Record(1, 0, []), 0xFF)
  {
    SumOfRecord(Record(1, 0, []), 0xFF);
    SumOfOne(0);
  }

  // The end-of-file record is accepted.
  lemma EndOfFileLine(ok: bool, addr: nat, code: nat, data: seq<byte>)
    requires Reported(":00000001FF", ok, addr, code, data)
    ensures ok && addr == 0 && code == 1 && data == []
  {
    EndOfFileSpelt();
    PrintedReads(":00000001FF", Record(1, 0, []), 0xFF);
    EndOfFileAddsUp();
  }

  lemma DataSpelt(line: string)
    requires line == ":0300300002337A1E" || line == ":0300300002337a1e"
    ensures Printed(line, Record(0, 0x30, [0x02, 0x33, 0x7A]), 0x1E)
  {
    assert Shows(line, 9, 0x02) && Shows(line, 11, 0x33) && Shows(line, 13, 0x7A);
  }

  lemma DataAddsUp()
    ensures AddsUp(Record(0, 0x30, [0x02, 0x33, 0x7A]), 0x1E)
  {
    SumOfRecord(Record(0, 0x30, [0x02, 0x33, 0x7A]), 0x1E);
    SumOfThree(0x02, 0x33, 0x7A);
  }

  // So is a data record, in upper or lower case.
  lemma DataLine(line: string, ok: bool, addr: nat, code: nat, data: seq<byte>)
    requires line == ":0300300002337A1E" || line == ":0300300002337a1e"
    requires Reported(line, ok, addr, code, data)
    ensures ok && addr == 0x30 && code == 0 && data == [0x02, 0x33, 0x7A]
  {
    DataSpelt(line);
    PrintedReads(line, Record(0, 0x30, [0x02, 0x33, 0x7A]), 0x1E);
    DataAddsUp();
  }
}
