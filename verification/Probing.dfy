/** Probing what a slave accepts, by how much of a write it acknowledges. */
module Probing {
  import opened Bytes
  import opened Wire

  // A write that is stopped at the first byte that is not acknowledged, or after the last;
  // there is no STOP if the bus could not be had.
  function Probe(s: Slave, h: History, bytes: seq<byte>): Run {
    var up := StartUp(s, h, 0);
    if !up.ok then Run(up.wire, 0)
    else
      var r := Send(s, up.wire, bytes);
      Run(r.wire + [Stop], r.sent)
  }

  // The level for the number of acknowledged bytes of address, command, 3, 0, 0, 0, 0.
  function WriteLevel(sent: nat): byte
    requires sent <= 7
  {
    if sent <= 1 then 0 else if sent <= 4 then sent - 1 else sent - 2
  }

  // A probe for every slave: n bytes are acknowledged, and STOP follows in any case but one.
  lemma ProbeExact(s: Slave, h: History, bytes: seq<byte>) returns (n: nat)
    ensures n <= |bytes|
    ensures var lost := Losses(s, h, 0);
      var start := h + LostStarts(lost) + [Start];
      if lost == 5 then Probe(s, h, bytes) == Run(h + LostStarts(5), 0)
      else
        var g := start + AckedBytes(bytes[..n]);
        && AcksFirst(s, start, bytes, n) && (n < |bytes| ==> s.answer(g, bytes[n]) != Acked)
        && Probe(s, h, bytes) == Run(g + (if n < |bytes| then Refusal(s, g, bytes[n]) else []) + [Stop], n)
  {
    StartUpExact(s, h);
    var start := h + LostStarts(Losses(s, h, 0)) + [Start];
    SendExact(s, start, bytes);
    n := Send(s, start, bytes).sent;
    assert bytes[..|bytes|] == bytes;
    var g := start + AckedBytes(bytes[..n]);
    assert g + [] == g;
  }
}
