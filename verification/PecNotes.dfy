/** What a run of commands does to the running PEC and to the PEC failure flag. */
module PecNotes {
  import opened Bytes
  import opened Pec
  import opened Transfer

  datatype Note =
    | Cleared                       // START with PEC on, PEC disabled, or interface reset
    | Folded(bytes: seq<byte>)      // bytes folded into the running PEC
    | Mismatch                      // a read whose PEC was wrong
    | Queried                       // the failure flag was read

  // The bytes folded since the running PEC was last cleared.
  function Covered(notes: seq<Note>): seq<byte> {
    if notes == [] then []
    else
      var k := |notes| - 1;
      match notes[k]
      case Cleared => []
      case Folded(bytes) => Covered(notes[..k]) + bytes
      case _ => Covered(notes[..k])
  }

  // Whether a mismatch happened since the flag was last read.
  predicate Failed(notes: seq<Note>) {
    notes != [] &&
    var k := |notes| - 1;
    match notes[k]
    case Mismatch => true
    case Queried => false
    case _ => Failed(notes[..k])
  }

  // The running PEC is that of the covered bytes, and 0 while PEC is off; the flag tells
  // of unread mismatches.
  predicate Consistent(enabled: bool, mrqPec: byte, pecFailed: bool, notes: seq<Note>) {
    && mrqPec == PecOf(Covered(notes))
    && (!enabled ==> mrqPec == 0)
    && pecFailed == Failed(notes)
  }

  lemma Snoc(notes: seq<Note>, note: Note)
    ensures Covered(notes + [note]) ==
      if note.Cleared? then [] else if note.Folded? then Covered(notes) + note.bytes else Covered(notes)
    ensures Failed(notes + [note]) <==> note == Mismatch || (note != Queried && Failed(notes))
  {
  }

  // What a read leaves in the notes.
  function ReadNotes(mismatch: bool): seq<Note> {
    if mismatch then [Mismatch] else []
  }

  // What a partial write leaves in the notes.
  function WriteNotes(flags: word, pec: bool, acked: seq<byte>): seq<Note> {
    if !pec then [] else if StartFirst(flags) then [Cleared, Folded(acked)] else [Folded(acked)]
  }

  lemma WriteKeeps(enabled: bool, mrqPec: byte, pecFailed: bool, notes: seq<Note>, flags: word, acked: seq<byte>)
    requires Consistent(enabled, mrqPec, pecFailed, notes)
    ensures Consistent(enabled, if enabled then CrcFrom(BasePec(flags, true, mrqPec), acked) else mrqPec,
      pecFailed, notes + WriteNotes(flags, enabled, acked))
  {
    if !enabled {
      assert notes + WriteNotes(flags, enabled, acked) == notes;
    } else if StartFirst(flags) {
      assert notes + WriteNotes(flags, enabled, acked) == (notes + [Cleared]) + [Folded(acked)];
      Snoc(notes, Cleared);
      Snoc(notes + [Cleared], Folded(acked));
      assert [] + acked == acked;
    } else {
      Snoc(notes, Folded(acked));
      CrcConcat(0, Covered(notes), acked);
    }
  }

  lemma ReadKeeps(enabled: bool, mrqPec: byte, pecFailed: bool, notes: seq<Note>, got: seq<byte>)
    requires Consistent(enabled, mrqPec, pecFailed, notes)
    ensures Consistent(enabled, if enabled then CrcFrom(mrqPec, got) else mrqPec,
      pecFailed, notes + if enabled then [Folded(got)] else [])
  {
    if enabled {
      Snoc(notes, Folded(got));
      CrcConcat(0, Covered(notes), got);
    } else {
      assert notes + [] == notes;
    }
  }

  lemma ClearKeeps(enabled: bool, mrqPec: byte, pecFailed: bool, notes: seq<Note>, nowEnabled: bool)
    requires Consistent(enabled, mrqPec, pecFailed, notes)
    ensures Consistent(nowEnabled, 0, pecFailed, notes + [Cleared])
  {
  }

  lemma JudgedKeeps(enabled: bool, mrqPec: byte, pecFailed: bool, notes: seq<Note>, mismatch: bool)
    requires Consistent(enabled, mrqPec, pecFailed, notes)
    ensures Consistent(enabled, mrqPec, pecFailed || mismatch, notes + ReadNotes(mismatch))
  {
    if mismatch {
      Snoc(notes, Mismatch);
    } else {
      assert notes + [] == notes;
    }
  }

  lemma QueryKeeps(enabled: bool, mrqPec: byte, pecFailed: bool, notes: seq<Note>)
    requires Consistent(enabled, mrqPec, pecFailed, notes)
    ensures Consistent(enabled, mrqPec, false, notes + [Queried])
  {
  }

  // Chunk boundaries and repeated STARTs leave no trace in what the running PEC covers.
  lemma ChunksMerge(notes: seq<Note>, x: seq<byte>, y: seq<byte>)
    ensures Covered(notes + [Folded(x)] + [Folded(y)]) == Covered(notes + [Folded(x + y)])
  {
  }
}
