/**
 * A tile of the multi-instrument grid: a sparse table from instrument index to the id of the
 * note that instrument scheduled on the tile, with a separately kept counter of notes.
 */
module Tiles {
  import opened Common

  class Tile {
    var notes: map<nat, nat>
    var numberOfNotes: int

    /** The counter agrees with the table. The source never checks this; it holds when
     *  notes are only added on empty slots and only removed from filled ones. */
    ghost predicate Consistent()
      reads this
    {
      numberOfNotes == |notes.Keys|
    }

    /** A new tile has no note in any slot. */
    constructor()
      ensures notes == map[] && numberOfNotes == 0
      ensures Consistent() && IsEmpty() && forall i :: !HasNote(i)
    {
      notes := map[];
      numberOfNotes := 0;
    }

    /** isEmpty reads the counter, not the table. */
    function IsEmpty(): bool
      reads this
    {
      numberOfNotes == 0
    }

    /** getNote: the note id of slot i, or None (`undefined`) for an empty slot. */
    function GetNote(i: nat): (r: Option<nat>)
      reads this
      ensures r.Some? <==> HasNote(i)
      ensures r.Some? ==> r.value == notes[i]
    {
      if i in notes then Some(notes[i]) else None
    }

    function HasNote(i: nat): bool
      reads this
    {
      i in notes
    }

    /** addNote: fills slot i and counts one more note, whether or not the slot was filled. */
    method AddNote(i: nat, noteId: nat)
      modifies this
      ensures notes == old(notes)[i := noteId] && numberOfNotes == old(numberOfNotes) + 1
      ensures HasNote(i) && GetNote(i) == Some(noteId)
      ensures forall j :: j != i ==> GetNote(j) == old(GetNote(j))
      ensures old(Consistent()) && !old(HasNote(i)) ==> Consistent()
    {
      notes := notes[i := noteId];
      numberOfNotes := numberOfNotes + 1;
    }

    /** removeNote: empties slot i and counts one note fewer, whether or not it was filled. */
    method RemoveNote(i: nat)
      modifies this
      ensures notes == old(notes) - {i} && numberOfNotes == old(numberOfNotes) - 1
      ensures !HasNote(i)
      ensures forall j :: j != i ==> GetNote(j) == old(GetNote(j))
      ensures old(Consistent()) && old(HasNote(i)) ==> Consistent()
    {
      notes := notes - {i};
      numberOfNotes := numberOfNotes - 1;
    }

    /** removeAllNotes: no slot holds a note and the counter is zero. */
    method RemoveAllNotes()
      modifies this
      ensures notes == map[] && numberOfNotes == 0
      ensures Consistent() && IsEmpty() && forall i :: !HasNote(i)
    {
      notes := map[];
      numberOfNotes := 0;
    }
  }

  /** While the counter agrees with the table, the tile is empty iff no slot holds a note. */
  lemma EmptyIffNoNotes(t: Tile)
    requires t.Consistent()
    ensures t.IsEmpty() <==> forall i :: !t.HasNote(i)
  {
    if !t.IsEmpty() {
      assert t.notes.Keys != {};
      var i :| i in t.notes.Keys;
      assert t.HasNote(i);
    }
  }

  /** Adding to a filled slot breaks the agreement: the table keeps one entry, the counter says two. */
  method DoubleAddMiscounts() returns (t: Tile)
    ensures !t.Consistent() && t.numberOfNotes == 2 && |t.notes.Keys| == 1
  {
    t := new Tile();
    t.AddNote(0, 7);
    t.AddNote(0, 8);
    assert t.notes.Keys == {0};
  }

  /** Removing from an empty slot drives the counter below zero. */
  method RemoveFromEmptyMiscounts() returns (t: Tile)
    ensures !t.Consistent() && t.numberOfNotes == -1 && !t.IsEmpty()
  {
    t := new Tile();
    t.RemoveNote(3);
  }
}
