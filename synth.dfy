/**
 * The pentatonic scale and the SynthInstrument of the multi-instrument version: notes are
 * scheduled on the Transport, and a per-column polyphony counter makes crowded columns quieter.
 */
module Synth {
  import opened Common
  import opened Timeline
  import Volume

  /** The five pitch classes, lowest first. */
  const Pentatonic: seq<string> := ["B#", "D", "F", "G", "A"]

  function DigitChar(d: nat): char
    requires d < 10
  {
    ('0' as int + d) as char
  }

  predicate IsDigit(c: char)
  {
    '0' <= c <= '9'
  }

  /** The decimal text of n, as string concatenation renders a number. */
  function NatToString(n: nat): (s: string)
    ensures |s| >= 1 && forall i :: 0 <= i < |s| ==> IsDigit(s[i])
    ensures s[0] == '0' <==> n == 0
  {
    if n < 10 then [DigitChar(n)] else NatToString(n / 10) + [DigitChar(n % 10)]
  }

  /** The number a text of decimal digits denotes, most significant digit first. */
  function DecimalValue(s: string): nat
    requires forall i :: 0 <= i < |s| ==> IsDigit(s[i])
  {
    if s == [] then 0
    else
      assert IsDigit(s[|s| - 1]);
      DecimalValue(s[..|s| - 1]) * 10 + (s[|s| - 1] as int - '0' as int)
  }

  /** Reading the decimal text of n back gives n. */
  lemma {:induction false} NatToStringValue(n: nat)
    ensures DecimalValue(NatToString(n)) == n
  {
    if n >= 10 {
      var s := NatToString(n);
      assert s[..|s| - 1] == NatToString(n / 10);
      NatToStringValue(n / 10);
    }
  }

  /** Note i counted from the bottom: pitch class i mod 5 in octave 3 + (i + 4) div 5. */
  function NoteName(i: nat): string
  {
    Pentatonic[i % 5] + NatToString(3 + (i + 4) / 5)
  }

  /** The scale of a grid of h rows, highest note first, because row 0 is at the top. */
  function Scale(h: nat): seq<string>
  {
    seq(h, k requires 0 <= k < h => NoteName(h - 1 - k))
  }

  function Reverse<T>(s: seq<T>): (r: seq<T>)
    ensures |r| == |s| && forall k :: 0 <= k < |s| ==> r[k] == s[|s| - 1 - k]
  {
    if s == [] then [] else Reverse(s[1..]) + [s[0]]
  }

  /** The constructor's loop fills the notes bottom-up, then reverses the table. */
  method BuildScale(h: nat) returns (scale: seq<string>)
    ensures scale == Scale(h)
  {
    var ascending: seq<string> := [];
    var i := 0;
    while i < h
      invariant 0 <= i <= h && |ascending| == i
      invariant forall k :: 0 <= k < i ==> ascending[k] == NoteName(k)
    {
      ascending := ascending + [Pentatonic[i % 5] + NatToString(3 + (i + 4) / 5)];
      i := i + 1;
    }
    scale := Reverse(ascending);
  }

  /** On the 16-row grid the scale runs from B#6 at the top down to B#3 at the bottom. */
  lemma SixteenRowScale()
    ensures Scale(16)[0] == "B#6" && Scale(16)[15] == "B#3"
  {
    assert NoteName(15) == "B#" + NatToString(6);
    assert NoteName(0) == "B#" + NatToString(3);
  }

  /** Five rows up the scale is the same pitch class one octave higher. */
  lemma OctaveAboveSamePitchClass(i: nat)
    ensures (i + 5) % 5 == i % 5 && 3 + (i + 5 + 4) / 5 == 3 + (i + 4) / 5 + 1
    ensures NoteName(i + 5) == Pentatonic[i % 5] + NatToString(4 + (i + 4) / 5)
  {
  }

  /** Where a scheduled note sits on the grid. */
  datatype NoteRef = NoteRef(x: int, y: int)

  /** The ids of the live notes in column x. */
  function ColumnIds(notes: map<nat, NoteRef>, x: int): (ids: set<nat>)
    ensures ids <= notes.Keys && |ids| <= |notes|
  {
    var ids := set id | id in notes && notes[id].x == x;
    SubsetSize(ids, notes.Keys);
    ids
  }

  /** A subset is no larger than the set that holds it. */
  lemma {:induction false} SubsetSize(a: set<nat>, b: set<nat>)
    requires a <= b
    ensures |a| <= |b|
  {
    if a != {} {
      var e :| e in a;
      SubsetSize(a - {e}, b - {e});
    }
  }

  /** The number of live notes in column x. */
  function NotesInColumn(notes: map<nat, NoteRef>, x: int): nat
  {
    |ColumnIds(notes, x)|
  }

  lemma NoTableNoNotes(x: int)
    ensures NotesInColumn(map[], x) == 0
  {
    assert ColumnIds(map[], x) == {};
  }

  lemma NotesInColumnAdd(notes: map<nat, NoteRef>, id: nat, r: NoteRef, x: int)
    requires id !in notes
    ensures NotesInColumn(notes[id := r], x) == NotesInColumn(notes, x) + (if r.x == x then 1 else 0)
  {
    if r.x == x {
      assert ColumnIds(notes[id := r], x) == ColumnIds(notes, x) + {id};
    } else {
      assert ColumnIds(notes[id := r], x) == ColumnIds(notes, x);
    }
  }

  lemma NotesInColumnRemove(notes: map<nat, NoteRef>, id: nat, x: int)
    requires id in notes
    ensures NotesInColumn(notes - {id}, x) == NotesInColumn(notes, x) - (if notes[id].x == x then 1 else 0)
  {
    if notes[id].x == x {
      assert ColumnIds(notes - {id}, x) == ColumnIds(notes, x) - {id};
    } else {
      assert ColumnIds(notes - {id}, x) == ColumnIds(notes, x);
    }
  }

  class SynthInstrument {
    const gridWidth: nat
    const gridHeight: nat
    const transport: Transport
    /** Three voices per note of the scale. */
    const numVoices: nat := 3
    var scale: seq<string>
    var polyphony: seq<int>
    var notes: map<nat, NoteRef>
    /** How many Tone.Players exist: none until the pre-rendered buffer is ready. */
    var players: nat
    var currentPlayer: nat

    /**
     * polyphony[x] counts exactly the live notes of column x, so it is never negative; every
     * note id was handed out by the Transport; the player cursor is a valid index.
     */
    ghost predicate Valid()
      reads this, transport
    {
      && gridHeight > 0
      && |polyphony| == gridWidth
      && transport.Valid()
      && (forall id :: id in notes ==> id < transport.nextId && 0 <= notes[id].x < gridWidth)
      && (forall x :: 0 <= x < gridWidth ==> polyphony[x] == NotesInColumn(notes, x))
      && (currentPlayer < players || currentPlayer == 0)
    }

    constructor(gridWidth: nat, gridHeight: nat, transport: Transport)
      requires gridHeight > 0 && transport.Valid()
      ensures Valid() && this.transport == transport
      ensures this.gridWidth == gridWidth && this.gridHeight == gridHeight
      ensures scale == Scale(gridHeight) && polyphony == seq(gridWidth, x => 0)
      ensures notes == map[] && players == 0 && currentPlayer == 0
    {
      this.gridWidth := gridWidth;
      this.gridHeight := gridHeight;
      this.transport := transport;
      var table := BuildScale(gridHeight);
      scale := table;
      polyphony := seq(gridWidth, x => 0);
      notes := map[];
      players := 0;
      currentPlayer := 0;
      forall x {
        NoTableNoNotes(x);
      }
    }

    /** The pre-rendering promise resolves: one player per voice per note of the scale. */
    method FinishPreRender()
      requires Valid()
      modifies this
      ensures Valid()
      ensures players == old(players) + |scale| * numVoices
      ensures scale == old(scale) && polyphony == old(polyphony) && notes == old(notes)
      ensures currentPlayer == old(currentPlayer)
    {
      var i := 0;
      while i < |scale| * numVoices
        invariant 0 <= i <= |scale| * numVoices
        invariant players == old(players) + i
        invariant Valid() && scale == old(scale) && polyphony == old(polyphony) && notes == old(notes)
        invariant currentPlayer == old(currentPlayer)
      {
        players := players + 1;
        i := i + 1;
      }
    }

    /**
     * scheduleNote: schedules an event for tile (gridX, gridY), records it under the returned
     * id and adds one to the column's polyphony.
     */
    method ScheduleNote(gridX: int, gridY: int) returns (id: nat)
      requires Valid() && 0 <= gridX < gridWidth
      modifies this, transport
      ensures Valid()
      ensures id !in old(notes) && notes == old(notes)[id := NoteRef(gridX, gridY)]
      ensures id !in old(transport.events)
      ensures polyphony == old(polyphony)[gridX := old(polyphony[gridX]) + 1]
      ensures transport.events == old(transport.events)[id := Event(gridX, gridY, None)]
      ensures scale == old(scale) && players == old(players) && currentPlayer == old(currentPlayer)
    {
      id := transport.Schedule(Event(gridX, gridY, None));
      NotesInColumnAddEverywhere(notes, id, NoteRef(gridX, gridY));
      notes := notes[id := NoteRef(gridX, gridY)];
      polyphony := polyphony[gridX := polyphony[gridX] + 1];
    }

    /**
     * unscheduleNote: forgets the note, takes one from its column's polyphony and clears the
     * event. For an id with no note the source throws a TypeError before changing anything:
     * `ok` is false then.
     */
    method UnscheduleNote(id: nat) returns (ok: bool)
      requires Valid()
      modifies this, transport
      ensures Valid()
      ensures ok <==> id in old(notes)
      ensures !ok ==> notes == old(notes) && polyphony == old(polyphony)
                      && transport.events == old(transport.events)
      ensures ok ==> var x := old(notes[id]).x;
                     && notes == old(notes) - {id}
                     && polyphony == old(polyphony)[x := old(polyphony[x]) - 1]
                     && polyphony[x] >= 0
                     && transport.events == old(transport.events) - {id}
      ensures scale == old(scale) && players == old(players) && currentPlayer == old(currentPlayer)
    {
      if id !in notes {
        return false;
      }
      var x := notes[id].x;
      NotesInColumnRemoveEverywhere(notes, id);
      notes := notes - {id};
      polyphony := polyphony[x := polyphony[x] - 1];
      transport.Clear(id);
      ok := true;
    }

    /**
     * The event callback for a note of column gridX: the volume falls from -10 to -20 as the
     * column fills; when a player exists it plays and the cursor moves to the next player.
     */
    method PlayScheduledNote(gridX: int) returns (volume: real, played: bool)
      requires Valid() && 0 <= gridX < gridWidth
      modifies this
      ensures Valid()
      ensures volume == Volume.PolyphonyVolume(gridHeight, polyphony[gridX], -20.0, -10.0)
      ensures polyphony[gridX] <= gridHeight ==> -20.0 <= volume <= -10.0
      ensures played <==> players > 0
      ensures played ==> currentPlayer == (old(currentPlayer) + 1) % players
      ensures !played ==> currentPlayer == old(currentPlayer)
      ensures scale == old(scale) && polyphony == old(polyphony) && notes == old(notes)
      ensures players == old(players)
    {
      volume := Volume.PolyphonyVolume(gridHeight, polyphony[gridX], -20.0, -10.0);
      if polyphony[gridX] <= gridHeight {
        Volume.VolumeInRange(gridHeight, polyphony[gridX], -20.0, -10.0);
      }
      if players == 0 {
        played := false;
      } else {
        currentPlayer := (currentPlayer + 1) % players;
        played := true;
      }
    }
  }

  lemma NotesInColumnAddEverywhere(notes: map<nat, NoteRef>, id: nat, r: NoteRef)
    requires id !in notes
    ensures forall x :: NotesInColumn(notes[id := r], x) == NotesInColumn(notes, x) + (if r.x == x then 1 else 0)
  {
    forall x ensures NotesInColumn(notes[id := r], x) == NotesInColumn(notes, x) + (if r.x == x then 1 else 0) {
      NotesInColumnAdd(notes, id, r, x);
    }
  }

  lemma NotesInColumnRemoveEverywhere(notes: map<nat, NoteRef>, id: nat)
    requires id in notes
    ensures forall x :: NotesInColumn(notes - {id}, x) == NotesInColumn(notes, x) - (if notes[id].x == x then 1 else 0)
  {
    forall x ensures NotesInColumn(notes - {id}, x) == NotesInColumn(notes, x) - (if notes[id].x == x then 1 else 0) {
      NotesInColumnRemove(notes, id, x);
    }
  }

  /** Scheduling a note and then unscheduling its id restores the notes and the polyphony. */
  method ScheduleThenUnschedule(s: SynthInstrument, x: int, y: int)
    requires s.Valid() && 0 <= x < s.gridWidth
    modifies s, s.transport
    ensures s.Valid()
    ensures s.notes == old(s.notes) && s.polyphony == old(s.polyphony)
    ensures s.transport.events == old(s.transport.events)
  {
    var id := s.ScheduleNote(x, y);
    var ok := s.UnscheduleNote(id);
    assert s.notes == old(s.notes);
    assert s.polyphony == old(s.polyphony);
    assert s.transport.events == old(s.transport.events);
  }
}
