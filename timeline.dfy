/**
 * The scheduler beneath the grid: Tone.js's Transport reduced to a table of scheduled events
 * keyed by fresh ids, and the NotePlayer wrapper that schedules one grid note on it and
 * answers `false` when scheduling fails.
 */
module Timeline {
  import opened Common

  /** A grid cell: `false`, or the id of the Transport event that plays the tile. */
  datatype Cell = Unarmed | Armed(id: nat)

  /**
   * A note's Transport event: the tile it plays, and the volume fixed when it was scheduled,
   * or None when the callback works the volume out itself when it fires.
   */
  datatype Event = Event(x: int, y: int, volume: Option<real>)

  /** `data[i] !== false`, where a read past the end gives `undefined`, which counts as armed. */
  function IsArmedAt(data: seq<Cell>, i: int): bool
  {
    if 0 <= i < |data| then data[i].Armed? else true
  }

  /** The armed state of every cell. */
  function ArmedStates(data: seq<Cell>): seq<bool>
  {
    seq(|data|, i requires 0 <= i < |data| => data[i].Armed?)
  }

  /** Tone.Transport: the live scheduled events, and the id the next `schedule` hands out. */
  class Transport {
    var nextId: nat
    var events: map<nat, Event>

    /** Every live event has an id below the next one, so a fresh id is never live. */
    ghost predicate Valid()
      reads this
    {
      forall id :: id in events ==> id < nextId
    }

    constructor()
      ensures Valid() && events == map[] && nextId == 0
    {
      nextId := 0;
      events := map[];
    }

    /** Transport.schedule: register an event under a fresh id. */
    method Schedule(e: Event) returns (id: nat)
      requires Valid()
      modifies this
      ensures Valid()
      ensures id == old(nextId) && id !in old(events)
      ensures events == old(events)[id := e] && nextId == old(nextId) + 1
    {
      id := nextId;
      events := events[id := e];
      nextId := nextId + 1;
    }

    /** Transport.clear: drop one event; an id that is not live changes nothing. */
    method Clear(id: nat)
      requires Valid()
      modifies this
      ensures Valid()
      ensures events == old(events) - {id} && nextId == old(nextId)
    {
      events := events - {id};
    }

    /** Transport.cancel: drop every event. */
    method Cancel()
      requires Valid()
      modifies this
      ensures Valid()
      ensures events == map[] && nextId == old(nextId)
    {
      events := map[];
    }
  }

  /**
   * NotePlayer: `scheduleNote` schedules an event for tile (x, y) and returns its id, or
   * returns `false` when the Transport throws. Whether it throws is the model's `accepting` flag.
   */
  class NotePlayer {
    const transport: Transport
    var accepting: bool

    constructor(t: Transport)
      ensures transport == t && accepting
    {
      transport := t;
      accepting := true;
    }

    method ScheduleNote(x: int, y: int, volume: real) returns (c: Cell)
      requires transport.Valid()
      modifies transport
      ensures transport.Valid()
      ensures accepting ==> c == Armed(old(transport.nextId))
                            && c.id !in old(transport.events)
                            && transport.events == old(transport.events)[c.id := Event(x, y, Some(volume))]
                            && transport.nextId == old(transport.nextId) + 1
      ensures !accepting ==> c == Unarmed && transport.events == old(transport.events)
                             && transport.nextId == old(transport.nextId)
    {
      if accepting {
        var id := transport.Schedule(Event(x, y, Some(volume)));
        c := Armed(id);
      } else {
        c := Unarmed;
      }
    }

    /** unscheduleNote: clear the cell's event; clearing `false` finds no event. */
    method UnscheduleNote(c: Cell)
      requires transport.Valid()
      modifies transport
      ensures transport.Valid() && transport.nextId == old(transport.nextId)
      ensures c.Armed? ==> transport.events == old(transport.events) - {c.id}
      ensures c.Unarmed? ==> transport.events == old(transport.events)
    {
      if c.Armed? {
        transport.Clear(c.id);
      }
    }
  }
}
