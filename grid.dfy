/**
 * The grid of the modular version: a flat array of width * height cells, each `false` or the
 * Transport event that plays the tile, with arming, disarming, clearing and the share code.
 */
module GridState {
  import opened Common
  import opened Timeline
  import Util
  import Volume
  import Savestate
  import Uri
  import Base64

  /** The arming volume: -10 for a note alone in its column, down to -35 for a full column. */
  function ArmingVolume(height: nat, count: int): real
    requires height > 0
  {
    Volume.PolyphonyVolume(height, count, -35.0, -10.0)
  }

  /** The volume of a newly armed note lies in [-35, -10] and is -10 in an empty column. */
  lemma ArmingVolumeBounds(height: nat, count: int)
    requires height > 0 && 0 <= count <= height
    ensures -35.0 <= ArmingVolume(height, count) <= -10.0
    ensures count == 0 ==> ArmingVolume(height, count) == -10.0
    ensures count == height ==> ArmingVolume(height, count) == -35.0
  {
    Volume.VolumeInRange(height, count, -35.0, -10.0);
    if count == 0 {
      Volume.SilentColumnIsLoudest(height, -35.0, -10.0);
    }
    if count == height {
      Volume.FullColumnIsQuietest(height, -35.0, -10.0);
    }
  }

  /** More notes already in the column never make a new note louder. */
  lemma ArmingVolumeNonIncreasing(height: nat, c1: int, c2: int)
    requires height > 0 && c1 <= c2
    ensures ArmingVolume(height, c2) <= ArmingVolume(height, c1)
  {
    if c1 < c2 {
      Volume.VolumeDecreasing(height, c1, c2, -35.0, -10.0);
    }
  }

  class Grid {
    const width: nat
    const height: nat
    const player: NotePlayer
    var data: seq<Cell>

    /**
     * The grid has width * height cells, and every armed cell holds the id of a live event
     * that plays that very tile.
     */
    ghost predicate Valid()
      reads this, player, player.transport
    {
      && width > 0 && height > 0
      && |data| == width * height
      && player.transport.Valid()
      && (forall i :: 0 <= i < |data| && data[i].Armed? ==>
            data[i].id in player.transport.events
            && Util.CoordToIndex(player.transport.events[data[i].id].x,
                                 player.transport.events[data[i].id].y, width) == i)
    }

    /** Each event plays one tile, so no two armed cells share an event. */
    lemma IdsDistinct()
      requires Valid()
      ensures forall i, j :: 0 <= i < |data| && 0 <= j < |data| && i != j && data[i].Armed? && data[j].Armed?
                ==> data[i].id != data[j].id
    {
    }

    constructor(width: nat, height: nat, transport: Transport)
      requires width > 0 && height > 0 && transport.Valid()
      ensures Valid() && fresh(player) && player.transport == transport && player.accepting
      ensures this.width == width && this.height == height
      ensures data == seq(width * height, i => Unarmed)
    {
      this.width := width;
      this.height := height;
      player := new NotePlayer(transport);
      data := seq(width * height, i => Unarmed);
    }

    /** getTileValue: whether the cell of tile (x, y) is not `false`. */
    function TileValue(x: int, y: int): bool
      reads this
    {
      IsArmedAt(data, Util.CoordToIndex(x, y, width))
    }

    /** The rows y in [0, height) whose tile of column x is armed. */
    function ColumnCount(x: int): nat
      reads this
    {
      |set y | 0 <= y < height && TileValue(x, y)|
    }

    /** countNotesInColumn: counts the armed tiles of column x, one row at a time. */
    method CountNotesInColumn(x: int) returns (count: nat)
      ensures count == ColumnCount(x) && count <= height
    {
      count := 0;
      var i := 0;
      while i < height
        invariant 0 <= i <= height
        invariant count == |set y | 0 <= y < i && TileValue(x, y)| && count <= i
      {
        ghost var before := set y | 0 <= y < i && TileValue(x, y);
        if TileValue(x, i) {
          assert (set y | 0 <= y < i + 1 && TileValue(x, y)) == before + {i};
          count := count + 1;
        } else {
          assert (set y | 0 <= y < i + 1 && TileValue(x, y)) == before;
        }
        i := i + 1;
      }
    }

    /**
     * setTileValue. Only cell k = coordToIndex(x, y, width) changes. Arming an armed tile or
     * disarming an unarmed one changes nothing at all. Arming schedules a note at the volume
     * set by the column's count beforehand, and the tile stays unarmed when the player
     * refuses; disarming clears the tile's event.
     */
    method SetTileValue(x: int, y: int, b: bool)
      requires Valid() && 0 <= Util.CoordToIndex(x, y, width) < |data|
      modifies this, player.transport
      ensures Valid()
      ensures var k := Util.CoordToIndex(x, y, width);
              && |data| == |old(data)|
              && (forall i :: 0 <= i < |data| && i != k ==> data[i] == old(data[i]))
              && TileValue(x, y) == (b && (old(TileValue(x, y)) || player.accepting))
      ensures b == old(TileValue(x, y)) ==>
                data == old(data) && player.transport.events == old(player.transport.events)
                && player.transport.nextId == old(player.transport.nextId)
      ensures var k := Util.CoordToIndex(x, y, width);
              b && !old(TileValue(x, y)) && player.accepting ==>
                data[k] == Armed(old(player.transport.nextId))
                && player.transport.events ==
                   old(player.transport.events)[data[k].id := Event(x, y, Some(ArmingVolume(height, old(ColumnCount(x)))))]
      ensures b && !old(TileValue(x, y)) && !player.accepting ==>
                data == old(data) && player.transport.events == old(player.transport.events)
      ensures var k := Util.CoordToIndex(x, y, width);
              !b && old(TileValue(x, y)) ==>
                data[k] == Unarmed
                && player.transport.events == old(player.transport.events) - {old(data[k]).id}
    {
      var k := Util.CoordToIndex(x, y, width);
      if b {
        if TileValue(x, y) {
          return;
        }
        var count := CountNotesInColumn(x);
        var volume := ArmingVolume(height, count);
        var c := player.ScheduleNote(x, y, volume);
        data := data[k := c];
      } else {
        if !TileValue(x, y) {
          return;
        }
        player.UnscheduleNote(data[k]);
        data := data[k := Unarmed];
      }
    }

    /** toggleTileValue: flips tile (x, y), unless arming it fails; no other cell changes. */
    method ToggleTileValue(x: int, y: int)
      requires Valid() && 0 <= Util.CoordToIndex(x, y, width) < |data|
      modifies this, player.transport
      ensures Valid()
      ensures var k := Util.CoordToIndex(x, y, width);
              && |data| == |old(data)|
              && (forall i :: 0 <= i < |data| && i != k ==> data[i] == old(data[i]))
      ensures old(TileValue(x, y)) ==> !TileValue(x, y)
      ensures !old(TileValue(x, y)) ==> TileValue(x, y) == player.accepting
    {
      SetTileValue(x, y, !TileValue(x, y));
    }

    /** clearAllTiles: every cell unarmed. The events themselves stay on the Transport. */
    method ClearAllTiles()
      requires Valid()
      modifies this
      ensures Valid()
      ensures data == seq(width * height, i => Unarmed)
      ensures forall x, y :: 0 <= Util.CoordToIndex(x, y, width) < |data| ==> !TileValue(x, y)
    {
      data := seq(width * height, i => Unarmed);
    }

    /** toBase64: the share code of the armed states. */
    method ToBase64() returns (code: string)
      requires Valid() && |data| % 8 == 0
      ensures code == Savestate.ShareCode(ArmedStates(data))
      ensures code == "" <==> forall i :: 0 <= i < |data| ==> !data[i].Armed?
    {
      code := Savestate.EncodeCells(data);
      Savestate.CellsShareCodeEmpty(data);
    }

    /**
     * fromBase64: when the code decodes, cell i is set to bit i through setTileValue, so it
     * ends armed iff its bit is set and it was armed already or the player accepted the note;
     * a cell already in its bit's state keeps its handle. A code that does not decode
     * changes nothing.
     */
    method FromBase64(code: string)
      requires Valid() && |data| % 8 == 0
      modifies this, player.transport
      ensures Valid() && |data| == |old(data)|
      ensures Savestate.LoadBits(code, |data|).None? ==>
                data == old(data) && player.transport.events == old(player.transport.events)
      ensures Savestate.LoadBits(code, |data|).Some? ==>
                var bits := Savestate.LoadBits(code, |data|).value;
                && (forall i :: 0 <= i < |data| ==>
                      data[i].Armed? == (bits[i] && (old(data[i].Armed?) || player.accepting)))
                && (forall i :: 0 <= i < |data| && bits[i] == old(data[i].Armed?) ==>
                      data[i] == old(data[i]))
                && (bits == ArmedStates(old(data)) ==>
                      player.transport.events == old(player.transport.events))
    {
      var loaded := Savestate.LoadBits(code, |data|);
      if loaded.None? {
        return;
      }
      var text := Uri.DecodeURIComponent(code).value;
      var bin := Base64.Atob(text).value;
      var str := Savestate.DecodeBits(bin, |data|);
      assert str == loaded.value;
      LoadCells(str);
    }

    /**
     * The second loop of fromBase64: setTileValue(i div width, i mod width, bit i) for every
     * i, in order.
     */
    method LoadCells(str: seq<bool>)
      requires Valid() && |str| == |data|
      modifies this, player.transport
      ensures Valid() && |data| == |old(data)|
      ensures forall i :: 0 <= i < |data| ==> data[i].Armed? == (str[i] && (old(data[i].Armed?) || player.accepting))
      ensures forall i :: 0 <= i < |data| && str[i] == old(data[i].Armed?) ==> data[i] == old(data[i])
      ensures str == ArmedStates(old(data)) ==> player.transport.events == old(player.transport.events)
    {
      ghost var start := data;
      ghost var startEvents := player.transport.events;
      var i := 0;
      while i < |str|
        invariant 0 <= i <= |str| == |data| == |start|
        invariant Valid()
        invariant forall k :: 0 <= k < i ==>
                    data[k].Armed? == (str[k] && (start[k].Armed? || player.accepting))
        invariant forall k :: 0 <= k < i && str[k] == start[k].Armed? ==> data[k] == start[k]
        invariant forall k :: i <= k < |data| ==> data[k] == start[k]
        invariant (forall k :: 0 <= k < i ==> str[k] == start[k].Armed?) ==>
                    player.transport.events == startEvents
      {
        Util.IndexToCoord(i, width);
        SetTileValue(i / width, i % width, str[i]);
        i := i + 1;
      }
      assert str == ArmedStates(start) ==> forall k :: 0 <= k < i ==> str[k] == start[k].Armed?;
    }
  }

  /** Loading a grid's own share code into it changes no cell and no event. */
  method ShareRoundTrip(g: Grid)
    requires g.Valid() && |g.data| % 8 == 0
    modifies g, g.player.transport
    ensures g.Valid()
    ensures g.data == old(g.data) && g.player.transport.events == old(g.player.transport.events)
  {
    var code := g.ToBase64();
    Savestate.LoadShareCode(ArmedStates(g.data));
    g.FromBase64(code);
    assert forall i :: 0 <= i < |g.data| ==> g.data[i] == old(g.data[i]);
  }
}
