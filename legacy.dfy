/**
 * The older single-file ToneMatrix: one class that keeps the 16 x 16 grid of Transport
 * handles itself, schedules every armed tile on the Transport directly, keeps its own
 * 200-slot particle pool and the share-code input, and runs the same `arming` drag latch
 * on its canvas events.
 */
module Legacy {
  import opened Common
  import opened Timeline
  import Util
  import Uri
  import Savestate
  import Base64
  import Synth
  import Particles
  import Renderer
  import App
  import SearchParams

  /** WIDTH and HEIGHT: the grid is 16 tiles wide and 16 tiles high. */
  const Size: nat := 16

  /** One velocity of the burst a playing note spawns, in pixels per frame. */
  datatype Velocity = Velocity(vx: real, vy: real)

  class LegacyToneMatrix {
    /** The canvas size in canvas pixels. */
    const canvasWidth: real
    const canvasHeight: real
    /** The page URL without its query string. */
    const originalURL: string
    const transport: Transport
    const particleSystem: Particles.ParticleSystem
    /** The note names of the rows, top row first. */
    const scale: seq<string>
    /** Cell x * 16 + y: `false`, or the handle of the Transport event that plays tile (x, y). */
    var data: seq<Cell>
    /** The paint value of the current stroke: None until the stroke's first click. */
    var arming: Option<bool>
    /** The value of the share input element. */
    var clipboard: string

    /**
     * 256 cells, the scale of 16 rows, a 200-slot pool, and every armed cell holding the
     * handle of a live event that plays that very tile.
     */
    ghost predicate Valid()
      reads this, transport, particleSystem
    {
      && canvasWidth > 0.0 && canvasHeight > 0.0
      && |data| == Size * Size
      && scale == Synth.Scale(Size)
      && transport.Valid()
      && particleSystem.Valid() && particleSystem.poolSize == 200 && !particleSystem.fadesWithTime
      && (forall i :: 0 <= i < |data| && data[i].Armed? ==>
            data[i].id in transport.events
            && Util.CoordToIndex(transport.events[data[i].id].x, transport.events[data[i].id].y, Size) == i)
    }

    /** The side of a tile in canvas pixels: the canvas width over 16, along both axes. */
    function TileSize(): real
      reads this
    {
      canvasWidth / Size as real
    }

    /** getTileValue: whether cell x * 16 + y is not `false`. */
    function TileValue(x: int, y: int): bool
      reads this
    {
      IsArmedAt(data, Util.CoordToIndex(x, y, Size))
    }

    /**
     * getTileCollision: the tile whose square holds pixel (x, y), found by rounding the
     * quotients by the tile size down, or None when either lies outside [0, 16).
     */
    function GetTileCollision(x: real, y: real): (t: Option<Util.Coord>)
      reads this
      requires canvasWidth > 0.0
      ensures t.Some? <==> 0.0 <= x < canvasWidth && 0.0 <= y < canvasWidth
      ensures t.Some? ==> t.value.x as real * TileSize() <= x < (t.value.x + 1) as real * TileSize()
                          && t.value.y as real * TileSize() <= y < (t.value.y + 1) as real * TileSize()
    {
      assert Size as real * TileSize() == canvasWidth;
      Util.TileOf(x, y, TileSize(), TileSize(), Size)
    }

    /** A pixel left of or above the canvas hits no tile. */
    lemma NegativePixelHitsNoTile(x: real, y: real)
      requires canvasWidth > 0.0 && (x < 0.0 || y < 0.0)
      ensures GetTileCollision(x, y).None?
    {
    }

    predicate OnGrid(p: App.Point)
      reads this
    {
      canvasWidth > 0.0 && GetTileCollision(p.x, p.y).Some?
    }

    predicate AllOnGrid(points: seq<App.Point>)
      reads this
    {
      forall k :: 0 <= k < |points| ==> OnGrid(points[k])
    }

    /** The index of the cell under an on-grid point. */
    function CellAt(p: App.Point): (k: int)
      reads this
      requires OnGrid(p)
      ensures 0 <= k < Size * Size
    {
      var t := GetTileCollision(p.x, p.y).value;
      Util.IndexInGrid(t.x, t.y, Size, Size);
      Util.CoordToIndex(t.x, t.y, Size)
    }

    /** The cells under a sequence of on-grid points. */
    function CellsOf(points: seq<App.Point>): set<int>
      reads this
      requires AllOnGrid(points)
    {
      set k | 0 <= k < |points| :: CellAt(points[k])
    }

    lemma CellsOfPrefix(points: seq<App.Point>, n: nat)
      requires AllOnGrid(points) && n < |points|
      ensures AllOnGrid(points[..n]) && AllOnGrid(points[..n + 1])
      ensures CellsOf(points[..n + 1]) == CellsOf(points[..n]) + {CellAt(points[n])}
    {
      assert forall k :: 0 <= k < n ==> points[..n][k] == points[k];
      assert forall k :: 0 <= k < n + 1 ==> points[..n + 1][k] == points[k];
      assert AllOnGrid(points[..n]);
      assert AllOnGrid(points[..n + 1]);
      assert points[..n + 1][n] == points[n];
    }

    lemma CellsOfCons(first: App.Point, rest: seq<App.Point>)
      requires OnGrid(first) && AllOnGrid(rest)
      ensures AllOnGrid([first] + rest)
      ensures CellsOf([first] + rest) == {CellAt(first)} + CellsOf(rest)
    {
      var ps := [first] + rest;
      assert forall k :: 0 < k < |ps| ==> ps[k] == rest[k - 1];
      assert AllOnGrid(ps);
      forall i | i in CellsOf(rest) ensures i in CellsOf(ps) {
        var k :| 0 <= k < |rest| && CellAt(rest[k]) == i;
        assert ps[k + 1] == rest[k];
      }
      assert ps[0] == first;
    }

    /** Whether the tile under an on-grid point is armed. */
    function ArmedAt(p: App.Point): bool
      reads this
      requires OnGrid(p)
    {
      IsArmedAt(data, CellAt(p))
    }

    /**
     * The constructor: 256 `false` cells, the 16-row scale, a 200-slot pool, and the tune of
     * the query value `d` loaded when it is present and non-empty; the share input shows the
     * share URL of `d` as given, or the page URL alone.
     */
    constructor(canvasWidth: real, canvasHeight: real, originalURL: string, d: Option<string>)
      requires canvasWidth > 0.0 && canvasHeight > 0.0
      requires d.Some? ==> Uri.IsAscii(d.value)
      ensures Valid() && fresh(transport) && fresh(particleSystem) && fresh(particleSystem.particles)
      ensures this.canvasWidth == canvasWidth && this.canvasHeight == canvasHeight
      ensures this.originalURL == originalURL && arming == None
      ensures ArmedStates(data) == App.InitialStates(d)
      ensures clipboard == App.SharingURL(originalURL, if d.Some? then d.value else "")
      ensures particleSystem.particles[..] == seq(200, i => Particles.Empty)
    {
      this.canvasWidth := canvasWidth;
      this.canvasHeight := canvasHeight;
      this.originalURL := originalURL;
      transport := new Transport();
      particleSystem := new Particles.ParticleSystem.Legacy(canvasWidth, canvasHeight);
      var table := Synth.BuildScale(Size);
      scale := table;
      data := seq(Size * Size, i => Unarmed);
      arming := None;
      clipboard := originalURL;
      new;
      if d.Some? && d.value != "" {
        Base64ToGrid(d.value);
        SetCopyURL(d.value);
      } else {
        SetCopyURL("");
      }
    }

    /** setCopyURL: the share input shows the page URL with the query holding the code, or the page URL alone for "". */
    method SetCopyURL(code: string)
      requires Uri.IsAscii(code)
      modifies this`clipboard
      ensures clipboard == App.SharingURL(originalURL, code)
      ensures clipboard == originalURL <==> code == ""
    {
      if code != "" {
        clipboard := originalURL + "?v=1&d=" + Uri.FormUrlEncode(code);
      } else {
        clipboard := originalURL;
      }
    }

    /**
     * setTileValue. Only cell k = x * 16 + y changes, and afterwards tile (x, y) is armed
     * exactly when b is. Arming an armed tile or disarming an unarmed one changes nothing;
     * arming schedules a fresh event for the tile, disarming clears the tile's event.
     */
    method SetTileValue(x: int, y: int, b: bool)
      requires Valid() && 0 <= Util.CoordToIndex(x, y, Size) < |data|
      modifies this`data, transport
      ensures Valid()
      ensures var k := Util.CoordToIndex(x, y, Size);
              && |data| == |old(data)|
              && (forall i :: 0 <= i < |data| && i != k ==> data[i] == old(data[i]))
              && TileValue(x, y) == b
      ensures b == old(TileValue(x, y)) ==>
                data == old(data) && transport.events == old(transport.events)
                && transport.nextId == old(transport.nextId)
      ensures var k := Util.CoordToIndex(x, y, Size);
              b && !old(TileValue(x, y)) ==>
                data[k] == Armed(old(transport.nextId))
                && transport.events == old(transport.events)[data[k].id := Event(x, y, None)]
      ensures var k := Util.CoordToIndex(x, y, Size);
              !b && old(TileValue(x, y)) ==>
                data[k] == Unarmed && transport.events == old(transport.events) - {old(data[k]).id}
    {
      var k := Util.CoordToIndex(x, y, Size);
      if b {
        if TileValue(x, y) {
          return;
        }
        var id := transport.Schedule(Event(x, y, None));
        data := data[k := Armed(id)];
      } else {
        if !TileValue(x, y) {
          return;
        }
        transport.Clear(data[k].id);
        data := data[k := Unarmed];
      }
    }

    /** toggleTileValue: flips tile (x, y); no other cell changes. */
    method ToggleTileValue(x: int, y: int)
      requires Valid() && 0 <= Util.CoordToIndex(x, y, Size) < |data|
      modifies this`data, transport
      ensures Valid()
      ensures var k := Util.CoordToIndex(x, y, Size);
              && |data| == |old(data)|
              && (forall i :: 0 <= i < |data| && i != k ==> data[i] == old(data[i]))
      ensures TileValue(x, y) == !old(TileValue(x, y))
    {
      SetTileValue(x, y, !TileValue(x, y));
    }

    /** clearAllTiles: every cell `false`, every Transport event cancelled, the share input reset. */
    method ClearAllTiles()
      requires Valid()
      modifies this`data, this`clipboard, transport
      ensures Valid()
      ensures data == seq(Size * Size, i => Unarmed) && transport.events == map[]
      ensures forall x, y :: 0 <= Util.CoordToIndex(x, y, Size) < |data| ==> !TileValue(x, y)
      ensures clipboard == originalURL
    {
      data := seq(Size * Size, i => Unarmed);
      transport.Cancel();
      SetCopyURL("");
    }

    /** gridToBase64: the share code of the armed states, "" exactly when no cell is armed. */
    method GridToBase64() returns (code: string)
      requires Valid()
      ensures code == Savestate.ShareCode(ArmedStates(data))
      ensures code == "" <==> forall i :: 0 <= i < |data| ==> !data[i].Armed?
    {
      code := Savestate.EncodeCells(data);
      Savestate.CellsShareCodeEmpty(data);
    }

    /**
     * base64ToGrid: when the code decodes, cell i is set to bit i through setTileValue, so
     * the armed states become the bits and a cell already in its bit's state keeps its
     * handle. A code whose decoding throws changes nothing.
     */
    method Base64ToGrid(code: string)
      requires Valid()
      modifies this`data, transport
      ensures Valid() && |data| == |old(data)|
      ensures Savestate.LoadBits(code, |data|).None? ==>
                data == old(data) && transport.events == old(transport.events)
      ensures Savestate.LoadBits(code, |data|).Some? ==>
                var bits := Savestate.LoadBits(code, |data|).value;
                && ArmedStates(data) == bits
                && (forall i :: 0 <= i < |data| && bits[i] == old(data[i].Armed?) ==> data[i] == old(data[i]))
                && (bits == ArmedStates(old(data)) ==> transport.events == old(transport.events))
    {
      var loaded := Savestate.LoadBits(code, |data|);
      if loaded.None? {
        return;
      }
      var text := Uri.DecodeURIComponent(code).value;
      var bin := Base64.Atob(text).value;
      var str := Savestate.DecodeBits(bin, |data|);
      assert str == loaded.value;
      LoadCells(str);
    }

    /** The second loop of base64ToGrid: setTileValue(i div 16, i mod 16, bit i) for every i, in order. */
    method LoadCells(str: seq<bool>)
      requires Valid() && |str| == |data|
      modifies this`data, transport
      ensures Valid() && |data| == |old(data)|
      ensures ArmedStates(data) == str
      ensures forall i :: 0 <= i < |data| && str[i] == old(data[i].Armed?) ==> data[i] == old(data[i])
      ensures str == ArmedStates(old(data)) ==> transport.events == old(transport.events)
    {
      ghost var start := data;
      ghost var startEvents := transport.events;
      var i := 0;
      while i < |str|
        invariant 0 <= i <= |str| == |data| == |start|
        invariant Valid()
        invariant forall k :: 0 <= k < i ==> data[k].Armed? == str[k]
        invariant forall k :: 0 <= k < i && str[k] == start[k].Armed? ==> data[k] == start[k]
        invariant forall k :: i <= k < |data| ==> data[k] == start[k]
        invariant (forall k :: 0 <= k < i ==> str[k] == start[k].Armed?) ==> transport.events == startEvents
      {
        Util.IndexToCoord(i, Size);
        SetTileValue(i / Size, i % Size, str[i]);
        i := i + 1;
      }
      assert str == ArmedStates(start) ==> forall k :: 0 <= k < i ==> str[k] == start[k].Armed?;
    }

    /**
     * getParticleHeatMap: one entry per tile; entry 16 * ty + tx holds the life of the last
     * slot of the pool over tile (tx, ty), found with getTileCollision.
     */
    method GetParticleHeatMap() returns (heat: array<real>)
      requires Valid()
      ensures fresh(heat) && heat.Length == Size * Size
      ensures forall k :: 0 <= k < heat.Length ==>
                heat[k] == Renderer.LastHeat(particleSystem.particles[..], k, Size, TileSize(), TileSize())
    {
      heat := Renderer.ScanHeat(particleSystem.particles, Size, Size * Size, TileSize(), TileSize());
    }

    /**
     * One frame of the drawing loop: tickParticles, then draw. The first tick only records
     * the time; later ticks move every slot by the elapsed frames and take one from its life.
     * Tile i is drawn at column i mod 16 and row i div 16 with the sprite of its armed state.
     */
    method DrawFrame(now: real, playheadX: int) returns (heat: array<real>, sprites: seq<nat>)
      requires Valid()
      modifies particleSystem, particleSystem.particles
      ensures Valid() && particleSystem.lastUpdate == now
      ensures old(particleSystem.lastUpdate) == 0.0 ==> particleSystem.particles[..] == old(particleSystem.particles[..])
      ensures old(particleSystem.lastUpdate) != 0.0 ==>
                var dt := (now - old(particleSystem.lastUpdate)) / Particles.FrameMillis;
                forall i :: 0 <= i < particleSystem.particles.Length ==>
                  particleSystem.particles[i] == Particles.Move(old(particleSystem.particles[i]), dt,
                                                                particleSystem.width, particleSystem.height, 1.0)
      ensures fresh(heat) && heat.Length == Size * Size && |sprites| == |data|
      ensures forall k :: 0 <= k < heat.Length ==>
                heat[k] == Renderer.LastHeat(particleSystem.particles[..], k, Size, TileSize(), TileSize())
      ensures forall i :: 0 <= i < |data| ==>
                sprites[i] == Renderer.SpriteFor(TileValue(i % Size, i / Size), i % Size == playheadX)
    {
      particleSystem.Update(now);
      heat := GetParticleHeatMap();
      var bursts;
      sprites, bursts := Renderer.DrawPlan(data, Size, playheadX);
    }

    /** The burst of a note in column x and row y: every particle starts at the tile's centre. */
    function Burst(x: int, y: int, velocities: seq<Velocity>): (spawns: seq<Particles.Spawn>)
      reads this
      ensures |spawns| == |velocities|
      ensures forall i :: 0 <= i < |velocities| ==>
                spawns[i] == Particles.Spawn(canvasWidth / Size as real * (x as real + 0.5),
                                             canvasHeight / Size as real * (y as real + 0.5),
                                             velocities[i].vx, velocities[i].vy)
    {
      seq(|velocities|, i requires 0 <= i < |velocities| =>
        Particles.Spawn(canvasWidth / Size as real * (x as real + 0.5),
                        canvasHeight / Size as real * (y as real + 0.5),
                        velocities[i].vx, velocities[i].vy))
    }

    /**
     * The callback of tile (x, y)'s event: it plays the row's note of the scale and spawns one
     * particle per velocity at the tile's centre, in ring order from the pool's oldest slot.
     */
    method PlayNote(x: int, y: int, velocities: seq<Velocity>) returns (note: string)
      requires Valid() && 0 <= y < Size
      modifies particleSystem, particleSystem.particles
      ensures Valid()
      ensures note == scale[y] && note == Synth.NoteName(Size - 1 - y)
      ensures particleSystem.particles[..] ==
                Particles.AfterCreations(old(particleSystem.particles[..]), old(particleSystem.oldestParticle),
                                         Burst(x, y, velocities))
      ensures particleSystem.oldestParticle == (old(particleSystem.oldestParticle) + |velocities|) % 200
    {
      note := scale[y];
      Particles.CreateAll(particleSystem, Burst(x, y, velocities));
    }

    /**
     * canvasClick: the first click of a stroke fixes `arming` to the opposite of the tile under
     * it; the tile is set to `arming`; then the share input shows the share URL of the grid,
     * or the page URL when no tile is armed.
     */
    method CanvasClick(p: App.Point)
      requires Valid() && OnGrid(p)
      modifies this`data, this`arming, this`clipboard, transport
      ensures Valid()
      ensures old(arming).Some? ==> arming == old(arming)
      ensures old(arming).None? ==> arming == Some(!old(ArmedAt(p)))
      ensures arming.Some? && App.Painted(old(data), data, {CellAt(p)}, arming.value, true)
      ensures clipboard == App.ShareField(originalURL, data)
    {
      PaintTile(p);
      ShowCopyURL();
    }

    /** The drawing half of canvasClick: the arming latch and setTileValue. */
    method PaintTile(p: App.Point)
      requires Valid() && OnGrid(p)
      modifies this`data, this`arming, transport
      ensures Valid()
      ensures old(arming).Some? ==> arming == old(arming)
      ensures old(arming).None? ==> arming == Some(!old(ArmedAt(p)))
      ensures arming.Some? && App.Painted(old(data), data, {CellAt(p)}, arming.value, true)
    {
      var t := GetTileCollision(p.x, p.y).value;
      Util.IndexInGrid(t.x, t.y, Size, Size);
      if arming.None? {
        arming := Some(!TileValue(t.x, t.y));
      }
      SetTileValue(t.x, t.y, arming.value);
    }

    /** The sharing half of canvasClick: setCopyURL of gridToBase64. */
    method ShowCopyURL()
      requires Valid()
      modifies this`clipboard
      ensures clipboard == App.ShareField(originalURL, data)
    {
      var code := GridToBase64();
      App.ShareCodeIsAscii(ArmedStates(data));
      SetCopyURL(code);
    }

    /** mousedown: a new stroke begins at p. */
    method MouseDown(p: App.Point)
      requires Valid() && OnGrid(p)
      modifies this`data, this`arming, this`clipboard, transport
      ensures Valid()
      ensures arming == Some(!old(ArmedAt(p)))
      ensures App.Painted(old(data), data, {CellAt(p)}, arming.value, true)
      ensures clipboard == App.ShareField(originalURL, data)
    {
      arming := None;
      CanvasClick(p);
    }

    /** mousemove: the stroke paints only while the left button alone is held. */
    method MouseMove(p: App.Point, buttons: int)
      requires Valid() && (buttons == 1 ==> OnGrid(p))
      modifies this`data, this`arming, this`clipboard, transport
      ensures Valid()
      ensures buttons != 1 ==> arming == old(arming) && data == old(data) && clipboard == old(clipboard)
                               && transport.events == old(transport.events)
      ensures buttons == 1 ==>
                && (old(arming).Some? ==> arming == old(arming))
                && (old(arming).None? ==> arming == Some(!old(ArmedAt(p))))
                && arming.Some? && App.Painted(old(data), data, {CellAt(p)}, arming.value, true)
                && clipboard == App.ShareField(originalURL, data)
    {
      if buttons != 1 {
        return;
      }
      CanvasClick(p);
    }

    /**
     * The loop of touchstart and touchmove: every touch in order is clicked, so every touched
     * cell ends in the stroke's state and no other cell changes.
     */
    method ClickAll(points: seq<App.Point>)
      requires Valid() && AllOnGrid(points)
      modifies this`data, this`arming, this`clipboard, transport
      ensures Valid()
      ensures old(arming).Some? ==> arming == old(arming)
      ensures points != [] && old(arming).None? ==> arming == Some(!IsArmedAt(old(data), CellAt(points[0])))
      ensures points != [] ==> arming.Some? && App.Painted(old(data), data, CellsOf(points), arming.value, true)
      ensures points == [] ==> arming == old(arming) && data == old(data) && clipboard == old(clipboard)
    {
      if points == [] {
        return;
      }
      ClickPoint(points[0]);
      if |points| == 1 {
        assert points == [points[0]] + [];
        assert CellsOf(points) == {CellAt(points[0])};
        return;
      }
      ghost var afterFirst := data;
      ghost var a := arming.value;
      ClickRest(points[1..]);
      CellsOfCons(points[0], points[1..]);
      assert [points[0]] + points[1..] == points;
      App.PaintedTwice(old(data), afterFirst, data, {CellAt(points[0])}, CellsOf(points[1..]), a, true);
    }

    /** One step of the touch loop: canvasClick of the touch, stated for the cells alone. */
    method ClickPoint(p: App.Point)
      requires Valid() && OnGrid(p)
      modifies this`data, this`arming, this`clipboard, transport
      ensures Valid()
      ensures old(arming).Some? ==> arming == old(arming)
      ensures old(arming).None? ==> arming == Some(!old(ArmedAt(p)))
      ensures arming.Some? && App.Painted(old(data), data, {CellAt(p)}, arming.value, true)
    {
      CanvasClick(p);
    }

    /** The touch loop after its first touch, when the stroke's value is fixed. */
    method ClickRest(points: seq<App.Point>)
      requires Valid() && AllOnGrid(points) && arming.Some?
      modifies this`data, this`arming, this`clipboard, transport
      ensures Valid() && arming == old(arming)
      ensures App.Painted(old(data), data, CellsOf(points), arming.value, true)
    {
      ghost var a := arming.value;
      ghost var start := data;
      var n := 0;
      while n < |points|
        invariant 0 <= n <= |points| && Valid() && AllOnGrid(points[..n])
        invariant arming == Some(a)
        invariant App.Painted(start, data, CellsOf(points[..n]), a, true)
      {
        CellsOfPrefix(points, n);
        ghost var before := data;
        ClickPoint(points[n]);
        App.PaintedTwice(start, before, data, CellsOf(points[..n]), {CellAt(points[n])}, a, true);
        n := n + 1;
      }
      assert points[..|points|] == points;
    }

    /** touchstart: a single touch begins a new stroke; each touch is then clicked in turn. */
    method TouchStart(touches: seq<App.Point>)
      requires Valid() && AllOnGrid(touches)
      modifies this`data, this`arming, this`clipboard, transport
      ensures Valid()
      ensures |touches| == 1 ==> arming == Some(!old(ArmedAt(touches[0])))
      ensures |touches| != 1 && old(arming).Some? ==> arming == old(arming)
      ensures touches != [] ==> arming.Some? && App.Painted(old(data), data, CellsOf(touches), arming.value, true)
      ensures touches == [] ==> data == old(data) && arming == old(arming)
    {
      if |touches| == 1 {
        arming := None;
      }
      ClickAll(touches);
    }

    /** touchmove: each touch is clicked in turn, continuing the current stroke. */
    method TouchMove(touches: seq<App.Point>)
      requires Valid() && AllOnGrid(touches)
      modifies this`data, this`arming, this`clipboard, transport
      ensures Valid()
      ensures old(arming).Some? ==> arming == old(arming)
      ensures touches != [] ==> arming.Some? && App.Painted(old(data), data, CellsOf(touches), arming.value, true)
      ensures touches == [] ==> data == old(data) && arming == old(arming)
    {
      ClickAll(touches);
    }
  }

  /** Every cell a stroke touches ends in the state its first click chose. */
  lemma StrokeIsUniform(before: seq<Cell>, after: seq<Cell>, cells: set<int>, a: bool)
    requires App.Painted(before, after, cells, a, true)
    ensures forall i :: i in cells && 0 <= i < |after| ==> after[i].Armed? == a
    ensures forall i :: 0 <= i < |after| && i !in cells ==> after[i] == before[i]
  {
  }

  /** Loading the grid's own share code into it changes no cell and no event. */
  method ShareRoundTrip(tm: LegacyToneMatrix)
    requires tm.Valid()
    modifies tm`data, tm.transport
    ensures tm.Valid()
    ensures tm.data == old(tm.data) && tm.transport.events == old(tm.transport.events)
  {
    var code := tm.GridToBase64();
    Savestate.LoadShareCode(ArmedStates(tm.data));
    tm.Base64ToGrid(code);
    assert forall i :: 0 <= i < |tm.data| ==> tm.data[i] == old(tm.data[i]);
  }

  /**
   * Opening the URL the share input shows in a fresh page, which reads its `d` value with
   * URLSearchParams, restores every tile's armed state and shows the same share URL.
   */
  method ShareLinkRestoresTune(tm: LegacyToneMatrix) returns (reopened: LegacyToneMatrix)
    requires tm.Valid() && SearchParams.IsPageURL(tm.originalURL)
    ensures fresh(reopened) && reopened.Valid()
    ensures ArmedStates(reopened.data) == ArmedStates(tm.data)
    ensures reopened.clipboard == App.ShareField(tm.originalURL, tm.data)
  {
    var code := tm.GridToBase64();
    App.ShareCodeIsAscii(ArmedStates(tm.data));
    var link := App.SharingURL(tm.originalURL, code);
    App.SharingURLCarriesCode(tm.originalURL, code);
    var d := SearchParams.SearchParam(link, "d");
    reopened := new LegacyToneMatrix(tm.canvasWidth, tm.canvasHeight, tm.originalURL, d);
    if code == "" {
      assert ArmedStates(tm.data) == seq(Size * Size, i => false);
    } else {
      Savestate.LoadShareCode(ArmedStates(tm.data));
    }
  }
}
