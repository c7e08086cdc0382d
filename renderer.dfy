/**
 * What the renderer decides: the particle heat of every tile and the sprite of every tile.
 * The canvas calls themselves (sprite blits, alpha values, the burst of particles) are not
 * part of this model; what is modelled is which values they are given.
 */
module Renderer {
  import opened Common
  import opened Timeline
  import Util
  import Particles

  /**
   * The heat-map entry a slot writes: gridWidth * tile.y + tile.x of the tile under it, or
   * None when the tile lookup fails. An empty slot `{}` has no position; its lookup gives
   * NaN coordinates, and writing at index NaN adds no array element, so it writes nothing.
   */
  function HeatTarget(p: Particles.Slot, gridWidth: int, dx: real, dy: real): (t: Option<int>)
    requires dx > 0.0 && dy > 0.0
    ensures t.Some? ==> p.Particle?
  {
    if p.Empty? then None
    else
      match Util.TileOf(p.x, p.y, dx, dy, gridWidth)
      case None => None
      case Some(c) => Some(gridWidth * c.y + c.x)
  }

  lemma HeatTargetInRange(p: Particles.Slot, gridWidth: int, dx: real, dy: real)
    requires dx > 0.0 && dy > 0.0
    requires HeatTarget(p, gridWidth, dx, dy).Some?
    ensures 0 <= HeatTarget(p, gridWidth, dx, dy).value < gridWidth * gridWidth
  {
    var c := Util.TileOf(p.x, p.y, dx, dy, gridWidth).value;
    Util.IndexInGrid(c.y, c.x, gridWidth, gridWidth);
  }

  /** Entry k after scanning the pool in order: the life of the last slot that wrote k, else 0. */
  function LastHeat(pool: seq<Particles.Slot>, k: int, gridWidth: int, dx: real, dy: real): real
    requires dx > 0.0 && dy > 0.0
  {
    if pool == [] then 0.0
    else
      var p := pool[|pool| - 1];
      if HeatTarget(p, gridWidth, dx, dy) == Some(k) then p.life
      else LastHeat(pool[..|pool| - 1], k, gridWidth, dx, dy)
  }

  /** With no slot over tile k, its heat is 0. */
  lemma {:induction false} LastHeatNoWriter(pool: seq<Particles.Slot>, k: int, gridWidth: int, dx: real, dy: real)
    requires dx > 0.0 && dy > 0.0
    requires forall j :: 0 <= j < |pool| ==> HeatTarget(pool[j], gridWidth, dx, dy) != Some(k)
    ensures LastHeat(pool, k, gridWidth, dx, dy) == 0.0
  {
    if pool != [] {
      LastHeatNoWriter(pool[..|pool| - 1], k, gridWidth, dx, dy);
    }
  }

  /** The heat of tile k is the life of the highest-numbered slot over it, whatever that life is. */
  lemma {:induction false} LastHeatLastWriter(pool: seq<Particles.Slot>, j: int, k: int, gridWidth: int,
                                              dx: real, dy: real)
    requires dx > 0.0 && dy > 0.0
    requires 0 <= j < |pool| && HeatTarget(pool[j], gridWidth, dx, dy) == Some(k)
    requires forall i :: j < i < |pool| ==> HeatTarget(pool[i], gridWidth, dx, dy) != Some(k)
    ensures LastHeat(pool, k, gridWidth, dx, dy) == pool[j].life
  {
    if j < |pool| - 1 {
      LastHeatLastWriter(pool[..|pool| - 1], j, k, gridWidth, dx, dy);
    }
  }

  /** A slot whose position maps off the grid can be removed without changing any entry. */
  lemma {:induction false} LastHeatIgnoresOffGrid(pool: seq<Particles.Slot>, j: int, k: int, gridWidth: int,
                                                  dx: real, dy: real)
    requires dx > 0.0 && dy > 0.0
    requires 0 <= j < |pool| && HeatTarget(pool[j], gridWidth, dx, dy).None?
    ensures LastHeat(pool[..j] + pool[j + 1..], k, gridWidth, dx, dy) == LastHeat(pool, k, gridWidth, dx, dy)
  {
    var rest := pool[..j] + pool[j + 1..];
    if j == |pool| - 1 {
      assert rest == pool[..|pool| - 1];
    } else {
      var init := pool[..|pool| - 1];
      LastHeatIgnoresOffGrid(init, j, k, gridWidth, dx, dy);
      assert rest[..|rest| - 1] == init[..j] + init[j + 1..];
      assert rest[|rest| - 1] == pool[|pool| - 1];
    }
  }

  /** No life filter: a dead particle over tile 0 writes its negative life. */
  lemma DeadParticleStillWrites()
    ensures LastHeat([Particles.Particle(1.0, 1.0, 0.0, 0.0, -2.0)], 0, 16, 10.0, 10.0) == -2.0
  {
    assert (1.0 / 10.0).Floor == 0;
  }

  /**
   * The heat-map loop: a fresh array of `cells` zeros; each slot of the pool, in order,
   * writes its life at its target entry.
   */
  method ScanHeat(pool: array<Particles.Slot>, gridWidth: nat, cells: nat, dx: real, dy: real)
    returns (heat: array<real>)
    requires dx > 0.0 && dy > 0.0 && gridWidth * gridWidth <= cells
    ensures fresh(heat) && heat.Length == cells
    ensures forall k :: 0 <= k < cells ==> heat[k] == LastHeat(pool[..], k, gridWidth, dx, dy)
  {
    heat := new real[cells](k => 0.0);
    var i := 0;
    while i < pool.Length
      invariant 0 <= i <= pool.Length
      invariant forall k :: 0 <= k < cells ==> heat[k] == LastHeat(pool[..i], k, gridWidth, dx, dy)
    {
      var p := pool[i];
      var target := HeatTarget(p, gridWidth, dx, dy);
      assert pool[..i + 1][..i] == pool[..i];
      if target.Some? {
        HeatTargetInRange(p, gridWidth, dx, dy);
        heat[target.value] := p.life;
      }
      i := i + 1;
    }
    assert pool[..pool.Length] == pool[..];
  }

  /** The draw rule: an armed tile in the playhead column is lit (2), another armed tile is on (1), an unarmed tile is off (0). */
  function SpriteFor(on: bool, inPlayheadColumn: bool): nat
  {
    if on then (if inPlayheadColumn then 2 else 1) else 0
  }

  /**
   * The tile loop of draw: tile i is drawn at column i mod w and row i div w and shows the
   * armed state of that tile; the indices whose tiles burst into particles are collected.
   */
  method DrawPlan(data: seq<Cell>, gridWidth: nat, playheadX: int) returns (sprites: seq<nat>, bursts: seq<nat>)
    requires gridWidth > 0
    ensures |sprites| == |data|
    ensures forall i :: 0 <= i < |data| ==>
              sprites[i] == SpriteFor(IsArmedAt(data, Util.CoordToIndex(i % gridWidth, i / gridWidth, gridWidth)),
                                      i % gridWidth == playheadX)
    ensures forall i :: 0 <= i < |data| ==> (i in bursts <==> sprites[i] == 2)
    ensures forall b :: b in bursts ==> 0 <= b < |data|
  {
    sprites := [];
    bursts := [];
    var i := 0;
    while i < |data|
      invariant 0 <= i <= |data| && |sprites| == i
      invariant forall k :: 0 <= k < i ==>
                  sprites[k] == SpriteFor(IsArmedAt(data, Util.CoordToIndex(k % gridWidth, k / gridWidth, gridWidth)),
                                          k % gridWidth == playheadX)
      invariant forall k :: 0 <= k < i ==> (k in bursts <==> sprites[k] == 2)
      invariant forall b :: b in bursts ==> 0 <= b < i
    {
      var gridx := i % gridWidth;
      var gridy := i / gridWidth;
      var on := IsArmedAt(data, Util.CoordToIndex(gridx, gridy, gridWidth));
      var sprite := SpriteFor(on, gridx == playheadX);
      sprites := sprites + [sprite];
      if sprite == 2 {
        bursts := bursts + [i];
      }
      i := i + 1;
    }
  }

  /** GridRenderer: owns the modular version's particle pool and draws the grid on a canvas. */
  class GridRenderer {
    const gridWidth: nat
    const gridHeight: nat
    const canvasWidth: real
    const canvasHeight: real
    const particleSystem: Particles.ParticleSystem

    ghost predicate Valid()
      reads this, particleSystem
    {
      gridWidth > 0 && gridHeight > 0 && canvasWidth > 0.0 && canvasHeight > 0.0
      && particleSystem.Valid()
    }

    constructor(gridWidth: nat, gridHeight: nat, canvasWidth: real, canvasHeight: real)
      requires gridWidth > 0 && gridHeight > 0 && canvasWidth > 0.0 && canvasHeight > 0.0
      ensures Valid() && fresh(particleSystem) && fresh(particleSystem.particles)
      ensures this.gridWidth == gridWidth && this.gridHeight == gridHeight
      ensures this.canvasWidth == canvasWidth && this.canvasHeight == canvasHeight
      ensures particleSystem.poolSize == 2000
    {
      this.gridWidth := gridWidth;
      this.gridHeight := gridHeight;
      this.canvasWidth := canvasWidth;
      this.canvasHeight := canvasHeight;
      particleSystem := new Particles.ParticleSystem(canvasWidth, canvasHeight);
    }

    /**
     * getParticleHeatMap: one entry per tile; entry gridWidth * ty + tx holds the life of the
     * last slot under tile (tx, ty), found with pixelCoordsToTileCoords.
     */
    method GetParticleHeatMap() returns (heat: array<real>)
      requires Valid() && gridWidth <= gridHeight
      ensures fresh(heat) && heat.Length == gridWidth * gridHeight
      ensures forall k :: 0 <= k < heat.Length ==>
                heat[k] == LastHeat(particleSystem.particles[..], k, gridWidth,
                                    canvasHeight / gridHeight as real, canvasWidth / gridWidth as real)
    {
      assert gridWidth * gridWidth <= gridWidth * gridHeight;
      heat := ScanHeat(particleSystem.particles, gridWidth, gridWidth * gridHeight,
                       canvasHeight / gridHeight as real, canvasWidth / gridWidth as real);
    }

    /** draw, without the canvas: the heat map and the sprite and burst decisions for the given grid and playhead column. */
    method Draw(data: seq<Cell>, playheadX: int) returns (heat: array<real>, sprites: seq<nat>, bursts: seq<nat>)
      requires Valid() && gridWidth <= gridHeight
      ensures fresh(heat) && heat.Length == gridWidth * gridHeight && |sprites| == |data|
      ensures forall i :: 0 <= i < |data| ==>
                sprites[i] == SpriteFor(IsArmedAt(data, Util.CoordToIndex(i % gridWidth, i / gridWidth, gridWidth)),
                                        i % gridWidth == playheadX)
      ensures forall i :: 0 <= i < |data| ==> (i in bursts <==> sprites[i] == 2)
    {
      heat := GetParticleHeatMap();
      sprites, bursts := DrawPlan(data, gridWidth, playheadX);
    }
  }
}
