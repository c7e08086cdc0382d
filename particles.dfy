/**
 * The particle pool: a fixed number of slots reused in ring order, where each live particle
 * moves, bounces off the canvas edges and fades on every tick. The modular version has 2000
 * slots and fades by the elapsed time; the older single-file version has 200 slots and fades
 * by one per tick.
 */
module Particles {
  import Util

  /** A pool slot: `{}` before its first particle, or a particle record. */
  datatype Slot = Empty | Particle(x: real, y: real, vx: real, vy: real, life: real)

  /** The arguments of one createParticle call. */
  datatype Spawn = Spawn(x: real, y: real, vx: real, vy: real)

  const Lifetime: real := 40.0
  /** Milliseconds of one frame at 60 frames per second: the unit of the time factor. */
  const FrameMillis: real := 16.67

  function Fresh(s: Spawn): Slot
  {
    Particle(s.x, s.y, s.vx, s.vy, Lifetime)
  }

  predicate IsLive(p: Slot)
  {
    p.Particle? && p.life > 0.0
  }

  /**
   * One particle's step with time factor dt and loss of life `decay`. Along each axis the
   * position moves by the displacement v * dt; when it leaves [0, size] the velocity is
   * negated and the same displacement, computed before the negation, is added once more.
   * Empty slots and particles whose life is not positive stay as they are.
   */
  function Move(p: Slot, dt: real, width: real, height: real, decay: real): (q: Slot)
    ensures !IsLive(p) ==> q == p
    ensures IsLive(p) ==> q.Particle? && q.life == p.life - decay
  {
    if !IsLive(p) then p
    else
      var pvx, pvy := p.vx * dt, p.vy * dt;
      var x1 := p.x + pvx;
      var (x, vx) := if x1 > width || x1 < 0.0 then (x1 + pvx, -p.vx) else (x1, p.vx);
      var y1 := p.y + pvy;
      var (y, vy) := if y1 > height || y1 < 0.0 then (y1 + pvy, -p.vy) else (y1, p.vy);
      Particle(x, y, vx, vy, p.life - decay)
  }

  /**
   * A bounce moves the particle by twice the stale displacement and negates its velocity; a
   * particle that stays inside moves by the displacement once.
   */
  lemma MoveAlongX(p: Slot, dt: real, width: real, height: real, decay: real)
    requires IsLive(p)
    ensures var q := Move(p, dt, width, height, decay);
            if p.x + p.vx * dt > width || p.x + p.vx * dt < 0.0
            then q.x == p.x + 2.0 * (p.vx * dt) && q.vx == -p.vx
            else q.x == p.x + p.vx * dt && q.vx == p.vx
  {
  }

  lemma MoveAlongY(p: Slot, dt: real, width: real, height: real, decay: real)
    requires IsLive(p)
    ensures var q := Move(p, dt, width, height, decay);
            if p.y + p.vy * dt > height || p.y + p.vy * dt < 0.0
            then q.y == p.y + 2.0 * (p.vy * dt) && q.vy == -p.vy
            else q.y == p.y + p.vy * dt && q.vy == p.vy
  {
  }

  /**
   * Because the stale displacement is reapplied, a particle inside the canvas that crosses the
   * right edge ends further out, and with the same time factor the next tick brings it back
   * to where it started with its original velocity: it oscillates at the wall.
   */
  lemma BounceOscillates(p: Slot, dt: real, width: real, height: real, decay: real)
    requires IsLive(p) && p.life > decay && dt > 0.0
    requires 0.0 <= p.x <= width && p.x + p.vx * dt > width
    ensures Move(p, dt, width, height, decay).x > width
    ensures var q := Move(Move(p, dt, width, height, decay), dt, width, height, decay);
            q.x == p.x && q.vx == p.vx
  {
    var pvx := p.vx * dt;
    MoveAlongX(p, dt, width, height, decay);
    var q1 := Move(p, dt, width, height, decay);
    assert q1.x == p.x + 2.0 * pvx && q1.vx == -p.vx;
    assert IsLive(q1);
    assert q1.vx * dt == -pvx;
    MoveAlongX(q1, dt, width, height, decay);
    assert q1.x + q1.vx * dt == p.x + pvx;
  }

  /** The slot creation j writes when the run starts at slot `cursor`. */
  function RingSlot(cursor: nat, j: nat, size: nat): nat
    requires size > 0
  {
    (cursor + j) % size
  }

  /** Pool contents after a run of creations starting at a cursor: creation j writes slot (cursor + j) mod N. */
  function AfterCreations(pool: seq<Slot>, cursor: nat, spawns: seq<Spawn>): (r: seq<Slot>)
    requires cursor < |pool|
    ensures |r| == |pool|
    decreases |spawns|
  {
    if spawns == [] then pool
    else
      var n := |spawns| - 1;
      AfterCreations(pool, cursor, spawns[..n])[RingSlot(cursor, n, |pool|) := Fresh(spawns[n])]
  }

  /** Two steps of the cursor fewer than N apart land on different slots. */
  lemma RingDistinct(c: nat, j: nat, n: nat, size: nat)
    requires size > 0 && j < n < j + size
    ensures (c + j) % size != (c + n) % size
  {
    var q, r := (c + j) / size, (c + j) % size;
    var d := n - j;
    if r + d < size {
      Util.DivUnique(c + n, size, q, r + d);
    } else {
      Util.DivUnique(c + n, size, q + 1, r + d - size);
    }
  }

  /** Each of the last N creations still occupies the slot it wrote: the ring overwrites the oldest. */
  lemma {:induction false} RingHoldsLastCreations(pool: seq<Slot>, cursor: nat, spawns: seq<Spawn>, j: nat)
    requires cursor < |pool| && j < |spawns| && j + |pool| >= |spawns|
    ensures AfterCreations(pool, cursor, spawns)[(cursor + j) % |pool|] == Fresh(spawns[j])
    decreases |spawns|
  {
    var n := |spawns| - 1;
    if j < n {
      RingDistinct(cursor, j, n, |pool|);
      RingHoldsLastCreations(pool, cursor, spawns[..n], j);
    }
  }

  /** A slot no creation reached keeps its contents. */
  lemma {:induction false} RingUntouched(pool: seq<Slot>, cursor: nat, spawns: seq<Spawn>, k: nat)
    requires cursor < |pool| && k < |pool|
    requires forall j :: 0 <= j < |spawns| ==> RingSlot(cursor, j, |pool|) != k
    ensures AfterCreations(pool, cursor, spawns)[k] == pool[k]
    decreases |spawns|
  {
    if spawns != [] {
      RingUntouched(pool, cursor, spawns[..|spawns| - 1], k);
    }
  }

  /** From a fresh pool, N + 1 creations put the last in slot 0 and leave the second in slot 1. */
  lemma OneLapAndOne(pool: seq<Slot>, spawns: seq<Spawn>)
    requires |pool| >= 2 && |spawns| == |pool| + 1
    ensures AfterCreations(pool, 0, spawns)[0] == Fresh(spawns[|pool|])
    ensures AfterCreations(pool, 0, spawns)[1] == Fresh(spawns[1])
  {
    var size := |pool|;
    RingHoldsLastCreations(pool, 0, spawns, size);
    Util.DivUnique(size, size, 1, 0);
    RingHoldsLastCreations(pool, 0, spawns, 1);
    Util.DivUnique(1, size, 0, 1);
  }

  class ParticleSystem {
    const poolSize: nat
    const width: real
    const height: real
    /** true: life fades by the time factor (modular version); false: by one per tick. */
    const fadesWithTime: bool
    const particles: array<Slot>
    var oldestParticle: nat
    var lastUpdate: real

    ghost predicate Valid()
      reads this
    {
      poolSize > 0 && particles.Length == poolSize && oldestParticle < poolSize
    }

    /** The modular version's pool: 2000 empty slots. */
    constructor(width: real, height: real)
      ensures Valid() && poolSize == 2000 && fadesWithTime && fresh(particles)
      ensures this.width == width && this.height == height
      ensures particles[..] == seq(2000, i => Empty) && oldestParticle == 0 && lastUpdate == 0.0
    {
      poolSize := 2000;
      this.width := width;
      this.height := height;
      fadesWithTime := true;
      oldestParticle := 0;
      lastUpdate := 0.0;
      particles := new Slot[2000](i => Empty);
    }

    /** The single-file version's pool: 200 empty slots. */
    constructor Legacy(width: real, height: real)
      ensures Valid() && poolSize == 200 && !fadesWithTime && fresh(particles)
      ensures this.width == width && this.height == height
      ensures particles[..] == seq(200, i => Empty) && oldestParticle == 0 && lastUpdate == 0.0
    {
      poolSize := 200;
      this.width := width;
      this.height := height;
      fadesWithTime := false;
      oldestParticle := 0;
      lastUpdate := 0.0;
      particles := new Slot[200](i => Empty);
    }

    /** createParticle: the oldest slot gets a full-life particle and the cursor moves on, wrapping to 0. */
    method CreateParticle(x: real, y: real, vx: real, vy: real)
      requires Valid()
      modifies this, particles
      ensures Valid() && lastUpdate == old(lastUpdate)
      ensures particles[..] == old(particles[..])[old(oldestParticle) := Fresh(Spawn(x, y, vx, vy))]
      ensures oldestParticle == (old(oldestParticle) + 1) % poolSize
    {
      particles[oldestParticle] := Particle(x, y, vx, vy, Lifetime);
      oldestParticle := oldestParticle + 1;
      if oldestParticle >= poolSize {
        Util.DivUnique(oldestParticle, poolSize, 1, 0);
        oldestParticle := 0;
      } else {
        Util.DivUnique(oldestParticle, poolSize, 0, oldestParticle);
      }
    }

    /** Move every slot once, in place. */
    method StepAll(dt: real, decay: real)
      requires Valid()
      modifies particles
      ensures forall i :: 0 <= i < particles.Length ==>
                particles[i] == Move(old(particles[i]), dt, width, height, decay)
    {
      var i := 0;
      while i < particles.Length
        invariant 0 <= i <= particles.Length
        invariant forall k :: 0 <= k < i ==> particles[k] == Move(old(particles[k]), dt, width, height, decay)
        invariant forall k :: i <= k < particles.Length ==> particles[k] == old(particles[k])
      {
        particles[i] := Move(particles[i], dt, width, height, decay);
        i := i + 1;
      }
    }

    /** The elapsed time as a multiple of one 60 fps frame. */
    function TimeFactor(now: real): real
      reads this
    {
      (now - lastUpdate) / FrameMillis
    }

    /**
     * update (modular version) and tickParticles (single-file version), with the clock
     * reading `now` as a parameter. The first call only records the time; later calls move
     * every slot by the time factor and fade it by that factor or by one.
     */
    method Update(now: real)
      requires Valid()
      modifies this, particles
      ensures Valid() && lastUpdate == now && oldestParticle == old(oldestParticle)
      ensures old(lastUpdate) == 0.0 ==> particles[..] == old(particles[..])
      ensures old(lastUpdate) != 0.0 ==>
                var dt := (now - old(lastUpdate)) / FrameMillis;
                forall i :: 0 <= i < particles.Length ==>
                  particles[i] == Move(old(particles[i]), dt, width, height,
                                       if fadesWithTime then dt else 1.0)
    {
      if lastUpdate != 0.0 {
        var dt := TimeFactor(now);
        StepAll(dt, if fadesWithTime then dt else 1.0);
        lastUpdate := now;
      } else {
        lastUpdate := now;
      }
    }
  }

  /** createParticle is one step of AfterCreations. */
  method CreateAll(ps: ParticleSystem, spawns: seq<Spawn>)
    requires ps.Valid()
    modifies ps, ps.particles
    ensures ps.Valid()
    ensures ps.particles[..] == AfterCreations(old(ps.particles[..]), old(ps.oldestParticle), spawns)
    ensures ps.oldestParticle == (old(ps.oldestParticle) + |spawns|) % ps.poolSize
  {
    ghost var start := ps.particles[..];
    ghost var c := ps.oldestParticle;
    var i := 0;
    while i < |spawns|
      invariant 0 <= i <= |spawns| && ps.Valid()
      invariant ps.particles[..] == AfterCreations(start, c, spawns[..i])
      invariant ps.oldestParticle == (c + i) % ps.poolSize
    {
      var s := spawns[i];
      ps.CreateParticle(s.x, s.y, s.vx, s.vy);
      assert spawns[..i + 1][..i] == spawns[..i];
      CursorStep(c, i, ps.poolSize);
      i := i + 1;
    }
    assert spawns[..|spawns|] == spawns;
  }

  lemma CursorStep(c: nat, i: nat, size: nat)
    requires size > 0
    ensures ((c + i) % size + 1) % size == (c + i + 1) % size
  {
    var n := c + i;
    var q, r := n / size, n % size;
    assert n == size * q + r;
    if r + 1 < size {
      Util.DivUnique(r + 1, size, 0, r + 1);
      Util.DivUnique(n + 1, size, q, r + 1);
    } else {
      Util.DivUnique(r + 1, size, 1, 0);
      assert size * (q + 1) == size * q + size;
      Util.DivUnique(n + 1, size, q + 1, 0);
    }
  }
}
