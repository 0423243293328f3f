/**
 The ray caster of src/raycasting.rs: the angles across the field of view,
 and the alternating-axis march of one ray until it lands on a wall.

 `cos` and `sin` are not modelled: the caller supplies `trig`, whose value at
 an angle stands for `(cos angle, sin angle)`. Positions and angles are reals.
 */
module Raycasting {
  import opened Wrappers
  import opened Geometry
  import opened Map
  import opened Players

  /** The angular step between two rays. */
  const ANGLE_STEP: real := 0.005
  /** The length of one march step along one axis, before scaling by `cos` or `sin`. */
  const DISTANCE_STEP: real := 0.05

  datatype ContactPoint = ContactPoint(point: Vec2, plane: ContactPlane, value: int8)

  // ---------------------------------------------------------------------------
  // Angles across the field of view.

  function FovStart(rotation: real, fov: real): real { rotation - fov / 2.0 }
  function FovEnd(rotation: real, fov: real): real { rotation + fov / 2.0 }

  /** The `i`-th angle `angles_in_fov` pushes. */
  function FovAngle(rotation: real, fov: real, i: nat): real {
    FovStart(rotation, fov) + i as real * ANGLE_STEP
  }

  /** `n` angles from the start of the field of view stay below its end, and one more would not. */
  ghost predicate CoversFov(rotation: real, fov: real, n: nat) {
    && (forall i :: 0 <= i < n ==> FovAngle(rotation, fov, i) < FovEnd(rotation, fov))
    && FovEnd(rotation, fov) <= FovAngle(rotation, fov, n)
  }

  /**
   `angles_in_fov`: from `rotation - fov / 2`, in steps of `ANGLE_STEP`, every
   angle below `rotation + fov / 2`.
   */
  method AnglesInFov(player: Player) returns (angles: seq<real>)
    ensures forall i :: 0 <= i < |angles| ==> angles[i] == FovAngle(player.rotation, player.fov, i)
    ensures CoversFov(player.rotation, player.fov, |angles|)
    ensures 0 < |angles| ==> angles[0] == player.rotation - player.fov / 2.0
    ensures forall i :: 0 <= i < |angles| - 1 ==> angles[i + 1] - angles[i] == ANGLE_STEP
    ensures forall i :: 0 <= i < |angles| ==> angles[i] < player.rotation + player.fov / 2.0
    ensures |angles| == 0 <==> player.fov <= 0.0
  {
    angles := [];
    var currentAngle := player.rotation - player.fov / 2.0;
    var endAngle := player.rotation + player.fov / 2.0;

    while currentAngle < endAngle
      invariant currentAngle == FovAngle(player.rotation, player.fov, |angles|)
      invariant forall i :: 0 <= i < |angles| ==> angles[i] == FovAngle(player.rotation, player.fov, i)
      invariant forall i :: 0 <= i < |angles| ==> angles[i] < endAngle
      decreases ((endAngle - currentAngle) / ANGLE_STEP).Floor
    {
      angles := angles + [currentAngle];
      currentAngle := currentAngle + ANGLE_STEP;
    }
  }

  /** The number of rays is the field of view over the angular step, rounded up. */
  lemma FovRayCount(rotation: real, fov: real, n: nat)
    requires CoversFov(rotation, fov, n)
    ensures n == 0 <==> fov <= 0.0
    ensures 0.0 < fov ==> n as real - 1.0 < fov / ANGLE_STEP <= n as real
  {
    if 0 < n {
      assert FovAngle(rotation, fov, n - 1) < FovEnd(rotation, fov);
    }
  }

  /** The sweep length is determined by the pose alone. */
  lemma FovRayCountUnique(rotation: real, fov: real, n: nat, m: nat)
    requires CoversFov(rotation, fov, n) && CoversFov(rotation, fov, m)
    ensures n == m
  {
  }

  // ---------------------------------------------------------------------------
  // The march of one ray.

  /** The per-axis step along `angle`: `(cos angle * DISTANCE_STEP, sin angle * DISTANCE_STEP)`. */
  function Increment(trig: real -> Vec2, angle: real): Vec2 {
    Vec2(trig(angle).x * DISTANCE_STEP, trig(angle).y * DISTANCE_STEP)
  }

  /** Where the particle is after `k` iterations: even counters advance `x`, odd ones `y`. */
  function Marched(start: Vec2, d: Vec2, k: nat): Vec2 {
    if k == 0 then start
    else
      var p := Marched(start, d, k - 1);
      if (k - 1) % 2 == 0 then Vec2(p.x + d.x, p.y) else Vec2(p.x, p.y + d.y)
  }

  /** After `k` iterations `x` has been advanced `ceil(k / 2)` times and `y` `floor(k / 2)` times. */
  lemma {:induction false} MarchedClosedForm(start: Vec2, d: Vec2, k: nat)
    ensures Marched(start, d, k) == Vec2(start.x + ((k + 1) / 2) as real * d.x, start.y + (k / 2) as real * d.y)
  {
    if k > 0 {
      MarchedClosedForm(start, d, k - 1);
      if (k - 1) % 2 == 0 {
        assert (k + 1) / 2 == k / 2 + 1 && k / 2 == (k - 1) / 2;
        assert ((k + 1) / 2) as real * d.x == (k / 2) as real * d.x + d.x;
      } else {
        assert (k + 1) / 2 == k / 2 && k / 2 == (k - 1) / 2 + 1;
        assert (k / 2) as real * d.y == ((k - 1) / 2) as real * d.y + d.y;
      }
    }
  }

  /** The plane reported for a march that stopped with counter `k`. */
  function PlaneOf(k: nat): ContactPlane {
    if k % 2 == 0 then Horizontal else Vertical
  }

  /** The first counter from `k` on, and at most `k + fuel`, at which the particle is on a wall. */
  function FirstWall(tileMap: TileMap, start: Vec2, d: Vec2, k: nat, fuel: nat): Option<nat>
    reads tileMap
    decreases fuel
  {
    if !OnEmptyTile(tileMap, Marched(start, d, k)) then Some(k)
    else if fuel == 0 then None
    else FirstWall(tileMap, start, d, k + 1, fuel - 1)
  }

  /**
   The contact point the march from `start` with steps `d` reports within
   `fuel` iterations: where it stopped, the plane from the counter's parity,
   and the value read after the last step (0 if no step was taken).
   */
  function Contact(tileMap: TileMap, start: Vec2, d: Vec2, fuel: nat): Option<ContactPoint>
    reads tileMap
  {
    match FirstWall(tileMap, start, d, 0, fuel)
    case None => None
    case Some(n) =>
      var p := Marched(start, d, n);
      Some(ContactPoint(p, PlaneOf(n), if n == 0 then 0 else tileMap.GetTileValue(AsUsize(p.y), AsUsize(p.x))))
  }

  lemma {:induction false} FirstWallIsFirst(tileMap: TileMap, start: Vec2, d: Vec2, k: nat, fuel: nat)
    ensures match FirstWall(tileMap, start, d, k, fuel)
      case Some(n) =>
        && k <= n <= k + fuel
        && !OnEmptyTile(tileMap, Marched(start, d, n))
        && forall j :: k <= j < n ==> OnEmptyTile(tileMap, Marched(start, d, j))
      case None =>
        forall j :: k <= j <= k + fuel ==> OnEmptyTile(tileMap, Marched(start, d, j))
    decreases fuel
  {
    if OnEmptyTile(tileMap, Marched(start, d, k)) && fuel > 0 {
      FirstWallIsFirst(tileMap, start, d, k + 1, fuel - 1);
    }
  }

  /**
   If the first wall on the march is met after `n` iterations, the contact
   point is the particle's position then, the plane is Horizontal for even `n`
   and Vertical for odd `n`, and the value is 0 for `n == 0` and the tile's
   value otherwise.
   */
  lemma ContactAfterSteps(tileMap: TileMap, start: Vec2, d: Vec2, fuel: nat, n: nat)
    requires n <= fuel
    requires forall j :: 0 <= j < n ==> OnEmptyTile(tileMap, Marched(start, d, j))
    requires !OnEmptyTile(tileMap, Marched(start, d, n))
    ensures Contact(tileMap, start, d, fuel).Some?
    ensures var cp := Contact(tileMap, start, d, fuel).value;
      && cp.point == Vec2(start.x + ((n + 1) / 2) as real * d.x, start.y + (n / 2) as real * d.y)
      && (cp.plane == Horizontal <==> n % 2 == 0)
      && cp.value == if n == 0 then 0 else tileMap.GetTileValue(AsUsize(cp.point.y), AsUsize(cp.point.x))
  {
    FirstWallIsFirst(tileMap, start, d, 0, fuel);
    MarchedClosedForm(start, d, n);
    match FirstWall(tileMap, start, d, 0, fuel)
    case Some(m) =>
      if m < n {
        assert false;
      } else if n < m {
        assert false;
      }
    case None =>
      assert false;
  }

  /**
   A finished march stops on a wall; it reports a nonzero value whenever it
   started on an empty tile; from a wall it takes no step and reports the start,
   Horizontal and 0; and it runs out of fuel only if every position it passed
   through was empty.
   */
  lemma ContactProperties(tileMap: TileMap, start: Vec2, d: Vec2, fuel: nat)
    ensures Contact(tileMap, start, d, fuel).Some? ==> !OnEmptyTile(tileMap, Contact(tileMap, start, d, fuel).value.point)
    ensures Contact(tileMap, start, d, fuel).Some? && OnEmptyTile(tileMap, start) ==>
      Contact(tileMap, start, d, fuel).value.value != 0
    ensures !OnEmptyTile(tileMap, start) ==> Contact(tileMap, start, d, fuel) == Some(ContactPoint(start, Horizontal, 0))
    ensures Contact(tileMap, start, d, fuel).None? <==>
      forall j :: 0 <= j <= fuel ==> OnEmptyTile(tileMap, Marched(start, d, j))
  {
    FirstWallIsFirst(tileMap, start, d, 0, fuel);
  }

  /** More fuel never changes a march that already finished. */
  lemma ContactFuelMonotone(tileMap: TileMap, start: Vec2, d: Vec2, fuel: nat, more: nat)
    requires fuel <= more
    requires Contact(tileMap, start, d, fuel).Some?
    ensures Contact(tileMap, start, d, more) == Contact(tileMap, start, d, fuel)
  {
    FirstWallIsFirst(tileMap, start, d, 0, fuel);
    var n :| FirstWall(tileMap, start, d, 0, fuel) == Some(n);
    ContactAfterSteps(tileMap, start, d, fuel, n);
    ContactAfterSteps(tileMap, start, d, more, n);
    FirstWallIsFirst(tileMap, start, d, 0, more);
    match FirstWall(tileMap, start, d, 0, more)
    case Some(m) =>
      if m < n {
        assert false;
      } else if n < m {
        assert false;
      }
    case None =>
      assert false;
  }

  /**
   `get_particle_contact_point`, given at most `fuel` iterations. The source
   has no bound, and because the cast to `usize` saturates at 0 its march can
   run for ever: for instance when both coordinates fall below 0 over an empty
   `tiles[0][0]`, or when the ray runs parallel to a low edge over empty
   index-0 tiles.
   */
  method GetParticleContactPoint(player: Player, angle: real, trig: real -> Vec2, tileMap: TileMap, fuel: nat)
    returns (contact: Option<ContactPoint>)
    ensures contact == Contact(tileMap, player.position, Increment(trig, angle), fuel)
  {
    ghost var d := Increment(trig, angle);
    var particlePosition := player.position;
    var counter: nat := 0;
    var value: int8 := 0;

    while tileMap.IsTileEmpty(AsUsize(particlePosition.y), AsUsize(particlePosition.x))
      invariant counter <= fuel
      invariant particlePosition == Marched(player.position, d, counter)
      invariant value == if counter == 0 then 0 else tileMap.GetTileValue(AsUsize(particlePosition.y), AsUsize(particlePosition.x))
      invariant FirstWall(tileMap, player.position, d, counter, fuel - counter) == FirstWall(tileMap, player.position, d, 0, fuel)
      decreases fuel - counter
    {
      if counter == fuel {
        return None;
      }
      if counter % 2 == 0 {
        particlePosition := particlePosition.(x := particlePosition.x + trig(angle).x * DISTANCE_STEP);
      } else {
        particlePosition := particlePosition.(y := particlePosition.y + trig(angle).y * DISTANCE_STEP);
      }
      value := tileMap.GetTileValue(AsUsize(particlePosition.y), AsUsize(particlePosition.x));
      counter := counter + 1;
    }

    var plane := if counter % 2 == 0 then Horizontal else Vertical;
    contact := Some(ContactPoint(particlePosition, plane, value));
  }

  /**
   `get_particles_in_view`: one march per angle of the field of view, in the
   order of the angles, so element `i` is the march along the `i`-th angle.
   */
  method GetParticlesInView(player: Player, tileMap: TileMap, trig: real -> Vec2, fuel: nat)
    returns (particles: seq<Option<ContactPoint>>)
    ensures CoversFov(player.rotation, player.fov, |particles|)
    ensures forall i :: 0 <= i < |particles| ==>
      particles[i] == Contact(tileMap, player.position, Increment(trig, FovAngle(player.rotation, player.fov, i)), fuel)
  {
    var angles := AnglesInFov(player);
    particles := [];
    for i := 0 to |angles|
      invariant |particles| == i
      invariant forall j :: 0 <= j < i ==>
        particles[j] == Contact(tileMap, player.position, Increment(trig, FovAngle(player.rotation, player.fov, j)), fuel)
    {
      var particle := GetParticleContactPoint(player, angles[i], trig, tileMap, fuel);
      particles := particles + [particle];
    }
  }
}
