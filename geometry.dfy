/** The optional value a bounded search returns when it gives up. */
module Wrappers {
  datatype Option<+T> = None | Some(value: T)
}

/**
 Values shared by the tile map, the ray caster, the player and the input
 handler: macroquad's `Vec2` (with its `f32` components as reals), the
 `ContactPlane` tag of raycasting.rs, and Rust's float-to-`usize` cast.
 */
module Geometry {

  /** A point or a displacement in grid units. */
  datatype Vec2 = Vec2(x: real, y: real)

  /**
   Which axis the ray advanced on last before it met a wall. Declared in
   raycasting.rs; it sits here because map.rs (the colour lookup) and
   raycasting.rs use each other.
   */
  datatype ContactPlane = Horizontal | Vertical

  /**
   Rust's `v as usize` for a float: it truncates toward zero and saturates
   at 0 for negative values. The saturation at `usize::MAX` is not modelled;
   every index that large is outside any grid either way.
   */
  function AsUsize(v: real): (n: nat)
    ensures v < 0.0 ==> n == 0
    ensures 0.0 <= v ==> n as real <= v < n as real + 1.0
  {
    if v < 0.0 then 0 else v.Floor
  }
}
