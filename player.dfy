/** The viewer of src/player.rs: its pose, and the spawn search over the tile map. */
module Players {
  import opened Wrappers
  import opened Geometry
  import opened Map

  class Player {
    /** Position in grid units; `x` is read as the row and `y` as the column of the grid (see `OnEmptyTile`). */
    var position: Vec2
    /** Heading, in radians. */
    var rotation: real
    /** Field of view, in radians. */
    var fov: real

    /**
     `random_location`, over the candidate cells `(start_y, start_x)` that the
     source draws one after another with `gen_range` (so each lies inside the
     grid). The first candidate whose tile is empty wins: the player moves to
     `(start_x, start_y)` and the result is that candidate's index. The source
     keeps drawing for ever while no tile is empty; once the supplied
     candidates run out the result is `None` and the position is untouched.
     */
    method RandomLocation(tileMap: TileMap, candidates: seq<TilePosition>) returns (chosen: Option<nat>)
      requires forall i :: 0 <= i < |candidates| ==> candidates[i].y < tileMap.height && candidates[i].x < tileMap.width
      modifies this`position
      ensures chosen.Some? ==>
        var k := chosen.value;
        && k < |candidates|
        && tileMap.IsTileEmpty(candidates[k].y, candidates[k].x)
        && (forall j :: 0 <= j < k ==> !tileMap.IsTileEmpty(candidates[j].y, candidates[j].x))
        && position == Vec2(candidates[k].x as real, candidates[k].y as real)
      ensures chosen.None? ==>
        && (forall j :: 0 <= j < |candidates| ==> !tileMap.IsTileEmpty(candidates[j].y, candidates[j].x))
        && position == old(position)
      ensures chosen.Some? ==> OnEmptyTile(tileMap, position)
    {
      var i := 0;
      while i < |candidates|
        invariant i <= |candidates|
        invariant forall j :: 0 <= j < i ==> !tileMap.IsTileEmpty(candidates[j].y, candidates[j].x)
        invariant position == old(position)
      {
        var startY := candidates[i].y;
        var startX := candidates[i].x;

        if tileMap.IsTileEmpty(startY, startX) {
          position := Vec2(startX as real, startY as real);
          return Some(i);
        }
        i := i + 1;
      }
      return None;
    }
  }
}
