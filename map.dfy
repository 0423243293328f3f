/**
 The tile grid of src/map.rs and the dungeon carver that fills it.

 The grid is stored as the source stores it, `tiles[row][column]`, one wall
 kind per cell (0 = empty, 1..3 = wall materials). Generation writes
 `tiles[y][x]`. `GetTileValue(columnIndex, rowIndex)` reads
 `tiles[rowIndex][columnIndex]`, and every caller passes `(y, x)`, so what the
 player and the rays see is `tiles[x][y]`; `OnEmptyTile` states this.
 */
module Map {
  import opened Geometry

  /** Rust's `i8`, the type of `Tile::value`. */
  newtype int8 = v: int | -128 <= v < 128

  /** The rows of tile values, `tiles[row][column]`. */
  type Grid = seq<seq<int8>>

  /** An RGBA colour with 8-bit channels, as `Color::from_rgba` takes it. */
  datatype Color = Color(r: nat, g: nat, b: nat, a: nat)

  /** macroquad's `WHITE`, every channel at full intensity. */
  const WHITE: Color := Color(255, 255, 255, 255)

  /** Channel 1 is red, 2 is green, 3 is blue. */
  function Channel(c: Color, k: int): nat
    requires 1 <= k <= 3
  {
    if k == 1 then c.r else if k == 2 then c.g else c.b
  }

  /**
   The two-tone wall colour: wall kind `k` in 1..3 lights channel `k`, at 255
   on a vertical contact and at 193 on a horizontal one. Kind 0 is white. Any
   other kind reaches `todo!()` and panics.
   */
  function GetColor(value: int8, plane: ContactPlane): (c: Color)
    requires 0 <= value <= 3
    ensures c.a == 255
    ensures value == 0 <==> c == WHITE
    ensures value != 0 ==> Channel(c, value as int) == if plane == Vertical then 255 else 193
    ensures value != 0 ==> forall k :: 1 <= k <= 3 && k != value as int ==> Channel(c, k) == 0
  {
    match (value, plane)
    case (0, _) => WHITE
    case (1, Vertical) => Color(255, 0, 0, 255)
    case (1, Horizontal) => Color(193, 0, 0, 255)
    case (2, Vertical) => Color(0, 255, 0, 255)
    case (2, Horizontal) => Color(0, 193, 0, 255)
    case (3, Vertical) => Color(0, 0, 255, 255)
    case (3, Horizontal) => Color(0, 0, 193, 255)
    case _ => assert false; WHITE
  }

  /** The source's `TilePosition`: a cell, or the extent of a rectangle. */
  datatype TilePosition = TilePosition(y: nat, x: nat)

  /** One room's random draws: its side `size` and its top-left anchor `(y, x)`. */
  datatype RoomDraw = RoomDraw(size: nat, y: nat, x: nat) {
    function Position(): TilePosition { TilePosition(y, x) }
    function Size(): TilePosition { TilePosition(size, size) }
    predicate Covers(r: int, c: int) { InRect(Position(), Size(), r, c) }
  }

  /** The draws `gen_range` can produce: `y < height - size` and `x < width - size`. */
  predicate RoomFits(d: RoomDraw, width: nat, height: nat) {
    d.size < height && d.size < width && d.y < height - d.size && d.x < width - d.size
  }

  /** The room's centre, `position + size / 2`; it lies in the room unless the room is empty. */
  function Center(d: RoomDraw): (c: TilePosition)
    ensures d.y <= c.y && d.x <= c.x
    ensures 0 < d.size ==> d.Covers(c.y, c.x)
    ensures d.size == 0 ==> c == d.Position()
  {
    TilePosition(d.y + d.size / 2, d.x + d.size / 2)
  }

  /** The centres `generate` records, one per room, in placement order. */
  function Centers(draws: seq<RoomDraw>): (cs: seq<TilePosition>)
    ensures |cs| == |draws|
  {
    seq(|draws|, i requires 0 <= i < |draws| => Center(draws[i]))
  }

  /** The number of consecutive pairs `zip(centers, centers.skip(1))` yields. */
  function PairCount(n: nat): nat {
    if n == 0 then 0 else n - 1
  }

  predicate InRect(position: TilePosition, size: TilePosition, r: int, c: int) {
    position.y <= r < position.y + size.y && position.x <= c < position.x + size.x
  }

  /** Every cell `carve_room` writes is inside the grid. */
  predicate RoomInGrid(position: TilePosition, size: TilePosition, width: nat, height: nat) {
    0 < size.y && 0 < size.x ==> position.y + size.y <= height && position.x + size.x <= width
  }

  /** `v` is strictly past `a` and at most `b`, walking from `a` toward `b`. */
  predicate Past(a: int, b: int, v: int) {
    a < v <= b || b <= v < a
  }

  /**
   The cells `connect_rooms(c1, c2)` carves: along row `c1.y` from just after
   `c1.x` to `c2.x`, then along column `c2.x` from just after `c1.y` to `c2.y`.
   */
  predicate OnCorridor(c1: TilePosition, c2: TilePosition, r: int, c: int) {
    (r == c1.y && Past(c1.x, c2.x, c)) || (c == c2.x && Past(c1.y, c2.y, r))
  }

  /** Every cell `connect_rooms` writes is inside the grid. */
  ghost predicate CorridorInGrid(c1: TilePosition, c2: TilePosition, width: nat, height: nat) {
    forall r: nat, c: nat :: OnCorridor(c1, c2, r, c) ==> r < height && c < width
  }

  /** The signum of `to - from`: the step `connect_rooms` takes toward `to`. */
  function Direction(from: nat, to: nat): int {
    if from < to then 1 else if to < from then -1 else 0
  }

  predicate IsRectangular(g: Grid, width: nat, height: nat) {
    |g| == height && forall r :: 0 <= r < |g| ==> |g[r]| == width
  }

  predicate SameShape(a: Grid, b: Grid) {
    |a| == |b| && forall r :: 0 <= r < |a| ==> |a[r]| == |b[r]|
  }

  lemma SameCellsSameGrid(a: Grid, b: Grid)
    requires SameShape(a, b)
    requires forall r, c :: 0 <= r < |a| && 0 <= c < |a[r]| ==> a[r][c] == b[r][c]
    ensures a == b
  {
    forall r | 0 <= r < |a|
      ensures a[r] == b[r]
    {
      assert forall c :: 0 <= c < |a[r]| ==> a[r][c] == b[r][c];
    }
  }

  // ---------------------------------------------------------------------------
  // What generation does to a grid, as functions of the grid it starts from.

  /** The grid after `carve_room(position, size)`: the rectangle's cells become 0. */
  function RoomCarved(g: Grid, position: TilePosition, size: TilePosition): (g': Grid)
    ensures SameShape(g, g')
  {
    seq(|g|, r requires 0 <= r < |g| =>
      seq(|g[r]|, c requires 0 <= c < |g[r]| =>
        if InRect(position, size, r, c) then 0 else g[r][c]))
  }

  /** The grid after `connect_rooms(c1, c2)`: the corridor's cells become 0. */
  function CorridorCarved(g: Grid, c1: TilePosition, c2: TilePosition): (g': Grid)
    ensures SameShape(g, g')
  {
    seq(|g|, r requires 0 <= r < |g| =>
      seq(|g[r]|, c requires 0 <= c < |g[r]| =>
        if OnCorridor(c1, c2, r, c) then 0 else g[r][c]))
  }

  /** The grid after carving the rooms of `draws`, in order. */
  function RoomsCarved(g: Grid, draws: seq<RoomDraw>): (g': Grid)
    ensures SameShape(g, g')
    decreases |draws|
  {
    if |draws| == 0 then g
    else
      var d := draws[|draws| - 1];
      RoomCarved(RoomsCarved(g, draws[..|draws| - 1]), d.Position(), d.Size())
  }

  /** The grid after joining the first `pairs` consecutive pairs of `cs`. */
  function CorridorsCarved(g: Grid, cs: seq<TilePosition>, pairs: nat): (g': Grid)
    requires pairs == 0 || pairs < |cs|
    ensures SameShape(g, g')
  {
    if pairs == 0 then g
    else CorridorCarved(CorridorsCarved(g, cs, pairs - 1), cs[pairs - 1], cs[pairs])
  }

  /** The grid `generate(draws)` leaves: every room, then every corridor between consecutive centres. */
  function Generated(g: Grid, draws: seq<RoomDraw>): Grid {
    CorridorsCarved(RoomsCarved(g, draws), Centers(draws), PairCount(|draws|))
  }

  predicate InSomeRoom(draws: seq<RoomDraw>, r: int, c: int) {
    exists i :: 0 <= i < |draws| && draws[i].Covers(r, c)
  }

  predicate OnSomeCorridor(cs: seq<TilePosition>, pairs: nat, r: int, c: int)
    requires pairs == 0 || pairs < |cs|
  {
    exists i :: 0 <= i < pairs && OnCorridor(cs[i], cs[i + 1], r, c)
  }

  // ---------------------------------------------------------------------------
  // The tile map.

  class TileMap {
    var tiles: Grid
    const width: nat
    const height: nat

    ghost predicate Valid()
      reads this
    {
      IsRectangular(tiles, width, height)
    }

    /** `TileMap::new`: `height` rows of `width` tiles, all solid. */
    constructor (width: nat, height: nat)
      ensures this.width == width && this.height == height
      ensures Valid()
      ensures forall r, c :: 0 <= r < height && 0 <= c < width ==> tiles[r][c] == 1
    {
      var rows: Grid := [];
      for rowIndex := 0 to height
        invariant |rows| == rowIndex
        invariant forall r :: 0 <= r < rowIndex ==> |rows[r]| == width
        invariant forall r, c :: 0 <= r < rowIndex && 0 <= c < width ==> rows[r][c] == 1
      {
        var rowVec: seq<int8> := [];
        for columnIndex := 0 to width
          invariant |rowVec| == columnIndex
          invariant forall c :: 0 <= c < columnIndex ==> rowVec[c] == 1
        {
          rowVec := rowVec + [1];
        }
        rows := rows + [rowVec];
      }
      this.tiles := rows;
      this.width := width;
      this.height := height;
    }

    /** The stored value inside the grid; solid (1) anywhere outside it. */
    function GetTileValue(columnIndex: nat, rowIndex: nat): (v: int8)
      reads this
      ensures Valid() && rowIndex < height && columnIndex < width ==> v == tiles[rowIndex][columnIndex]
      ensures Valid() && (height <= rowIndex || width <= columnIndex) ==> v == 1
    {
      if rowIndex < |tiles| && columnIndex < |tiles[rowIndex]| then tiles[rowIndex][columnIndex] else 1
    }

    /** Empty exactly when the cell exists and holds 0; no index outside the grid is empty. */
    function IsTileEmpty(columnIndex: nat, rowIndex: nat): (empty: bool)
      reads this
      ensures empty <==> rowIndex < |tiles| && columnIndex < |tiles[rowIndex]| && tiles[rowIndex][columnIndex] == 0
    {
      match GetTileValue(columnIndex, rowIndex)
      case 0 => true
      case _ => false
    }

    /** `carve_room`: zero the rectangle `[position.y, +size.y) × [position.x, +size.x)`. */
    method CarveRoom(position: TilePosition, size: TilePosition)
      requires Valid()
      requires RoomInGrid(position, size, width, height)
      modifies this
      ensures Valid()
      ensures tiles == RoomCarved(old(tiles), position, size)
    {
      for y := position.y to size.y + position.y
        invariant Valid()
        invariant forall r, c {:trigger tiles[r][c]} :: 0 <= r < height && 0 <= c < width ==>
          tiles[r][c] == if position.y <= r < y && position.x <= c < position.x + size.x then 0 else old(tiles)[r][c]
      {
        for x := position.x to size.x + position.x
          invariant Valid()
          invariant forall r, c {:trigger tiles[r][c]} :: 0 <= r < height && 0 <= c < width ==>
            tiles[r][c] ==
              if (position.y <= r < y && position.x <= c < position.x + size.x) || (r == y && position.x <= c < x)
              then 0 else old(tiles)[r][c]
        {
          tiles := tiles[y := tiles[y][x := 0]];
        }
      }
      SameCellsSameGrid(tiles, RoomCarved(old(tiles), position, size));
    }

    /** `connect_rooms`: an L-shaped corridor, first along row `center1.y`, then along column `center2.x`. */
    method ConnectRooms(center1: TilePosition, center2: TilePosition)
      requires Valid()
      requires CorridorInGrid(center1, center2, width, height)
      modifies this
      ensures Valid()
      ensures tiles == CorridorCarved(old(tiles), center1, center2)
    {
      var currentX := center1.x;
      while Direction(currentX, center2.x) != 0
        invariant Valid()
        invariant center1.x <= currentX <= center2.x || center2.x <= currentX <= center1.x
        invariant forall r, c {:trigger tiles[r][c]} :: 0 <= r < height && 0 <= c < width ==>
          tiles[r][c] == if r == center1.y && Past(center1.x, currentX, c) then 0 else old(tiles)[r][c]
        decreases if currentX < center2.x then center2.x - currentX else currentX - center2.x
      {
        currentX := currentX + Direction(currentX, center2.x);
        assert OnCorridor(center1, center2, center1.y, currentX);
        tiles := tiles[center1.y := tiles[center1.y][currentX := 0]];
      }

      var currentY := center1.y;
      while Direction(currentY, center2.y) != 0
        invariant Valid()
        invariant currentX == center2.x
        invariant center1.y <= currentY <= center2.y || center2.y <= currentY <= center1.y
        invariant forall r, c {:trigger tiles[r][c]} :: 0 <= r < height && 0 <= c < width ==>
          tiles[r][c] ==
            if (r == center1.y && Past(center1.x, center2.x, c)) || (c == currentX && Past(center1.y, currentY, r))
            then 0 else old(tiles)[r][c]
        decreases if currentY < center2.y then center2.y - currentY else currentY - center2.y
      {
        currentY := currentY + Direction(currentY, center2.y);
        assert OnCorridor(center1, center2, currentY, currentX);
        tiles := tiles[currentY := tiles[currentY][currentX := 0]];
      }
      SameCellsSameGrid(tiles, CorridorCarved(old(tiles), center1, center2));
    }

    /**
     `generate`, with the room sizes and anchors that the source draws at
     random supplied as `draws` (one per room, so `room_count == |draws|`).
     */
    method Generate(draws: seq<RoomDraw>)
      requires Valid()
      requires forall i :: 0 <= i < |draws| ==> RoomFits(draws[i], width, height)
      modifies this
      ensures Valid()
      ensures tiles == Generated(old(tiles), draws)
    {
      var roomCenters: seq<TilePosition> := [];
      for i := 0 to |draws|
        invariant Valid()
        invariant roomCenters == Centers(draws[..i])
        invariant tiles == RoomsCarved(old(tiles), draws[..i])
      {
        var roomSize := draws[i].size;
        var positionY := draws[i].y;
        var positionX := draws[i].x;
        var position := TilePosition(positionY, positionX);
        var size := TilePosition(roomSize, roomSize);

        CarveRoom(position, size);
        roomCenters := roomCenters + [TilePosition(positionY + roomSize / 2, positionX + roomSize / 2)];
        assert draws[..i + 1][..i] == draws[..i];
      }
      assert draws[..|draws|] == draws;
      ghost var rooms := tiles;
      CentersInGrid(draws, width, height);

      var i := 0;
      while i + 1 < |roomCenters|
        invariant Valid()
        invariant i <= PairCount(|roomCenters|)
        invariant tiles == CorridorsCarved(rooms, roomCenters, i)
      {
        CorridorFitsBetween(roomCenters[i], roomCenters[i + 1], width, height);
        ConnectRooms(roomCenters[i], roomCenters[i + 1]);
        i := i + 1;
      }
    }
  }

  /** The raycaster's and the movement guard's test `is_tile_empty(p.y as usize, p.x as usize)`. */
  function OnEmptyTile(tileMap: TileMap, p: Vec2): (empty: bool)
    reads tileMap
    ensures empty <==>
      var row, column := AsUsize(p.x), AsUsize(p.y);
      row < |tileMap.tiles| && column < |tileMap.tiles[row]| && tileMap.tiles[row][column] == 0
  {
    tileMap.IsTileEmpty(AsUsize(p.y), AsUsize(p.x))
  }

  // ---------------------------------------------------------------------------
  // Lemmas about generation.

  lemma CentersInGrid(draws: seq<RoomDraw>, width: nat, height: nat)
    requires forall i :: 0 <= i < |draws| ==> RoomFits(draws[i], width, height)
    ensures forall i :: 0 <= i < |draws| ==> Centers(draws)[i].y < height && Centers(draws)[i].x < width
  {
  }

  lemma CorridorFitsBetween(c1: TilePosition, c2: TilePosition, width: nat, height: nat)
    requires c1.y < height && c1.x < width && c2.y < height && c2.x < width
    ensures CorridorInGrid(c1, c2, width, height)
  {
  }

  /** After carving the rooms, a cell is 0 if some room covers it, and otherwise as it was. */
  lemma {:induction false} RoomsCarvedCells(g: Grid, draws: seq<RoomDraw>, r: nat, c: nat)
    requires r < |g| && c < |g[r]|
    ensures RoomsCarved(g, draws)[r][c] == if InSomeRoom(draws, r, c) then 0 else g[r][c]
    decreases |draws|
  {
    if |draws| > 0 {
      var init, last := draws[..|draws| - 1], draws[|draws| - 1];
      RoomsCarvedCells(g, init, r, c);
      if InSomeRoom(init, r, c) {
        var i :| 0 <= i < |init| && init[i].Covers(r, c);
        assert draws[i] == init[i];
      }
      if InSomeRoom(draws, r, c) && !last.Covers(r, c) {
        var i :| 0 <= i < |draws| && draws[i].Covers(r, c);
        assert init[i] == draws[i];
      }
    }
  }

  /** After carving `pairs` corridors, a cell is 0 if one of them passes through it, and otherwise as it was. */
  lemma {:induction false} CorridorsCarvedCells(g: Grid, cs: seq<TilePosition>, pairs: nat, r: nat, c: nat)
    requires pairs == 0 || pairs < |cs|
    requires r < |g| && c < |g[r]|
    ensures CorridorsCarved(g, cs, pairs)[r][c] == if OnSomeCorridor(cs, pairs, r, c) then 0 else g[r][c]
  {
    if pairs > 0 {
      CorridorsCarvedCells(g, cs, pairs - 1, r, c);
      if OnSomeCorridor(cs, pairs, r, c) && !OnCorridor(cs[pairs - 1], cs[pairs], r, c) {
        var i :| 0 <= i < pairs && OnCorridor(cs[i], cs[i + 1], r, c);
        assert 0 <= i < pairs - 1;
      }
    }
  }

  /**
   What `generate` leaves in each cell: 0 on every room and every corridor
   between consecutive room centres, and the old value everywhere else.
   */
  lemma GeneratedCells(g: Grid, draws: seq<RoomDraw>, r: nat, c: nat)
    requires r < |g| && c < |g[r]|
    ensures SameShape(g, Generated(g, draws))
    ensures Generated(g, draws)[r][c] ==
      if InSomeRoom(draws, r, c) || OnSomeCorridor(Centers(draws), PairCount(|draws|), r, c) then 0 else g[r][c]
  {
    RoomsCarvedCells(g, draws, r, c);
    CorridorsCarvedCells(RoomsCarved(g, draws), Centers(draws), PairCount(|draws|), r, c);
  }

  /** Generation only ever writes 0: every cell ends as it was or empty, and an empty cell stays empty. */
  lemma GenerateOnlyEmpties(g: Grid, draws: seq<RoomDraw>, r: nat, c: nat)
    requires r < |g| && c < |g[r]|
    ensures var v := Generated(g, draws)[r][c]; v == 0 || v == g[r][c]
    ensures g[r][c] == 0 ==> Generated(g, draws)[r][c] == 0
  {
    GeneratedCells(g, draws, r, c);
  }

  /** Every cell of every room is empty when `generate` returns. */
  lemma RoomsEmptyAfterGenerate(g: Grid, draws: seq<RoomDraw>, i: nat, r: nat, c: nat)
    requires i < |draws| && draws[i].Covers(r, c)
    requires r < |g| && c < |g[r]|
    ensures Generated(g, draws)[r][c] == 0
  {
    GeneratedCells(g, draws, r, c);
  }

  /** Every corridor cell between consecutive room centres is empty when `generate` returns. */
  lemma CorridorsEmptyAfterGenerate(g: Grid, draws: seq<RoomDraw>, i: nat, r: nat, c: nat)
    requires i + 1 < |draws| && OnCorridor(Center(draws[i]), Center(draws[i + 1]), r, c)
    requires r < |g| && c < |g[r]|
    ensures Generated(g, draws)[r][c] == 0
  {
    assert Centers(draws)[i] == Center(draws[i]) && Centers(draws)[i + 1] == Center(draws[i + 1]);
    GeneratedCells(g, draws, r, c);
  }

  /** With fewer than two rooms no corridor is carved: only the rooms change. */
  lemma NoCorridorBelowTwoRooms(g: Grid, draws: seq<RoomDraw>, r: nat, c: nat)
    requires |draws| < 2
    requires r < |g| && c < |g[r]|
    ensures Generated(g, draws)[r][c] == if InSomeRoom(draws, r, c) then 0 else g[r][c]
  {
    GeneratedCells(g, draws, r, c);
  }

  /** A map with some room of positive size that fits has an empty cell after generation: that room's centre. */
  lemma GenerateLeavesAnEmptyCell(g: Grid, width: nat, height: nat, draws: seq<RoomDraw>)
    requires IsRectangular(g, width, height)
    requires exists i :: 0 <= i < |draws| && 0 < draws[i].size && RoomFits(draws[i], width, height)
    ensures exists r, c :: 0 <= r < height && 0 <= c < width && Generated(g, draws)[r][c] == 0
  {
    var i :| 0 <= i < |draws| && 0 < draws[i].size && RoomFits(draws[i], width, height);
    var center := Center(draws[i]);
    GeneratedCells(g, draws, center.y, center.x);
    assert InSomeRoom(draws, center.y, center.x);
  }
}
