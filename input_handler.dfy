/**
 The input handling of src/input_handler.rs that changes state: the pause
 toggle, the global actions, and the collision-guarded movement of the player.

 The actions of one frame are supplied as a sequence; which keys are down, and
 in which order the key map yields them, is not modelled. `trig` stands for
 `(cos, sin)` and `fullTurn` for `2 * PI`.
 */
module InputHandler {
  import opened Geometry
  import opened Map
  import opened Players

  datatype Action = MoveStraight | MoveBack | MoveLeft | MoveRight | RotateLeft | RotateRight | PauseGame

  /** The crate's game state; `Other` stands for every variant besides the two the toggle knows. */
  datatype GameState = InGame | Pause | Other(variant: nat)

  /** `InputHandler::new`'s distance per move action. */
  const POSITION_CHANGE: real := 0.05
  /** `InputHandler::new`'s angle per rotate action. */
  const ROTATION_CHANGE: real := 0.02

  /** `un_pause_game`: swaps `Pause` and `InGame`; any other state stays as it is. */
  function UnPauseGame(state: GameState): (next: GameState)
    ensures next == InGame <==> state == Pause
    ensures next == Pause <==> state == InGame
    ensures state.Other? ==> next == state
  {
    match state
    case Pause => InGame
    case InGame => Pause
    case _ => state
  }

  /** Toggling twice restores the state. */
  lemma UnPauseGameTwice(state: GameState)
    ensures UnPauseGame(UnPauseGame(state)) == state
  {
  }

  /**
   `handle_global_input`: one toggle per `PauseGame` action, every other
   action ignored, so only the parity of the number of pauses matters.
   */
  method HandleGlobalInput(actions: seq<Action>, state: GameState) returns (next: GameState)
    ensures next == if multiset(actions)[PauseGame] % 2 == 0 then state else UnPauseGame(state)
  {
    next := state;
    for i := 0 to |actions|
      invariant next == if multiset(actions[..i])[PauseGame] % 2 == 0 then state else UnPauseGame(state)
    {
      assert actions[..i + 1] == actions[..i] + [actions[i]];
      if actions[i] == PauseGame {
        UnPauseGameTwice(state);
        next := UnPauseGame(next);
      }
    }
    assert actions[..|actions|] == actions;
  }

  // ---------------------------------------------------------------------------
  // Movement.

  /**
   The state the movement loop of `handle_player_input` carries: the player's
   position and rotation, and the local `new_position` the moves accumulate on.
   */
  datatype Motion = Motion(position: Vec2, rotation: real, pending: Vec2)

  /** Where `new_position` goes for `action`; `beta` is the strafe angle `2 * PI - rotation` taken before the loop. */
  function Moved(trig: real -> Vec2, beta: real, rotation: real, p: Vec2, action: Action): Vec2 {
    match action
    case MoveStraight => Vec2(p.x + trig(rotation).x * POSITION_CHANGE, p.y + trig(rotation).y * POSITION_CHANGE)
    case MoveBack => Vec2(p.x - trig(rotation).x * POSITION_CHANGE, p.y - trig(rotation).y * POSITION_CHANGE)
    case MoveRight => Vec2(p.x + trig(beta).y * POSITION_CHANGE, p.y + trig(beta).x * POSITION_CHANGE)
    case MoveLeft => Vec2(p.x - trig(beta).y * POSITION_CHANGE, p.y - trig(beta).x * POSITION_CHANGE)
    case _ => p
  }

  /** The rotation after `action`. */
  function Turned(rotation: real, action: Action): real {
    match action
    case RotateLeft => rotation - ROTATION_CHANGE
    case RotateRight => rotation + ROTATION_CHANGE
    case _ => rotation
  }

  /**
   One iteration of the loop: move `new_position`, turn, then take
   `new_position` as the position only if its tile is empty. The position is
   either kept or becomes `new_position`, and never `new_position` on a wall.
   */
  function ApplyAction(tileMap: TileMap, trig: real -> Vec2, beta: real, m: Motion, action: Action): (m': Motion)
    reads tileMap
    ensures m'.position == m.position || (m'.position == m'.pending && OnEmptyTile(tileMap, m'.pending))
    ensures OnEmptyTile(tileMap, m'.pending) ==> m'.position == m'.pending
    ensures m'.pending == Moved(trig, beta, m.rotation, m.pending, action)
  {
    var pending := Moved(trig, beta, m.rotation, m.pending, action);
    Motion(if OnEmptyTile(tileMap, pending) then pending else m.position, Turned(m.rotation, action), pending)
  }

  /** The loop state after the actions, in order. */
  function ApplyActions(tileMap: TileMap, trig: real -> Vec2, beta: real, m: Motion, actions: seq<Action>): Motion
    reads tileMap
    decreases |actions|
  {
    if |actions| == 0 then m
    else ApplyAction(tileMap, trig, beta, ApplyActions(tileMap, trig, beta, m, actions[..|actions| - 1]), actions[|actions| - 1])
  }

  /** The player only ever moves onto empty tiles: from an empty tile no sequence of actions leads onto a wall. */
  lemma {:induction false} PositionStaysEmpty(tileMap: TileMap, trig: real -> Vec2, beta: real, m: Motion, actions: seq<Action>)
    requires OnEmptyTile(tileMap, m.position)
    ensures OnEmptyTile(tileMap, ApplyActions(tileMap, trig, beta, m, actions).position)
    decreases |actions|
  {
    if |actions| > 0 {
      PositionStaysEmpty(tileMap, trig, beta, m, actions[..|actions| - 1]);
    }
  }

  /**
   A rejected move does not reset `new_position`: the accumulated
   `new_position` and the rotation are the same whatever the map accepts
   or refuses along the way.
   */
  lemma {:induction false} PendingIgnoresMap(tileMap: TileMap, other: TileMap, trig: real -> Vec2, beta: real,
                                               m: Motion, n: Motion, actions: seq<Action>)
    requires m.rotation == n.rotation && m.pending == n.pending
    ensures ApplyActions(tileMap, trig, beta, m, actions).pending == ApplyActions(other, trig, beta, n, actions).pending
    ensures ApplyActions(tileMap, trig, beta, m, actions).rotation == ApplyActions(other, trig, beta, n, actions).rotation
    decreases |actions|
  {
    if |actions| > 0 {
      PendingIgnoresMap(tileMap, other, trig, beta, m, n, actions[..|actions| - 1]);
    }
  }

  /**
   After any action the position is `new_position` or `new_position` is on a
   wall; from such a state, rotating changes only the rotation, by
   `-ROTATION_CHANGE` or `+ROTATION_CHANGE`, and pausing changes nothing.
   */
  lemma TurnsLeavePosition(tileMap: TileMap, trig: real -> Vec2, beta: real, m: Motion, action: Action)
    requires action == RotateLeft || action == RotateRight || action == PauseGame
    requires m.position == m.pending || !OnEmptyTile(tileMap, m.pending)
    ensures var m' := ApplyAction(tileMap, trig, beta, m, action);
      && m'.position == m.position
      && m'.pending == m.pending
      && m'.rotation == match action
           case RotateLeft => m.rotation - ROTATION_CHANGE
           case RotateRight => m.rotation + ROTATION_CHANGE
           case _ => m.rotation
  {
  }

  /** After every action of the loop, `position == new_position` or `new_position` is on a wall. */
  lemma {:induction false} PendingOrBlocked(tileMap: TileMap, trig: real -> Vec2, beta: real, m: Motion, actions: seq<Action>)
    requires m.position == m.pending
    ensures var m' := ApplyActions(tileMap, trig, beta, m, actions);
      m'.position == m'.pending || !OnEmptyTile(tileMap, m'.pending)
  {
  }

  /**
   The rotation actions as the loop runs them: starting with `new_position`
   at the position, after any actions a rotate or pause action leaves the
   position and `new_position` as they are and changes only the rotation.
   */
  lemma TurnAfterActions(tileMap: TileMap, trig: real -> Vec2, beta: real, m: Motion, actions: seq<Action>, action: Action)
    requires m.position == m.pending
    requires action == RotateLeft || action == RotateRight || action == PauseGame
    ensures var before := ApplyActions(tileMap, trig, beta, m, actions);
      var after := ApplyActions(tileMap, trig, beta, m, actions + [action]);
      && after.position == before.position
      && after.pending == before.pending
      && after.rotation == match action
           case RotateLeft => before.rotation - ROTATION_CHANGE
           case RotateRight => before.rotation + ROTATION_CHANGE
           case _ => before.rotation
  {
    assert (actions + [action])[..|actions|] == actions;
    PendingOrBlocked(tileMap, trig, beta, m, actions);
    TurnsLeavePosition(tileMap, trig, beta, ApplyActions(tileMap, trig, beta, m, actions), action);
  }

  /**
   The movement part of `handle_player_input` over the frame's actions:
   `new_position` starts at the position, and after every action the player
   moves to it when its tile is empty.
   */
  method HandlePlayerInput(player: Player, tileMap: TileMap, actions: seq<Action>, trig: real -> Vec2, fullTurn: real)
    modifies player
    ensures var m := ApplyActions(tileMap, trig, fullTurn - old(player.rotation),
                                  Motion(old(player.position), old(player.rotation), old(player.position)), actions);
      player.position == m.position && player.rotation == m.rotation
    ensures player.fov == old(player.fov)
    ensures OnEmptyTile(tileMap, old(player.position)) ==> OnEmptyTile(tileMap, player.position)
  {
    ghost var start := Motion(player.position, player.rotation, player.position);
    var newPosition := player.position;
    var betaAngle := fullTurn - player.rotation;

    for i := 0 to |actions|
      invariant player.fov == old(player.fov)
      invariant Motion(player.position, player.rotation, newPosition) == ApplyActions(tileMap, trig, betaAngle, start, actions[..i])
    {
      ghost var before := Motion(player.position, player.rotation, newPosition);
      match actions[i] {
        case MoveStraight =>
          newPosition := newPosition.(y := newPosition.y + trig(player.rotation).y * POSITION_CHANGE);
          newPosition := newPosition.(x := newPosition.x + trig(player.rotation).x * POSITION_CHANGE);
        case MoveBack =>
          newPosition := newPosition.(y := newPosition.y - trig(player.rotation).y * POSITION_CHANGE);
          newPosition := newPosition.(x := newPosition.x - trig(player.rotation).x * POSITION_CHANGE);
        case MoveRight =>
          newPosition := newPosition.(x := newPosition.x + trig(betaAngle).y * POSITION_CHANGE);
          newPosition := newPosition.(y := newPosition.y + trig(betaAngle).x * POSITION_CHANGE);
        case MoveLeft =>
          newPosition := newPosition.(x := newPosition.x - trig(betaAngle).y * POSITION_CHANGE);
          newPosition := newPosition.(y := newPosition.y - trig(betaAngle).x * POSITION_CHANGE);
        case RotateLeft =>
          player.rotation := player.rotation - ROTATION_CHANGE;
        case RotateRight =>
          player.rotation := player.rotation + ROTATION_CHANGE;
        case _ =>
      }
      assert newPosition == Moved(trig, betaAngle, before.rotation, before.pending, actions[i]);
      assert player.rotation == Turned(before.rotation, actions[i]);

      if tileMap.IsTileEmpty(AsUsize(newPosition.y), AsUsize(newPosition.x)) {
        player.position := newPosition;
      }
      assert actions[..i + 1][..i] == actions[..i];
    }
    assert actions[..|actions|] == actions;
    if OnEmptyTile(tileMap, start.position) {
      PositionStaysEmpty(tileMap, trig, betaAngle, start, actions);
    }
  }
}
