/** The Snake game's input system (Games/Snake/Systems/InputSystem.cpp,
    Games/Snake/Systems/InputSystem.h): key-down events steer the head and
    move the game between its screens.

    The system finds the head and the game state through the entity
    manager. Here the caller passes in what those lookups return (`null`
    for an entity without that component); the system's stored entity ids
    still decide whether a lookup happens at all. */
module SnakeInputSystem {
  import opened Identity
  import opened KeyStates
  import opened SnakeHeadComponent
  import opened GameStateComponent

  /** SDL3 key codes. */
  const SDLK_ESCAPE: Keycode := 0x1b
  const SDLK_SPACE: Keycode := 0x20
  const SDLK_A: Keycode := 0x61
  const SDLK_D: Keycode := 0x64
  const SDLK_Q: Keycode := 0x71
  const SDLK_R: Keycode := 0x72
  const SDLK_S: Keycode := 0x73
  const SDLK_W: Keycode := 0x77
  const SDLK_RIGHT: Keycode := 0x4000_004f
  const SDLK_LEFT: Keycode := 0x4000_0050
  const SDLK_DOWN: Keycode := 0x4000_0051
  const SDLK_UP: Keycode := 0x4000_0052

  /** Arrows and WASD; every other key means `Right`. */
  function GetDirectionFromKey(key: Keycode): (d: Direction)
    ensures d != Right ==> key == ArrowKey(d) || key == LetterKey(d)
  {
    if key == SDLK_UP || key == SDLK_W then Up
    else if key == SDLK_DOWN || key == SDLK_S then Down
    else if key == SDLK_LEFT || key == SDLK_A then Left
    else Right
  }

  function ArrowKey(d: Direction): Keycode
  {
    match d
    case Up => SDLK_UP
    case Down => SDLK_DOWN
    case Left => SDLK_LEFT
    case Right => SDLK_RIGHT
  }

  function LetterKey(d: Direction): Keycode
  {
    match d
    case Up => SDLK_W
    case Down => SDLK_S
    case Left => SDLK_A
    case Right => SDLK_D
  }

  /** Each direction has an arrow and a letter key, and both map back to it. */
  lemma DirectionKeysRoundTrip(d: Direction)
    ensures GetDirectionFromKey(ArrowKey(d)) == d
    ensures GetDirectionFromKey(LetterKey(d)) == d
    ensures ArrowKey(d) != LetterKey(d)
  {
  }

  /** A key that is neither an arrow nor WASD steers right, the control
      keys included. */
  lemma OtherKeysSteerRight(key: Keycode)
    requires forall d: Direction :: key != ArrowKey(d) && key != LetterKey(d)
    ensures GetDirectionFromKey(key) == Right
  {
    assert key != ArrowKey(Up) && key != LetterKey(Up);
    assert key != ArrowKey(Down) && key != LetterKey(Down);
    assert key != ArrowKey(Left) && key != LetterKey(Left);
  }

  /** The screen after the controls handle `key`: SPACE starts from the menu
      and toggles pause, R restarts after a game over, Q quits to the menu
      from a pause or a game over; anything else leaves the screen. */
  function ControlTransition(s: Screen, key: Keycode): (r: Screen)
    ensures r != s ==> key == SDLK_SPACE || key == SDLK_R || key == SDLK_Q
    ensures s == Playing && r != s ==> key == SDLK_SPACE && r == Paused
  {
    if key == SDLK_SPACE then
      match s
      case Menu => Playing
      case Playing => Paused
      case Paused => Playing
      case GameOver => GameOver
    else if key == SDLK_R then
      if s == GameOver then Playing else s
    else if key == SDLK_Q then
      if s == GameOver || s == Paused then Menu else s
    else s
  }

  /** SPACE twice returns to the same screen while playing or paused. */
  lemma SpaceTogglesPause(s: Screen)
    requires s == Playing || s == Paused
    ensures ControlTransition(ControlTransition(s, SDLK_SPACE), SDLK_SPACE) == s
  {
  }

  /** A game over is left only by R (to play) or Q (to the menu). */
  lemma GameOverExits(key: Keycode)
    ensures ControlTransition(GameOver, key) != GameOver <==> key == SDLK_R || key == SDLK_Q
    ensures key == SDLK_R ==> ControlTransition(GameOver, key) == Playing
    ensures key == SDLK_Q ==> ControlTransition(GameOver, key) == Menu
  {
  }

  /** The menu is left only by SPACE, and only for play. */
  lemma MenuExits(key: Keycode)
    ensures ControlTransition(Menu, key) != Menu <==> key == SDLK_SPACE
    ensures ControlTransition(Menu, key) in {Menu, Playing}
  {
  }

  /** Q never starts play, and no key leads into a game over. */
  lemma NoKeyEndsTheGame(s: Screen, key: Keycode)
    ensures ControlTransition(s, key) == GameOver ==> s == GameOver
    ensures key == SDLK_Q ==> ControlTransition(s, key) != Playing || s == Playing
  {
  }

  /** The head's next direction after a movement key: the requested one,
      unless it is the current direction (no call is made, so a pending
      turn stays) or its reverse (ignored). */
  function Steered(current: Direction, next: Direction, requested: Direction): (r: Direction)
    ensures r == next || r == requested
    ensures next != Opposite(current) ==> r != Opposite(current)
  {
    if requested != current && requested != Opposite(current) then requested else next
  }

  /** A pending turn is not cancelled by asking for the current direction. */
  lemma PendingTurnKept(current: Direction, next: Direction)
    ensures Steered(current, next, current) == next
  {
  }

  class InputSystem {
    /** `GetName`. */
    const name: string
    var enabled: bool
    var snakeHeadEntity: Entity
    var gameStateEntity: Entity

    constructor ()
      ensures name == "InputSystem" && enabled
      ensures snakeHeadEntity == INVALID_ENTITY && gameStateEntity == INVALID_ENTITY
    {
      name := "InputSystem";
      enabled := true;
      snakeHeadEntity, gameStateEntity := INVALID_ENTITY, INVALID_ENTITY;
    }

    method SetSnakeHeadEntity(e: Entity)
      modifies this
      ensures snakeHeadEntity == e && gameStateEntity == old(gameStateEntity) && enabled == old(enabled)
    {
      snakeHeadEntity := e;
    }

    method SetGameStateEntity(e: Entity)
      modifies this
      ensures gameStateEntity == e && snakeHeadEntity == old(snakeHeadEntity) && enabled == old(enabled)
    {
      gameStateEntity := e;
    }

    /** What the head lookup yields: no lookup for the invalid id. */
    function Head(headLookup: SnakeHead?): (h: SnakeHead?)
      reads this
      ensures h != null <==> snakeHeadEntity != INVALID_ENTITY && headLookup != null
      ensures h != null ==> h == headLookup
    {
      if snakeHeadEntity == INVALID_ENTITY then null else headLookup
    }

    function State(stateLookup: GameState?): (g: GameState?)
      reads this
      ensures g != null <==> gameStateEntity != INVALID_ENTITY && stateLookup != null
      ensures g != null ==> g == stateLookup
    {
      if gameStateEntity == INVALID_ENTITY then null else stateLookup
    }

    /** Only key-down events do anything: first the head is steered, on the
        screen as it was, then the controls act. Any other event changes
        neither component. */
    method ProcessEvent(ev: Event, headLookup: SnakeHead?, stateLookup: GameState?)
      modifies headLookup, stateLookup
      ensures !ev.KeyDown? ==>
        (headLookup != null ==> unchanged(headLookup)) && (stateLookup != null ==> unchanged(stateLookup))
      ensures headLookup != null ==>
        headLookup.currentDirection == old(headLookup.currentDirection) &&
        headLookup.moveTimer == old(headLookup.moveTimer) &&
        headLookup.moveInterval == old(headLookup.moveInterval) &&
        headLookup.segmentsToAdd == old(headLookup.segmentsToAdd)
      ensures ev.KeyDown? && Head(headLookup) != null ==>
        var head := Head(headLookup);
        var free := State(stateLookup) == null || old(State(stateLookup).currentState) == Playing;
        head.nextDirection ==
          (if free then Steered(old(head.currentDirection), old(head.nextDirection), GetDirectionFromKey(ev.key))
           else old(head.nextDirection))
      ensures ev.KeyDown? && State(stateLookup) != null ==>
        var state := State(stateLookup);
        var restart := ev.key == SDLK_R && old(state.currentState) == GameOver;
        state.currentState == ControlTransition(old(state.currentState), ev.key) &&
        state.highScore == old(state.highScore) &&
        (restart ==> state.score == 0 && state.level == 1 && !state.isNewHighScore) &&
        (!restart ==> state.score == old(state.score) && state.level == old(state.level) &&
                      state.isNewHighScore == old(state.isNewHighScore))
      ensures headLookup != null && Head(headLookup) == null ==> unchanged(headLookup)
      ensures stateLookup != null && State(stateLookup) == null ==> unchanged(stateLookup)
    {
      if ev.KeyDown? {
        HandleSnakeMovement(ev.key, headLookup, stateLookup);
        HandleGameControls(ev.key, stateLookup);
      }
    }

    /** Steers the head, unless there is none or a game state says the game
        is not being played. Only the next direction can change. */
    method HandleSnakeMovement(key: Keycode, headLookup: SnakeHead?, stateLookup: GameState?)
      modifies headLookup
      ensures headLookup != null ==>
        headLookup.currentDirection == old(headLookup.currentDirection) &&
        headLookup.moveTimer == old(headLookup.moveTimer) &&
        headLookup.moveInterval == old(headLookup.moveInterval) &&
        headLookup.segmentsToAdd == old(headLookup.segmentsToAdd)
      ensures Head(headLookup) == null && headLookup != null ==> unchanged(headLookup)
      ensures Head(headLookup) != null ==>
        var head := Head(headLookup);
        var free := State(stateLookup) == null || State(stateLookup).currentState == Playing;
        head.nextDirection ==
          (if free then Steered(old(head.currentDirection), old(head.nextDirection), GetDirectionFromKey(key))
           else old(head.nextDirection))
    {
      var snakeHead := Head(headLookup);
      if snakeHead == null {
        return;
      }
      var gameState := State(stateLookup);
      if gameState != null && gameState.currentState != Playing {
        return;
      }
      var newDirection := GetDirectionFromKey(key);
      if newDirection != snakeHead.currentDirection {
        snakeHead.SetDirection(newDirection);
      }
    }

    /** The screen changes as `ControlTransition` says; R after a game over
        also restarts the counters. The high score is never touched. */
    method HandleGameControls(key: Keycode, stateLookup: GameState?)
      modifies stateLookup
      ensures stateLookup != null && State(stateLookup) == null ==> unchanged(stateLookup)
      ensures State(stateLookup) != null ==>
        var state := State(stateLookup);
        var restart := key == SDLK_R && old(state.currentState) == GameOver;
        state.currentState == ControlTransition(old(state.currentState), key) &&
        state.highScore == old(state.highScore) &&
        (restart ==> state.score == 0 && state.level == 1 && !state.isNewHighScore) &&
        (!restart ==> state.score == old(state.score) && state.level == old(state.level) &&
                      state.isNewHighScore == old(state.isNewHighScore))
    {
      var gameState := State(stateLookup);
      if gameState == null {
        return;
      }
      if key == SDLK_SPACE {
        if gameState.currentState == Menu {
          gameState.currentState := Playing;
        } else if gameState.currentState == Playing {
          gameState.currentState := Paused;
        } else if gameState.currentState == Paused {
          gameState.currentState := Playing;
        }
      } else if key == SDLK_R {
        if gameState.currentState == GameOver {
          gameState.ResetGame();
        }
      } else if key == SDLK_Q {
        if gameState.currentState == GameOver || gameState.currentState == Paused {
          gameState.currentState := Menu;
        }
      }
    }

    /** `Update` returns at once when disabled and otherwise does nothing. */
    method Update()
    {
    }
  }

  /** A new system bound to a head facing up and a game being played. */
  method Bound() returns (system: InputSystem, head: SnakeHead, state: GameState)
    ensures fresh(system) && fresh(head) && fresh(state)
    ensures system.snakeHeadEntity == 1 && system.gameStateEntity == 2
    ensures head.currentDirection == Up && head.nextDirection == Up && head.Valid()
    ensures state.currentState == Playing && state.Valid() && state.score == 0 && state.highScore == 0
  {
    system := new InputSystem();
    system.SetSnakeHeadEntity(1);
    system.SetGameStateEntity(2);
    head := new SnakeHead(Up, 0.2);
    state := new GameState();
  }

  /** SPACE while playing pauses, and, handled first as a movement key,
      also turns the head right. */
  method SpaceWhilePlaying() returns (next: Direction, screen: Screen)
    ensures next == Right && screen == Paused
  {
    var system, head, state := Bound();
    system.ProcessEvent(KeyDown(SDLK_SPACE, false), head, state);
    next, screen := head.nextDirection, state.currentState;
  }

  /** While paused an arrow key does not steer; SPACE then resumes. */
  method PausedIgnoresArrows() returns (next: Direction, screen: Screen)
    ensures next == Up && screen == Playing
  {
    var system, head, state := Bound();
    state.currentState := Paused;
    system.ProcessEvent(KeyDown(SDLK_LEFT, false), head, state);
    system.ProcessEvent(KeyDown(SDLK_SPACE, false), head, state);
    next, screen := head.nextDirection, state.currentState;
  }

  /** Pressing down while facing up is ignored; pressing W keeps a pending
      turn to the left. */
  method ReversalAndPendingTurn() returns (afterDown: Direction, afterW: Direction)
    ensures afterDown == Up && afterW == Left
  {
    var system, head, state := Bound();
    system.ProcessEvent(KeyDown(SDLK_DOWN, false), head, state);
    afterDown := head.nextDirection;
    system.ProcessEvent(KeyDown(SDLK_A, false), head, state);
    system.ProcessEvent(KeyDown(SDLK_W, false), head, state);
    afterW := head.nextDirection;
  }

  /** R after a game over restarts play with no score and the high score
      kept; before the game over it did nothing. */
  method RestartAfterGameOver() returns (screenBefore: Screen, screen: Screen, score: int, high: int)
    ensures screenBefore == Playing && screen == Playing && score == 0 && high == 30
  {
    var system, head, state := Bound();
    state.AddScore(30);
    system.ProcessEvent(KeyDown(SDLK_R, false), head, state);
    screenBefore := state.currentState;
    state.currentState := GameOver;
    system.ProcessEvent(KeyDown(SDLK_R, false), head, state);
    screen, score, high := state.currentState, state.score, state.highScore;
  }

  /** Without a bound game state the head is always steerable. */
  method NoGameStateSteersAlways() returns (next: Direction)
    ensures next == Left
  {
    var system := new InputSystem();
    system.SetSnakeHeadEntity(1);
    var head := new SnakeHead(Up, 0.2);
    var state := new GameState();
    state.currentState := Paused;
    system.ProcessEvent(KeyDown(SDLK_LEFT, false), head, state);
    next := head.nextDirection;
  }
}
