/** The Snake game's state component (Games/Snake/Components/GameState.h):
    the screen the game is on and the score, high-score and level
    counters. */
module GameStateComponent {

  /** C++ `int`; overflowing it is undefined, so the operations that add
      require the sum to fit. */
  const INT32_MIN: int := -0x8000_0000
  const INT32_MAX: int := 0x7fff_ffff
  type Int32 = x: int | INT32_MIN <= x <= INT32_MAX

  /** `GameLogicSystem::SCORE_PER_LEVEL`. */
  const SCORE_PER_LEVEL: int := 50

  datatype Screen = Menu | Playing | Paused | GameOver

  /** `GetStateString`: the enumerator's name. */
  function StateName(s: Screen): (r: string)
    ensures r != "UNKNOWN" && r != ""
  {
    match s
    case Menu => "MENU"
    case Playing => "PLAYING"
    case Paused => "PAUSED"
    case GameOver => "GAME_OVER"
  }

  /** Distinct screens have distinct names, none of them the fallback. */
  lemma StateNamesDistinct(s: Screen, t: Screen)
    ensures s != t ==> StateName(s) != StateName(t)
    ensures StateName(s) != "UNKNOWN"
  {
    assert StateName(s)[0] != StateName(t)[0] || |StateName(s)| != |StateName(t)| || s == t;
  }

  class GameState {
    var currentState: Screen
    var score: Int32
    var highScore: Int32
    var level: Int32
    var isNewHighScore: bool

    /** The high score is never below zero or below the score. */
    ghost predicate Valid()
      reads this
    {
      0 <= highScore && score <= highScore
    }

    constructor ()
      ensures Valid()
      ensures currentState == Playing && score == 0 && highScore == 0 && level == 1 && !isNewHighScore
    {
      currentState := Playing;
      score, highScore, level := 0, 0, 1;
      isNewHighScore := false;
    }

    /** The copy made by `Clone`. */
    method Clone() returns (c: GameState)
      ensures fresh(c)
      ensures c.currentState == currentState && c.score == score && c.highScore == highScore
      ensures c.level == level && c.isNewHighScore == isNewHighScore
    {
      c := new GameState();
      c.currentState, c.score, c.highScore := currentState, score, highScore;
      c.level, c.isNewHighScore := level, isNewHighScore;
    }

    /** The score moves by `points`; beating the high score raises it to the
        score and sets the flag, which is otherwise left as it was. */
    method AddScore(points: Int32)
      requires INT32_MIN <= score + points <= INT32_MAX
      modifies this
      ensures old(Valid()) ==> Valid()
      ensures score == old(score) + points
      ensures highScore >= old(highScore) && highScore >= score
      ensures score > old(highScore) ==> highScore == score && isNewHighScore
      ensures score <= old(highScore) ==> highScore == old(highScore) && isNewHighScore == old(isNewHighScore)
      ensures currentState == old(currentState) && level == old(level)
    {
      score := score + points;
      if score > highScore {
        highScore := score;
        isNewHighScore := true;
      }
    }

    /** Back to the first level with no score, playing; the high score stays. */
    method ResetGame()
      modifies this
      ensures old(Valid()) ==> Valid()
      ensures score == 0 && level == 1 && !isNewHighScore && currentState == Playing
      ensures highScore == old(highScore)
    {
      score := 0;
      level := 1;
      isNewHighScore := false;
      currentState := Playing;
    }

    method NextLevel()
      requires level < INT32_MAX
      modifies this
      ensures level == old(level) + 1
      ensures score == old(score) && highScore == old(highScore)
      ensures currentState == old(currentState) && isNewHighScore == old(isNewHighScore)
    {
      level := level + 1;
    }

    /** The current screen's name, which names no other screen. */
    function GetStateString(): (r: string)
      reads this
      ensures r != "UNKNOWN"
      ensures forall s :: StateName(s) == r ==> s == currentState
    {
      assert forall s :: StateName(s) == StateName(currentState) ==> s == currentState by {
        forall s ensures StateName(s) == StateName(currentState) ==> s == currentState {
          StateNamesDistinct(s, currentState);
        }
      }
      StateName(currentState)
    }
  }

  /** `GameLogicSystem::CheckLevelProgression`, integer part: a level is
      gained once the score reaches `level * SCORE_PER_LEVEL`. */
  method CheckLevelProgression(gameState: GameState?)
    requires gameState != null ==> INT32_MIN <= gameState.level * SCORE_PER_LEVEL <= INT32_MAX
    requires gameState != null ==> gameState.level < INT32_MAX
    modifies gameState
    ensures gameState != null ==>
      gameState.level == old(gameState.level) + (if old(gameState.score) >= old(gameState.level) * SCORE_PER_LEVEL then 1 else 0)
    ensures gameState != null ==> gameState.score == old(gameState.score) && gameState.highScore == old(gameState.highScore)
    ensures gameState != null ==>
      gameState.currentState == old(gameState.currentState) && gameState.isNewHighScore == old(gameState.isNewHighScore)
  {
    if gameState == null {
      return;
    }
    var targetScore := gameState.level * SCORE_PER_LEVEL;
    if gameState.score >= targetScore {
      gameState.NextLevel();
    }
  }

  /** A high score survives a restart, and the score beating it again
      raises it and sets the flag once more. */
  method HighScoreSurvivesReset() returns (high: int, flagAfterReset: bool, high2: int, flag2: bool)
    ensures high == 30 && !flagAfterReset && high2 == 40 && flag2
  {
    var gs := new GameState();
    gs.AddScore(10);
    gs.AddScore(20);
    gs.ResetGame();
    high, flagAfterReset := gs.highScore, gs.isNewHighScore;
    gs.AddScore(40);
    high2, flag2 := gs.highScore, gs.isNewHighScore;
  }
}
