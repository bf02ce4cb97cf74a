/**
 * The player's control bar
 * (src/components/Player/components/PlayerController/index.tsx): what the
 * central button does and shows for each player status, and the two skip
 * buttons, which do nothing.
 */
module PlayerController {
  import opened Wrappers

  /** The player's status. */
  datatype PlayerStatus = PLAYING | PAUSED | ENDED

  /** The player call one click makes. */
  datatype Action = Pause | Restart | Resume

  /** The icon on the central button. */
  datatype Icon = PlayIcon | PauseIcon

  /** A click on the central button: pause while playing, restart once ended, resume otherwise. */
  function MainButtonClick(playerStatus: PlayerStatus): (a: Action)
    ensures a == Pause <==> playerStatus == PLAYING
    ensures a == Restart <==> playerStatus == ENDED
    ensures a == Resume <==> playerStatus == PAUSED
  {
    match playerStatus
    case PLAYING => Pause
    case ENDED => Restart
    case PAUSED => Resume
  }

  /** The central button shows the play icon only while paused. */
  function MainButtonIcon(playerStatus: PlayerStatus): (i: Icon)
    ensures i == PlayIcon <==> playerStatus == PAUSED
    ensures i == PauseIcon <==> playerStatus == PLAYING || playerStatus == ENDED
  {
    if playerStatus.PAUSED? then PlayIcon else PauseIcon
  }

  /** The previous and next buttons have empty click handlers: no player call. */
  function SkipButtonClick(playerStatus: PlayerStatus): (a: Option<Action>)
    ensures a.None?
  {
    None
  }

  /**
   * The icon announces the click only while paused: the play icon goes
   * with resume, and the pause icon goes with pause or, once ended, with
   * restart.
   */
  lemma IconMatchesClick(playerStatus: PlayerStatus)
    ensures MainButtonIcon(playerStatus) == PlayIcon <==> MainButtonClick(playerStatus) == Resume
    ensures MainButtonIcon(playerStatus) == PauseIcon
            <==> MainButtonClick(playerStatus) == Pause || MainButtonClick(playerStatus) == Restart
  {
  }
}
