/**
 * The voice broadcast playback control: the playback state chooses the icon
 * (through a constant lookup table) and the accessibility label of the button.
 */
module PlaybackControlButton {
  import opened Wrappers

  /** The UI-local playback state of a voice broadcast. */
  datatype PlaybackState = Playing | Paused | Stopped

  /** The icons the button shows. */
  datatype IconType = Play | Pause

  const PauseLabel: string := "pause voice broadcast"
  const ResumeLabel: string := "resume voice broadcast"

  /** `stateIconMap`: Playing shows Pause, Paused and Stopped show Play. */
  const StateIconMap: map<PlaybackState, IconType> := map[Playing := Pause, Paused := Play, Stopped := Play]

  /** `stateIconMap.get(state)`: the icon for a state; `None` would be a state missing from the table. */
  function StateIcon(state: PlaybackState): (icon: Option<IconType>)
    ensures icon.Some?
    ensures icon == Some(Pause) <==> state == Playing
    ensures icon == Some(Play) <==> state != Playing
  {
    StateIconMapIsTotal();
    if state in StateIconMap then Some(StateIconMap[state]) else None
  }

  /** The button's `aria-label`. */
  function AriaLabel(state: PlaybackState): (shown: string)
    ensures shown == PauseLabel <==> state == Playing
    ensures shown == ResumeLabel <==> state != Playing
  {
    if state == Playing then PauseLabel else ResumeLabel
  }

  /** What the button renders: its label and its icon. */
  datatype ButtonView = ButtonView(ariaLabel: string, icon: Option<IconType>)

  function Render(state: PlaybackState): (view: ButtonView)
    ensures view.icon.Some?
    ensures view.icon == Some(Pause) <==> state == Playing
    ensures view.icon == Some(Pause) <==> view.ariaLabel == PauseLabel
    ensures view.ariaLabel == PauseLabel || view.ariaLabel == ResumeLabel
  {
    ButtonView(AriaLabel(state), StateIcon(state))
  }

  /** Every playback state has an entry in the icon table. */
  lemma StateIconMapIsTotal()
    ensures forall state: PlaybackState :: state in StateIconMap
  {
    forall state: PlaybackState ensures state in StateIconMap {
      match state
      case Playing => assert StateIconMap[Playing] == Pause;
      case Paused => assert StateIconMap[Paused] == Play;
      case Stopped => assert StateIconMap[Stopped] == Play;
    }
  }

  /** Icon and label agree: the icon is Pause exactly when the label is the pause label. */
  lemma IconAgreesWithLabel(state: PlaybackState)
    ensures StateIcon(state) == Some(Pause) <==> AriaLabel(state) == PauseLabel
  {
  }

  /** A paused and a stopped broadcast render the same button. */
  lemma PausedAndStoppedRenderAlike()
    ensures Render(Paused) == Render(Stopped)
    ensures Render(Paused) == ButtonView(ResumeLabel, Some(Play))
  {
  }
}
