/**
 * The play/pause toggle (src/scripts/components/audio-button.js). Its state
 * lives on the `<button>`: the `playing` class, `aria-pressed` and
 * `aria-label`. Labels come from the optional dictionary service, whose `get`
 * is taken as a given function (an empty string is its only falsy result).
 * The click listener only forwards to `onClicked`, which belongs to the owner
 * (a missing one is a no-op); the widget's handler is modelled there.
 */
module AudioButtonComponent {
  import opened Wrappers

  const PauseFallback: string := "Pause audio"
  const PlayFallback: string := "Play audio"

  /** `dictionary?.get(key) || fallback`. */
  function Label(dictionary: Option<string -> string>, key: string, fallback: string): (r: string)
    ensures dictionary.None? ==> r == fallback
    ensures dictionary.Some? ==> r == if dictionary.value(key) != "" then dictionary.value(key) else fallback
    ensures fallback != "" ==> r != ""
  {
    match dictionary
    case None => fallback
    case Some(get) => if get(key) != "" then get(key) else fallback
  }

  /** The accessible label for a state: the pause label while playing, the play label otherwise. */
  function AriaLabel(dictionary: Option<string -> string>, playing: bool): string {
    if playing then Label(dictionary, "a11y.pause", PauseFallback)
    else Label(dictionary, "a11y.play", PlayFallback)
  }

  /** `${newState}` as written into `aria-pressed`. */
  function PressedText(b: bool): string {
    if b then "true" else "false"
  }

  /** A boolean argument forces that state; anything else flips the current one. */
  function NextState(current: bool, target: Option<bool>): bool {
    if target.Some? then target.value else !current
  }

  /** Forcing a state twice is the same as forcing it once. */
  lemma ForceIdempotent(current: bool, b: bool)
    ensures NextState(NextState(current, Some(b)), Some(b)) == NextState(current, Some(b)) == b
  {
  }

  /** Two flips restore the original state. */
  lemma FlipTwice(current: bool)
    ensures NextState(NextState(current, None), None) == current
  {
  }

  /** Without a dictionary, or when it has nothing for the key, the hard-coded labels are shown. */
  lemma LabelFallbacks(dictionary: Option<string -> string>)
    requires dictionary.Some? ==> dictionary.value("a11y.pause") == "" && dictionary.value("a11y.play") == ""
    ensures AriaLabel(dictionary, true) == "Pause audio"
    ensures AriaLabel(dictionary, false) == "Play audio"
  {
  }

  class AudioButton {
    /** `params.dictionary` as copied by `extend({}, params)`. */
    const dictionary: Option<string -> string>
    /** Whether the `playing` class is set. */
    var playing: bool
    var ariaPressed: string
    var ariaLabel: string

    /** The pressed flag and the label agree with the class. */
    ghost predicate Valid()
      reads this
    {
      ariaPressed == PressedText(playing) && ariaLabel == AriaLabel(dictionary, playing)
    }

    /** A new button has no `playing` class; the constructor then calls `togglePlaying(false)`. */
    constructor (dictionary: Option<string -> string>)
      ensures Valid() && !playing && this.dictionary == dictionary
    {
      this.dictionary := dictionary;
      playing := false;
      ariaPressed := "";
      ariaLabel := "";
      new;
      var _ := TogglePlaying(Some(false));
    }

    /** `togglePlaying(targetState)`: sets the class, `aria-pressed` and `aria-label` to the new state and returns it. */
    method TogglePlaying(target: Option<bool>) returns (newState: bool)
      modifies this
      ensures newState == NextState(old(playing), target)
      ensures playing == newState && Valid()
    {
      newState := if target.Some? then target.value else !playing;
      ariaPressed := PressedText(newState);
      playing := newState;
      var pauseLabel := Label(dictionary, "a11y.pause", PauseFallback);
      var playLabel := Label(dictionary, "a11y.play", PlayFallback);
      ariaLabel := if newState then pauseLabel else playLabel;
    }
  }
}
