/**
 * The widget (class `GameSounds` of src/scripts/h5p-editor-game-sounds.js):
 * it offers the catalogue's sounds in a select control, derives the media
 * object of the selected sound, previews it through one audio element at a
 * time, and answers the host editor's lifecycle calls.
 *
 * `trigger('hasMedia', b)` appends `b` to `events`. The audio element is the
 * record `audio`; the events it raises (`ended`, `error`, a rejected `play()`
 * promise, playback progress) are methods. The `change` listener of the select
 * control runs `updateSelectedSound`; an exception thrown there is reported by
 * the browser's event dispatch and does not reach the caller, which the
 * methods below reflect by leaving the state as it was.
 */
module GameSounds {
  import opened Wrappers
  import opened DataUrl
  import opened Catalogue
  import Translations
  import opened MediaSelect
  import opened AudioButtonComponent

  const FilenamePrefix: string := "game-sound"

  /** The `onended` reaction: the click handler's callback releases the button. */
  datatype EndedCallback = NoCallback | ReleaseButton

  /** The `Audio` element the widget holds. */
  datatype Audio = Audio(id: string, paused: bool, currentTime: real, onEnded: EndedCallback)

  /**
   * What selecting `id` makes of the media object: the first entry with that
   * id converted, and `None` when there is no such entry or its conversion
   * throws. This is `Catalogue.Lookup` followed by `DataUrl.MediaOf`
   * (`DeriveLookup` proves the two equal), written as a search so that the
   * class's contracts do not unfold the conversion of every entry.
   */
  function Derive(catalogue: seq<Entry>, id: string): Option<Media>
    decreases |catalogue|, 1
  {
    if catalogue == [] then None else DeriveFrom(catalogue, id)
  }

  /** `Derive` on a non-empty catalogue: the first entry converted if it has `id`, else the search goes on. */
  function DeriveFrom(catalogue: seq<Entry>, id: string): Option<Media>
    requires catalogue != []
    decreases |catalogue|, 0
  {
    if catalogue[0].id != id then Derive(catalogue[1..], id)
    else
      match MediaOf(catalogue[0].dataUrl, FilenamePrefix)
      case Success(m) => Some(m)
      case Failure(_) => None
  }

  /** The media object is the conversion of the data URL the id looks up, when that lookup succeeds and the conversion does not throw. */
  lemma {:induction false} DeriveLookup(catalogue: seq<Entry>, id: string)
    ensures Derive(catalogue, id) ==
      match Lookup(catalogue, id)
      case None => None
      case Some(url) => if MediaOf(url, FilenamePrefix).Success? then Some(MediaOf(url, FilenamePrefix).value) else None
    decreases |catalogue|
  {
    if catalogue != [] && catalogue[0].id != id {
      DeriveLookup(catalogue[1..], id);
    }
  }

  /** The element after `stopAudio`: a playing one is paused and rewound, a paused one is left as it is. */
  function Stopped(a: Audio): (b: Audio)
    ensures b.paused && b.id == a.id && b.onEnded == a.onEnded
    ensures a.paused ==> b == a
    ensures !a.paused ==> b.currentTime == 0.0
  {
    if a.paused then a else a.(paused := true, currentTime := 0.0)
  }

  /** An element that is playing: present and not paused. */
  predicate Playing(audio: Option<Audio>) {
    audio.Some? && !audio.value.paused
  }

  class GameSounds {
    /** `MEDIA_FILE_MAP`. */
    const catalogue: seq<Entry>
    /** The nested translations handed to the dictionary. */
    const translations: map<string, Translations.Tree>
    const mediaSelect: Select
    /** Built only when the select has options. */
    const audioButton: AudioButton?
    /** `this.medium`; `None` before the first derivation and after `reset` deletes it. */
    var medium: Option<Media>
    /** `this.audio`. */
    var audio: Option<Audio>
    /** Every `trigger('hasMedia', b)`, in order. */
    var events: seq<bool>
    /** The id `medium` was derived from. */
    ghost var mediumId: string
    /** Whether the visibility callback has run. */
    var activated: bool
    /** The elements `this.audio` held before being replaced. */
    ghost var retired: seq<Audio>

    ghost predicate Valid()
      reads this, mediaSelect, audioButton
    {
      && DistinctIds(catalogue)
      && mediaSelect.Valid() && mediaSelect.options == SelectOptions(catalogue)
      && (audioButton != null <==> |catalogue| > 0)
      && (audioButton != null ==> audioButton.Valid())
      && (medium.Some? ==> medium == Derive(catalogue, mediumId))
      && (audio.Some? ==> Lookup(catalogue, audio.value.id).Some?)
      && (audio.Some? && audio.value.onEnded == ReleaseButton ==> audioButton != null)
      && (forall k :: 0 <= k < |retired| ==> retired[k].paused)
    }

    /** The value the select currently reports. */
    function SelectedId(): string
      reads this, mediaSelect
      requires mediaSelect.Valid()
    {
      mediaSelect.GetValue()
    }

    /**
     * The constructor: fill the dictionary, build the select with one option
     * per catalogue key and reset it (which derives the first sound), and
     * build the button when there is an option. `dictionary` is the filled
     * dictionary service's `get`.
     */
    constructor (catalogue: seq<Entry>, libraryStrings: Option<seq<(string, string)>>, dictionary: string -> string)
      requires DistinctIds(catalogue)
      requires libraryStrings.Some? ==> Translations.Fillable(map[], libraryStrings.value)
      ensures Valid() && fresh(mediaSelect) && (audioButton != null ==> fresh(audioButton))
      ensures this.catalogue == catalogue
      ensures translations == Translations.Filled(map[], if libraryStrings.Some? then libraryStrings.value else [])
      ensures !activated && audio == None && retired == []
      ensures |catalogue| > 0 ==> mediaSelect.selectedIndex == 0
      ensures medium == (if |catalogue| > 0 then Derive(catalogue, catalogue[0].id) else None)
      ensures events == (if medium.Some? then [true] else [])
      ensures audioButton != null ==> !audioButton.playing
    {
      this.catalogue := catalogue;
      var filled := Translations.FillDictionary(libraryStrings);
      translations := filled;
      mediaSelect := new Select(Some(SelectOptions(catalogue)));
      var button: AudioButton? := null;
      if |catalogue| > 0 {
        button := new AudioButton(Some(dictionary));
      }
      audioButton := button;
      medium := None;
      mediumId := "";
      audio := None;
      events := [];
      activated := false;
      retired := [];
      new;
      var changed := mediaSelect.Reset();
      if changed.Some? {
        var _ := UpdateSelectedSound(changed.value);
      }
    }

    /**
     * `updateSelectedSound(id)`: an id missing from the catalogue changes
     * nothing; otherwise the medium becomes the decoded entry and `hasMedia`
     * is triggered with true. A decoding exception is returned and leaves the
     * state unchanged.
     */
    method UpdateSelectedSound(id: string) returns (thrown: Option<DecodeError>)
      requires Valid()
      modifies this
      ensures Valid()
      ensures audio == old(audio) && activated == old(activated) && retired == old(retired)
      ensures Derive(catalogue, id).Some? ==>
        medium == Derive(catalogue, id) && mediumId == id && events == old(events) + [true]
      ensures Derive(catalogue, id).None? ==>
        medium == old(medium) && mediumId == old(mediumId) && events == old(events)
      ensures thrown.Some? <==> Lookup(catalogue, id).Some? && MediaOf(Lookup(catalogue, id).value, FilenamePrefix).Failure?
      ensures thrown.Some? ==> thrown.value == MediaOf(Lookup(catalogue, id).value, FilenamePrefix).error
    {
      var url := Lookup(catalogue, id);
      DeriveLookup(catalogue, id);
      if url.None? {
        return None;
      }
      var result := DataUrlToMedia(url.value, FilenamePrefix);
      if result.Failure? {
        return Some(result.error);
      }
      medium := Some(result.value);
      mediumId := id;
      events := events + [true];
      thrown := None;
    }

    /** The visibility callback: the first time the widget is visible, derive the selected sound again. */
    method BecomeVisible()
      requires Valid()
      modifies this
      ensures Valid()
      ensures activated && audio == old(audio) && retired == old(retired)
      ensures old(activated) ==> medium == old(medium) && events == old(events)
      ensures !old(activated) && Derive(catalogue, SelectedId()).Some? ==>
        medium == Derive(catalogue, SelectedId()) && events == old(events) + [true]
      ensures !old(activated) && Derive(catalogue, SelectedId()).None? ==>
        medium == old(medium) && events == old(events)
    {
      if activated {
        return;
      }
      activated := true;
      var _ := UpdateSelectedSound(mediaSelect.GetValue());
    }

    /** The user picks option `index` of the select. */
    method ChooseSound(index: nat)
      requires Valid() && index < |catalogue|
      modifies this, mediaSelect
      ensures Valid() && mediaSelect.selectedIndex == index
      ensures audio == old(audio) && activated == old(activated) && retired == old(retired)
      ensures index == old(mediaSelect.selectedIndex) ==> medium == old(medium) && events == old(events)
      ensures index != old(mediaSelect.selectedIndex) && Derive(catalogue, catalogue[index].id).Some? ==>
        medium == Derive(catalogue, catalogue[index].id) && events == old(events) + [true]
      ensures Derive(catalogue, catalogue[index].id).None? ==>
        medium == old(medium) && events == old(events)
    {
      var changed := mediaSelect.Choose(index);
      if changed.Some? {
        var _ := UpdateSelectedSound(changed.value);
      }
    }

    /**
     * `stopAudio()`: nothing to do without an element or when it is paused;
     * otherwise pause it, rewind it and show the button as not playing.
     */
    method StopAudio()
      requires Valid()
      modifies this, audioButton
      ensures Valid()
      ensures medium == old(medium) && events == old(events) && activated == old(activated) && retired == old(retired)
      ensures !Playing(old(audio)) ==> audio == old(audio) && (audioButton != null ==> audioButton.playing == old(audioButton.playing))
      ensures audio == if old(audio).Some? then Some(Stopped(old(audio).value)) else None
      ensures Playing(old(audio)) && audioButton != null ==> !audioButton.playing
    {
      if audio.None? || audio.value.paused {
        return;
      }
      audio := Some(audio.value.(paused := true, currentTime := 0.0));
      if audioButton != null {
        var _ := audioButton.TogglePlaying(Some(false));
      }
    }

    /**
     * `playAudio(id, callback)`: an id missing from the catalogue changes
     * nothing, not even a playing element; otherwise the current element is
     * stopped first, then replaced by a new one that plays from the start.
     */
    method PlayAudio(id: string, callback: EndedCallback)
      requires Valid()
      requires callback == ReleaseButton ==> audioButton != null
      modifies this, audioButton
      ensures Valid()
      ensures medium == old(medium) && events == old(events) && activated == old(activated)
      ensures Lookup(catalogue, id).None? ==>
        audio == old(audio) && retired == old(retired) &&
        (audioButton != null ==> audioButton.playing == old(audioButton.playing))
      ensures Lookup(catalogue, id).Some? ==>
        audio == Some(Audio(id, false, 0.0, callback)) &&
        retired == old(retired) + (if old(audio).Some? then [Stopped(old(audio).value)] else []) &&
        (Playing(old(audio)) && audioButton != null ==> !audioButton.playing) &&
        (!Playing(old(audio)) && audioButton != null ==> audioButton.playing == old(audioButton.playing))
    {
      if Lookup(catalogue, id).None? {
        return;
      }
      StopAudio();
      StartAudio(id, callback);
    }

    /**
     * The second half of `playAudio`: a new element for `id`, with its
     * `ended` reaction, replaces the stopped one and starts playing.
     */
    method StartAudio(id: string, callback: EndedCallback)
      requires Valid() && !Playing(audio) && Lookup(catalogue, id).Some?
      requires callback == ReleaseButton ==> audioButton != null
      modifies this
      ensures Valid()
      ensures medium == old(medium) && events == old(events) && activated == old(activated)
      ensures audio == Some(Audio(id, false, 0.0, callback))
      ensures retired == old(retired) + (if old(audio).Some? then [old(audio).value] else [])
    {
      if audio.Some? {
        retired := retired + [audio.value];
      }
      audio := Some(Audio(id, false, 0.0, callback));
    }

    /** The click handler wired in `buildAudioButton`: show the button as playing, then play the selected sound. */
    method ClickAudioButton()
      requires Valid() && audioButton != null
      modifies this, audioButton
      ensures Valid()
      ensures medium == old(medium) && events == old(events) && activated == old(activated)
      ensures audio == Some(Audio(SelectedId(), false, 0.0, ReleaseButton))
      ensures retired == old(retired) + (if old(audio).Some? then [Stopped(old(audio).value)] else [])
      ensures audioButton.playing == !Playing(old(audio))
    {
      var _ := audioButton.TogglePlaying(Some(true));
      assert Lookup(catalogue, mediaSelect.GetValue()).Some? by {
        OptionsAreKeys(catalogue, mediaSelect.selectedIndex);
      }
      PlayAudio(mediaSelect.GetValue(), ReleaseButton);
    }

    /**
     * The click handler with its two steps swapped: play the selected sound,
     * then show the button as playing, so a click during playback cannot
     * leave the button released while the new sound plays.
     */
    method ClickAudioButtonIntended()
      requires Valid() && audioButton != null
      modifies this, audioButton
      ensures Valid()
      ensures medium == old(medium) && events == old(events) && activated == old(activated)
      ensures audio == Some(Audio(SelectedId(), false, 0.0, ReleaseButton))
      ensures retired == old(retired) + (if old(audio).Some? then [Stopped(old(audio).value)] else [])
      ensures audioButton.playing && Playing(audio)
    {
      assert Lookup(catalogue, mediaSelect.GetValue()).Some? by {
        OptionsAreKeys(catalogue, mediaSelect.selectedIndex);
      }
      PlayAudio(mediaSelect.GetValue(), ReleaseButton);
      var _ := audioButton.TogglePlaying(Some(true));
    }

    /** The element reaches its end: it pauses, and the click handler's callback releases the button. */
    method AudioEnded()
      requires Valid()
      modifies this, audioButton
      ensures Valid()
      ensures medium == old(medium) && events == old(events) && activated == old(activated) && retired == old(retired)
      ensures !Playing(old(audio)) ==> audio == old(audio) && (audioButton != null ==> audioButton.playing == old(audioButton.playing))
      ensures Playing(old(audio)) ==> audio == Some(old(audio).value.(paused := true))
      ensures Playing(old(audio)) && old(audio).value.onEnded == ReleaseButton ==> !audioButton.playing
      ensures Playing(old(audio)) && old(audio).value.onEnded == NoCallback && audioButton != null ==>
        audioButton.playing == old(audioButton.playing)
    {
      if audio.None? || audio.value.paused {
        return;
      }
      var callback := audio.value.onEnded;
      audio := Some(audio.value.(paused := true));
      if callback == ReleaseButton {
        var _ := audioButton.TogglePlaying(Some(false));
      }
    }

    /** The element's `error` event: the button is shown as not playing. */
    method AudioError()
      requires Valid()
      modifies audioButton
      ensures Valid()
      ensures audio.Some? && audioButton != null ==> !audioButton.playing
      ensures audio.None? && audioButton != null ==> audioButton.playing == old(audioButton.playing)
    {
      if audio.Some? && audioButton != null {
        var _ := audioButton.TogglePlaying(Some(false));
      }
    }

    /** `play()` rejected: the element does not play, and the button is shown as not playing. */
    method AudioPlayFailed()
      requires Valid()
      modifies this, audioButton
      ensures Valid()
      ensures medium == old(medium) && events == old(events) && activated == old(activated) && retired == old(retired)
      ensures audio == if old(audio).Some? then Some(old(audio).value.(paused := true)) else None
      ensures old(audio).Some? && audioButton != null ==> !audioButton.playing
      ensures old(audio).None? && audioButton != null ==> audioButton.playing == old(audioButton.playing)
    {
      if audio.None? {
        return;
      }
      audio := Some(audio.value.(paused := true));
      if audioButton != null {
        var _ := audioButton.TogglePlaying(Some(false));
      }
    }

    /** Playback advances the position of a playing element. */
    method AudioProgress(time: real)
      requires Valid() && time >= 0.0
      modifies this
      ensures Valid()
      ensures medium == old(medium) && events == old(events) && activated == old(activated) && retired == old(retired)
      ensures audio == if Playing(old(audio)) then Some(old(audio).value.(currentTime := time)) else old(audio)
    {
      if Playing(audio) {
        audio := Some(audio.value.(currentTime := time));
      }
    }

    /** `hasMedia()`. */
    function HasMedia(): (b: bool)
      reads this
      ensures b <==> medium.Some?
    {
      medium.Some?
    }

    /** `getMedia()`. */
    function GetMedia(): (m: Option<Media>)
      requires Valid()
      reads this, mediaSelect, audioButton
      ensures m.Some? <==> HasMedia()
      ensures m.Some? ==> m == Derive(catalogue, mediumId)
    {
      medium
    }

    /** `pause()` is `stopAudio()`. */
    method Pause()
      requires Valid()
      modifies this, audioButton
      ensures Valid()
      ensures medium == old(medium) && events == old(events) && activated == old(activated) && retired == old(retired)
      ensures !Playing(old(audio)) ==> audio == old(audio) && (audioButton != null ==> audioButton.playing == old(audioButton.playing))
      ensures Playing(old(audio)) ==>
        audio == Some(old(audio).value.(paused := true, currentTime := 0.0)) &&
        (audioButton != null ==> !audioButton.playing)
    {
      StopAudio();
    }

    /**
     * `reset()`: stop playback, delete the medium, trigger `hasMedia` with
     * false, then reset the select, which derives the first sound again.
     */
    method Reset()
      requires Valid()
      modifies this, audioButton, mediaSelect
      ensures Valid()
      ensures activated == old(activated) && retired == old(retired) && !Playing(audio)
      ensures audio == if old(audio).Some? then Some(Stopped(old(audio).value)) else None
      ensures Playing(old(audio)) && audioButton != null ==> !audioButton.playing
      ensures !Playing(old(audio)) && audioButton != null ==> audioButton.playing == old(audioButton.playing)
      ensures |catalogue| > 0 ==> mediaSelect.selectedIndex == 0
      ensures medium == (if |catalogue| > 0 then Derive(catalogue, catalogue[0].id) else None)
      ensures events == old(events) + [false] + (if medium.Some? then [true] else [])
    {
      StopAudio();
      medium := None;
      events := events + [false];
      var changed := mediaSelect.Reset();
      if changed.Some? {
        var _ := UpdateSelectedSound(changed.value);
      }
    }
  }

  /** Every bundled sound derives the media object of its own bytes, named `game-sound.mp3`. */
  lemma BundledDerive(assets: seq<seq<Byte>>, i: nat)
    requires |assets| == |MediaIds| && i < |MediaIds|
    ensures Derive(MediaFileMap(assets), MediaIds[i]) == Some(Media(assets[i], BundledMime, FilenamePrefix + ".mp3"))
  {
    BundledEntriesDecode(assets, i, FilenamePrefix);
    DeriveLookup(MediaFileMap(assets), MediaIds[i]);
  }

  /** Any dictionary: the label lookups of the button are not what these scenarios are about. */
  function AnyDictionary(key: string): string {
    key
  }

  /**
   * A widget constructed and then reset by the host, over any catalogue
   * whose first sound decodes: the log reads true (construction), false then
   * true (reset), and the medium is the first sound again.
   */
  method ConstructThenReset(catalogue: seq<Entry>) returns (hasMedia: bool, log: seq<bool>, media: Option<Media>)
    requires DistinctIds(catalogue) && |catalogue| > 0 && Derive(catalogue, catalogue[0].id).Some?
    ensures hasMedia && log == [true, false, true]
    ensures media == Derive(catalogue, catalogue[0].id)
  {
    var widget := new GameSounds(catalogue, None, AnyDictionary);
    assert widget.events == [true];
    widget.Reset();
    assert widget.events == [true] + [false] + [true];
    hasMedia := widget.HasMedia();
    log := widget.events;
    media := widget.GetMedia();
  }

  /** The same over the bundled catalogue: the medium is the first file, "blip", as `game-sound.mp3`. */
  method ConstructAndReset(assets: seq<seq<Byte>>) returns (hasMedia: bool, log: seq<bool>, media: Option<Media>)
    requires |assets| == |MediaIds|
    ensures hasMedia && log == [true, false, true]
    ensures media == Some(Media(assets[0], BundledMime, FilenamePrefix + ".mp3"))
  {
    var catalogue := MediaFileMap(assets);
    MediaIdsDistinct(assets);
    BundledDerive(assets, 0);
    assert catalogue[0].id == MediaIds[0];
    hasMedia, log, media := ConstructThenReset(catalogue);
  }

  /**
   * Two clicks in a row with the handler as written: the second sound
   * plays, yet the button is shown as not playing, because stopping the
   * first sound releases the button after the handler pressed it.
   */
  method ClickDuringPlayback(assets: seq<seq<Byte>>) returns (soundPlays: bool, buttonPressed: bool)
    requires |assets| == |MediaIds|
    ensures soundPlays && !buttonPressed
  {
    MediaIdsDistinct(assets);
    var widget := new GameSounds(MediaFileMap(assets), None, AnyDictionary);
    widget.ClickAudioButton();
    widget.ClickAudioButton();
    soundPlays := Playing(widget.audio);
    buttonPressed := widget.audioButton.playing;
  }

  /** The same two clicks with the corrected handler: the button is pressed while the sound plays. */
  method ClickDuringPlaybackIntended(assets: seq<seq<Byte>>) returns (soundPlays: bool, buttonPressed: bool)
    requires |assets| == |MediaIds|
    ensures soundPlays && buttonPressed
  {
    MediaIdsDistinct(assets);
    var widget := new GameSounds(MediaFileMap(assets), None, AnyDictionary);
    widget.ClickAudioButtonIntended();
    widget.ClickAudioButtonIntended();
    soundPlays := Playing(widget.audio);
    buttonPressed := widget.audioButton.playing;
  }
}
