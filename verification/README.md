# Game sounds editor widget, modelled in Dafny

This project models the H5P editor widget "Game Sounds". The widget offers ten
bundled sound effects in a drop-down list. It derives a media object (bytes,
MIME type, file name) from the selected sound's data URL and tells its host
through `hasMedia` events. It can preview the sound with a play button, and it
answers the host's `hasMedia`, `getMedia`, `pause` and `reset` calls.

Modules, one per concern of the source:

- `Wrappers`: `Option`, `Result` and `Byte`.
- `Base64`: the browser's `atob` (forgiving-base64 decode of the HTML standard, alphabet of section 4 of RFC 4648). Its partner is the padded encoder a bundler uses to inline an asset; `atob` is proved to undo that encoder.
- `PlainObjects`: what an object literal inherits from `Object.prototype`, and a property read that walks the prototype chain.
- `DataUrl`: `dataUrlToMedia`. This covers the comma split, the `:(.*?);` match, the extension lookup on an object literal, `atob`, the byte copy loop and the `type` the `Blob` constructor keeps. Its partner is the inlined `data:<mime>;base64,<payload>` URL.
- `Catalogue`: `MEDIA_FILE_MAP` as a function of the ten asset files, plus the option list `buildMediaSelect` derives from its keys.
- `Translations`: `fillDictionary`. It splits keys on `[./]+` and stores them in a nested object.
- `Util`: `extend`, the jQuery-style deep merge.
- `MediaSelect`: the select control, as a class over its options and selected index.
- `AudioButtonComponent`: the play/pause button, as a class over its class flag and ARIA attributes.
- `GameSounds`: the widget class. It holds the medium, the current audio element, the `hasMedia` event log and the two components, and it has lifecycle and playback methods.

## Model

| member | source | states |
|---|---|---|
| Base64.Atob | src/scripts/h5p-editor-game-sounds.js:205 | `atob` throws exactly when the text left after removing whitespace and padding has length 1 modulo 4 or holds a non-alphabet character; otherwise it returns a binary string |
| Base64.DecodeLength | src/scripts/h5p-editor-game-sounds.js:205 | four digits decode to three bytes; a trailing two or three digits decode to one or two |
| Base64.AtobLength | src/scripts/h5p-editor-game-sounds.js:205-206 | the decoded string, and so the `Uint8Array`, has three characters per four digits |
| Base64.AtobEncode | src/scripts/h5p-editor-game-sounds.js:205 | `atob` of the padded base64 text of any byte sequence gives back exactly those bytes as character codes |
| Base64.DecodeEncodeDigits | src/scripts/h5p-editor-game-sounds.js:205 | the encoder emits only alphabet digits, and decoding them gives the bytes back |
| Base64.EncodeDigitsLength | src/scripts/h5p-editor-game-sounds.js:205 | the encoder emits four digits per whole group of three bytes, plus two or three for a trailing one or two bytes |
| DataUrl.IndexOf | src/scripts/h5p-editor-game-sounds.js:190 | the index is that of the first comma, or the length when there is none |
| DataUrl.SplitJoined | src/scripts/h5p-editor-game-sounds.js:190 | `split(',')` of a comma-free header and a comma-free payload joined by a comma gives `parts[0]` and `parts[1]` back |
| DataUrl.SemicolonAt | src/scripts/h5p-editor-game-sounds.js:191 | the lazy `(.*?);` stops at the first ';', and only if no line terminator comes before it |
| DataUrl.MimeMatchNoneIff | src/scripts/h5p-editor-game-sounds.js:191-195 | the match fails exactly when no ':' is followed by a ';' on the same line |
| DataUrl.MimeMatchSome | src/scripts/h5p-editor-game-sounds.js:191-197 | the captured type holds no ';' and no line break, and sits between a ':' and a ';' of the header; no ':' before that one opens a match, so the match is the leftmost |
| DataUrl.MimeMatchSkips | src/scripts/h5p-editor-game-sounds.js:191 | characters before the first ':' do not change the match |
| DataUrl.InvalidFormatIff | src/scripts/h5p-editor-game-sounds.js:191-195 | "Invalid data URL format" is thrown exactly when the header has no ':' … ';' match |
| PlainObjects.GetLiteral | src/scripts/h5p-editor-game-sounds.js:198-203 | reading an object literal finds its own property, else the member it inherits from `Object.prototype`, else `undefined` |
| DataUrl.ExtensionTable | src/scripts/h5p-editor-game-sounds.js:198-203 | the table as intended: mpeg, wav and ogg map to mp3, wav and ogg, each only from its own type; every other type gets "unknown" |
| DataUrl.SuffixTable | src/scripts/h5p-editor-game-sounds.js:198-203 | the lookup as written: mp3, wav and ogg each exactly from its own type; a name `Object.prototype` has gives that member's text; "unknown" exactly for every other type |
| DataUrl.BlobTypeKeeps | src/scripts/h5p-editor-game-sounds.js:213 | the Blob keeps a type that is printable ASCII without upper-case letters as it is |
| DataUrl.BlobTypeIdempotent | src/scripts/h5p-editor-game-sounds.js:213 | the Blob's type is printable lower-case ASCII, so a second Blob built with it keeps it |
| DataUrl.BlobTypeEmpty | src/scripts/h5p-editor-game-sounds.js:213 | the Blob's type is empty exactly when the given type is empty or holds a character outside U+0020..U+007E |
| DataUrl.FileName | src/scripts/h5p-editor-game-sounds.js:197-214 | the Blob's type is the captured type normalised. The name is `prefix.` plus the lookup's result: mp3, wav or ogg exactly for its own type, an inherited member's text for its name, and "unknown" exactly for every other type, which is accepted |
| DataUrl.InheritedTypeNamed | src/scripts/h5p-editor-game-sounds.js:198-214 | as written, a captured type naming an inherited member gives a name ending in that member's text, never "unknown" |
| DataUrl.ConstructorSuffix | src/scripts/h5p-editor-game-sounds.js:198-203 | for the type "constructor" the intended table gives "unknown" and the lookup as written the text of `Object`, as V8 prints it |
| DataUrl.AnyMimeAccepted | src/scripts/h5p-editor-game-sounds.js:191-205 | once a marker is present and the payload decodes, the conversion succeeds whatever the type |
| DataUrl.MissingCommaThrows | src/scripts/h5p-editor-game-sounds.js:190-205 | a URL without a comma passes `undefined` to `atob`, which reads it as "undefined" (nine characters) and throws |
| DataUrl.CopyCharCodes | src/scripts/h5p-editor-game-sounds.js:206-210 | the loop fills a `Uint8Array` of the string's length with each character code modulo 256 |
| DataUrl.BytesAreCharCodes | src/scripts/h5p-editor-game-sounds.js:205-210 | the media bytes are the decoded string's character codes, one per character, with nothing lost to the modulo |
| DataUrl.MediaOfBinary | src/scripts/h5p-editor-game-sounds.js:205-214 | when `atob` gives the binary string of some bytes, the media object holds exactly those bytes, the normalised type and the looked-up name |
| DataUrl.DataUrlToMedia | src/scripts/h5p-editor-game-sounds.js:189-216 | the method returns the media object, or the error it throws, as the specification function `MediaOf` gives it: the decoded bytes, the type as the Blob keeps it, and the name from the lookup as written, inherited members included |
| DataUrl.InlineSplits | src/scripts/h5p-editor-game-sounds.js:190 | an inlined asset's URL splits into its `data:<mime>;base64` header and its base64 payload |
| DataUrl.InlineHeaderMime | src/scripts/h5p-editor-game-sounds.js:191-197 | the match on an inlined header captures exactly the declared type |
| DataUrl.InlineRoundTrip | src/scripts/h5p-editor-game-sounds.js:189-216 | an inlined asset converts to its own bytes and its type as the Blob normalises it, named `prefix.` plus the lookup's suffix |
| Catalogue.MediaFileMap | src/scripts/h5p-editor-game-sounds.js:20-31 | ten entries in insertion order; each id is paired with its asset's inlined mp3 URL |
| Catalogue.MediaIdsDistinct | src/scripts/h5p-editor-game-sounds.js:20-31 | the ten ids are pairwise distinct, as keys of a `Map` |
| Catalogue.Lookup | src/scripts/h5p-editor-game-sounds.js:175-179 | `has(id)` holds exactly when some entry has that id, and `get(id)` is that entry's URL |
| Catalogue.LookupAt | src/scripts/h5p-editor-game-sounds.js:179 | with distinct ids, each entry's id looks up that entry's URL |
| Catalogue.BundledRoundTrip | src/scripts/h5p-editor-game-sounds.js:189-216 | a bundled mp3 converts to its own bytes as `audio/mpeg`, named `prefix.mp3` |
| Catalogue.BundledEntriesDecode | src/scripts/h5p-editor-game-sounds.js:174-181 | every bundled id is present and converts without error to its file's bytes |
| Catalogue.Capitalize | src/scripts/h5p-editor-game-sounds.js:131 | the label has the key's length, its first letter upper-cased and the rest unchanged |
| Catalogue.SelectOptions | src/scripts/h5p-editor-game-sounds.js:128-132 | one option per key, in order: the key as value and the capitalised key as label |
| Catalogue.FirstBundledOption | src/scripts/h5p-editor-game-sounds.js:128-132 | the bundled list starts with value "blip", labelled "Blip" |
| Translations.SplitKeyWellFormed | src/scripts/h5p-editor-game-sounds.js:63 | `split(/[./]+/)` yields at least one segment; no segment holds a separator, and only the first or last may be empty |
| Translations.SplitJoin | src/scripts/h5p-editor-game-sounds.js:63 | splitting well-formed segments joined with '.' gives the segments back |
| Translations.SplitKeyPrefix | src/scripts/h5p-editor-game-sounds.js:63 | a separator-free prefix extends the first segment of what follows |
| Translations.Insert | src/scripts/h5p-editor-game-sounds.js:64-75 | storing along a path leaves the object with its old keys plus the first name of the path |
| Translations.InsertFinds | src/scripts/h5p-editor-game-sounds.js:67-75 | the stored string is found at its path |
| Translations.InsertKeeps | src/scripts/h5p-editor-game-sounds.js:67-72 | intermediate objects are reused, so strings at every diverging path survive |
| Translations.FilledFinds | src/scripts/h5p-editor-game-sounds.js:60-76 | an entry's string is found at its path when no later entry's path meets it; of several keys with one path, the last wins |
| Translations.FilledKeeps | src/scripts/h5p-editor-game-sounds.js:60-76 | storing entries that all diverge from a path leaves that path's value alone |
| Translations.FillDictionary | src/scripts/h5p-editor-game-sounds.js:54-79 | the loop over the keys (absent strings count as `{}`) builds the object the entries give when stored in order |
| Util.ExtendOne | src/scripts/services/util.js:8-20 | the loop over one source's own keys gives `MergeOne`: it recurses where both sides are objects, otherwise a defined value replaces, and it throws on a `null` target |
| Util.Extend | src/scripts/services/util.js:6-23 | the loop over the arguments merges them into the first, left to right |
| Util.MergeOneAt | src/scripts/services/util.js:8-19 | keys a source does not define keep their presence and value; a primitive the source defines replaces the target's |
| Util.NestedKeysSurvive | src/scripts/services/util.js:10-14 | where both sides hold objects, the target object's own keys survive the merge |
| Util.ExtendKeepsUndefinedKeys | src/scripts/services/util.js:16-17 | a key that no source defines (or that sources set to `undefined`) keeps the target's value |
| Util.ExtendLastDefinedWins | src/scripts/services/util.js:7-21 | sources apply left to right: the last one that defines a key with a primitive decides it |
| Util.ExtendIntoEmpty | src/scripts/components/audio-button.js:14 | `extend({}, params)` is a copy of the defined own properties of `params` |
| MediaSelect.Select.constructor | src/scripts/components/media-select.js:12-41 | options are the given array in order, or none when it is not an array; the first is selected, or none when there are none |
| MediaSelect.Select.GetValue | src/scripts/components/media-select.js:55-57 | the selected option's value, or "" when there is no option |
| MediaSelect.Select.GetSize | src/scripts/components/media-select.js:63-65 | the number of options |
| MediaSelect.Select.Reset | src/scripts/components/media-select.js:70-75 | with options, selects the first and raises `change` with its value; with none, nothing happens |
| MediaSelect.Select.Choose | src/scripts/components/media-select.js:36-38 | a user choice selects the option and raises `change` with its value, but only when the selection changes |
| AudioButtonComponent.Label | src/scripts/components/audio-button.js:39-40 | the dictionary's text for the key, or the hard-coded fallback when there is no dictionary or its text is empty; never empty |
| AudioButtonComponent.AudioButton.constructor | src/scripts/components/audio-button.js:13-27 | a new button is not playing, and its pressed state and label agree with that |
| AudioButtonComponent.AudioButton.TogglePlaying | src/scripts/components/audio-button.js:34-45 | a boolean forces the state and nothing flips it; `aria-pressed` and `aria-label` follow the returned new state |
| GameSounds.Stopped | src/scripts/h5p-editor-game-sounds.js:249-257 | a paused element is left as it is; a playing one is paused and rewound |
| GameSounds.GameSounds.constructor | src/scripts/h5p-editor-game-sounds.js:38-49 | fills the translations, builds the select with the catalogue's options, and builds the button only when there are options. Resetting the select derives the first sound, so one `hasMedia(true)` is raised exactly when it decodes |
| GameSounds.DeriveLookup | src/scripts/h5p-editor-game-sounds.js:174-181 | the medium a selection derives is the conversion of the data URL `MEDIA_FILE_MAP.get(id)` gives, when the id is present and the conversion does not throw |
| GameSounds.GameSounds.UpdateSelectedSound | src/scripts/h5p-editor-game-sounds.js:174-181 | an unknown id changes nothing; a known one that decodes becomes the medium and raises `hasMedia(true)`; a decoding error is thrown and changes nothing |
| GameSounds.GameSounds.BecomeVisible | src/scripts/h5p-editor-game-sounds.js:46-48 | the first call derives the selected sound; later calls change nothing |
| GameSounds.GameSounds.ChooseSound | src/scripts/h5p-editor-game-sounds.js:140-142 | choosing a different option derives that sound; choosing the selected one changes nothing |
| GameSounds.GameSounds.StopAudio | src/scripts/h5p-editor-game-sounds.js:249-257 | a playing element is paused and rewound, and the button is released; otherwise nothing changes |
| GameSounds.GameSounds.PlayAudio | src/scripts/h5p-editor-game-sounds.js:223-244 | an unknown id changes nothing. Otherwise the old element is stopped and retired, and a new one plays the id from the start with the given `ended` callback |
| GameSounds.GameSounds.StartAudio | src/scripts/h5p-editor-game-sounds.js:230-233 | the new element replaces the stopped one, which is retired, and starts at position 0 |
| GameSounds.GameSounds.ClickAudioButton | src/scripts/h5p-editor-game-sounds.js:157-165 | the selected sound plays with the release callback; the button ends up pressed only if nothing was playing before |
| GameSounds.GameSounds.ClickAudioButtonIntended | src/scripts/h5p-editor-game-sounds.js:157-165 | with the two steps swapped, the button is pressed while the selected sound plays |
| GameSounds.GameSounds.AudioEnded | src/scripts/h5p-editor-game-sounds.js:231-233 | a playing element pauses at its end; if it came from a click, its callback releases the button |
| GameSounds.GameSounds.AudioError | src/scripts/h5p-editor-game-sounds.js:235-238 | an error of the element releases the button if there is one |
| GameSounds.GameSounds.AudioPlayFailed | src/scripts/h5p-editor-game-sounds.js:240-243 | a rejected `play()` leaves the element paused and releases the button |
| GameSounds.GameSounds.AudioProgress | src/scripts/h5p-editor-game-sounds.js:230 | playback moves only a playing element's position |
| GameSounds.GameSounds.HasMedia | src/scripts/h5p-editor-game-sounds.js:271-273 | true exactly when a medium is set |
| GameSounds.GameSounds.GetMedia | src/scripts/h5p-editor-game-sounds.js:279-281 | a media object is returned exactly when `hasMedia()` is true, and it is the conversion of the selected id's data URL |
| GameSounds.GameSounds.Pause | src/scripts/h5p-editor-game-sounds.js:286-288 | the same as `stopAudio` |
| GameSounds.GameSounds.Reset | src/scripts/h5p-editor-game-sounds.js:293-299 | stops the element as `stopAudio` does, releasing the button if something was playing and leaving it alone otherwise; deletes the medium, raises `hasMedia(false)`, selects the first option and derives it again |
| GameSounds.BundledDerive | src/scripts/h5p-editor-game-sounds.js:174-181 | selecting any bundled sound derives its own bytes as `audio/mpeg`, named `game-sound.mp3` |
| GameSounds.ConstructThenReset | src/scripts/h5p-editor-game-sounds.js:293-299 | over any catalogue whose first sound decodes, construction then reset raises true, false, true and keeps that sound as the medium |
| GameSounds.ConstructAndReset | src/scripts/h5p-editor-game-sounds.js:293-299 | over the bundled catalogue the same holds, and the medium is the first file, "blip" |
| GameSounds.ClickDuringPlayback | src/scripts/h5p-editor-game-sounds.js:157-165 | two clicks with the handler as written: the second sound plays while the button shows not playing |
| GameSounds.ClickDuringPlaybackIntended | src/scripts/h5p-editor-game-sounds.js:157-165 | the same two clicks with the corrected handler: the button is pressed while the sound plays |

## Left out

- The DOM is not modelled: elements, CSS classes other than `playing`, `appendTo`, `getDOM`, `buildLabel`, the label's UUID and `aria-describedby`. These are presentation with no state the widget reads back.
- The `Dictionary` service is not part of this model. The button takes its `get` as a given function; the widget keeps the filled translations but does not model `fill`.
- `callOnceVisible` waits for an idle callback and an `IntersectionObserver` to fire. Only its effect is modelled: `BecomeVisible` runs the derivation once.
- `console.error`, and `Blob` beyond its bytes and `type`. Logging has no effect on state, and a Blob is reduced to its bytes and the type its constructor keeps.
- The asset files themselves are not modelled. The catalogue is a function of their bytes, and each URL is taken to be `data:audio/mpeg;base64,` plus the padded base64 of the file, as a bundler inlines an mp3.
- Catalogue.Capitalize: upper-cases ASCII letters only. `toUpperCase` on other scripts is not modelled, and the bundled ids are ASCII.
- Translations.FillDictionary: requires that no path passes through a non-empty string. There the source assigns a property to a string primitive, which is either ignored or throws depending on strict mode. It also requires that no key walks through a name the object only inherits (`constructor`, `__proto__`, `toString`, …) and that no key ends in `__proto__`. There `!current[split]` finds the inherited member, so the walk writes into `Object` or `Object.prototype`, and a string stored at `__proto__` is dropped.
- Translations.InsertFinds: holds only for the paths `Insertable` admits, which leave out names inherited from `Object.prototype`, as for `FillDictionary`.
- Translations.FilledFinds: holds only for the entries `Fillable` admits, which leave out names inherited from `Object.prototype`, as for `FillDictionary`.
- Translations.Insert: holds only for the paths `Insertable` admits, which leave out names inherited from `Object.prototype`, as for `FillDictionary`.
- Translations.InsertKeeps: holds only for the paths `Insertable` admits, which leave out names inherited from `Object.prototype`, as for `FillDictionary`.
- Translations.FilledKeeps: holds only for the entries `Fillable` admits, which leave out names inherited from `Object.prototype`, as for `FillDictionary`.
- PlainObjects.InheritedText: the texts are those V8 prints for the native functions; SpiderMonkey and JavaScriptCore lay them out over several lines, so the exact file name for an inherited type differs by engine, while the lemmas that only say it is not "unknown" hold in all.
- Util.Extend: requires that no source holds an own `__proto__` key at any depth. For such a key `typeof target.__proto__` is 'object', so the source merges into `Object.prototype`, or a primitive is dropped by the accessor. The other inherited names read as functions and behave as absent keys, as modelled. Objects are values. Aliasing between arguments is not captured, and neither is the partial update left behind when a nested merge throws. Inherited (prototype-chain) keys are skipped like other non-own keys. `for … in` over a string primitive's index keys is not modelled. Key order, including integer-like keys, is not modelled.
- Util.ExtendOne: requires a source without an own `__proto__` key, as for `Extend`.
- Util.MergeOneAt: requires a source without an own `__proto__` key, as for `Extend`.
- Util.NestedKeysSurvive: requires a source without an own `__proto__` key, as for `Extend`.
- Util.ExtendKeepsUndefinedKeys: requires sources without an own `__proto__` key, as for `Extend`.
- Util.ExtendLastDefinedWins: requires sources without an own `__proto__` key, as for `Extend`.
- Util.ExtendIntoEmpty: requires `params` without an own `__proto__` key, as for `Extend`.
- GameSounds.GameSounds.AudioPlayFailed: a rejected `play()` is modelled as the element staying paused. The browser's autoplay policy and the asynchronous timing of the rejection are not modelled.
- GameSounds.GameSounds.AudioProgress: the playback position is an abstract parameter. Audio decoding and real time are not modelled.
- Events of elements that `playAudio` already replaced (`retired`) are not modelled. Their handlers would still run in a browser.
- `hasMedia` listeners of the host are not modelled: `trigger` appends to an event log.
- An exception thrown by `updateSelectedSound` inside a `change` listener is reported by the browser and does not reach the caller. The model returns it and leaves the state unchanged.

## Findings

| source | as written | input that shows it | evidently intended | confidence | as-written member | corrected member |
|---|---|---|---|---|---|---|
| src/scripts/h5p-editor-game-sounds.js:157-165 | the click handler presses the button before `playAudio`, whose `stopAudio` releases it again when a sound is already playing | two clicks on the play button, the second while the first sound still plays | the button shows "playing" (class, `aria-pressed`, pause label) while the new sound plays | not executed; medium | GameSounds.ClickDuringPlayback | GameSounds.ClickDuringPlaybackIntended |
| src/scripts/h5p-editor-game-sounds.js:198-203 | `mimeToExt[mime]` reads an object literal, so a type that names a member of `Object.prototype` finds that member, and its text becomes the extension | `dataUrlToMedia('data:constructor;base64,AAAA', 'game-sound')` names the file `game-sound.function Object() { [native code] }` as V8 prints the function; other engines lay out its text differently, but never as "unknown" | every type outside the table gets the extension "unknown" | not executed; high (unreachable from the bundled `audio/mpeg` URLs) | DataUrl.InheritedTypeNamed | DataUrl.ExtensionTable |
