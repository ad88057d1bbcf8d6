/**
 * `MEDIA_FILE_MAP` of src/scripts/h5p-editor-game-sounds.js: ten sound ids,
 * in insertion order, each mapped to the data URL of a bundled mp3 file, and
 * the option list `buildMediaSelect` derives from its keys. The files' bytes
 * are not part of the model: the catalogue is a function of them, and each
 * URL is the `data:audio/mpeg;base64,` form a bundler inlines.
 */
module Catalogue {
  import opened Wrappers
  import opened DataUrl
  import opened MediaSelect

  datatype Entry = Entry(id: string, dataUrl: string)

  const MediaIds: seq<string> :=
    ["blip", "eehEeh", "hurry", "knioy", "lost", "ohNo", "padimPadim", "pling", "sunrise", "yoink"]

  /** The declared MIME type of every bundled sound. */
  const BundledMime: string := "audio/mpeg"

  /** The table as built from the ten asset files. */
  function MediaFileMap(assets: seq<seq<Byte>>): (entries: seq<Entry>)
    requires |assets| == |MediaIds|
    ensures |entries| == |MediaIds|
    ensures forall i :: 0 <= i < |entries| ==>
      entries[i].id == MediaIds[i] && entries[i].dataUrl == InlineDataUrl(BundledMime, assets[i])
  {
    seq(|MediaIds|, i requires 0 <= i < |MediaIds| => Entry(MediaIds[i], InlineDataUrl(BundledMime, assets[i])))
  }

  /** A `Map` holds each key once. */
  predicate DistinctIds(entries: seq<Entry>) {
    forall i, j :: 0 <= i < j < |entries| ==> entries[i].id != entries[j].id
  }

  /** `MEDIA_FILE_MAP.get(id)`; `None` is `has(id)` being false. */
  function Lookup(entries: seq<Entry>, id: string): (r: Option<string>)
    ensures r.Some? <==> exists i :: 0 <= i < |entries| && entries[i].id == id
    ensures r.Some? ==> exists i :: 0 <= i < |entries| && entries[i].id == id && entries[i].dataUrl == r.value
  {
    if entries == [] then None
    else if entries[0].id == id then Some(entries[0].dataUrl)
    else
      var r := Lookup(entries[1..], id);
      assert forall i :: 0 < i < |entries| ==> entries[i] == entries[1..][i - 1];
      r
  }

  /** With distinct ids, the entry at `i` is what its id looks up. */
  lemma {:induction false} LookupAt(entries: seq<Entry>, i: nat)
    requires DistinctIds(entries) && i < |entries|
    ensures Lookup(entries, entries[i].id) == Some(entries[i].dataUrl)
    decreases i
  {
    if i > 0 {
      assert DistinctIds(entries[1..]) by {
        forall a, b | 0 <= a < b < |entries[1..]| ensures entries[1..][a].id != entries[1..][b].id {
          assert entries[1..][a] == entries[a + 1] && entries[1..][b] == entries[b + 1];
        }
      }
      assert entries[0].id != entries[i].id;
      LookupAt(entries[1..], i - 1);
      assert entries[1..][i - 1] == entries[i];
    }
  }

  lemma MediaIdsDistinct(assets: seq<seq<Byte>>)
    requires |assets| == |MediaIds|
    ensures DistinctIds(MediaFileMap(assets))
  {
    var entries := MediaFileMap(assets);
    forall i, j | 0 <= i < j < |entries| ensures entries[i].id != entries[j].id {
      assert entries[i].id == MediaIds[i] && entries[j].id == MediaIds[j];
    }
  }

  /** Every bundled id looks up to a URL that decodes, without error, to that file's bytes as an mp3. */
  lemma BundledEntriesDecode(assets: seq<seq<Byte>>, i: nat, prefix: string)
    requires |assets| == |MediaIds| && i < |MediaIds|
    ensures Lookup(MediaFileMap(assets), MediaIds[i]).Some?
    ensures MediaOf(Lookup(MediaFileMap(assets), MediaIds[i]).value, prefix)
      == Success(Media(assets[i], BundledMime, prefix + ".mp3"))
  {
    var entries := MediaFileMap(assets);
    assert Lookup(entries, MediaIds[i]) == Some(InlineDataUrl(BundledMime, assets[i])) by {
      MediaIdsDistinct(assets);
      LookupAt(entries, i);
    }
    BundledRoundTrip(assets[i], prefix);
  }

  lemma BundledRoundTrip(bytes: seq<Byte>, prefix: string)
    ensures MediaOf(InlineDataUrl(BundledMime, bytes), prefix) == Success(Media(bytes, BundledMime, prefix + ".mp3"))
  {
    BundledMimeLineFree();
    InlineRoundTrip(BundledMime, bytes, prefix);
    BundledName(prefix);
    BlobTypeKeeps(BundledMime);
  }

  lemma BundledMimeLineFree()
    ensures LineFree(BundledMime) && LowerPrintable(BundledMime)
  {
    forall k | 0 <= k < |BundledMime| ensures !IsLineTerminator(BundledMime[k]) { }
  }

  /** The bundled type is in the extension table as "mp3". */
  lemma BundledName(prefix: string)
    ensures prefix + "." + SuffixFor(BundledMime) == prefix + ".mp3"
  {
    assert BundledMime in MimeToExt;
  }

  /* ---- `buildMediaSelect`'s option mapping ---- */

  function UpperAscii(c: char): char {
    if 'a' <= c <= 'z' then (c as int - 32) as char else c
  }

  /** `key.charAt(0).toUpperCase() + key.slice(1)` for ASCII letters. */
  function Capitalize(key: string): (r: string)
    ensures |r| == |key|
    ensures key != [] ==> r[0] == UpperAscii(key[0]) && r[1..] == key[1..]
  {
    if key == [] then "" else [UpperAscii(key[0])] + key[1..]
  }

  /** One option per key, in the table's order: the id as value, the capitalised id as label. */
  function SelectOptions(entries: seq<Entry>): (options: seq<SelectOption>)
    ensures |options| == |entries|
    ensures forall i :: 0 <= i < |entries| ==>
      options[i] == SelectOption(entries[i].id, Capitalize(entries[i].id))
  {
    seq(|entries|, i requires 0 <= i < |entries| => SelectOption(entries[i].id, Capitalize(entries[i].id)))
  }

  /** Every option value is an id the table holds, so selecting one never misses. */
  lemma OptionsAreKeys(entries: seq<Entry>, i: nat)
    requires i < |entries|
    ensures Lookup(entries, SelectOptions(entries)[i].value).Some?
  {
  }

  /** The bundled table's first option is "blip", shown as "Blip". */
  lemma FirstBundledOption(assets: seq<seq<Byte>>)
    requires |assets| == |MediaIds|
    ensures SelectOptions(MediaFileMap(assets))[0] == SelectOption("blip", "Blip")
  {
    assert MediaFileMap(assets)[0].id == "blip";
    assert UpperAscii('b') == 'B';
  }
}
