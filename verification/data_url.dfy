/**
 * `dataUrlToMedia` of the widget (src/scripts/h5p-editor-game-sounds.js):
 * turns a data URL (RFC 2397, the "data" URL scheme) into the bytes and file
 * name of a media object. The URL is split on ','; the MIME type is the first
 * match of the pattern `:(.*?);` in the part before the first comma; the part
 * between the first and the second comma goes through `atob`; each character
 * code of the result is stored into a `Uint8Array`.
 */
module DataUrl {
  import opened Wrappers
  import opened Base64
  import opened PlainObjects

  /** The two exceptions the conversion can throw. */
  datatype DecodeError =
    | InvalidDataUrlFormat   // `new Error('Invalid data URL format')`
    | InvalidCharacter       // the `InvalidCharacterError` thrown by `atob`

  /** The media object: the Blob's bytes and its `type` (as the Blob constructor normalises it), and the file name. */
  datatype Media = Media(data: seq<Byte>, mime: string, name: string)

  /* ---- `dataUrl.split(',')` ---- */

  /** Index of the first `c` in `s`, or `|s|` when there is none. */
  function IndexOf(s: string, c: char): (i: nat)
    ensures i <= |s|
    ensures i < |s| ==> s[i] == c
    ensures forall j :: 0 <= j < i ==> s[j] != c
  {
    if s == [] then 0
    else if s[0] == c then 0
    else 1 + IndexOf(s[1..], c)
  }

  /** `parts[0]`: everything before the first comma. */
  function Header(url: string): string {
    url[..IndexOf(url, ',')]
  }

  /** `parts[1]`: the text between the first and the second comma, absent without a comma. */
  function PayloadPart(url: string): Option<string> {
    var i := IndexOf(url, ',');
    if i == |url| then None
    else
      var rest := url[i + 1..];
      Some(rest[..IndexOf(rest, ',')])
  }

  /** What `atob` receives: a missing `parts[1]` is `undefined`, which converts to the text "undefined". */
  function AtobArgument(url: string): string {
    match PayloadPart(url)
    case Some(p) => p
    case None => "undefined"
  }

  /** Splitting a header and a payload joined by a comma gives them back. */
  lemma SplitJoined(header: string, payload: string)
    requires ',' !in header && ',' !in payload
    ensures Header(header + "," + payload) == header
    ensures PayloadPart(header + "," + payload) == Some(payload)
  {
    var url := header + "," + payload;
    assert url[|header|] == ',';
    assert forall j :: 0 <= j < |header| ==> url[j] == header[j];
    assert IndexOf(url, ',') == |header|;
    var rest := url[|header| + 1..];
    assert rest == payload;
    var k := IndexOf(rest, ',');
    assert rest[..k] == payload;
  }

  /* ---- `parts[0].match(/:(.*?);/)` ---- */

  /** The characters `.` does not match in a JavaScript regular expression. */
  predicate IsLineTerminator(c: char) {
    c == '\n' || c == '\r' || c == '\U{2028}' || c == '\U{2029}'
  }

  predicate LineFree(s: string) {
    forall k :: 0 <= k < |s| ==> !IsLineTerminator(s[k])
  }

  /** A line-free text with one more character in front. */
  lemma LineFreeCons(c: char, t: string)
    ensures LineFree([c] + t) <==> !IsLineTerminator(c) && LineFree(t)
  {
    var s := [c] + t;
    if !IsLineTerminator(c) && LineFree(t) {
      forall k | 0 <= k < |s| ensures !IsLineTerminator(s[k]) {
        if k > 0 { assert s[k] == t[k - 1]; }
      }
    }
    if LineFree(s) {
      assert s[0] == c;
      forall k | 0 <= k < |t| ensures !IsLineTerminator(t[k]) {
        assert t[k] == s[k + 1];
      }
    }
  }

  /** Where the lazy `(.*?);` ends when started at the front of `s`: the first ';', if no line terminator precedes it. */
  function SemicolonAt(s: string): (r: Option<nat>)
    ensures r.Some? ==> r.value < |s| && s[r.value] == ';' && LineFree(s[..r.value])
    ensures r.Some? ==> forall j :: 0 <= j < r.value ==> s[j] != ';'
    ensures r.None? ==> forall j :: 0 <= j < |s| && s[j] == ';' ==> !LineFree(s[..j])
  {
    if s == [] then None
    else if s[0] == ';' then Some(0)
    else if IsLineTerminator(s[0]) then
      assert forall j :: 0 < j <= |s| ==> !LineFree(s[..j]) by {
        forall j | 0 < j <= |s| ensures !LineFree(s[..j]) {
          assert s[..j] == [s[0]] + s[1..j];
          LineFreeCons(s[0], s[1..j]);
        }
      }
      None
    else
      match SemicolonAt(s[1..])
      case Some(j) =>
        assert s[..j + 1] == [s[0]] + s[1..][..j];
        LineFreeCons(s[0], s[1..][..j]);
        Some(j + 1)
      case None =>
        assert forall j :: 0 <= j < |s| && s[j] == ';' ==> !LineFree(s[..j]) by {
          forall j | 0 <= j < |s| && s[j] == ';' ensures !LineFree(s[..j]) {
            assert s[1..][j - 1] == ';';
            assert s[..j] == [s[0]] + s[1..][..j - 1];
            LineFreeCons(s[0], s[1..][..j - 1]);
          }
        }
        None
  }

  /** The MIME type the pattern captures, or `None` when the header does not match it. */
  function MimeMatch(h: string): Option<string>
    decreases |h|
  {
    if h == [] then None
    else if h[0] == ':' && SemicolonAt(h[1..]).Some? then
      Some(h[1..][..SemicolonAt(h[1..]).value])
    else MimeMatch(h[1..])
  }

  /** A ':' at `i` and a ';' at `j` with no line terminator between them: a place the pattern can match. */
  ghost predicate Opens(h: string, i: int, j: int) {
    0 <= i < j < |h| && h[i] == ':' && h[j] == ';' && LineFree(h[i + 1..j])
  }

  ghost predicate HasMimeMarker(h: string) {
    exists i, j :: Opens(h, i, j)
  }

  /** Characters before the first ':' do not change the match. */
  lemma {:induction false} MimeMatchSkips(p: string, s: string)
    requires ':' !in p
    ensures MimeMatch(p + s) == MimeMatch(s)
    decreases |p|
  {
    if p != [] {
      assert p[0] in p;
      assert (p + s)[0] == p[0] != ':';
      assert (p + s)[1..] == p[1..] + s;
      MimeMatchSkips(p[1..], s);
    } else {
      assert p + s == s;
    }
  }

  /** When the pattern does not match at the front, no ':' at index 0 opens a match. */
  lemma NoOpenAtFront(h: string)
    requires h != [] && !(h[0] == ':' && SemicolonAt(h[1..]).Some?)
    ensures forall j :: !Opens(h, 0, j)
  {
    forall j ensures !Opens(h, 0, j) {
      if 0 < j < |h| && h[0] == ':' && h[j] == ';' {
        assert h[1..][j - 1] == ';';
        assert h[1..j] == h[1..][..j - 1];
      }
    }
  }

  /** A place to match after the first character is a place to match in the text without it, and back. */
  lemma OpensShift(h: string, i: int, j: int)
    requires h != [] && i > 0
    ensures Opens(h, i, j) <==> Opens(h[1..], i - 1, j - 1)
  {
    if 0 < i < j < |h| {
      var t := h[1..];
      forall m | i + 1 <= m < j ensures h[m] == t[m - 1] { }
      assert h[i + 1..j] == t[i..j - 1];
    }
  }

  /** The pattern fails exactly when no ':' is followed by a ';' on the same line. */
  lemma {:induction false} MimeMatchNoneIff(h: string)
    ensures MimeMatch(h).None? <==> !HasMimeMarker(h)
    decreases |h|
  {
    if h == [] {
    } else if h[0] == ':' && SemicolonAt(h[1..]).Some? {
      var k := SemicolonAt(h[1..]).value;
      assert h[0 + 1..k + 1] == h[1..][..k];
      assert Opens(h, 0, k + 1);
    } else {
      MimeMatchNoneIff(h[1..]);
      NoOpenAtFront(h);
      if HasMimeMarker(h) {
        var i, j :| Opens(h, i, j);
        OpensShift(h, i, j);
      }
      if HasMimeMarker(h[1..]) {
        var i, j :| Opens(h[1..], i, j);
        OpensShift(h, i + 1, j + 1);
      }
    }
  }

  /** `m` sits in `h` between a ':' at `i` and a ';' right after it. */
  ghost predicate CapturedAt(h: string, i: int, m: string) {
    0 <= i && i + |m| + 1 < |h| && h[i] == ':' && h[i + 1..i + 1 + |m|] == m && h[i + 1 + |m|] == ';'
  }

  lemma CapturedShift(h: string, i: int, m: string)
    requires h != [] && CapturedAt(h[1..], i, m)
    ensures CapturedAt(h, i + 1, m)
  {
    assert h[i + 2..i + 2 + |m|] == h[1..][i + 1..i + 1 + |m|];
  }

  /**
   * A captured type sits between a ':' and the ';' that ends the lazy match,
   * and holds no ';' and no line break; its ':' is the leftmost one that
   * opens a match.
   */
  lemma {:induction false} MimeMatchSome(h: string)
    requires MimeMatch(h).Some?
    ensures var m := MimeMatch(h).value;
      ';' !in m && LineFree(m) && (exists i :: CapturedAt(h, i, m) && forall i', j :: 0 <= i' < i ==> !Opens(h, i', j))
    decreases |h|
  {
    var m := MimeMatch(h).value;
    if h[0] == ':' && SemicolonAt(h[1..]).Some? {
      var k := SemicolonAt(h[1..]).value;
      assert h[1..1 + k] == m;
      assert CapturedAt(h, 0, m);
    } else {
      MimeMatchSome(h[1..]);
      var i :| CapturedAt(h[1..], i, m) && forall i', j :: 0 <= i' < i ==> !Opens(h[1..], i', j);
      CapturedShift(h, i, m);
      NoOpenAtFront(h);
      forall i', j | 0 <= i' < i + 1 ensures !Opens(h, i', j) {
        if i' > 0 {
          OpensShift(h, i', j);
        }
      }
    }
  }

  /* ---- the conversion ---- */

  /** The `mimeToExt` table. */
  const MimeToExt: map<string, string> := map["audio/mpeg" := "mp3", "audio/wav" := "wav", "audio/ogg" := "ogg"]

  /** The table as its comment describes it: the three listed types, and "unknown" for every other. */
  function ExtensionFor(mime: string): string {
    if mime in MimeToExt then MimeToExt[mime] else "unknown"
  }

  /**
   * `mimeToExt[mime] || 'unknown'` as written: `mimeToExt` is an object
   * literal, so the lookup also finds the members it inherits, and their text
   * becomes the suffix. Every value the lookup can find is a non-empty
   * string or a member, so `||` replaces only `undefined`.
   */
  function SuffixFor(mime: string): string {
    match Get(Literal(MimeToExt), mime)
    case Some(ext) => ext
    case None => "unknown"
  }

  /* ---- `new Blob([u8arr], { type: mime })` ---- */

  predicate PrintableAscii(s: string) {
    forall i :: 0 <= i < |s| ==> ' ' <= s[i] <= '~'
  }

  function LowerAscii(c: char): char {
    if 'A' <= c <= 'Z' then (c as int + 32) as char else c
  }

  /** The Blob's `type`: the given type in ASCII lower case, or "" when it holds a character outside U+0020..U+007E. */
  function BlobType(mime: string): string {
    if PrintableAscii(mime) then seq(|mime|, i requires 0 <= i < |mime| => LowerAscii(mime[i])) else ""
  }

  /** Printable ASCII without upper-case letters. */
  predicate LowerPrintable(s: string) {
    forall i :: 0 <= i < |s| ==> ' ' <= s[i] <= '~' && !('A' <= s[i] <= 'Z')
  }

  /** A type already in normal form is kept as it is. */
  lemma BlobTypeKeeps(mime: string)
    requires LowerPrintable(mime)
    ensures BlobType(mime) == mime
  {
    assert PrintableAscii(mime);
    var t := BlobType(mime);
    forall i | 0 <= i < |mime| ensures t[i] == mime[i] {
      assert !('A' <= mime[i] <= 'Z');
    }
  }

  /** The normal form is in normal form: a Blob's type passed to another Blob is kept. */
  lemma BlobTypeIdempotent(mime: string)
    ensures LowerPrintable(BlobType(mime))
    ensures BlobType(BlobType(mime)) == BlobType(mime)
  {
    var t := BlobType(mime);
    forall i | 0 <= i < |t| ensures ' ' <= t[i] <= '~' && !('A' <= t[i] <= 'Z') {
      assert t[i] == LowerAscii(mime[i]);
    }
    BlobTypeKeeps(t);
  }

  /** The type is dropped exactly when it is empty or holds a character outside printable ASCII. */
  lemma BlobTypeEmpty(mime: string)
    ensures BlobType(mime) == "" <==> mime == "" || !PrintableAscii(mime)
  {
    if PrintableAscii(mime) {
      assert |BlobType(mime)| == |mime|;
    }
  }

  /** Storing character codes into a `Uint8Array` keeps each one modulo 256. */
  function ToUint8Array(bstr: string): (bytes: seq<Byte>)
    ensures |bytes| == |bstr|
  {
    seq(|bstr|, i requires 0 <= i < |bstr| => bstr[i] as int % 256)
  }

  /** What `dataUrlToMedia(url, prefix)` returns or throws. */
  function MediaOf(url: string, prefix: string): Result<Media, DecodeError> {
    match MimeMatch(Header(url))
    case None => Failure(InvalidDataUrlFormat)
    case Some(mime) =>
      match Atob(AtobArgument(url))
      case None => Failure(InvalidCharacter)
      case Some(bstr) => Success(Media(ToUint8Array(bstr), BlobType(mime), prefix + "." + SuffixFor(mime)))
  }

  /** Copying the character codes of a binary string gives back the bytes it was made of. */
  lemma CharCodesOfBinary(bytes: seq<Byte>)
    ensures ToUint8Array(BinaryString(bytes)) == bytes
  {
    var copy := ToUint8Array(BinaryString(bytes));
    forall i | 0 <= i < |bytes| ensures copy[i] == bytes[i] {
      assert BinaryString(bytes)[i] as int == bytes[i];
    }
  }

  lemma MediaOfBinary(url: string, prefix: string, mime: string, bytes: seq<Byte>)
    requires MimeMatch(Header(url)) == Some(mime) && Atob(AtobArgument(url)) == Some(BinaryString(bytes))
    ensures MediaOf(url, prefix) == Success(Media(bytes, BlobType(mime), prefix + "." + SuffixFor(mime)))
  {
    CharCodesOfBinary(bytes);
  }

  /** `new Uint8Array(bstr.length)` filled by the loop over the character codes. */
  method CopyCharCodes(bstr: string) returns (bytes: seq<Byte>)
    ensures bytes == ToUint8Array(bstr)
  {
    var u8arr := new Byte[|bstr|];
    for i := 0 to |bstr|
      invariant u8arr[..i] == ToUint8Array(bstr)[..i]
    {
      u8arr[i] := bstr[i] as int % 256;
    }
    assert u8arr[..] == u8arr[..|bstr|];
    return u8arr[..];
  }

  /** `dataUrlToMedia`: the match, the extension lookup, `atob`, the copy into the byte array, then the Blob. */
  method DataUrlToMedia(url: string, prefix: string) returns (r: Result<Media, DecodeError>)
    ensures r == MediaOf(url, prefix)
  {
    var mimeMatch := MimeMatch(Header(url));
    if mimeMatch.None? {
      return Failure(InvalidDataUrlFormat);
    }
    var mime := mimeMatch.value;
    var suffix := SuffixFor(mime);
    var decoded := Atob(AtobArgument(url));
    if decoded.None? {
      return Failure(InvalidCharacter);
    }
    var data := CopyCharCodes(decoded.value);
    return Success(Media(data, BlobType(mime), prefix + "." + suffix));
  }

  /** "Invalid data URL format" is thrown exactly when the header has no ':' … ';' match. */
  lemma InvalidFormatIff(url: string, prefix: string)
    ensures MediaOf(url, prefix) == Failure(InvalidDataUrlFormat) <==> !HasMimeMarker(Header(url))
  {
    MimeMatchNoneIff(Header(url));
  }

  /** The table with its fallback: each listed type has its own extension, and every other type gets "unknown". */
  lemma ExtensionTable(mime: string)
    ensures ExtensionFor(mime) == "mp3" <==> mime == "audio/mpeg"
    ensures ExtensionFor(mime) == "wav" <==> mime == "audio/wav"
    ensures ExtensionFor(mime) == "ogg" <==> mime == "audio/ogg"
    ensures ExtensionFor(mime) == "unknown" <==> mime !in {"audio/mpeg", "audio/wav", "audio/ogg"}
  {
    assert MimeToExt.Keys == {"audio/mpeg", "audio/wav", "audio/ogg"};
  }

  /** A name `prefix.ext` determines its extension. */
  lemma SuffixDetermined(prefix: string, e: string, f: string)
    ensures prefix + "." + e == prefix + "." + f <==> e == f
  {
    if prefix + "." + e == prefix + "." + f {
      assert (prefix + "." + e)[|prefix| + 1..] == e;
      assert (prefix + "." + f)[|prefix| + 1..] == f;
    }
  }

  /** The lookup as written: the listed types get their extensions, the inherited names their text, every other type "unknown". */
  lemma SuffixTable(mime: string)
    ensures SuffixFor(mime) == "mp3" <==> mime == "audio/mpeg"
    ensures SuffixFor(mime) == "wav" <==> mime == "audio/wav"
    ensures SuffixFor(mime) == "ogg" <==> mime == "audio/ogg"
    ensures Inherited(mime) ==> SuffixFor(mime) == InheritedText[mime]
    ensures SuffixFor(mime) == "unknown" <==> mime !in {"audio/mpeg", "audio/wav", "audio/ogg"} && !Inherited(mime)
  {
    ExtensionTable(mime);
    GetLiteral(MimeToExt, mime);
    if Inherited(mime) {
      InheritedTextsAreLong(mime);
      assert mime !in MimeToExt;
    }
  }

  /** No inherited member's text is as short as a table entry. */
  lemma InheritedTextsAreLong(name: string)
    requires Inherited(name)
    ensures |InheritedText[name]| >= 15
  {
  }

  /**
   * The file name is the prefix, a dot and the suffix the lookup gives for
   * the captured type; the Blob's type is that type normalised. A type
   * outside the table is not rejected: it is named after its inherited
   * member, or "unknown".
   */
  lemma FileName(url: string, prefix: string)
    requires MediaOf(url, prefix).Success?
    ensures MimeMatch(Header(url)).Some?
    ensures var c := MimeMatch(Header(url)).value; var m := MediaOf(url, prefix).value;
      && m.mime == BlobType(c)
      && (c == "audio/mpeg" <==> m.name == prefix + "." + "mp3")
      && (c == "audio/wav" <==> m.name == prefix + "." + "wav")
      && (c == "audio/ogg" <==> m.name == prefix + "." + "ogg")
      && (Inherited(c) ==> m.name == prefix + "." + InheritedText[c])
      && (c !in {"audio/mpeg", "audio/wav", "audio/ogg"} && !Inherited(c) <==> m.name == prefix + "." + "unknown")
  {
    var c := MimeMatch(Header(url)).value;
    var m := MediaOf(url, prefix).value;
    var ext := SuffixFor(c);
    assert m.name == prefix + "." + ext;
    SuffixTable(c);
    SuffixDetermined(prefix, "mp3", ext);
    SuffixDetermined(prefix, "wav", ext);
    SuffixDetermined(prefix, "ogg", ext);
    SuffixDetermined(prefix, "unknown", ext);
  }

  /** As written, a type naming an inherited member is not named "unknown" but after that member's text. */
  lemma InheritedTypeNamed(url: string, prefix: string)
    requires MediaOf(url, prefix).Success?
    requires MimeMatch(Header(url)).Some? && Inherited(MimeMatch(Header(url)).value)
    ensures MediaOf(url, prefix).value.name == prefix + "." + InheritedText[MimeMatch(Header(url)).value]
    ensures MediaOf(url, prefix).value.name != prefix + "." + "unknown"
  {
    FileName(url, prefix);
  }

  /** The type "constructor": the intended table gives "unknown", the lookup as written the text of `Object`. */
  lemma ConstructorSuffix()
    ensures ExtensionFor("constructor") == "unknown"
    ensures SuffixFor("constructor") == "function Object() { [native code] }"
  {
    assert "constructor" !in MimeToExt.Keys;
    GetLiteral(MimeToExt, "constructor");
  }

  /** Any MIME type is accepted once a marker is present and the payload decodes. */
  lemma AnyMimeAccepted(url: string, prefix: string)
    requires HasMimeMarker(Header(url))
    requires Atob(AtobArgument(url)).Some?
    ensures MediaOf(url, prefix).Success?
  {
    MimeMatchNoneIff(Header(url));
  }

  /** The bytes are the decoded string's character codes, one per character. */
  lemma BytesAreCharCodes(url: string, prefix: string)
    requires MediaOf(url, prefix).Success?
    ensures Atob(AtobArgument(url)).Some?
    ensures var bstr := Atob(AtobArgument(url)).value; var data := MediaOf(url, prefix).value.data;
      |data| == |bstr| && forall i :: 0 <= i < |data| ==> data[i] == bstr[i] as int
  {
    var bstr := Atob(AtobArgument(url)).value;
    assert MediaOf(url, prefix).value.data == ToUint8Array(bstr);
    BinaryCharCodes(bstr);
  }

  /** On a binary string the `% 256` of the copy loses nothing. */
  lemma BinaryCharCodes(bstr: string)
    requires IsBinaryString(bstr)
    ensures forall i :: 0 <= i < |bstr| ==> ToUint8Array(bstr)[i] == bstr[i] as int
  {
    forall i | 0 <= i < |bstr| ensures ToUint8Array(bstr)[i] == bstr[i] as int {
      assert bstr[i] as int < 256;
    }
  }

  /** `atob` throws on text without whitespace whose length leaves a lone digit (the padding rule needs a multiple of four). */
  lemma AtobRejectsLoneDigit(s: string)
    requires forall i :: 0 <= i < |s| ==> !IsAsciiWhitespace(s[i])
    requires |s| % 4 == 1
    ensures Atob(s) == None
  {
    assert StripWhitespace(s) == s;
    assert DropPadding(s) == s;
  }

  /** "undefined": nine characters, none of them whitespace. */
  lemma UndefinedText()
    ensures |"undefined"| == 9
    ensures forall i :: 0 <= i < |"undefined"| ==> !IsAsciiWhitespace("undefined"[i])
  {
  }

  /** Without a comma `atob` gets "undefined", nine characters, and throws. */
  lemma MissingCommaThrows(url: string, prefix: string)
    requires ',' !in url && HasMimeMarker(Header(url))
    ensures MediaOf(url, prefix) == Failure(InvalidCharacter)
  {
    MimeMatchNoneIff(Header(url));
    assert IndexOf(url, ',') == |url|;
    var arg := AtobArgument(url);
    assert arg == "undefined";
    UndefinedText();
    AtobRejectsLoneDigit(arg);
  }

  /* ---- the partner: the data URL a bundler inlines for an asset ---- */

  /** `data:<mime>;base64,<payload>`. */
  function InlineDataUrl(mime: string, bytes: seq<Byte>): string {
    "data:" + mime + ";base64," + Encode(bytes)
  }

  lemma EncodeHasNoComma(bytes: seq<Byte>)
    ensures ',' !in Encode(bytes)
  {
    EncodeDigitsAreDigits(bytes);
    var d := EncodeDigits(bytes);
    var e := Encode(bytes);
    forall i | 0 <= i < |e| ensures e[i] != ',' {
      if i < |d| { assert e[i] == d[i] && IsDigit(d[i]); }
    }
  }

  /** The header of an inlined asset declares its type. */
  lemma InlineHeaderMime(mime: string)
    requires ';' !in mime && LineFree(mime)
    ensures MimeMatch("data:" + mime + ";base64") == Some(mime)
  {
    var header := "data:" + mime + ";base64";
    var tail := header[5..];
    assert tail == mime + ";base64";
    assert tail[|mime|] == ';';
    assert tail[..|mime|] == mime;
    assert SemicolonAt(tail) == Some(|mime|);
    assert header[4..][1..] == tail;
    assert MimeMatch(header[4..]) == Some(mime);
    assert header == "data" + header[4..];
    MimeMatchSkips("data", header[4..]);
  }

  lemma InlineSplits(mime: string, bytes: seq<Byte>)
    requires ',' !in mime
    ensures Header(InlineDataUrl(mime, bytes)) == "data:" + mime + ";base64"
    ensures PayloadPart(InlineDataUrl(mime, bytes)) == Some(Encode(bytes))
  {
    var header := "data:" + mime + ";base64";
    var payload := Encode(bytes);
    EncodeHasNoComma(bytes);
    assert ',' !in header by {
      forall i | 0 <= i < |header| ensures header[i] != ',' {
        if 5 <= i < 5 + |mime| { assert header[i] == mime[i - 5]; }
      }
    }
    assert InlineDataUrl(mime, bytes) == header + "," + payload;
    SplitJoined(header, payload);
  }

  /** An inlined asset decodes to its own bytes, its type as the Blob normalises it, and the matching file name. */
  lemma InlineRoundTrip(mime: string, bytes: seq<Byte>, prefix: string)
    requires ',' !in mime && ';' !in mime && LineFree(mime)
    ensures MediaOf(InlineDataUrl(mime, bytes), prefix) == Success(Media(bytes, BlobType(mime), prefix + "." + SuffixFor(mime)))
  {
    var url := InlineDataUrl(mime, bytes);
    var bstr := BinaryString(bytes);
    assert MimeMatch(Header(url)) == Some(mime) by {
      InlineSplits(mime, bytes);
      InlineHeaderMime(mime);
    }
    assert Atob(AtobArgument(url)) == Some(bstr) by {
      InlineSplits(mime, bytes);
      AtobEncode(bytes);
    }
    MediaOfBinary(url, prefix, mime, bytes);
  }
}
