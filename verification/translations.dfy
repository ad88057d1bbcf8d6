/**
 * `fillDictionary` of src/scripts/h5p-editor-game-sounds.js: each flat
 * translation key is split on runs of '.' or '/', and its string is stored
 * along that path in a nested object, creating an intermediate object where
 * none (or only a falsy value) is present and reusing the one that is.
 * Nested objects are modelled as values: a node is a string leaf or a branch
 * mapping names to nodes.
 */
module Translations {
  import opened Wrappers
  import opened PlainObjects

  datatype Tree = Leaf(text: string) | Branch(children: map<string, Tree>)

  /* ---- `key.split(/[./]+/)` ---- */

  predicate IsSeparator(c: char) {
    c == '.' || c == '/'
  }

  predicate SeparatorFree(s: string) {
    forall i :: 0 <= i < |s| ==> !IsSeparator(s[i])
  }

  /** Drops the run of separators at the front of `s`. */
  function SkipSeparators(s: string): (r: string)
    ensures |r| <= |s| && r == s[|s| - |r|..]
    ensures s != [] && IsSeparator(s[0]) ==> |r| < |s|
    ensures r == [] || !IsSeparator(r[0])
  {
    if s != [] && IsSeparator(s[0]) then SkipSeparators(s[1..]) else s
  }

  /** The segments of a key: a run of separators ends a segment, and a leading or trailing run yields an empty one. */
  function SplitKey(key: string): (r: seq<string>)
    ensures |r| >= 1
    decreases |key|
  {
    if key == [] then [""]
    else if IsSeparator(key[0]) then [""] + SplitKey(SkipSeparators(key))
    else
      var rest := SplitKey(key[1..]);
      [[key[0]] + rest[0]] + rest[1..]
  }

  /** Segments with no separator in them and no empty one except possibly the first and the last. */
  predicate WellFormedPath(segs: seq<string>) {
    |segs| >= 1 &&
    (forall i :: 0 <= i < |segs| ==> SeparatorFree(segs[i])) &&
    (forall i :: 0 < i < |segs| - 1 ==> segs[i] != "")
  }

  /** The segments joined with '.' */
  function JoinPath(segs: seq<string>): string
    requires |segs| >= 1
  {
    if |segs| == 1 then segs[0] else segs[0] + "." + JoinPath(segs[1..])
  }

  lemma {:induction false} SplitKeyWellFormed(key: string)
    ensures WellFormedPath(SplitKey(key))
    decreases |key|
  {
    if key == [] {
    } else if IsSeparator(key[0]) {
      var s := SkipSeparators(key);
      SplitKeyWellFormed(s);
      var r := SplitKey(s);
      if s != [] {
        SplitKeyStartsWith(s);
      }
      assert SplitKey(key) == [""] + r;
    } else {
      SplitKeyWellFormed(key[1..]);
      SplitKeyFirst(key);
      var rest := SplitKey(key[1..]);
      var r := SplitKey(key);
      assert r[0] == [key[0]] + rest[0];
      forall i | 0 <= i < |r| ensures SeparatorFree(r[i]) {
        if i > 0 { assert r[i] == rest[i]; }
      }
      forall i | 0 < i < |r| - 1 ensures r[i] != "" {
        assert r[i] == rest[i];
      }
    }
  }

  /** A key that starts with a non-separator has a non-empty first segment starting with that character. */
  lemma SplitKeyStartsWith(key: string)
    requires key != [] && !IsSeparator(key[0])
    ensures SplitKey(key)[0] != "" && SplitKey(key)[0][0] == key[0]
  {
    var first := [key[0]] + SplitKey(key[1..])[0];
    assert SplitKey(key)[0] == first;
    assert first[0] == key[0];
  }

  /** A key that starts with a non-separator: that character joins the first segment of the rest. */
  lemma SplitKeyFirst(k: string)
    requires k != [] && !IsSeparator(k[0])
    ensures SplitKey(k) == [[k[0]] + SplitKey(k[1..])[0]] + SplitKey(k[1..])[1..]
  {
  }

  lemma GlueFirst(a: string, r0: string, rt: seq<string>, rest: seq<string>)
    requires a != [] && rt == [a[1..] + r0] + rest
    ensures [[a[0]] + rt[0]] + rt[1..] == [a + r0] + rest
  {
    assert rt[0] == a[1..] + r0 && rt[1..] == rest;
    assert [a[0]] + (a[1..] + r0) == a + r0;
  }

  /** Splitting a separator-free prefix glued to the rest extends the rest's first segment. */
  lemma {:induction false} SplitKeyPrefix(a: string, s: string)
    requires SeparatorFree(a)
    ensures SplitKey(a + s) == [a + SplitKey(s)[0]] + SplitKey(s)[1..]
    decreases |a|
  {
    var r := SplitKey(s);
    if a == [] {
      assert a + s == s && a + r[0] == r[0];
      assert r == [r[0]] + r[1..];
    } else {
      var k := a + s;
      assert k[0] == a[0] && k[1..] == a[1..] + s;
      SplitKeyFirst(k);
      SplitKeyPrefix(a[1..], s);
      GlueFirst(a, r[0], SplitKey(k[1..]), r[1..]);
    }
  }

  lemma SkipDot(rest: string)
    requires rest == [] || !IsSeparator(rest[0])
    ensures SkipSeparators("." + rest) == rest
  {
    assert ("." + rest)[1..] == rest;
  }

  /** A single '.' in front of text that does not start with a separator opens an empty segment. */
  lemma SplitKeyDot(rest: string)
    requires rest == [] || !IsSeparator(rest[0])
    ensures SplitKey("." + rest) == [""] + SplitKey(rest)
  {
    SkipDot(rest);
    assert ("." + rest)[0] == '.';
  }

  /** A separator-free segment, a '.', and text that does not start with a separator split into that segment and the text's own segments. */
  lemma SplitDotted(x: string, rest: string)
    requires SeparatorFree(x) && (rest == [] || !IsSeparator(rest[0]))
    ensures SplitKey(x + "." + rest) == [x] + SplitKey(rest)
  {
    var dotted := "." + rest;
    DotAssociates(x, rest);
    SplitKeyDot(rest);
    SplitKeyPrefix(x, dotted);
    GlueEmpty(x, SplitKey(dotted), SplitKey(rest));
  }

  lemma DotAssociates(x: string, rest: string)
    ensures x + "." + rest == x + ("." + rest)
  {
  }

  lemma GlueEmpty(x: string, d: seq<string>, r: seq<string>)
    requires d == [""] + r
    ensures [x + d[0]] + d[1..] == [x] + r
  {
    assert d[0] == "" && d[1..] == r;
    assert x + "" == x;
  }

  /** Joining well-formed segments with '.' and splitting again gives them back. */
  lemma {:induction false} SplitJoin(segs: seq<string>)
    requires WellFormedPath(segs)
    ensures SplitKey(JoinPath(segs)) == segs
    decreases |segs|
  {
    if |segs| == 1 {
      SplitKeyPrefix(segs[0], "");
      assert segs[0] + "" == segs[0];
    } else {
      var tail := segs[1..];
      WellFormedTail(segs);
      SplitJoin(tail);
      JoinedTailStart(segs);
      SplitDotted(segs[0], JoinPath(tail));
      assert segs == [segs[0]] + tail;
    }
  }

  lemma WellFormedTail(segs: seq<string>)
    requires WellFormedPath(segs) && |segs| > 1
    ensures WellFormedPath(segs[1..])
  {
    var tail := segs[1..];
    forall i | 0 <= i < |tail| ensures SeparatorFree(tail[i]) { assert tail[i] == segs[i + 1]; }
    forall i | 0 < i < |tail| - 1 ensures tail[i] != "" { assert tail[i] == segs[i + 1]; }
  }

  /** What follows the first '.' of a joined path does not start with a separator. */
  lemma JoinedTailStart(segs: seq<string>)
    requires WellFormedPath(segs) && |segs| > 1
    ensures var rest := JoinPath(segs[1..]); rest == [] || !IsSeparator(rest[0])
  {
    var tail := segs[1..];
    WellFormedTail(segs);
    if |segs| > 2 {
      assert tail[0] == segs[1] != "";
      JoinStartsWith(tail);
    } else {
      assert JoinPath(tail) == segs[1];
      assert SeparatorFree(segs[1]);
    }
  }


  lemma JoinStartsWith(segs: seq<string>)
    requires WellFormedPath(segs) && segs[0] != ""
    ensures JoinPath(segs) != [] && JoinPath(segs)[0] == segs[0][0]
  {
  }

  /* ---- the nested object ---- */

  /** The value reached by walking `path` from an object, if it is a string. */
  function Lookup(node: map<string, Tree>, path: seq<string>): Option<string>
    decreases |path|
  {
    if |path| == 0 || path[0] !in node then None
    else if |path| == 1 then
      (if node[path[0]].Leaf? then Some(node[path[0]].text) else None)
    else if node[path[0]].Branch? then Lookup(node[path[0]].children, path[1..])
    else None
  }

  /**
   * The walk never meets a non-empty string where it needs an object
   * (assigning a property to a string throws in strict mode; such keys are
   * outside this model), never walks into a member the object inherits
   * (`!current[split]` finds it, so the walk would write into
   * `Object.prototype` or `Object`), and never stores at `__proto__`.
   */
  predicate Insertable(node: map<string, Tree>, path: seq<string>)
    decreases |path|
  {
    |path| >= 1 &&
    (|path| == 1 ==> path[0] != ProtoKey) &&
    (|path| > 1 ==>
      (path[0] !in node ==> !Inherited(path[0])) &&
      (path[0] in node && node[path[0]].Leaf? ==> node[path[0]].text == "") &&
      Insertable(Descend(node, path[0]), path[1..]))
  }

  /** `if (!current[split]) current[split] = {}; current = current[split];` as a value. */
  function Descend(node: map<string, Tree>, name: string): map<string, Tree> {
    if name in node && node[name].Branch? then node[name].children else map[]
  }

  /** Stores `value` at the end of `path`, reusing intermediate objects that exist. */
  function Insert(node: map<string, Tree>, path: seq<string>, value: string): (r: map<string, Tree>)
    requires Insertable(node, path)
    ensures r.Keys == node.Keys + {path[0]}
    decreases |path|
  {
    if |path| == 1 then node[path[0] := Leaf(value)]
    else node[path[0] := Branch(Insert(Descend(node, path[0]), path[1..], value))]
  }

  /** Neither path is a prefix of the other. */
  predicate Diverge(p: seq<string>, q: seq<string>)
    decreases |p|
  {
    |p| > 0 && |q| > 0 && (p[0] != q[0] || Diverge(p[1..], q[1..]))
  }

  /** The inserted string is found at its path: a later key with the same path overwrites. */
  lemma {:induction false} InsertFinds(node: map<string, Tree>, path: seq<string>, value: string)
    requires Insertable(node, path)
    ensures Lookup(Insert(node, path, value), path) == Some(value)
    decreases |path|
  {
    if |path| > 1 {
      InsertFinds(Descend(node, path[0]), path[1..], value);
    }
  }

  /** Strings stored at every path that diverges from the inserted one survive: existing objects are reused, not replaced. */
  lemma {:induction false} InsertKeeps(node: map<string, Tree>, path: seq<string>, value: string, other: seq<string>)
    requires Insertable(node, path) && Diverge(path, other)
    ensures Lookup(Insert(node, path, value), other) == Lookup(node, other)
    decreases |path|
  {
    if path[0] != other[0] {
    } else {
      var sub := Descend(node, path[0]);
      InsertKeeps(sub, path[1..], value, other[1..]);
      if path[0] in node && node[path[0]].Leaf? {
        assert Lookup(sub, other[1..]) == None;
      }
    }
  }

  /* ---- the loop over all keys ---- */

  /** Every key can be stored in turn. */
  predicate Fillable(node: map<string, Tree>, entries: seq<(string, string)>)
    decreases |entries|
  {
    entries == [] ||
    (Insertable(node, SplitKey(entries[0].0)) &&
     Fillable(Insert(node, SplitKey(entries[0].0), entries[0].1), entries[1..]))
  }

  /** The object after storing every entry, in order. */
  function Filled(node: map<string, Tree>, entries: seq<(string, string)>): map<string, Tree>
    requires Fillable(node, entries)
    decreases |entries|
  {
    if entries == [] then node
    else Filled(Insert(node, SplitKey(entries[0].0), entries[0].1), entries[1..])
  }

  /**
   * Entry `j`'s string is found at its path when every later entry's path
   * diverges from it; in particular the last of several entries with one path wins.
   */
  lemma {:induction false} FilledFinds(node: map<string, Tree>, entries: seq<(string, string)>, j: nat)
    requires Fillable(node, entries) && j < |entries|
    requires forall k :: j < k < |entries| ==> Diverge(SplitKey(entries[k].0), SplitKey(entries[j].0))
    ensures Lookup(Filled(node, entries), SplitKey(entries[j].0)) == Some(entries[j].1)
    decreases |entries|
  {
    var next := Insert(node, SplitKey(entries[0].0), entries[0].1);
    if j == 0 {
      InsertFinds(node, SplitKey(entries[0].0), entries[0].1);
      FilledKeeps(next, entries[1..], SplitKey(entries[0].0));
    } else {
      forall k | j - 1 < k < |entries[1..]|
        ensures Diverge(SplitKey(entries[1..][k].0), SplitKey(entries[1..][j - 1].0))
      {
        assert entries[1..][k] == entries[k + 1];
      }
      FilledFinds(next, entries[1..], j - 1);
    }
  }

  /** Storing entries whose paths all diverge from `path` leaves what `path` reaches alone. */
  lemma {:induction false} FilledKeeps(node: map<string, Tree>, entries: seq<(string, string)>, path: seq<string>)
    requires Fillable(node, entries)
    requires forall k :: 0 <= k < |entries| ==> Diverge(SplitKey(entries[k].0), path)
    ensures Lookup(Filled(node, entries), path) == Lookup(node, path)
    decreases |entries|
  {
    if entries != [] {
      InsertKeeps(node, SplitKey(entries[0].0), entries[0].1, path);
      var next := Insert(node, SplitKey(entries[0].0), entries[0].1);
      forall k | 0 <= k < |entries[1..]| ensures Diverge(SplitKey(entries[1..][k].0), path) {
        assert entries[1..][k] == entries[k + 1];
      }
      FilledKeeps(next, entries[1..], path);
    }
  }

  /**
   * `fillDictionary`: `libraryStrings` (absent is `{}`) as its keys are
   * enumerated; each key's path is walked and its string stored.
   */
  method FillDictionary(libraryStrings: Option<seq<(string, string)>>) returns (translations: map<string, Tree>)
    requires libraryStrings.Some? ==> Fillable(map[], libraryStrings.value)
    ensures translations == Filled(map[], if libraryStrings.Some? then libraryStrings.value else [])
  {
    var plain := if libraryStrings.Some? then libraryStrings.value else [];
    translations := map[];
    var i := 0;
    while i < |plain|
      invariant 0 <= i <= |plain|
      invariant Fillable(translations, plain[i..])
      invariant Filled(translations, plain[i..]) == Filled(map[], plain)
    {
      var splits := SplitKey(plain[i].0);
      assert plain[i..][0] == plain[i] && plain[i..][1..] == plain[i + 1..];
      translations := Insert(translations, splits, plain[i].1);
      i := i + 1;
    }
  }
}
