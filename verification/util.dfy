/**
 * `extend` of src/scripts/services/util.js, a jQuery-style deep merge: the
 * own properties of every later argument are merged, left to right, into the
 * first; where both sides hold an object (`typeof` is 'object', which includes
 * `null`) the merge recurses, otherwise a defined source value replaces the
 * target's. Objects are modelled as values, so the merged first argument is
 * what `extend` returns.
 */
module Util {
  import opened Wrappers
  import opened PlainObjects

  /** A JavaScript value: `Prim` stands for strings, numbers and booleans. */
  datatype Json = Undefined | Null | Prim(text: string) | Obj(props: map<string, Json>)

  /** Reading a property of `null` throws. */
  datatype MergeError = TypeError

  /** `typeof v === 'object'`. */
  predicate IsObjectType(v: Json) {
    v.Obj? || v.Null?
  }

  /**
   * `m[key]` as `extend` uses it: an own key's value, and `undefined` for
   * every other key. The methods a plain object inherits are functions, whose
   * `typeof` is not 'object', so `extend` treats them as it treats
   * `undefined`; the inherited `__proto__`, an object, is kept out by
   * `NoProtoKey`.
   */
  function Get(m: map<string, Json>, key: string): Json {
    if key in m then m[key] else Undefined
  }

  /**
   * No object in `v`, at any depth, has an own `__proto__` key. For a source
   * with one, `extend` merges into `Object.prototype` (an object value) or
   * drops the value (a primitive, which the accessor ignores).
   */
  predicate NoProtoKey(v: Json)
    decreases v
  {
    v.Obj? ==> ProtoKey !in v.props && forall k :: k in v.props ==> NoProtoKey(v.props[k])
  }

  /** The own keys whose value is not `undefined`. */
  function DefinedKeys(m: map<string, Json>): set<string> {
    set k | k in m && m[k] != Undefined
  }

  /** The value the target's property `tv` has after merging the source's own property `sv`. */
  function MergeKey(tv: Json, sv: Json): Result<Json, MergeError>
    decreases sv, 2
  {
    if IsObjectType(tv) && IsObjectType(sv) then MergeOne(tv, sv)
    else if sv != Undefined then Success(sv)
    else Success(tv)
  }

  /** `extend(target, source)` for a target that is an object or `null`. */
  function MergeOne(target: Json, source: Json): Result<Json, MergeError>
    requires IsObjectType(target)
    decreases source, 1
  {
    if !source.Obj? || source.props == map[] then Success(target)
    else if target.Null? then Failure(TypeError)
    else
      match MergeObject(target.props, source.props)
      case Success(m) => Success(Obj(m))
      case Failure(e) => Failure(e)
  }

  /** The properties of an object after all own properties of `s` are merged in. */
  function MergeObject(t: map<string, Json>, s: map<string, Json>): Result<map<string, Json>, MergeError>
    decreases Obj(s), 0
  {
    if exists k :: k in s && MergeKey(Get(t, k), s[k]).Failure? then Failure(TypeError)
    else Success(map k | k in t.Keys + DefinedKeys(s) ::
      if k in s then MergeKey(Get(t, k), s[k]).value else t[k])
  }

  /** `extend(target, ...sources)`: the sources merged in left to right. */
  function ExtendAll(target: Json, sources: seq<Json>): Result<Json, MergeError>
    requires IsObjectType(target)
    decreases |sources|
  {
    if sources == [] then Success(target)
    else
      match MergeOne(target, sources[0])
      case Failure(e) => Failure(e)
      case Success(t) =>
        assert MergeOneKeepsType(target, sources[0]);
        ExtendAll(t, sources[1..])
  }

  /** Merging into an object gives an object, and into `null` gives `null`. */
  predicate MergeOneKeepsType(target: Json, source: Json)
    requires IsObjectType(target)
  {
    MergeOne(target, source).Success? ==>
      (target.Obj? ==> MergeOne(target, source).value.Obj?) &&
      (target.Null? ==> MergeOne(target, source).value.Null?)
  }

  /* ---- the source's loops ---- */

  /** The inner loop: `for (let key in source)` over own properties, recursing where both sides are objects. */
  method ExtendOne(target: Json, source: Json) returns (r: Result<Json, MergeError>)
    requires IsObjectType(target) && NoProtoKey(source)
    ensures r == MergeOne(target, source)
    decreases source, 1
  {
    if !source.Obj? || source.props == map[] {
      return Success(target);
    }
    var s := source.props;
    if target.Null? {
      return Failure(TypeError);
    }
    var t := target.props;
    var keys := s.Keys;
    while keys != {}
      invariant keys <= s.Keys
      invariant forall k :: k in s && k !in keys ==> MergeKey(Get(target.props, k), s[k]).Success?
      invariant forall k :: k in t <==> k in target.props || (k in s && k !in keys && s[k] != Undefined)
      invariant forall k :: k in t ==>
        t[k] == if k in s && k !in keys then MergeKey(Get(target.props, k), s[k]).value else target.props[k]
      decreases keys
    {
      var k :| k in keys;
      var tv := Get(t, k);
      assert tv == Get(target.props, k);
      var sv := s[k];
      if IsObjectType(tv) && IsObjectType(sv) {
        assert NoProtoKey(sv);
        var sub := ExtendOne(tv, sv);
        if sub.Failure? {
          assert k in s && MergeKey(Get(target.props, k), s[k]).Failure?;
          assert MergeObject(target.props, s).Failure?;
          return Failure(TypeError);
        }
        t := t[k := sub.value];
      } else if sv != Undefined {
        t := t[k := sv];
      }
      keys := keys - {k};
    }
    assert MergeObject(target.props, s).Success?;
    assert t == MergeObject(target.props, s).value;
    return Success(Obj(t));
  }

  /** `extend(...args)`: the outer loop over the arguments after the first. */
  method Extend(target: Json, sources: seq<Json>) returns (r: Result<Json, MergeError>)
    requires IsObjectType(target)
    requires forall i :: 0 <= i < |sources| ==> NoProtoKey(sources[i])
    ensures r == ExtendAll(target, sources)
  {
    var current := target;
    var i := 0;
    while i < |sources|
      invariant 0 <= i <= |sources|
      invariant IsObjectType(current)
      invariant ExtendAll(current, sources[i..]) == ExtendAll(target, sources)
    {
      assert sources[i..][0] == sources[i] && sources[i..][1..] == sources[i + 1..];
      var next := ExtendOne(current, sources[i]);
      if next.Failure? {
        return Failure(next.error);
      }
      assert MergeOneKeepsType(current, sources[i]);
      current := next.value;
      i := i + 1;
    }
    return Success(current);
  }

  /* ---- properties ---- */

  /** The own keys of an argument that hold a defined value (`for ... in` sees no own keys of a non-object). */
  function DefinedOwnKeys(v: Json): set<string> {
    if v.Obj? then DefinedKeys(v.props) else {}
  }

  /** With no argument after the first, the first is returned as it is. */
  lemma ExtendNothing(target: Json)
    requires IsObjectType(target)
    ensures ExtendAll(target, []) == Success(target)
  {
  }

  /** Merging one source into an object: keys the source does not define keep their value and presence; a primitive it defines replaces the target's. */
  lemma MergeOneAt(t: map<string, Json>, source: Json, k: string)
    requires MergeOne(Obj(t), source).Success? && NoProtoKey(source)
    ensures MergeOne(Obj(t), source).value.Obj?
    ensures var r := MergeOne(Obj(t), source).value.props;
      && (k !in DefinedOwnKeys(source) ==> (k in r <==> k in t) && (k in t ==> r[k] == t[k]))
      && (source.Obj? && k in source.props && source.props[k].Prim? ==> k in r && r[k] == source.props[k])
  {
    if source.Obj? && source.props != map[] {
      var s := source.props;
      var r := MergeObject(t, s).value;
      assert MergeOne(Obj(t), source).value.props == r;
      assert r.Keys == t.Keys + DefinedKeys(s);
      if k !in s {
        assert k in t ==> r[k] == t[k];
      } else if s[k] == Undefined {
        assert k !in DefinedKeys(s);
        assert k in t ==> MergeKey(Get(t, k), s[k]) == Success(t[k]) && r[k] == t[k];
      } else if s[k].Prim? {
        assert k in DefinedKeys(s);
        assert MergeKey(Get(t, k), s[k]) == Success(s[k]);
      }
    }
  }

  /** Where both sides hold objects the merge recurses, so the target object's own keys survive in the merged one. */
  lemma NestedKeysSurvive(tm: map<string, Json>, sm: map<string, Json>, k: string)
    requires MergeKey(Obj(tm), Obj(sm)).Success? && k in tm && k !in sm && NoProtoKey(Obj(sm))
    ensures MergeKey(Obj(tm), Obj(sm)).value.Obj?
    ensures var rm := MergeKey(Obj(tm), Obj(sm)).value.props; k in rm && rm[k] == tm[k]
  {
    MergeOneAt(tm, Obj(sm), k);
  }

  /** A key no source defines keeps the target's value: `undefined` never overwrites, and other keys are untouched. */
  lemma {:induction false} ExtendKeepsUndefinedKeys(t: map<string, Json>, sources: seq<Json>, k: string)
    requires ExtendAll(Obj(t), sources).Success?
    requires forall i :: 0 <= i < |sources| ==> NoProtoKey(sources[i])
    requires forall i :: 0 <= i < |sources| ==> k !in DefinedOwnKeys(sources[i])
    ensures ExtendAll(Obj(t), sources).value.Obj?
    ensures var r := ExtendAll(Obj(t), sources).value.props; (k in r <==> k in t) && (k in t ==> r[k] == t[k])
    decreases |sources|
  {
    if sources != [] {
      MergeOneAt(t, sources[0], k);
      var next := MergeOne(Obj(t), sources[0]).value;
      forall i | 0 <= i < |sources[1..]| ensures k !in DefinedOwnKeys(sources[1..][i]) && NoProtoKey(sources[1..][i]) {
        assert sources[1..][i] == sources[i + 1];
      }
      ExtendKeepsUndefinedKeys(next.props, sources[1..], k);
    }
  }

  /** Sources apply left to right: the last source that defines a key with a primitive value decides it. */
  lemma {:induction false} ExtendLastDefinedWins(t: map<string, Json>, sources: seq<Json>, j: nat, k: string)
    requires ExtendAll(Obj(t), sources).Success?
    requires forall i :: 0 <= i < |sources| ==> NoProtoKey(sources[i])
    requires j < |sources| && sources[j].Obj? && k in sources[j].props && sources[j].props[k].Prim?
    requires forall i :: j < i < |sources| ==> k !in DefinedOwnKeys(sources[i])
    ensures ExtendAll(Obj(t), sources).value.Obj?
    ensures var r := ExtendAll(Obj(t), sources).value.props; k in r && r[k] == sources[j].props[k]
    decreases |sources|
  {
    MergeOneAt(t, sources[0], k);
    var next := MergeOne(Obj(t), sources[0]).value;
    forall i | 0 <= i < |sources[1..]| ensures NoProtoKey(sources[1..][i]) {
      assert sources[1..][i] == sources[i + 1];
    }
    if j == 0 {
      forall i | 0 <= i < |sources[1..]| ensures k !in DefinedOwnKeys(sources[1..][i]) {
        assert sources[1..][i] == sources[i + 1];
      }
      ExtendKeepsUndefinedKeys(next.props, sources[1..], k);
    } else {
      forall i | j - 1 < i < |sources[1..]| ensures k !in DefinedOwnKeys(sources[1..][i]) {
        assert sources[1..][i] == sources[i + 1];
      }
      ExtendLastDefinedWins(next.props, sources[1..], j - 1, k);
    }
  }

  /** `extend({}, params)`: a copy of the defined own properties of `params`. */
  lemma ExtendIntoEmpty(params: map<string, Json>)
    requires NoProtoKey(Obj(params))
    ensures ExtendAll(Obj(map[]), [Obj(params)]) == Success(Obj(map k | k in DefinedKeys(params) :: params[k]))
  {
    var empty: map<string, Json> := map[];
    if params != map[] {
      forall k | k in params ensures MergeKey(Get(empty, k), params[k]) == Success(params[k]) {
        assert Get(empty, k) == Undefined;
      }
      var copy := map k | k in DefinedKeys(params) :: params[k];
      var merged := MergeObject(empty, params);
      assert merged.Success?;
      assert merged.value.Keys == copy.Keys;
      assert merged.value == copy;
    }
  }

  /** Merging an object with at least one own key into `null` throws. */
  lemma NullTargetThrows(s: map<string, Json>)
    requires s != map[]
    ensures MergeOne(Null, Obj(s)) == Failure(TypeError)
  {
  }
}
