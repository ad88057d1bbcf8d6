/**
 * What a plain JavaScript object (an object literal, `{}`) holds besides its
 * own properties: the members it inherits from `Object.prototype`. Reading
 * one of these names on an object that lacks an own property of that name
 * finds the inherited member, which is truthy.
 */
module PlainObjects {
  import opened Wrappers

  /**
   * The inherited members, each with the text a template literal makes of it
   * as V8 prints it: the methods print as native functions, and `__proto__`
   * reads as `Object.prototype` itself. Other engines lay out the text of a
   * native function differently (SpiderMonkey and JavaScriptCore break it
   * over lines); in every engine it is a text other than "unknown".
   */
  const InheritedText: map<string, string> := map[
    "constructor" := "function Object() { [native code] }",
    "toString" := "function toString() { [native code] }",
    "toLocaleString" := "function toLocaleString() { [native code] }",
    "valueOf" := "function valueOf() { [native code] }",
    "hasOwnProperty" := "function hasOwnProperty() { [native code] }",
    "isPrototypeOf" := "function isPrototypeOf() { [native code] }",
    "propertyIsEnumerable" := "function propertyIsEnumerable() { [native code] }",
    "__proto__" := "[object Object]",
    "__defineGetter__" := "function __defineGetter__() { [native code] }",
    "__defineSetter__" := "function __defineSetter__() { [native code] }",
    "__lookupGetter__" := "function __lookupGetter__() { [native code] }",
    "__lookupSetter__" := "function __lookupSetter__() { [native code] }"
  ]

  /** `name` is found on every plain object, through its prototype. */
  predicate Inherited(name: string) {
    name in InheritedText
  }

  /** An object a property read walks: an object literal with its own string properties, or `Object.prototype`, where the chain ends. */
  datatype Obj = Literal(own: map<string, string>) | ObjectPrototype

  /** The object's own properties. */
  function Own(o: Obj): map<string, string> {
    match o
    case Literal(own) => own
    case ObjectPrototype => InheritedText
  }

  /** `o[key]`: the own property, else what the prototype holds; `None` is `undefined`. */
  function Get(o: Obj, key: string): Option<string>
    decreases o.Literal?
  {
    if key in Own(o) then Some(Own(o)[key])
    else if o.Literal? then Get(ObjectPrototype, key)
    else None
  }

  /** Reading an object literal finds its own property, else the inherited member, else `undefined`. */
  lemma GetLiteral(own: map<string, string>, key: string)
    ensures Get(Literal(own), key) ==
      if key in own then Some(own[key]) else if Inherited(key) then Some(InheritedText[key]) else None
  {
    if key !in own {
      assert Get(Literal(own), key) == Get(ObjectPrototype, key);
    }
  }

  /** The one inherited member that is an accessor: assigning a non-object to it is ignored, and assigning an object replaces the prototype. */
  const ProtoKey: string := "__proto__"
}
