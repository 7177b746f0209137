/** JavaScript value semantics that the handlers depend on: optional
    numbers read from JSON documents, the `x || d` fallback on numbers, and
    property lookup on a plain object parsed from JSON. */
module JsValues {

  datatype Option<+T> = None | Some(value: T)

  /** `Number(x) || d` for a number read from a JSON document: `None` stands
      for a missing field (or NaN), and `0` is falsy as well. */
  function OrElse(x: Option<int>, d: int): (r: int)
    ensures x.None? ==> r == d
    ensures x.Some? && x.value != 0 ==> r == x.value
    ensures x == Some(0) ==> r == d
  {
    if x.Some? && x.value != 0 then x.value else d
  }

  /** `Math.min` on integers. */
  function Min(a: int, b: int): (m: int)
    ensures m <= a && m <= b && (m == a || m == b)
  {
    if a <= b then a else b
  }

  /** The names a plain JavaScript object inherits from `Object.prototype`:
      reading one of them on an object that has no own property of that
      name yields a truthy built-in value rather than `undefined`. */
  const PrototypeMembers: set<string> := {
    "constructor", "__proto__", "__defineGetter__", "__defineSetter__",
    "__lookupGetter__", "__lookupSetter__", "hasOwnProperty", "isPrototypeOf",
    "propertyIsEnumerable", "toLocaleString", "toString", "valueOf"
  }

  /** What `obj[key]` yields on an object whose own properties are `m`. */
  datatype Property<V> = Own(value: V) | Inherited(key: string) | Undefined

  function GetProperty<V>(m: map<string, V>, key: string): (r: Property<V>)
    ensures r.Own? <==> key in m
    ensures r.Own? ==> r.value == m[key]
    ensures r.Inherited? <==> key !in m && key in PrototypeMembers
    ensures r.Undefined? <==> key !in m && key !in PrototypeMembers
  {
    if key in m then Own(m[key])
    else if key in PrototypeMembers then Inherited(key)
    else Undefined
  }
}
