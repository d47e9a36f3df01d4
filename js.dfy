/**
 * The small part of JavaScript value semantics that the graph preparation
 * relies on: JSON scalars, truthiness, the `||` and `??` operators, and
 * `Array.prototype.includes`.
 */
module Js {

  datatype Option<+T> = None | Some(value: T)

  /** A JSON scalar. A field that is missing from a record (JavaScript's
      `undefined`) is `None` in an `Option<Val>`; `null` is `Some(Null)`. */
  datatype Val = Null | Bool(b: bool) | Num(n: int) | Str(s: string)

  /** JavaScript truthiness of a field: `undefined`, `null`, `false`, `0`
      and `""` are falsy, everything else is truthy. */
  predicate Truthy(v: Option<Val>) {
    match v
    case None => false
    case Some(Null) => false
    case Some(Bool(b)) => b
    case Some(Num(n)) => n != 0
    case Some(Str(s)) => s != ""
  }

  /** `v || fallback`: the field itself when it is truthy, the fallback otherwise. */
  function Or(v: Option<Val>, fallback: Val): (r: Val)
    ensures Truthy(v) ==> Some(r) == v
    ensures !Truthy(v) ==> r == fallback
  {
    if Truthy(v) then v.value else fallback
  }

  /** A field that `??` keeps: anything but `undefined` and `null`. */
  predicate Present(v: Option<Val>) {
    v.Some? && v.value != Null
  }

  /** `v ?? fallback`: only `undefined` and `null` fall back; `0`, `false`
      and `""` are kept. */
  function Coalesce(v: Option<Val>, fallback: Val): (r: Val)
    ensures Present(v) ==> Some(r) == v
    ensures !Present(v) ==> r == fallback
  {
    if Present(v) then v.value else fallback
  }

  /** `xs.includes(x)` on an array parsed from JSON. JSON cannot hold
      `undefined`, so an absent `x` is never found; `null` can be. */
  predicate Includes(xs: seq<Val>, x: Option<Val>) {
    x.Some? && x.value in xs
  }
}
