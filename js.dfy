/**
 * The fragment of JavaScript semantics the todo code relies on: primitive
 * values and their truthiness, plain objects as records of named
 * properties, property access, object spread and `String.prototype.includes`.
 */
module Js {

  /**
   * A JavaScript value as it can appear in a todo record. Numbers are
   * integers only; a `Date` is represented by its time value in milliseconds.
   */
  datatype Value =
    | Undefined
    | Null
    | Bool(b: bool)
    | Num(n: int)
    | Str(s: string)
    | Date(time: int)

  /**
   * ToBoolean (section 7.1.2 of ECMA-262), the test behind `if (v)` and
   * `!v`: exactly undefined, null, false, 0 and "" are falsy.
   */
  function Truthy(v: Value): (b: bool)
    ensures !b <==> v == Undefined || v == Null || v == Bool(false) || v == Num(0) || v == Str("")
  {
    match v
    case Undefined => false
    case Null => false
    case Bool(b) => b
    case Num(n) => n != 0
    case Str(s) => s != ""
    case Date(_) => true
  }

  /** A plain object: its own properties and their values. */
  type Record = map<string, Value>

  /** `obj.field`: the property's value, or undefined when the object has no such property. */
  function Get(obj: Record, field: string): Value {
    if field in obj then obj[field] else Undefined
  }

  /**
   * `{ ...item, ...updates }`: a shallow merge in which every property of
   * `updates` overrides, and every other property of `item` is kept.
   */
  function Merge(item: Record, updates: Record): (r: Record)
    ensures r.Keys == item.Keys + updates.Keys
    ensures forall f :: f in updates ==> r[f] == updates[f]
    ensures forall f :: f in item && f !in updates ==> r[f] == item[f]
  {
    item + updates
  }

  /** Reading a property of a merge: the value from `updates` when it has the property, otherwise the property of `item`. */
  lemma GetMerge(item: Record, updates: Record, f: string)
    ensures Get(Merge(item, updates), f) == if f in updates then updates[f] else Get(item, f)
  {
  }

  /** `needle` occurs in `hay` starting at position `i`. */
  ghost predicate OccursAt(hay: string, needle: string, i: nat) {
    i + |needle| <= |hay| && hay[i..i + |needle|] == needle
  }

  /**
   * `hay.includes(needle)`: case-sensitive substring search, comparing
   * characters exactly (the empty string occurs everywhere).
   */
  function Includes(hay: string, needle: string): (b: bool)
    ensures b <==> exists i: nat :: OccursAt(hay, needle, i)
    decreases |hay|
  {
    if needle <= hay then
      assert OccursAt(hay, needle, 0);
      true
    else if |hay| == 0 then
      false
    else
      var b := Includes(hay[1..], needle);
      ShiftOccurrence(hay, needle);
      b
  }

  /** An occurrence past the first character of `hay` is an occurrence in `hay[1..]`, one place earlier. */
  lemma ShiftOccurrence(hay: string, needle: string)
    requires |hay| > 0 && !(needle <= hay)
    ensures (exists i: nat :: OccursAt(hay, needle, i)) <==> (exists i: nat :: OccursAt(hay[1..], needle, i))
  {
    if i: nat :| OccursAt(hay, needle, i) {
      if i == 0 {
        assert false;
      }
      assert hay[1..][i - 1..i - 1 + |needle|] == hay[i..i + |needle|];
      assert OccursAt(hay[1..], needle, i - 1);
    }
    if i: nat :| OccursAt(hay[1..], needle, i) {
      assert hay[1..][i..i + |needle|] == hay[i + 1..i + 1 + |needle|];
      assert OccursAt(hay, needle, i + 1);
    }
  }
}
