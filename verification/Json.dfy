/**
 JSON values as the template back end sees them.

 The json-c library represents the JSON value `null` by a null pointer, so
 `Null` stands both for that value and for "nothing found".
 */
module Json {
  import opened Options

  datatype Field = Field(key: string, value: Json)

  datatype Json =
    | Null
    | Bool(b: bool)
    | Number(text: string, nonzero: bool)
    | Str(s: string)
    | Array(items: seq<Json>)
    | Object(fields: seq<Field>)

  /** Field lookup; anything that is not an object has no field. */
  function Lookup(o: Json, key: string): Option<Json> {
    if o.Object? then LookupField(o.fields, key) else None
  }

  function LookupField(fields: seq<Field>, key: string): Option<Json> {
    if fields == [] then None
    else if fields[0].key == key then Some(fields[0].value)
    else LookupField(fields[1..], key)
  }

  /** The boolean reading of a value, false on arrays and objects. */
  predicate Truthy(o: Json) {
    match o
    case Bool(b) => b
    case Number(_, nonzero) => nonzero
    case Str(s) => s != ""
    case _ => false
  }

  function Max(a: nat, b: nat): nat {
    if a < b then b else a
  }

  /** The length of the longest array anywhere inside a value. */
  ghost function Width(o: Json): nat
    decreases o, 1
  {
    match o
    case Array(items) => Max(|items|, WidthOfAll(items))
    case Object(fields) => WidthOfFields(fields)
    case _ => 0
  }

  ghost function WidthOfAll(items: seq<Json>): nat
    decreases items, 0
  {
    if items == [] then 0 else Max(Width(items[0]), WidthOfAll(items[1..]))
  }

  ghost function WidthOfFields(fields: seq<Field>): nat
    decreases fields, 0
  {
    if fields == [] then 0 else Max(Width(fields[0].value), WidthOfFields(fields[1..]))
  }

  lemma {:induction false} ItemWidth(items: seq<Json>, i: nat)
    requires i < |items|
    ensures Width(items[i]) <= WidthOfAll(items)
  {
    if i > 0 {
      ItemWidth(items[1..], i - 1);
    }
  }

  lemma {:induction false} FieldWidth(fields: seq<Field>, key: string)
    requires LookupField(fields, key).Some?
    ensures Width(LookupField(fields, key).value) <= WidthOfFields(fields)
  {
    if fields[0].key != key {
      FieldWidth(fields[1..], key);
    }
  }

  lemma LookupWidth(o: Json, key: string)
    requires Lookup(o, key).Some?
    ensures Width(Lookup(o, key).value) <= Width(o)
  {
    FieldWidth(o.fields, key);
  }
}
