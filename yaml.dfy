/**
 * A parsed YAML document, as the YAML parser hands it to the program.
 *
 * A mapping is the parser's insertion-ordered map: its entries keep document
 * order and its keys are distinct (the parser merges a repeated key into one
 * entry). Keys are strings. A missing key and a key bound to `null` read the
 * same: `Map.get` returns null for both.
 */
module Yaml {

  datatype Value =
    | Null
    | Bool(b: bool)
    | Str(s: string)
    | Scalar(text: string)   // any other scalar (a number, a date), with the text its toString gives
    | List(items: seq<Value>)
    | Map(entries: seq<Entry>)

  datatype Entry = Entry(key: string, value: Value)

  /** The keys a mapping binds. */
  function KeysOf(entries: seq<Entry>): set<string>
  {
    set i | 0 <= i < |entries| :: entries[i].key
  }

  /** The keys of a mapping as the parser builds it are distinct. */
  predicate DistinctKeys(entries: seq<Entry>)
  {
    forall i, j :: 0 <= i < j < |entries| ==> entries[i].key != entries[j].key
  }

  /** `Map.get(key)`: the value bound to `key`, or `Null` when it is unbound. */
  function Get(entries: seq<Entry>, key: string): (v: Value)
    ensures key !in KeysOf(entries) ==> v == Null
    ensures key in KeysOf(entries) ==>
      exists i :: 0 <= i < |entries| && entries[i].key == key && entries[i].value == v
    ensures forall i :: 0 <= i < |entries| && entries[i].key == key && DistinctKeys(entries) ==>
      v == entries[i].value
  {
    if entries == [] then Null
    else if entries[0].key == key then entries[0].value
    else
      assert KeysOf(entries) == {entries[0].key} + KeysOf(entries[1..]) by {
        forall k | k in KeysOf(entries) ensures k in {entries[0].key} + KeysOf(entries[1..]) {
          var i :| 0 <= i < |entries| && entries[i].key == k;
          if i > 0 { assert entries[1..][i - 1] == entries[i]; }
        }
      }
      Get(entries[1..], key)
  }

  /** The text Java's `toString` gives a parsed value: lists as `[a, b]`,
      mappings as `{k=v, k2=v2}` in entry order, null as `null`. */
  function Text(v: Value): string
    decreases v, 1
  {
    match v
    case Null => "null"
    case Bool(b) => if b then "true" else "false"
    case Str(s) => s
    case Scalar(t) => t
    case List(items) => "[" + ItemsText(items) + "]"
    case Map(entries) => "{" + EntriesText(entries) + "}"
  }

  function ItemsText(items: seq<Value>): string
    decreases items, 0
  {
    if items == [] then ""
    else Text(items[0]) + (if |items| == 1 then "" else ", " + ItemsText(items[1..]))
  }

  function EntriesText(entries: seq<Entry>): string
    decreases entries, 0
  {
    if entries == [] then ""
    else
      entries[0].key + "=" + Text(entries[0].value)
      + (if |entries| == 1 then "" else ", " + EntriesText(entries[1..]))
  }
}
