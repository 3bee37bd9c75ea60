/**
 * The JSON values that the tree is converted to and from.  A number is kept as
 * the real it denotes; an object maps each key to one value, as the JSON
 * library's default (sorted, unique-key) object type does.
 */
module JsonValues {

  datatype Json =
    | JNull
    | JBool(b: bool)
    | JNum(num: real)
    | JStr(str: string)
    | JArr(items: seq<Json>)
    | JObj(fields: map<string, Json>)

  /** `annotations.contains(label)`: true only for an object that has that key. */
  predicate Contains(j: Json, key: string)
  {
    j.JObj? && key in j.fields
  }
}
