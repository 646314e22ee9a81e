/** JSON values, as parsed from the message catalogues and the post data file. */
module JsonValues {

  /** Numbers are integers here; JavaScript's floating-point numbers are not modelled. */
  datatype Json =
    | JNull
    | JBool(b: bool)
    | JNum(n: int)
    | JStr(s: string)
    | JArr(items: seq<Json>)
    | JObj(fields: map<string, Json>)
}
