/** The loosely typed values held in the style dictionaries: what an
    f-string prints for each and which of them Python treats as false. */
module Values {
  import opened Strings

  /** A dictionary value: an integer, a string, or None. */
  datatype Value = Int(i: int) | Str(s: string) | Null

  /** str(v), as an f-string interpolates it. */
  function Show(v: Value): string {
    match v
    case Int(i) => IntToString(i)
    case Str(s) => s
    case Null => "None"
  }

  /** Python truthiness: zero, the empty string and None are false. */
  predicate Truthy(v: Value) {
    match v
    case Int(i) => i != 0
    case Str(s) => s != []
    case Null => false
  }
}
