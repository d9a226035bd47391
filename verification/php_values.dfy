/** The handful of dynamically typed PHP values the core inspects. */
module PhpValues {

  /**
   * A PHP value as far as `is_int`, `is_string`, `is_array` and `empty` can
   * tell: null, a boolean, an integer, a string, or an array of strings.
   */
  datatype Mixed = MNull | MBool(b: bool) | MInt(i: int) | MStr(s: string) | MList(items: seq<string>)

  /** `empty($s)` on a string: only `""` and `"0"` are empty. */
  predicate IsEmptyString(s: string)
  {
    s == "" || s == "0"
  }

  /** PHP's `empty()`: null, false, 0, "", "0" and the empty array. */
  predicate IsEmpty(v: Mixed)
  {
    match v
    case MNull => true
    case MBool(b) => !b
    case MInt(i) => i == 0
    case MStr(s) => IsEmptyString(s)
    case MList(items) => items == []
  }

  /** The code an exception carries: `Exception::ERR_BAD_REQUEST` of the framework, or a literal number. */
  datatype ErrorCode = ErrBadRequest | Numeric(code: int)

  /** A thrown exception: its message and code. */
  datatype Exception = Exception(message: string, code: ErrorCode)
}
