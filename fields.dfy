/**
 * One field of a raw price-history row: text, an integer, or null (the
 * market's JSON can also hold floats and booleans, which are not modelled).
 * The analyzer's helpers accept any value, so the model keeps the kinds of
 * value apart instead of assuming text.
 */
module Fields {
  import Numerals

  datatype Field = Text(text: string) | Whole(number: int) | Null

  /** Python's `str(value)`. */
  function Str(f: Field): (s: string)
    ensures f.Text? ==> s == f.text
  {
    match f
    case Text(t) => t
    case Whole(n) => Numerals.FormatInt(n)
    case Null => "None"
  }
}
