/** Optional values and the JSON scalar shapes the dashboard reads. */
module Wrappers {

  /** Some/None, used where the source returns or stores `None`. */
  datatype Option<+T> = None | Some(value: T)

  /** A value looked up in a decoded JSON object with `dict.get`: the key may be
      missing, present with `null`, or present with a string. */
  datatype Field = Absent | Null | Text(text: string)

  /** `str(obj.get(key, default))`: a missing key yields the default and a
      JSON null is rendered the way Python renders `None`. */
  function FieldText(f: Field, default: string): string {
    match f
    case Absent => default
    case Null => "None"
    case Text(s) => s
  }

  /** `obj.get(key) is not None`: present and not null. */
  predicate IsPresent(f: Field) {
    f.Text?
  }
}
