/**
  The part of mongoose's document validation that the two message schemas use:
  a String path with `trim: true` is trimmed when it is assigned, and then its
  `required` validator and, where present, its `maxlength` validator run on the
  trimmed value. A failing path reports one violation; the document is saved
  only when no path reports one.
 */
module Schema {
  import opened Wrappers
  import Text

  /** The validator of one path that rejected the document. */
  datatype Violation = Required(path: string) | MaxLength(path: string, limit: nat)

  /**
    The violation, if any, of path `path` holding the already trimmed `value`:
    `required` rejects the empty string (an absent value is modelled as ""),
    and `maxlength` rejects a value longer than the limit in UTF-16 code units.
   */
  function CheckPath(path: string, value: string, maxLength: Option<nat>): (v: set<Violation>)
    ensures v == {} <==> value != "" && (maxLength.Some? ==> Text.Length(value) <= maxLength.value)
    ensures value == "" ==> v == {Required(path)}
    ensures forall x :: x in v ==> x.path == path
  {
    if value == "" then {Required(path)}
    else if maxLength.Some? && Text.Length(value) > maxLength.value then {MaxLength(path, maxLength.value)}
    else {}
  }
}
