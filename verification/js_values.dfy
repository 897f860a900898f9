/** Values as the router sees them: optional (`undefined`/`null`) fields,
    the shapes multer gives a multipart text field, JavaScript truthiness,
    and the lower-casing the upload filter applies to extensions. */
module JsValues {

  /** A field that may be `undefined` or `null` (`None`) or hold a value. */
  datatype Option<+T> = None | Some(value: T)

  /** A multipart text field after multer has parsed the body: missing,
      sent once (a string), or sent several times under the same name
      (an array of the values in arrival order). */
  datatype BodyValue = Absent | Text(text: string) | Many(items: seq<string>)

  /** JavaScript truthiness of a body value: `undefined` and `""` are falsy;
      every other string and every array, the empty one included, is truthy. */
  predicate Truthy(v: BodyValue) {
    match v
    case Absent => false
    case Text(t) => t != ""
    case Many(_) => true
  }

  /** JavaScript truthiness of an optional string field: `null`, `undefined`
      and `""` are falsy. */
  predicate Present(s: Option<string>) {
    s.Some? && s.value != ""
  }

  /** The two truthiness tests agree: an optional string is present iff
      the same value sent as a body field is truthy. */
  lemma PresentIsTruthy(s: Option<string>)
    ensures Present(s) <==> Truthy(if s.Some? then Text(s.value) else Absent)
    ensures !Present(s) <==> s == None || s == Some("")
  {
  }

  predicate IsUpper(c: char) {
    'A' <= c <= 'Z'
  }

  /** `String.prototype.toLowerCase` on one character, restricted to the
      ASCII letters. */
  function LowerChar(c: char): (d: char)
    ensures !IsUpper(d)
    ensures IsUpper(c) ==> 'a' <= d <= 'z' && d as int - 'a' as int == c as int - 'A' as int
    ensures !IsUpper(c) ==> d == c
  {
    if IsUpper(c) then (c as int - 'A' as int + 'a' as int) as char else c
  }

  /** `s.toLowerCase()`: the same length, each character lowered on its own. */
  function ToLower(s: string): (r: string)
    ensures |r| == |s|
    ensures forall i :: 0 <= i < |s| ==> r[i] == LowerChar(s[i])
    ensures forall i :: 0 <= i < |r| ==> !IsUpper(r[i])
  {
    seq(|s|, i requires 0 <= i < |s| => LowerChar(s[i]))
  }

  /** Lower-casing is idempotent, and lower-casing text that holds no upper-case
      letter leaves it unchanged. */
  lemma ToLowerFixesLower(s: string)
    ensures ToLower(ToLower(s)) == ToLower(s)
    ensures (forall i :: 0 <= i < |s| ==> !IsUpper(s[i])) ==> ToLower(s) == s
  {
  }
}
