/** Shared vocabulary: optional values and the fragment of JavaScript value
    semantics (truthiness, `a || b`) that the pipeline's decisions depend on. */
module Common {

  /** A value that may be absent: `null`/`undefined` in the program. */
  datatype Option<+T> = None | Some(value: T) {
    function GetOr(default: T): T {
      match this
      case Some(v) => v
      case None => default
    }
  }

  /** A JavaScript value as far as the pipeline can observe it: the fields of a
      parsed QR payload and the subject label derived from them. Objects and
      arrays are all truthy and carry no further structure here. */
  datatype JsVal =
    | JUndefined
    | JNull
    | JBool(b: bool)
    | JNum(n: real)
    | JStr(s: string)
    | JObject

  /** JavaScript truthiness (NaN is not representable in this model). */
  predicate Truthy(v: JsVal) {
    match v
    case JUndefined => false
    case JNull => false
    case JBool(b) => b
    case JNum(n) => n != 0.0
    case JStr(s) => s != ""
    case JObject => true
  }

  /** JavaScript `a || b`: the left operand when it is truthy, else the right one. */
  function Or(a: JsVal, b: JsVal): (r: JsVal)
    ensures Truthy(a) ==> r == a
    ensures !Truthy(a) ==> r == b
  {
    if Truthy(a) then a else b
  }

  /** Truthiness of a `string | null` value: null and "" are falsy. */
  predicate PresentText(o: Option<string>) {
    o.Some? && o.value != ""
  }

  /** The characters of `s` are all different from `c`. */
  predicate Lacks(s: string, c: char) {
    forall i :: 0 <= i < |s| ==> s[i] != c
  }

  /** The id (and slug) of a day's walk-in event, `'walk-in-' + dateStr`,
      shared by the upload route and the event manager. */
  function WalkInSlug(dateStr: string): (slug: string)
    ensures |slug| == |dateStr| + 8
    ensures slug[..8] == "walk-in-"
    ensures slug[8..] == dateStr
  {
    "walk-in-" + dateStr
  }

  /** Distinct days get distinct walk-in events. */
  lemma WalkInSlugInjective(d1: string, d2: string)
    ensures WalkInSlug(d1) == WalkInSlug(d2) <==> d1 == d2
  {
    if WalkInSlug(d1) == WalkInSlug(d2) {
      assert d1 == WalkInSlug(d1)[8..];
    }
  }
}
