/** Small shared vocabulary: optional values, the truthiness of request fields
    as the route handlers test them, and the ASCII case folding behind
    `toLowerCase()` and SQL `ILIKE` comparisons against fixed words. */
module Common {

  /** A value that may be missing (`undefined` or SQL NULL). */
  datatype Option<+T> = None | Some(value: T) {
    /** `COALESCE(this, default)`. */
    function GetOr(default: T): T {
      match this
      case Some(v) => v
      case None => default
    }
  }

  /** The outcome of a route: a value, or the error it answers with. */
  datatype Result<+T, +E> = Ok(value: T) | Err(error: E)

  /** A field of a JSON request body as a handler sees it. */
  datatype Field = Absent | Text(s: string) | Number(n: real)

  /** JavaScript truthiness of a request field: `undefined`, `""` and `0` are falsy. */
  predicate Truthy(f: Field) {
    match f
    case Absent => false
    case Text(s) => s != ""
    case Number(n) => n != 0.0
  }

  /** A text field that is present and not empty (`!!field` for a string). */
  predicate Filled(o: Option<string>) {
    o.Some? && o.value != ""
  }

  /** `field || null` for a text field: the empty string becomes NULL. */
  function OrNull(o: Option<string>): (r: Option<string>)
    ensures r.Some? <==> Filled(o)
    ensures r.Some? ==> r == o
  {
    if Filled(o) then o else None
  }

  /** A numeric form field: the text as sent and the number it parses to. */
  datatype Parsed<+T> = Parsed(text: string, value: T)

  /** `field ? parse(field) : default` for a numeric form field, whose text is
      truthy when it is present and not empty. */
  function ParsedOr<T>(o: Option<Parsed<T>>, default: T): (r: T)
    ensures o.Some? && o.value.text != "" ==> r == o.value.value
    ensures o.None? || o.value.text == "" ==> r == default
  {
    if o.Some? && o.value.text != "" then o.value.value else default
  }

  function LowerChar(c: char): char {
    if 'A' <= c <= 'Z' then (c as int + 32) as char else c
  }

  /** ASCII lower-casing, character by character. */
  function Lower(s: string): (r: string)
    ensures |r| == |s|
    ensures forall i :: 0 <= i < |s| ==> r[i] == LowerChar(s[i])
  {
    if s == [] then [] else [LowerChar(s[0])] + Lower(s[1..])
  }

  /** Lower-casing is idempotent, so a lower-cased word compares with itself. */
  lemma {:induction false} LowerIdempotent(s: string)
    ensures Lower(Lower(s)) == Lower(s)
  {
    if s != [] {
      LowerIdempotent(s[1..]);
      assert Lower(s)[1..] == Lower(s[1..]);
    }
  }
}
