/**
 * The pieces of JavaScript text semantics that the backup script relies on:
 * which characters the regular-expression wildcard `.` refuses to match, and
 * where a literal occurs in a string.
 */
module JsText {

  /** The four line terminators that `.` does not match in a JavaScript regex without the `s` flag. */
  predicate IsLineTerminator(c: char) {
    c == '\n' || c == '\r' || c == '\U{2028}' || c == '\U{2029}'
  }

  /** No character of `s[lo..hi]` is a line terminator, so `.*` can span it. */
  predicate NoLineTerminator(s: string, lo: int, hi: int)
    requires 0 <= lo <= hi <= |s|
  {
    forall k :: lo <= k < hi ==> !IsLineTerminator(s[k])
  }

  /** The literal `p` occurs in `s` starting at index `i`. */
  predicate OccursAt(s: string, p: string, i: int) {
    0 <= i && i + |p| <= |s| && s[i..i + |p|] == p
  }
}
