/// The parts of .NET string semantics the label engine relies on: a string
/// reference that may be null, `string.IsNullOrEmpty`, `char.IsWhiteSpace`
/// and `string.IsNullOrWhiteSpace`.
module NetStrings {

  /// A .NET `string` reference: either null or a sequence of characters.
  datatype NullableString = Null | Str(s: string)

  /// `string.IsNullOrEmpty`.
  predicate IsNullOrEmpty(v: NullableString)
  {
    v.Null? || v.s == ""
  }

  /// `char.IsWhiteSpace`: the Unicode space, line and paragraph separators
  /// together with U+0009..U+000D and U+0085.
  predicate IsWhiteSpace(c: char)
  {
    ('\U{0009}' <= c <= '\U{000D}') || c == '\U{0020}' || c == '\U{0085}'
    || c == '\U{00A0}' || c == '\U{1680}' || ('\U{2000}' <= c <= '\U{200A}')
    || c == '\U{2028}' || c == '\U{2029}' || c == '\U{202F}' || c == '\U{205F}'
    || c == '\U{3000}'
  }

  /// True when every character of `s` is white space, scanning from the front.
  predicate AllWhiteSpace(s: string)
    ensures AllWhiteSpace(s) <==> forall i :: 0 <= i < |s| ==> IsWhiteSpace(s[i])
  {
    s == [] || (IsWhiteSpace(s[0]) && AllWhiteSpace(s[1..]))
  }

  /// `string.IsNullOrWhiteSpace`.
  predicate IsNullOrWhiteSpace(v: NullableString)
  {
    v.Null? || AllWhiteSpace(v.s)
  }
}
