/** How the routes read request fields: JavaScript truthiness (`!x`) and the
    whitespace class `\s` of JavaScript regular expressions. */
module JsValues {
  import opened Wrappers

  /** A numeric field is truthy when present and non-zero. */
  predicate TruthyId(x: Option<int>)
  {
    x.Some? && x.value != 0
  }

  /** A text field is truthy when present and non-empty. */
  predicate TruthyText(x: Option<string>)
  {
    x.Some? && x.value != ""
  }

  /** `a || d` on an optional text: the text when it is truthy, else the default `d`. */
  function OrDefault(a: Option<string>, d: string): (r: string)
    ensures TruthyText(a) ==> r == a.value
    ensures !TruthyText(a) ==> r == d
  {
    if TruthyText(a) then a.value else d
  }

  /** The code points matched by `\s` in a JavaScript regular expression. */
  predicate IsJsWhitespace(c: char)
  {
    || c == '\t' || c == '\n' || c == '\U{B}' || c == '\U{C}' || c == '\r' || c == ' '
    || c == '\U{A0}' || c == '\U{1680}' || ('\U{2000}' <= c <= '\U{200A}')
    || c == '\U{2028}' || c == '\U{2029}' || c == '\U{202F}' || c == '\U{205F}'
    || c == '\U{3000}' || c == '\U{FEFF}'
  }
}
