/**
  html.EscapeString, which the directory listing applies to every piece of
  text it interpolates. It replaces exactly five characters, each by its own
  entity, and leaves every other character as it is.
 */
module Html {

  /** The characters that could end an attribute value or start or end a tag. */
  predicate IsMarkup(c: char) {
    c == '<' || c == '>' || c == '"' || c == '\''
  }

  /** Text that cannot open or close a tag or an attribute value. */
  predicate NoMarkup(s: string) {
    forall i | 0 <= i < |s| :: !IsMarkup(s[i])
  }

  function EscapeChar(c: char): string {
    match c
    case '&' => "&amp;"
    case '\'' => "&#39;"
    case '<' => "&lt;"
    case '>' => "&gt;"
    case '"' => "&#34;"
    case _ => [c]
  }

  /**
    html.EscapeString. Its output never holds a markup character, and text
    with neither markup nor '&' comes out unchanged.
   */
  function EscapeString(s: string): (r: string)
    ensures NoMarkup(r)
    ensures NoMarkup(s) && '&' !in s ==> r == s
  {
    if s == [] then []
    else
      var head := EscapeChar(s[0]);
      var tail := EscapeString(s[1..]);
      assert NoMarkup(head);
      assert NoMarkup(head + tail) by {
        forall i | 0 <= i < |head + tail| ensures !IsMarkup((head + tail)[i]) {
          if i >= |head| {
            assert (head + tail)[i] == tail[i - |head|];
          }
        }
      }
      assert NoMarkup(s) ==> NoMarkup(s[1..]) by {
        if NoMarkup(s) {
          forall i | 0 <= i < |s| - 1 ensures !IsMarkup(s[1..][i]) {
            assert s[1..][i] == s[i + 1];
          }
        }
      }
      assert s == [s[0]] + s[1..];
      head + tail
  }
}
