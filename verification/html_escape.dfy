/** The client's XSS guard, `escapeHtml`: every `&`, `<`, `>`, `"` and `'`
    of a text is replaced by its character reference, scanning left to right
    without rescanning what was inserted; every other character is kept.
 */
module HtmlEscape {

  /** The characters that can open or close a tag or an attribute value. */
  predicate IsMarkupChar(c: char) {
    c == '<' || c == '>' || c == '"' || c == '\''
  }

  /** The characters `escapeHtml` rewrites: the markup characters and `&`. */
  predicate IsEscaped(c: char) {
    c == '&' || IsMarkupChar(c)
  }

  /** The five-entry replacement table; a character outside it stands for itself. */
  function Entity(c: char): (e: string)
    ensures IsEscaped(c) ==> |e| > 1 && e[0] == '&' && e[|e| - 1] == ';'
    ensures !IsEscaped(c) ==> e == [c]
  {
    match c
    case '&' => "&amp;"
    case '<' => "&lt;"
    case '>' => "&gt;"
    case '"' => "&quot;"
    case '\'' => "&#039;"
    case _ => [c]
  }

  /** `escapeHtml(text)`. The result never holds a markup character, is never
      shorter than the text, and is the text itself exactly when the text has
      nothing to escape. */
  function EscapeHtml(text: string): (r: string)
    ensures forall i :: 0 <= i < |r| ==> !IsMarkupChar(r[i])
    ensures |r| >= |text|
    ensures |r| == |text| <==> forall i :: 0 <= i < |text| ==> !IsEscaped(text[i])
    ensures (forall i :: 0 <= i < |text| ==> !IsEscaped(text[i])) ==> r == text
    decreases |text|
  {
    if |text| == 0 then ""
    else
      var e := Entity(text[0]);
      var rest := EscapeHtml(text[1..]);
      assert forall i :: 1 <= i < |text| ==> text[i] == text[1..][i - 1];
      e + rest
  }

  /** Escaping works character by character, so it distributes over
      concatenation. */
  lemma {:induction false} EscapeAppend(a: string, b: string)
    ensures EscapeHtml(a + b) == EscapeHtml(a) + EscapeHtml(b)
    decreases |a|
  {
    if |a| == 0 {
      assert a + b == b;
    } else {
      assert (a + b)[1..] == a[1..] + b;
      EscapeAppend(a[1..], b);
    }
  }

  /** Decodes the five character references `escapeHtml` produces, leaving all
      other text alone. */
  function UnescapeHtml(html: string): string
    decreases |html|
  {
    if |html| == 0 then ""
    else if "&amp;" <= html then "&" + UnescapeHtml(html[5..])
    else if "&lt;" <= html then "<" + UnescapeHtml(html[4..])
    else if "&gt;" <= html then ">" + UnescapeHtml(html[4..])
    else if "&quot;" <= html then "\"" + UnescapeHtml(html[6..])
    else if "&#039;" <= html then "'" + UnescapeHtml(html[6..])
    else [html[0]] + UnescapeHtml(html[1..])
  }

  /** Decoding one replacement gives back the character it replaced. */
  lemma UnescapeEntity(c: char, rest: string)
    ensures UnescapeHtml(Entity(c) + rest) == [c] + UnescapeHtml(rest)
  {
    match c
    case '&' => UnescapeReference("&amp;", '&', rest);
    case '<' => UnescapeReference("&lt;", '<', rest);
    case '>' => UnescapeReference("&gt;", '>', rest);
    case '"' => UnescapeReference("&quot;", '"', rest);
    case '\'' => UnescapeReference("&#039;", '\'', rest);
    case _ =>
      var s := [c] + rest;
      assert s[0] == c && s[1..] == rest;
  }

  /** Decoding one of the five references at the front of a text. */
  lemma UnescapeReference(e: string, c: char, rest: string)
    requires IsEscaped(c) && e == Entity(c)
    ensures UnescapeHtml(e + rest) == [c] + UnescapeHtml(rest)
  {
    var s := e + rest;
    assert e <= s && s[|e|..] == rest;
    assert s[1] == e[1];
  }

  /** A browser shows the escaped text as the original text: decoding the
      output of `escapeHtml` recovers its input, so no two texts escape alike. */
  lemma {:induction false} EscapeRoundTrip(text: string)
    ensures UnescapeHtml(EscapeHtml(text)) == text
    decreases |text|
  {
    if |text| > 0 {
      UnescapeEntity(text[0], EscapeHtml(text[1..]));
      EscapeRoundTrip(text[1..]);
      assert [text[0]] + text[1..] == text;
    }
  }

  /** The escaping is injective. */
  lemma EscapeInjective(a: string, b: string)
    requires EscapeHtml(a) == EscapeHtml(b)
    ensures a == b
  {
    EscapeRoundTrip(a);
    EscapeRoundTrip(b);
  }
}
