/** `getCsrfToken`: reads the anti-forgery token out of the (already
    URI-decoded) cookie string. The string is split on `;`, each piece loses
    its leading spaces, and the first piece that then starts with
    `PLAY_CSRF_TOKEN=` yields the text after that prefix; without such a piece
    the token is empty.
 */
module Csrf {
  import opened Text

  /** The cookie name together with its `=`. */
  const TokenName: string := "PLAY_CSRF_TOKEN="

  /** The segment separator of a cookie string. */
  const CookieSeparator: char := ';'

  /** The piece without its leading spaces (only U+0020; tabs stay). */
  function StripLeadingSpaces(c: string): (r: string)
    ensures |r| <= |c| && r == c[|c| - |r|..]
    ensures forall i :: 0 <= i < |c| - |r| ==> c[i] == ' '
    ensures r == [] || r[0] != ' '
    decreases |c|
  {
    if |c| > 0 && c[0] == ' ' then StripLeadingSpaces(c[1..]) else c
  }

  /** The piece names the token cookie. */
  predicate Matches(segment: string) {
    TokenName <= StripLeadingSpaces(segment)
  }

  /** The text after `PLAY_CSRF_TOKEN=` in a matching piece. */
  function ValueOf(segment: string): string
    requires Matches(segment)
  {
    StripLeadingSpaces(segment)[|TokenName|..]
  }

  /** `i` is the first matching piece. */
  ghost predicate IsFirstMatch(segments: seq<string>, i: int) {
    && 0 <= i < |segments|
    && Matches(segments[i])
    && forall j :: 0 <= j < i ==> !Matches(segments[j])
  }

  /** No piece names the token cookie. */
  ghost predicate NoMatch(segments: seq<string>) {
    forall i :: 0 <= i < |segments| ==> !Matches(segments[i])
  }

  /** The value of the first matching piece, or `""` when none matches. */
  function TokenIn(segments: seq<string>): (r: string)
    ensures NoMatch(segments) ==> r == ""
    ensures forall i :: IsFirstMatch(segments, i) ==> r == ValueOf(segments[i])
    decreases |segments|
  {
    if |segments| == 0 then ""
    else if Matches(segments[0]) then ValueOf(segments[0])
    else
      var r := TokenIn(segments[1..]);
      assert forall i :: 1 <= i < |segments| ==> segments[i] == segments[1..][i - 1];
      r
  }

  /** `getCsrfToken()` over the decoded cookie string. The token is the value
      of the first `;`-piece that names the cookie, `""` when there is none,
      and never holds a `;`. */
  function CsrfToken(decodedCookie: string): (token: string)
    ensures NoMatch(Split(decodedCookie, CookieSeparator)) ==> token == ""
    ensures forall i :: IsFirstMatch(Split(decodedCookie, CookieSeparator), i) ==>
      token == ValueOf(Split(decodedCookie, CookieSeparator)[i])
    ensures CookieSeparator !in token
  {
    var pieces := Split(decodedCookie, CookieSeparator);
    var token := TokenIn(pieces);
    assert CookieSeparator !in token by {
      TokenInHasNoSeparator(pieces);
    }
    token
  }

  /** A value cut from a separator-free piece holds no separator. */
  lemma ValueHasNoSeparator(segment: string)
    requires CookieSeparator !in segment && Matches(segment)
    ensures CookieSeparator !in ValueOf(segment)
  {
    var s := StripLeadingSpaces(segment);
    assert ValueOf(segment) == segment[|segment| - |s| + |TokenName|..];
  }

  /** The token found among separator-free pieces holds no separator. */
  lemma {:induction false} TokenInHasNoSeparator(segments: seq<string>)
    requires forall k :: 0 <= k < |segments| ==> CookieSeparator !in segments[k]
    ensures CookieSeparator !in TokenIn(segments)
    decreases |segments|
  {
    if |segments| > 0 {
      if Matches(segments[0]) {
        ValueHasNoSeparator(segments[0]);
      } else {
        assert forall k :: 0 <= k < |segments| - 1 ==> segments[1..][k] == segments[k + 1];
        TokenInHasNoSeparator(segments[1..]);
      }
    }
  }

  /** When some piece matches, a first one does. */
  lemma FirstMatchExists(segments: seq<string>)
    requires exists i :: 0 <= i < |segments| && Matches(segments[i])
    ensures exists i :: IsFirstMatch(segments, i)
    decreases |segments|
  {
    if !Matches(segments[0]) {
      var i :| 0 <= i < |segments| && Matches(segments[i]);
      assert Matches(segments[1..][i - 1]);
      FirstMatchExists(segments[1..]);
      var k :| IsFirstMatch(segments[1..], k);
      assert IsFirstMatch(segments, k + 1);
    } else {
      assert IsFirstMatch(segments, 0);
    }
  }

  /** The loop of `getCsrfToken` as written: split, then for each piece strip
      the spaces one at a time and test the prefix. */
  method GetCsrfToken(decodedCookie: string) returns (token: string)
    ensures token == CsrfToken(decodedCookie)
  {
    var ca := Split(decodedCookie, CookieSeparator);
    var i := 0;
    while i < |ca|
      invariant 0 <= i <= |ca|
      invariant TokenIn(ca) == TokenIn(ca[i..])
    {
      var c := ca[i];
      while |c| > 0 && c[0] == ' '
        invariant StripLeadingSpaces(c) == StripLeadingSpaces(ca[i])
      {
        c := c[1..];
      }
      assert c == StripLeadingSpaces(ca[i]);
      if TokenName <= c {
        assert Matches(ca[i]) && TokenIn(ca[i..]) == ValueOf(ca[i]);
        return c[|TokenName|..];
      }
      assert ca[i..][1..] == ca[i + 1..];
      assert TokenIn(ca[i..]) == TokenIn(ca[i + 1..]);
      i := i + 1;
    }
    return "";
  }

  /** Nothing but U+0020. */
  predicate AllSpaces(pad: string) {
    forall i :: 0 <= i < |pad| ==> pad[i] == ' '
  }

  /** A cookie string written as other cookies, then the token cookie (after
      some spaces), then more cookies, gives back exactly the token value. */
  lemma CookieRoundTrip(before: seq<string>, pad: string, value: string, after: seq<string>)
    requires forall k :: 0 <= k < |before| ==> CookieSeparator !in before[k] && !Matches(before[k])
    requires forall k :: 0 <= k < |after| ==> CookieSeparator !in after[k]
    requires AllSpaces(pad) && CookieSeparator !in value
    ensures CsrfToken(Join(before + [pad + TokenName + value] + after, CookieSeparator)) == value
  {
    var piece := pad + TokenName + value;
    var pieces := before + [piece] + after;
    TokenPiece(pad, value);
    forall k | 0 <= k < |pieces| ensures CookieSeparator !in pieces[k] {
      if k < |before| {
        assert pieces[k] == before[k];
      } else if k > |before| {
        assert pieces[k] == after[k - |before| - 1];
      }
    }
    forall j | 0 <= j < |before| ensures !Matches(pieces[j]) {
      assert pieces[j] == before[j];
    }
    JoinedToken(pieces, |before|);
  }

  /** The token of a cookie string joined from separator-free pieces is the
      value of its first matching piece. */
  lemma JoinedToken(pieces: seq<string>, i: nat)
    requires forall k :: 0 <= k < |pieces| ==> CookieSeparator !in pieces[k]
    requires IsFirstMatch(pieces, i)
    ensures CsrfToken(Join(pieces, CookieSeparator)) == ValueOf(pieces[i])
  {
    SplitJoin(pieces, CookieSeparator);
  }

  /** The token cookie written after some spaces is a separator-free piece
      that matches and carries `value`. */
  lemma TokenPiece(pad: string, value: string)
    requires AllSpaces(pad) && CookieSeparator !in value
    ensures var piece := pad + TokenName + value;
      CookieSeparator !in piece && Matches(piece) && ValueOf(piece) == value
  {
    TokenPieceMatches(pad, value);
    TokenPieceHasNoSeparator(pad, value);
  }

  lemma TokenPieceMatches(pad: string, value: string)
    requires AllSpaces(pad)
    ensures var piece := pad + TokenName + value;
      Matches(piece) && ValueOf(piece) == value
  {
    var piece := pad + TokenName + value;
    var named := TokenName + value;
    assert named[0] == 'P';
    StripSpacesPrefix(pad, named);
    assert piece == pad + named;
    assert TokenName <= named && named[|TokenName|..] == value;
  }

  lemma TokenPieceHasNoSeparator(pad: string, value: string)
    requires AllSpaces(pad) && CookieSeparator !in value
    ensures CookieSeparator !in pad + TokenName + value
  {
    var piece := pad + TokenName + value;
    forall i | 0 <= i < |piece| ensures piece[i] != CookieSeparator {
      if i >= |pad| + |TokenName| {
        assert piece[i] == value[i - |pad| - |TokenName|];
      } else if i >= |pad| {
        assert piece[i] == TokenName[i - |pad|];
      }
    }
  }

  /** Stripping the spaces off the front of a text that starts elsewise. */
  lemma {:induction false} StripSpacesPrefix(pad: string, s: string)
    requires AllSpaces(pad)
    requires s == [] || s[0] != ' '
    ensures StripLeadingSpaces(pad + s) == s
    decreases |pad|
  {
    if |pad| > 0 {
      var t := pad + s;
      assert t[0] == ' ';
      assert t[1..] == pad[1..] + s;
      StripSpacesPrefix(pad[1..], s);
    } else {
      assert pad + s == s;
    }
  }
}
