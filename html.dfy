/**
 * The review board's pure rendering helpers: HTML escaping, the star
 * glyphs for a rating, and the shortening of review text for the side panel.
 */
module Html {
  import opened Wrappers

  // ----- escapeHtml -----

  /** The five characters that are special in HTML markup and attribute values. */
  predicate IsSpecial(c: char) {
    c == '&' || c == '<' || c == '>' || c == '"' || c == '\''
  }

  /** The replacement `escapeHtml` uses for one character. */
  function EscapeChar(c: char): string {
    match c
    case '&' => "&amp;"
    case '<' => "&lt;"
    case '>' => "&gt;"
    case '"' => "&quot;"
    case '\'' => "&#39;"
    case _ => [c]
  }

  /** Characters that cannot open a tag or close an attribute value. */
  predicate IsInert(c: char) {
    c != '<' && c != '>' && c != '"' && c != '\''
  }

  /**
   * `escapeHtml`: every special character replaced by its entity, every
   * other character copied. The output can neither open a tag nor leave a
   * quoted attribute value.
   */
  function EscapeHtml(s: string): (r: string)
    ensures forall k :: 0 <= k < |r| ==> IsInert(r[k])
    ensures |r| >= |s|
  {
    if s == [] then [] else EscapeChar(s[0]) + EscapeHtml(s[1..])
  }

  /** Escaping works character by character: it distributes over concatenation. */
  lemma {:induction false} EscapeConcat(a: string, b: string)
    ensures EscapeHtml(a + b) == EscapeHtml(a) + EscapeHtml(b)
    decreases |a|
  {
    if a == [] {
      assert a + b == b;
    } else {
      assert (a + b)[0] == a[0] && (a + b)[1..] == a[1..] + b;
      EscapeConcat(a[1..], b);
      calc {
        EscapeHtml(a + b);
        EscapeChar(a[0]) + EscapeHtml(a[1..] + b);
        EscapeChar(a[0]) + (EscapeHtml(a[1..]) + EscapeHtml(b));
        (EscapeChar(a[0]) + EscapeHtml(a[1..])) + EscapeHtml(b);
      }
    }
  }

  /** Text without special characters is left exactly as it is, and only such text. */
  lemma {:induction false} EscapeIdentityIffPlain(s: string)
    ensures EscapeHtml(s) == s <==> forall k :: 0 <= k < |s| ==> !IsSpecial(s[k])
    decreases |s|
  {
    if s != [] {
      EscapeIdentityIffPlain(s[1..]);
      if IsSpecial(s[0]) {
        assert |EscapeHtml(s)| > |s|;
      } else {
        assert EscapeHtml(s) == [s[0]] + EscapeHtml(s[1..]);
        if EscapeHtml(s) == s {
          assert EscapeHtml(s[1..]) == s[1..];
        }
        if forall k :: 0 <= k < |s| ==> !IsSpecial(s[k]) {
          assert forall k :: 0 <= k < |s[1..]| ==> !IsSpecial(s[1..][k]) by {
            forall k | 0 <= k < |s[1..]| ensures !IsSpecial(s[1..][k]) {
              assert s[1..][k] == s[k + 1];
            }
          }
        }
        if !forall k :: 0 <= k < |s| ==> !IsSpecial(s[k]) {
          var k :| 0 <= k < |s| && IsSpecial(s[k]);
          assert s[1..][k - 1] == s[k];
        }
      }
    }
  }

  /** Escaping is not idempotent: an escaped ampersand is escaped again. */
  lemma EscapeNotIdempotent()
    ensures EscapeHtml(EscapeHtml("&")) == "&amp;amp;" != EscapeHtml("&")
  {
    assert EscapeHtml("&") == "&amp;";
    assert EscapeHtml("&amp;") == "&amp;" + EscapeHtml("amp;") by {
      assert "&amp;"[1..] == "amp;";
    }
    EscapeIdentityIffPlain("amp;");
  }

  /**
   * What a browser shows for the inserted markup: the five entities decoded,
   * every other character taken literally. The partner of `EscapeHtml`.
   */
  function Unescape(h: string): string
    decreases |h|
  {
    if h == [] then []
    else if "&amp;" <= h then "&" + Unescape(h[5..])
    else if "&lt;" <= h then "<" + Unescape(h[4..])
    else if "&gt;" <= h then ">" + Unescape(h[4..])
    else if "&quot;" <= h then "\"" + Unescape(h[6..])
    else if "&#39;" <= h then "'" + Unescape(h[5..])
    else [h[0]] + Unescape(h[1..])
  }

  lemma UnescapeChar(c: char, rest: string)
    ensures Unescape(EscapeChar(c) + rest) == [c] + Unescape(rest)
  {
    var h := EscapeChar(c) + rest;
    if IsSpecial(c) {
      assert h[|EscapeChar(c)|..] == rest;
      assert EscapeChar(c) <= h;
      match c
      case '&' =>
      case '<' => assert !("&amp;" <= h) by { assert h[1] == 'l'; }
      case '>' => assert !("&amp;" <= h) && !("&lt;" <= h) by { assert h[1] == 'g'; }
      case '"' => assert !("&amp;" <= h) && !("&lt;" <= h) && !("&gt;" <= h) by { assert h[1] == 'q'; }
      case '\'' => assert !("&amp;" <= h) && !("&lt;" <= h) && !("&gt;" <= h) && !("&quot;" <= h) by { assert h[1] == '#'; }
    } else {
      assert h == [c] + rest && h[0] == c && h[1..] == rest;
    }
  }

  /** Escaped text displays as the original text: user input is shown, never interpreted as markup. */
  lemma {:induction false} UnescapeEscape(s: string)
    ensures Unescape(EscapeHtml(s)) == s
    decreases |s|
  {
    if s != [] {
      UnescapeChar(s[0], EscapeHtml(s[1..]));
      UnescapeEscape(s[1..]);
    }
  }

  /** A script tag in a review is rendered as its escaped text. */
  lemma EscapeScriptTag()
    ensures EscapeHtml("<script>") == "&lt;script&gt;"
  {
    var w := "script";
    EscapePlainWord();
    EscapeOne('<');
    EscapeOne('>');
    EscapeConcat(w, ">");
    EscapeConcat("<", w + ">");
    assert "<script>" == "<" + (w + ">");
    assert EscapeChar('<') + (w + EscapeChar('>')) == "&lt;script&gt;";
  }

  /** Escaping a one-character string is escaping the character. */
  lemma EscapeOne(c: char)
    ensures EscapeHtml([c]) == EscapeChar(c)
  {
    assert [c][1..] == [];
  }

  /** The tag name itself has no special characters. */
  lemma EscapePlainWord()
    ensures EscapeHtml("script") == "script"
  {
    var w := "script";
    assert forall k :: 0 <= k < |w| ==> !IsSpecial(w[k]);
    EscapeIdentityIffPlain(w);
  }

  // ----- renderStars -----

  const FilledStar: char := '\U{2605}'
  const EmptyStar: char := '\U{2606}'
  const StarsOpen: string := "<span class=\"stars-display\">"
  const StarsClose: string := "</span>"

  /** How many stars a stored rating fills: `parseInt(count) || 0`, then at most 5 and at least 0. */
  function FilledCount(rating: Option<int>): nat {
    var c := rating.GetOr(0);
    if c < 0 then 0 else if c > 5 then 5 else c
  }

  /**
   * `renderStars`: five glyphs inside a span, glyph `i` filled exactly when
   * `i` is below the rating. A rating that is NaN counts as 0.
   */
  method RenderStars(rating: Option<int>) returns (html: string)
    ensures |html| == |StarsOpen| + 5 + |StarsClose|
    ensures html[..|StarsOpen|] == StarsOpen && html[|StarsOpen| + 5..] == StarsClose
    ensures var glyphs := html[|StarsOpen|..|StarsOpen| + 5];
      forall i :: 0 <= i < 5 ==> glyphs[i] == if i < FilledCount(rating) then FilledStar else EmptyStar
  {
    var count := rating.GetOr(0);
    var out := "";
    for i := 0 to 5
      invariant |out| == i
      invariant forall j :: 0 <= j < i ==> out[j] == if j < count then FilledStar else EmptyStar
    {
      out := out + [if i < count then FilledStar else EmptyStar];
    }
    html := StarsOpen + out + StarsClose;
    assert html[|StarsOpen|..|StarsOpen| + 5] == out;
  }

  /** Out-of-range ratings are clamped: 7 fills all five stars, -1 and NaN fill none. */
  lemma FilledCountClamps(rating: Option<int>)
    ensures FilledCount(rating) <= 5
    ensures rating == Some(7) ==> FilledCount(rating) == 5
    ensures rating == Some(-1) || rating == None ==> FilledCount(rating) == 0
    ensures rating.Some? && 0 <= rating.value <= 5 ==> FilledCount(rating) == rating.value
  {
  }

  // ----- the side panel's shortened text -----

  const SideTextLimit: nat := 100

  /** Side-panel text: up to 100 characters as they are, longer text cut to 97 and `...` appended. */
  function ShortText(text: string): (r: string)
    ensures |r| <= SideTextLimit
    ensures |text| <= SideTextLimit ==> r == text
    ensures |text| > SideTextLimit ==> |r| == SideTextLimit && r[..97] == text[..97] && r[97..] == "..."
  {
    if |text| > SideTextLimit then text[..97] + "..." else text
  }

  /** Shortening twice is shortening once. */
  lemma ShortTextIdempotent(text: string)
    ensures ShortText(ShortText(text)) == ShortText(text)
  {
  }
}
