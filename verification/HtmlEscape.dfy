/**
 `escapeHtml` of the panel: five global replaces, one after another, of which the later ones must
 not touch what the earlier ones wrote. Character references are those of section 13.1.4 of the
 HTML Standard.
 */
module HtmlEscape {
  /** `s.replace(/c/g, text)`. */
  function ReplaceAll(s: string, c: char, text: string): string {
    if s == "" then "" else (if s[0] == c then text else [s[0]]) + ReplaceAll(s[1..], c, text)
  }

  function EscapeHtml(value: string): string {
    ReplaceAll(ReplaceAll(ReplaceAll(ReplaceAll(ReplaceAll(value,
      '&', "&amp;"), '<', "&lt;"), '>', "&gt;"), '"', "&quot;"), '\'', "&#39;")
  }

  /** The five characters with a reference of their own; the others stand for themselves. */
  function Reference(c: char): string {
    match c
    case '&' => "&amp;"
    case '<' => "&lt;"
    case '>' => "&gt;"
    case '"' => "&quot;"
    case '\'' => "&#39;"
    case _ => [c]
  }

  /** One pass, each character on its own. */
  function OnePass(value: string): string {
    if value == "" then "" else Reference(value[0]) + OnePass(value[1..])
  }

  const SPECIAL: seq<char> := ['&', '<', '>', '"', '\'']

  /** What a reader of the page sees: the five references stand for their characters. */
  function Decode(html: string): string
    decreases |html|
  {
    if html == "" then ""
    else if Reference('&') <= html then "&" + Decode(html[5..])
    else if Reference('<') <= html then "<" + Decode(html[4..])
    else if Reference('>') <= html then ">" + Decode(html[4..])
    else if Reference('"') <= html then "\"" + Decode(html[6..])
    else if Reference('\'') <= html then "'" + Decode(html[5..])
    else [html[0]] + Decode(html[1..])
  }

  lemma {:induction false} ReplaceDistributes(s: string, t: string, c: char, text: string)
    ensures ReplaceAll(s + t, c, text) == ReplaceAll(s, c, text) + ReplaceAll(t, c, text)
  {
    if s == "" {
      assert s + t == t;
    } else {
      assert (s + t)[1..] == s[1..] + t;
      ReplaceDistributes(s[1..], t, c, text);
    }
  }

  lemma EscapeDistributes(s: string, t: string)
    ensures EscapeHtml(s + t) == EscapeHtml(s) + EscapeHtml(t)
  {
    ReplaceDistributes(s, t, '&', "&amp;");
    var s1, t1 := ReplaceAll(s, '&', "&amp;"), ReplaceAll(t, '&', "&amp;");
    ReplaceDistributes(s1, t1, '<', "&lt;");
    var s2, t2 := ReplaceAll(s1, '<', "&lt;"), ReplaceAll(t1, '<', "&lt;");
    ReplaceDistributes(s2, t2, '>', "&gt;");
    var s3, t3 := ReplaceAll(s2, '>', "&gt;"), ReplaceAll(t2, '>', "&gt;");
    ReplaceDistributes(s3, t3, '"', "&quot;");
    var s4, t4 := ReplaceAll(s3, '"', "&quot;"), ReplaceAll(t3, '"', "&quot;");
    ReplaceDistributes(s4, t4, '\'', "&#39;");
  }

  /** A replace of a character that does not occur changes nothing. */
  lemma {:induction false} ReplaceNothing(s: string, c: char, text: string)
    requires c !in s
    ensures ReplaceAll(s, c, text) == s
  {
    if s != "" {
      ReplaceNothing(s[1..], c, text);
    }
  }

  lemma ReplaceOne(d: char, c: char, text: string)
    ensures ReplaceAll([d], c, text) == if d == c then text else [d]
  {
    assert [d][1..] == "";
    assert text + "" == text;
  }

  /** The later replaces leave a reference alone: it holds none of the characters they look for. */
  lemma {:induction false} FourReplacesLeave(s: string)
    requires '<' !in s && '>' !in s && '"' !in s && '\'' !in s
    ensures ReplaceAll(ReplaceAll(ReplaceAll(ReplaceAll(s,
              '<', "&lt;"), '>', "&gt;"), '"', "&quot;"), '\'', "&#39;") == s
  {
    ReplaceNothing(s, '<', "&lt;");
    ReplaceNothing(s, '>', "&gt;");
    ReplaceNothing(s, '"', "&quot;");
    ReplaceNothing(s, '\'', "&#39;");
  }

  lemma {:induction false} ThreeReplacesLeave(s: string)
    requires '>' !in s && '"' !in s && '\'' !in s
    ensures ReplaceAll(ReplaceAll(ReplaceAll(s, '>', "&gt;"), '"', "&quot;"), '\'', "&#39;") == s
  {
    ReplaceNothing(s, '>', "&gt;");
    ReplaceNothing(s, '"', "&quot;");
    ReplaceNothing(s, '\'', "&#39;");
  }

  /** Each character ends as its reference, whatever the later replaces look for. */
  lemma EscapeOne(c: char)
    ensures EscapeHtml([c]) == Reference(c)
  {
    ReplaceOne(c, '&', "&amp;");
    if c == '&' {
      FourReplacesLeave("&amp;");
    } else {
      ReplaceOne(c, '<', "&lt;");
      if c == '<' {
        ThreeReplacesLeave("&lt;");
      } else {
        EscapeLate(c);
      }
    }
  }

  lemma EscapeLate(c: char)
    requires c != '&' && c != '<'
    ensures ReplaceAll(ReplaceAll(ReplaceAll([c], '>', "&gt;"), '"', "&quot;"), '\'', "&#39;") == Reference(c)
  {
    ReplaceOne(c, '>', "&gt;");
    if c == '>' {
      ReplaceNothing("&gt;", '"', "&quot;");
      ReplaceNothing("&gt;", '\'', "&#39;");
    } else {
      ReplaceOne(c, '"', "&quot;");
      if c == '"' {
        ReplaceNothing("&quot;", '\'', "&#39;");
      } else {
        ReplaceOne(c, '\'', "&#39;");
      }
    }
  }

  /** Five replaces in sequence are one pass over the characters. */
  lemma {:induction false} EscapeIsOnePass(value: string)
    ensures EscapeHtml(value) == OnePass(value)
  {
    if value != "" {
      assert value == [value[0]] + value[1..];
      EscapeDistributes([value[0]], value[1..]);
      EscapeOne(value[0]);
      EscapeIsOnePass(value[1..]);
    }
  }

  /** The five replacements, and no other. */
  lemma EscapedCharacter(c: char)
    ensures EscapeHtml([c]) ==
              if c == '&' then "&amp;" else if c == '<' then "&lt;" else if c == '>' then "&gt;"
              else if c == '"' then "&quot;" else if c == '\'' then "&#39;" else [c]
  {
    EscapeOne(c);
  }

  predicate StartsReference(html: string, k: int)
    requires 0 <= k < |html|
  {
    exists c :: c in SPECIAL && Reference(c) <= html[k..]
  }

  predicate IsInert(html: string) {
    && '<' !in html && '>' !in html && '"' !in html && '\'' !in html
    && forall k :: 0 <= k < |html| && html[k] == '&' ==> StartsReference(html, k)
  }

  lemma ReferenceIsInert(c: char, rest: string)
    requires IsInert(rest)
    ensures IsInert(Reference(c) + rest)
  {
    var r := Reference(c);
    var html := r + rest;
    assert '<' !in r && '>' !in r && '"' !in r && '\'' !in r;
    forall k | 0 <= k < |html| && html[k] == '&' ensures StartsReference(html, k) {
      if k < |r| {
        assert k == 0 && c in SPECIAL && html[0..] == html;
      } else {
        var d :| d in SPECIAL && Reference(d) <= rest[k - |r|..];
        assert html[k..] == rest[k - |r|..];
      }
    }
  }

  /** No markup character survives, and an ampersand only ever starts one of the five references. */
  lemma EscapedIsInert(value: string)
    ensures IsInert(EscapeHtml(value))
  {
    EscapeIsOnePass(value);
    OnePassIsInert(value);
  }

  lemma {:induction false} OnePassIsInert(value: string)
    ensures IsInert(OnePass(value))
  {
    if value != "" {
      OnePassIsInert(value[1..]);
      ReferenceIsInert(value[0], OnePass(value[1..]));
    }
  }

  /** The second character of a reference tells it from the other four. */
  lemma ReferencesDiffer(html: string, c: char, d: char)
    requires c in SPECIAL && d in SPECIAL && Reference(c) <= html && Reference(d) <= html
    ensures c == d
  {
    assert Reference(c)[1] == html[1] == Reference(d)[1];
  }

  lemma DecodeOne(c: char, rest: string)
    ensures Decode(Reference(c) + rest) == [c] + Decode(rest)
  {
    var r, html := Reference(c), Reference(c) + rest;
    assert html[|r|..] == rest;
    if c in SPECIAL {
      DecodeReference(c, html);
    } else {
      assert html[0] == c && Reference('&')[0] == Reference('<')[0] == Reference('>')[0] == '&';
      assert Reference('"')[0] == Reference('\'')[0] == '&';
    }
  }

  lemma DecodeReference(c: char, html: string)
    requires c in SPECIAL && Reference(c) <= html
    ensures Decode(html) == [c] + Decode(html[|Reference(c)|..])
  {
    forall d | d in SPECIAL && Reference(d) <= html ensures d == c {
      ReferencesDiffer(html, c, d);
    }
    assert '&' in SPECIAL && '<' in SPECIAL && '>' in SPECIAL && '"' in SPECIAL && '\'' in SPECIAL;
  }

  /** Escaping loses nothing: a reader sees exactly the text that was escaped. */
  lemma {:induction false} DecodeEscape(value: string)
    ensures Decode(EscapeHtml(value)) == value
  {
    EscapeIsOnePass(value);
    if value != "" {
      DecodeEscape(value[1..]);
      EscapeIsOnePass(value[1..]);
      DecodeOne(value[0], OnePass(value[1..]));
    }
  }
}
