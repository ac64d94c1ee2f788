/** `escapeHtml` (scripts.js:446-455): each of the five HTML-reserved
    characters is replaced by its character reference, every other character
    is kept. The decoder `Unescape` is its inverse. */
module HtmlEscape {

  predicate IsReserved(c: char) {
    c == '&' || c == '<' || c == '>' || c == '"' || c == '\''
  }

  /** The four characters that could open or close markup. */
  predicate IsMarkup(c: char) {
    c == '<' || c == '>' || c == '"' || c == '\''
  }

  /** The replacement table of `escapeHtml`. */
  function EscapeChar(c: char): (r: string)
    ensures IsReserved(c) ==> |r| >= 4 && r[0] == '&'
    ensures !IsReserved(c) ==> r == [c]
  {
    match c
    case '&' => "&amp;"
    case '<' => "&lt;"
    case '>' => "&gt;"
    case '"' => "&quot;"
    case '\'' => "&#039;"
    case _ => [c]
  }

  /** `text.replace(/[&<>"']/g, m => map[m])`: the concatenation of the
      per-character replacements. */
  function Escape(text: string): string
  {
    if text == [] then [] else EscapeChar(text[0]) + Escape(text[1..])
  }

  /** The escaped text is never shorter and holds none of '<', '>', '"' or
      '\'': no tag and no attribute can be closed or opened by it. */
  lemma {:induction false} EscapeHasNoMarkup(text: string)
    ensures |Escape(text)| >= |text|
    ensures forall i :: 0 <= i < |Escape(text)| ==> !IsMarkup(Escape(text)[i])
    decreases |text|
  {
    if text != [] {
      EscapeHasNoMarkup(text[1..]);
      var e, rest := EscapeChar(text[0]), Escape(text[1..]);
      assert Escape(text) == e + rest;
      forall i | 0 <= i < |Escape(text)|
        ensures !IsMarkup(Escape(text)[i])
      {
        if i < |e| {
          assert e == [text[0]] || e[i] in "&amp;lt;gt;quot;#039";
        } else {
          assert Escape(text)[i] == rest[i - |e|];
        }
      }
    }
  }

  /** Decodes the five references `escapeHtml` produces; any other character,
      a lone '&' included, is kept. */
  function Unescape(s: string): string
    decreases |s|
  {
    if s == [] then []
    else if |s| >= 5 && s[..5] == "&amp;" then "&" + Unescape(s[5..])
    else if |s| >= 4 && s[..4] == "&lt;" then "<" + Unescape(s[4..])
    else if |s| >= 4 && s[..4] == "&gt;" then ">" + Unescape(s[4..])
    else if |s| >= 6 && s[..6] == "&quot;" then "\"" + Unescape(s[6..])
    else if |s| >= 6 && s[..6] == "&#039;" then "'" + Unescape(s[6..])
    else [s[0]] + Unescape(s[1..])
  }

  /** Decoding one escaped character and then the rest. */
  lemma UnescapeStep(c: char, rest: string)
    ensures Unescape(EscapeChar(c) + rest) == [c] + Unescape(rest)
  {
    var e := EscapeChar(c);
    var s := e + rest;
    assert s[..|e|] == e && s[|e|..] == rest;
    assert forall k :: 0 <= k < |e| ==> s[k] == e[k];
    if !IsReserved(c) {
      assert s[0] == c && s[1..] == rest;
      if |s| >= 4 { assert s[..4][0] == c; }
      if |s| >= 5 { assert s[..5][0] == c; }
      if |s| >= 6 { assert s[..6][0] == c; }
    } else if c == '<' || c == '>' {
      if |s| >= 5 { assert s[..5][1] == s[1]; }
    } else if c == '"' || c == '\'' {
      assert s[..5][1] == s[1] && s[..4][1] == s[1];
    }
  }

  /** Escaping loses nothing: the displayed comment decodes back to exactly
      the text that was posted. */
  lemma {:induction false} UnescapeEscape(text: string)
    ensures Unescape(Escape(text)) == text
    decreases |text|
  {
    if text != [] {
      UnescapeStep(text[0], Escape(text[1..]));
      UnescapeEscape(text[1..]);
      assert text == [text[0]] + text[1..];
    }
  }

  /** Escaping works character by character: escaping a concatenation is
      concatenating the escapes. */
  lemma {:induction false} EscapeAppend(a: string, b: string)
    ensures Escape(a + b) == Escape(a) + Escape(b)
    decreases |a|
  {
    if a == [] {
      assert a + b == b;
    } else {
      assert (a + b)[1..] == a[1..] + b;
      EscapeAppend(a[1..], b);
    }
  }

  /** Text without reserved characters is shown exactly as typed. */
  lemma {:induction false} EscapePlainText(text: string)
    requires forall i :: 0 <= i < |text| ==> !IsReserved(text[i])
    ensures Escape(text) == text
    decreases |text|
  {
    if text != [] {
      EscapePlainText(text[1..]);
    }
  }

  /** One of the five references starts at position `i` of `r`. */
  predicate ReferenceAt(r: string, i: nat) {
    (i + 5 <= |r| && r[i..i + 5] == "&amp;")
    || (i + 4 <= |r| && (r[i..i + 4] == "&lt;" || r[i..i + 4] == "&gt;"))
    || (i + 6 <= |r| && (r[i..i + 6] == "&quot;" || r[i..i + 6] == "&#039;"))
  }

  lemma ReferenceAtShift(prefix: string, r: string, j: nat)
    requires ReferenceAt(r, j)
    ensures ReferenceAt(prefix + r, |prefix| + j)
  {
    var s := prefix + r;
    var i := |prefix| + j;
    assert s[|prefix|..] == r;
    if j + 4 <= |r| { assert s[i..i + 4] == r[j..j + 4]; }
    if j + 5 <= |r| { assert s[i..i + 5] == r[j..j + 5]; }
    if j + 6 <= |r| { assert s[i..i + 6] == r[j..j + 6]; }
  }

  lemma ReferenceAtStart(c: char, rest: string)
    requires IsReserved(c)
    ensures ReferenceAt(EscapeChar(c) + rest, 0)
  {
    var e := EscapeChar(c);
    assert (e + rest)[..|e|] == e;
  }

  /** Every '&' of the output starts one of the five references, so the output
      holds no markup and no accidental entity. */
  lemma {:induction false} AmpersandsStartReferences(text: string, i: nat)
    requires i < |Escape(text)| && Escape(text)[i] == '&'
    ensures ReferenceAt(Escape(text), i)
    decreases |text|
  {
    var e := EscapeChar(text[0]);
    var rest := Escape(text[1..]);
    assert Escape(text) == e + rest;
    if i < |e| {
      assert IsReserved(text[0]) && i == 0;
      ReferenceAtStart(text[0], rest);
    } else {
      assert rest[i - |e|] == '&';
      AmpersandsStartReferences(text[1..], i - |e|);
      ReferenceAtShift(e, rest, i - |e|);
    }
  }

  /** A tag typed into the comment box comes out as inert text; the example
      is checked in three pieces joined with EscapeAppend. */
  lemma TagExample()
    ensures Escape("<b>&\"'</b>") == "&lt;b&gt;&amp;&quot;&#039;&lt;/b&gt;"
  {
    var open, middle, close := "<b>", "&\"'", "</b>";
    TagPieces(open, middle, close);
    EscapeAppend(open + middle, close);
    EscapeAppend(open, middle);
    TagJoin(Escape(open), Escape(middle), Escape(close));
  }

  lemma TagPieces(open: string, middle: string, close: string)
    requires open == "<b>" && middle == "&\"'" && close == "</b>"
    ensures open + middle + close == "<b>&\"'</b>"
    ensures Escape(open) == "&lt;b&gt;" && Escape(middle) == "&amp;&quot;&#039;"
    ensures Escape(close) == "&lt;/b&gt;"
  {
    EscapeOpenTag();
    EscapeQuotes();
    EscapeCloseTag();
  }

  lemma TagJoin(a: string, b: string, c: string)
    requires a == "&lt;b&gt;" && b == "&amp;&quot;&#039;" && c == "&lt;/b&gt;"
    ensures a + b + c == "&lt;b&gt;&amp;&quot;&#039;&lt;/b&gt;"
  {
  }

  lemma EscapeOpenTag() ensures Escape("<b>") == "&lt;b&gt;" {}

  lemma EscapeQuotes() ensures Escape("&\"'") == "&amp;&quot;&#039;" {}

  lemma EscapeCloseTag() ensures Escape("</b>") == "&lt;/b&gt;" {}
}
