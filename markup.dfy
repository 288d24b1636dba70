/** The dashboard's HTML helpers: `escapeHtml`, which replaces `&`, `<` and
    `>` by entities in three passes, and `highlightDiff`, which renders each
    line of a mutant's diff as one span classed by its marker. */
module Markup {
  import opened Strings

  /** `escapeHtml`, pass by pass as the source chains its `replace` calls:
      `&` first, so the entities the later passes insert are not escaped again. */
  function EscapeHtml(text: string): (r: string)
    ensures '<' !in r && '>' !in r
    ensures |r| == |text| + 4 * Count(text, '&') + 3 * Count(text, '<') + 3 * Count(text, '>')
  {
    var amp := ReplaceChar(text, '&', "&amp;");
    var lt := ReplaceChar(amp, '<', "&lt;");
    var r := ReplaceChar(lt, '>', "&gt;");
    ReplaceLength(text, '&', "&amp;");
    ReplaceLength(amp, '<', "&lt;");
    ReplaceLength(lt, '>', "&gt;");
    ReplaceCount(text, '&', "&amp;", '<');
    ReplaceCount(text, '&', "&amp;", '>');
    ReplaceCount(amp, '<', "&lt;", '>');
    ReplaceRemoves(amp, '<', "&lt;");
    ReplaceRemoves(lt, '>', "&gt;");
    CountAbsent(lt, '<');
    ReplaceCount(lt, '>', "&gt;", '<');
    CountAbsent(r, '<');
    r
  }

  /** A character that neither is escaped nor occurs in an entity occurs
      as often after escaping as before. */
  lemma EscapeHtmlCount(text: string, d: char)
    requires d !in "&<>amplgt;"
    ensures Count(EscapeHtml(text), d) == Count(text, d)
  {
    var amp := ReplaceChar(text, '&', "&amp;");
    var lt := ReplaceChar(amp, '<', "&lt;");
    ReplaceCount(text, '&', "&amp;", d);
    ReplaceCount(amp, '<', "&lt;", d);
    ReplaceCount(lt, '>', "&gt;", d);
  }

  lemma EscapeHtmlKeepsAmpersand(text: string)
    requires '&' in text
    ensures '&' in EscapeHtml(text)
  {
    var amp := ReplaceChar(text, '&', "&amp;");
    var lt := ReplaceChar(amp, '<', "&lt;");
    ReplaceInserts(text, '&', "&amp;");
    ReplaceKeeps(amp, '<', "&lt;", '&');
    ReplaceKeeps(lt, '>', "&gt;", '&');
  }

  /** The entity a single character is written as. */
  function Entity(c: char): string
  {
    if c == '&' then "&amp;" else if c == '<' then "&lt;" else if c == '>' then "&gt;" else [c]
  }

  /** Reference definition: each character replaced by its entity in one pass. */
  function EscapeEach(s: string): string
  {
    if s == [] then [] else Entity(s[0]) + EscapeEach(s[1..])
  }

  lemma EscapeSingle(c: char)
    ensures EscapeHtml([c]) == Entity(c)
  {
    var amp := ReplaceChar([c], '&', "&amp;");
    assert amp == (if c == '&' then "&amp;" else [c]) + ReplaceChar([], '&', "&amp;");
    var lt := ReplaceChar(amp, '<', "&lt;");
    if c == '&' {
      ReplaceAbsent(amp, '<', "&lt;");
      ReplaceAbsent(lt, '>', "&gt;");
    } else {
      assert lt == (if c == '<' then "&lt;" else [c]) + ReplaceChar([], '<', "&lt;");
      if c == '<' {
        ReplaceAbsent(lt, '>', "&gt;");
      } else {
        assert ReplaceChar(lt, '>', "&gt;") == (if c == '>' then "&gt;" else [c]) + ReplaceChar([], '>', "&gt;");
      }
    }
  }

  lemma EscapeHtmlConcat(a: string, b: string)
    ensures EscapeHtml(a + b) == EscapeHtml(a) + EscapeHtml(b)
  {
    var ampA, ampB := ReplaceChar(a, '&', "&amp;"), ReplaceChar(b, '&', "&amp;");
    ReplaceConcat(a, b, '&', "&amp;");
    var ltA, ltB := ReplaceChar(ampA, '<', "&lt;"), ReplaceChar(ampB, '<', "&lt;");
    ReplaceConcat(ampA, ampB, '<', "&lt;");
    ReplaceConcat(ltA, ltB, '>', "&gt;");
  }

  /** The three chained passes escape each character independently: `&`,
      `<` and `>` become their entities and every other character is kept. */
  lemma {:induction false} EscapeHtmlIsPerCharacter(s: string)
    ensures EscapeHtml(s) == EscapeEach(s)
  {
    if s == [] {
      assert EscapeHtml(s) == [];
    } else {
      assert s == [s[0]] + s[1..];
      EscapeHtmlConcat([s[0]], s[1..]);
      EscapeSingle(s[0]);
      EscapeHtmlIsPerCharacter(s[1..]);
    }
  }

  /** Decoding of the three entities, the inverse of the escaping. */
  function Unescape(s: string): string
    decreases |s|
  {
    if "&amp;" <= s then ['&'] + Unescape(s[5..])
    else if "&lt;" <= s then ['<'] + Unescape(s[4..])
    else if "&gt;" <= s then ['>'] + Unescape(s[4..])
    else if s == [] then []
    else [s[0]] + Unescape(s[1..])
  }

  lemma UnescapeEntity(c: char, rest: string)
    ensures Unescape(Entity(c) + rest) == [c] + Unescape(rest)
  {
    var s := Entity(c) + rest;
    if c == '&' {
      assert "&amp;" <= s && s[5..] == rest;
    } else if c == '<' {
      assert s[1] == 'l' && s[..4] == "&lt;" && s[4..] == rest;
    } else if c == '>' {
      assert s[1] == 'g' && s[..4] == "&gt;" && s[4..] == rest;
    } else {
      assert s[0] == c && s[1..] == rest;
    }
  }

  /** Escaping loses nothing: decoding the entities gives the text back. */
  lemma {:induction false} UnescapeEscapeHtml(s: string)
    ensures Unescape(EscapeHtml(s)) == s
  {
    EscapeHtmlIsPerCharacter(s);
    UnescapeEscapeEach(s);
  }

  lemma {:induction false} UnescapeEscapeEach(s: string)
    ensures Unescape(EscapeEach(s)) == s
  {
    if s != [] {
      UnescapeEntity(s[0], EscapeEach(s[1..]));
      UnescapeEscapeEach(s[1..]);
      assert [s[0]] + s[1..] == s;
    }
  }

  /** Escaping changes every text that holds `&`: each `&` grows by four. */
  lemma EscapeHtmlChangesAmpersandText(t: string)
    requires '&' in t
    ensures EscapeHtml(t) != t
  {
    CountAbsent(t, '&');
  }

  /** A text holding any of `&`, `<` and `>` escapes to a text holding `&`. */
  lemma EscapeHtmlIntroducesAmpersand(s: string)
    requires '&' in s || '<' in s || '>' in s
    ensures '&' in EscapeHtml(s)
  {
    var amp := ReplaceChar(s, '&', "&amp;");
    var lt := ReplaceChar(amp, '<', "&lt;");
    if '&' in s {
      EscapeHtmlKeepsAmpersand(s);
    } else if '<' in s {
      ReplaceKeeps(s, '&', "&amp;", '<');
      ReplaceInserts(amp, '<', "&lt;");
      ReplaceKeeps(lt, '>', "&gt;", '&');
    } else {
      ReplaceKeeps(s, '&', "&amp;", '>');
      ReplaceKeeps(amp, '<', "&lt;", '>');
      ReplaceInserts(lt, '>', "&gt;");
    }
  }

  /** Escaping is not idempotent: once a text held any character that is
      escaped, escaping the result again changes it. */
  lemma EscapeHtmlNotIdempotent(s: string)
    requires '&' in s || '<' in s || '>' in s
    ensures EscapeHtml(EscapeHtml(s)) != EscapeHtml(s)
  {
    EscapeHtmlIntroducesAmpersand(s);
    EscapeHtmlChangesAmpersandText(EscapeHtml(s));
  }

  /** The class a diff line is shown with. */
  datatype LineKind = Added | Removed | Plain

  /** A line marked `+++|` is added even when it is also marked `---|`. */
  function Classify(cleaned: string): LineKind
  {
    if Contains(cleaned, "+++|") then Added
    else if Contains(cleaned, "---|") then Removed
    else Plain
  }

  function OpenTag(k: LineKind): string
  {
    match k
    case Added => "<span class=\"diff-added\">"
    case Removed => "<span class=\"diff-removed\">"
    case Plain => "<span>"
  }

  const CLOSE_TAG: string := "</span>"

  /** `r` is one span of kind `k`: the opening tag, a text without angle
      brackets, and the closing tag. */
  predicate IsOneSpan(r: string, k: LineKind)
  {
    && |OpenTag(k)| + |CLOSE_TAG| <= |r|
    && r[..|OpenTag(k)|] == OpenTag(k)
    && r[|r| - |CLOSE_TAG|..] == CLOSE_TAG
    && '<' !in SpanText(r, k)
    && '>' !in SpanText(r, k)
  }

  /** What a span of kind `k` holds between its two tags. */
  function SpanText(r: string, k: LineKind): string
    requires |OpenTag(k)| + |CLOSE_TAG| <= |r|
  {
    r[|OpenTag(k)|..|r| - |CLOSE_TAG|]
  }

  /** One line of `highlightDiff`: whitespace runs collapsed, classified,
      escaped and wrapped in exactly one span. */
  function RenderLine(line: string): (r: string)
    ensures '\n' !in r
    ensures IsOneSpan(r, Classify(CollapseWhitespace(line)))
    ensures Unescape(SpanText(r, Classify(CollapseWhitespace(line)))) == CollapseWhitespace(line)
  {
    var cleaned := CollapseWhitespace(line);
    var k := Classify(cleaned);
    var body := EscapeHtml(cleaned);
    CollapseWhitespaceShape(line);
    EscapedLineHasNoLineFeed(cleaned);
    WrapIsOneSpan(k, body);
    UnescapeEscapeHtml(cleaned);
    OpenTag(k) + body + CLOSE_TAG
  }

  lemma EscapedLineHasNoLineFeed(cleaned: string)
    requires OnlySpaces(cleaned)
    ensures '\n' !in EscapeHtml(cleaned)
  {
    OnlySpacesExcludes(cleaned, '\n');
    EscapeHtmlCount(cleaned, '\n');
    CountAbsent(cleaned, '\n');
    CountAbsent(EscapeHtml(cleaned), '\n');
  }

  /** Wrapping an escaped text in the tags of kind `k` makes one span of
      that kind, on one line when the text is. */
  lemma WrapIsOneSpan(k: LineKind, body: string)
    requires '<' !in body && '>' !in body
    ensures IsOneSpan(OpenTag(k) + body + CLOSE_TAG, k)
    ensures SpanText(OpenTag(k) + body + CLOSE_TAG, k) == body
    ensures '\n' !in body ==> '\n' !in OpenTag(k) + body + CLOSE_TAG
  {
    var open := OpenTag(k);
    var r := open + body + CLOSE_TAG;
    assert r[..|open|] == open && r[|r| - |CLOSE_TAG|..] == CLOSE_TAG;
    assert r[|open|..|r| - |CLOSE_TAG|] == body;
    assert '\n' !in open && '\n' !in CLOSE_TAG;
  }

  function RenderLines(lines: seq<string>): (r: seq<string>)
    ensures |r| == |lines|
    ensures forall i :: 0 <= i < |lines| ==> r[i] == RenderLine(lines[i])
  {
    if lines == [] then [] else [RenderLine(lines[0])] + RenderLines(lines[1..])
  }

  /** `highlightDiff`: split into lines, render each, join them again. */
  function HighlightDiff(diffText: string): string
  {
    Join(RenderLines(Split(diffText, '\n')), '\n')
  }

  /** The output has as many lines as the input, and its line i is input
      line i rendered. */
  lemma HighlightDiffLines(diffText: string)
    ensures Split(HighlightDiff(diffText), '\n') == RenderLines(Split(diffText, '\n'))
    ensures Count(HighlightDiff(diffText), '\n') == Count(diffText, '\n')
  {
    var rendered := RenderLines(Split(diffText, '\n'));
    SplitJoin(rendered, '\n');
  }

  /** Every output line is one span, classed added exactly when its
      collapsed input line holds `+++|`, whether or not it also holds `---|`,
      and its text decodes to the collapsed input line. */
  lemma HighlightDiffLineShape(diffText: string, i: nat)
    requires i < |Split(diffText, '\n')|
    ensures var out := Split(HighlightDiff(diffText), '\n');
            var cleaned := CollapseWhitespace(Split(diffText, '\n')[i]);
            && i < |out|
            && (Contains(cleaned, "+++|") ==> IsOneSpan(out[i], Added))
            && (!Contains(cleaned, "+++|") && Contains(cleaned, "---|") ==> IsOneSpan(out[i], Removed))
            && (!Contains(cleaned, "+++|") && !Contains(cleaned, "---|") ==> IsOneSpan(out[i], Plain))
            && Unescape(SpanText(out[i], Classify(cleaned))) == cleaned
  {
    HighlightDiffLines(diffText);
  }
}
