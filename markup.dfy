/**
 * The markup sanitiser: a fixed chain of rewrites that turns a re-serialised
 * XHTML fragment into display text. Line breaks become newlines, `div`
 * openings a blank line, list items a bullet, every other tag is removed,
 * five entities are decoded (`&amp;` first) and the ends are trimmed.
 * Interior whitespace is kept as it is.
 */
module Markup {
  import opened Text

  /** What an empty fragment sanitises to. */
  const NoContent: string := "[无内容]"

  /** The three tag shapes the sanitiser matches with a pattern rather than a literal. */
  datatype Pattern =
    | LineBreak   // `<br`, optional whitespace, optional `/`, then `>`
    | DivOpen     // `<div`, anything but `>`, then `>`
    | AnyTag      // `<`, anything but `>`, then `>`

  /** Index of the first `>` at or after `j`, or `|s|` when there is none. */
  function CloseAt(s: string, j: nat): (k: nat)
    requires j <= |s|
    ensures j <= k <= |s|
    ensures k < |s| ==> s[k] == '>'
    ensures forall i :: j <= i < k ==> s[i] != '>'
    decreases |s| - j
  {
    if j == |s| || s[j] == '>' then j else CloseAt(s, j + 1)
  }

  /** Index of the first non-whitespace character at or after `j`, or `|s|`. */
  function SkipSpace(s: string, j: nat): (k: nat)
    requires j <= |s|
    ensures j <= k <= |s|
    ensures k < |s| ==> !IsSpace(s[k])
    ensures forall i :: j <= i < k ==> IsSpace(s[i])
    decreases |s| - j
  {
    if j == |s| || !IsSpace(s[j]) then j else SkipSpace(s, j + 1)
  }

  /** Length of the match of `p` at the very start of `s`; 0 when `p` does not match there. */
  function MatchLength(p: Pattern, s: string): (n: nat)
    ensures n <= |s|
    ensures n > 0 ==> s[0] == '<' && s[n - 1] == '>'
    ensures n > 0 ==> forall i :: 0 <= i < n - 1 ==> s[i] != '>'
  {
    match p
    case LineBreak =>
      if |s| < 3 || s[..3] != "<br" then 0
      else
        var k := SkipSpace(s, 3);
        if k < |s| && s[k] == '>' then k + 1
        else if k + 1 < |s| && s[k] == '/' && s[k + 1] == '>' then k + 2
        else 0
    case DivOpen =>
      if |s| < 4 || s[..4] != "<div" then 0
      else
        var k := CloseAt(s, 4);
        if k < |s| then k + 1 else 0
    case AnyTag =>
      if s == [] || s[0] != '<' then 0
      else
        var k := CloseAt(s, 1);
        if k < |s| then k + 1 else 0
  }

  /**
   * Replaces every match of `p` by `rep`, left to right; the search resumes
   * after each match.
   */
  function ReplacePattern(s: string, p: Pattern, rep: string): string
    decreases |s|
  {
    if s == [] then []
    else
      var n := MatchLength(p, s);
      if n > 0 then rep + ReplacePattern(s[n..], p, rep)
      else [s[0]] + ReplacePattern(s[1..], p, rep)
  }

  /** Where the pattern matches nowhere, the text is left unchanged. */
  lemma {:induction false} ReplacePatternNoMatch(s: string, p: Pattern, rep: string)
    requires forall i :: 0 <= i < |s| ==> MatchLength(p, s[i..]) == 0
    ensures ReplacePattern(s, p, rep) == s
    decreases |s|
  {
    if s != [] {
      assert s[0..] == s;
      assert forall i :: 0 <= i < |s| - 1 ==> s[1..][i..] == s[i + 1..];
      ReplacePatternNoMatch(s[1..], p, rep);
    }
  }

  /** A character absent from the input and from the replacement stays absent. */
  lemma {:induction false} ReplacePatternKeepsOut(s: string, p: Pattern, rep: string, c: char)
    requires c !in s && c !in rep
    ensures c !in ReplacePattern(s, p, rep)
    decreases |s|
  {
    if s != [] {
      var n := MatchLength(p, s);
      if n > 0 {
        assert c !in s[n..];
        ReplacePatternKeepsOut(s[n..], p, rep, c);
      } else {
        assert c !in s[1..];
        ReplacePatternKeepsOut(s[1..], p, rep, c);
      }
    }
  }

  /** A first character other than `<` is copied and the scan moves on by one. */
  lemma ReplacePatternCopy(s: string, p: Pattern, rep: string)
    requires s != [] && s[0] != '<'
    ensures ReplacePattern(s, p, rep) == [s[0]] + ReplacePattern(s[1..], p, rep)
  {
    assert MatchLength(p, s) == 0;
  }

  /** A prefix without `<` is copied unchanged: every match begins with `<`. */
  lemma {:induction false} ReplacePatternSkip(a: string, b: string, p: Pattern, rep: string)
    requires '<' !in a
    ensures ReplacePattern(a + b, p, rep) == a + ReplacePattern(b, p, rep)
    decreases |a|
  {
    if a != [] {
      var s := a + b;
      assert s[0] == a[0] != '<';
      assert s[1..] == a[1..] + b;
      ReplacePatternCopy(s, p, rep);
      ReplacePatternSkip(a[1..], b, p, rep);
      assert a == [a[0]] + a[1..];
    } else {
      assert a + b == b;
    }
  }

  /** A match at the front is replaced and the scan resumes after it. */
  lemma ReplacePatternHit(x: string, b: string, p: Pattern, rep: string)
    requires x != [] && MatchLength(p, x + b) == |x|
    ensures ReplacePattern(x + b, p, rep) == rep + ReplacePattern(b, p, rep)
  {
    assert (x + b)[|x|..] == b;
  }

  /** A `<` that starts no match is copied and the scan moves on by one. */
  lemma ReplacePatternMiss(b: string, p: Pattern, rep: string)
    requires MatchLength(p, "<" + b) == 0
    ensures ReplacePattern("<" + b, p, rep) == "<" + ReplacePattern(b, p, rep)
  {
    assert ("<" + b)[1..] == b;
  }

  /** Steps one to five: layout tags become their plain-text equivalents. */
  function ConvertLayout(s: string): string {
    var a := ReplacePattern(s, LineBreak, "\n");
    var b := ReplacePattern(a, DivOpen, "\n\n");
    var c := ReplaceAll(b, "</div>", "");
    var d := ReplaceAll(c, "<li>", "• ");
    ReplaceAll(d, "</li>", "\n")
  }

  /** Step six: every remaining tag is removed. */
  function StripTags(s: string): string {
    ReplacePattern(s, AnyTag, "")
  }

  /** No `<` anywhere before a `>`: nothing shaped like a tag is left. */
  predicate NoTagShape(s: string) {
    forall i, j :: 0 <= i < j < |s| && s[i] == '<' ==> s[j] != '>'
  }

  /** After tag stripping, no `<` precedes a `>`. */
  lemma {:induction false} StripTagsLeavesNoTag(s: string)
    ensures NoTagShape(StripTags(s))
    decreases |s|
  {
    if s != [] {
      var n := MatchLength(AnyTag, s);
      if n > 0 {
        StripTagsLeavesNoTag(s[n..]);
      } else {
        var rest := StripTags(s[1..]);
        StripTagsLeavesNoTag(s[1..]);
        if s[0] == '<' {
          // no match at the start means no `>` anywhere after the `<`
          assert CloseAt(s, 1) == |s|;
          assert '>' !in s[1..];
          ReplacePatternKeepsOut(s[1..], AnyTag, "", '>');
        }
        assert StripTags(s) == [s[0]] + rest;
      }
    }
  }

  /** Step seven: the entities, decoded in this order, `&amp;` first. */
  function DecodeEntities(s: string): string {
    var a := ReplaceAll(s, "&amp;", "&");
    var b := ReplaceAll(a, "&lt;", "<");
    var c := ReplaceAll(b, "&gt;", ">");
    var d := ReplaceAll(c, "&quot;", "\"");
    ReplaceAll(d, "&nbsp;", " ")
  }

  /**
   * The sanitiser. An empty fragment yields the placeholder; otherwise the
   * result is trimmed of whitespace at both ends.
   */
  function CleanHtml(html: string): (r: string)
    ensures html == [] ==> r == NoContent
    ensures r == [] || (!IsSpace(r[0]) && !IsSpace(r[|r| - 1]))
  {
    if html == [] then NoContent
    else Trim(DecodeEntities(StripTags(ConvertLayout(html))))
  }

  /** Chains the four stages of the sanitiser on a non-empty fragment. */
  lemma CleanHtmlStages(html: string, layout: string, stripped: string, decoded: string)
    requires html != []
    requires ConvertLayout(html) == layout && StripTags(layout) == stripped
    requires DecodeEntities(stripped) == decoded
    ensures CleanHtml(html) == Trim(decoded)
  {
  }

  /** Chains the five entity replacements. */
  lemma DecodeStages(s: string, a: string, b: string, c: string, d: string, e: string)
    requires ReplaceAll(s, "&amp;", "&") == a && ReplaceAll(a, "&lt;", "<") == b
    requires ReplaceAll(b, "&gt;", ">") == c && ReplaceAll(c, "&quot;", "\"") == d
    requires ReplaceAll(d, "&nbsp;", " ") == e
    ensures DecodeEntities(s) == e
  {
  }

  /** A text without `<` passes the tag rewrites unchanged. */
  lemma NoMarkupUnchanged(s: string)
    requires '<' !in s
    ensures ConvertLayout(s) == s && StripTags(s) == s
  {
    assert s + [] == s;
    ReplacePatternSkip(s, [], LineBreak, "\n");
    ReplacePatternSkip(s, [], DivOpen, "\n\n");
    ReplacePatternSkip(s, [], AnyTag, "");
    ReplaceAllNone(s, "</div>", "");
    ReplaceAllNone(s, "<li>", "• ");
    ReplaceAllNone(s, "</li>", "\n");
  }

  /** On a fragment without `<`, sanitising is decoding followed by trimming. */
  lemma PlainTextCleaned(s: string)
    requires s != [] && '<' !in s
    ensures CleanHtml(s) == Trim(DecodeEntities(s))
  {
    NoMarkupUnchanged(s);
  }

  /** A text without `&` passes entity decoding unchanged. */
  lemma NoEntityUnchanged(s: string)
    requires '&' !in s
    ensures DecodeEntities(s) == s
  {
    ReplaceAllNone(s, "&amp;", "&");
    ReplaceAllNone(s, "&lt;", "<");
    ReplaceAllNone(s, "&gt;", ">");
    ReplaceAllNone(s, "&quot;", "\"");
    ReplaceAllNone(s, "&nbsp;", " ");
  }

  // --- a line break inside a `div` ------------------------------------

  /** `<div>` is not a line break: it and the plain text after it are copied. */
  lemma BreakSkipsDiv(x: string, rest: string)
    requires '<' !in x
    ensures ReplacePattern("<div>" + x + rest, LineBreak, "\n")
         == "<div>" + x + ReplacePattern(rest, LineBreak, "\n")
  {
    var b := ("div>" + x) + rest;
    assert "<div>" + x + rest == "<" + b;
    assert ("<" + b)[1] == 'd';
    assert MatchLength(LineBreak, "<" + b) == 0;
    ReplacePatternMiss(b, LineBreak, "\n");
    ReplacePatternSkip("div>" + x, rest, LineBreak, "\n");
  }

  /** `</div>` at the end is not a line break either. */
  lemma BreakSkipsDivClose(p: Pattern, rep: string)
    requires p == LineBreak || p == DivOpen
    ensures ReplacePattern("</div>", p, rep) == "</div>"
  {
    assert "</div>" == "<" + ("/div>" + []);
    ReplacePatternMiss("/div>" + [], p, rep);
    ReplacePatternSkip("/div>", [], p, rep);
  }

  /** `<br/>` becomes a newline. */
  lemma BreakRewritten(y: string)
    requires '<' !in y
    ensures ReplacePattern("<br/>" + y + "</div>", LineBreak, "\n") == "\n" + y + "</div>"
  {
    assert "<br/>" + y + "</div>" == "<br/>" + (y + "</div>");
    assert MatchLength(LineBreak, "<br/>" + (y + "</div>")) == 5;
    ReplacePatternHit("<br/>", y + "</div>", LineBreak, "\n");
    ReplacePatternSkip(y, "</div>", LineBreak, "\n");
    BreakSkipsDivClose(LineBreak, "\n");
  }

  /** `<div>` becomes a blank line and `</div>` is kept for step three. */
  lemma DivRewritten(z: string)
    requires '<' !in z
    ensures ReplacePattern("<div>" + z + "</div>", DivOpen, "\n\n") == "\n\n" + z + "</div>"
  {
    assert "<div>" + z + "</div>" == "<div>" + (z + "</div>");
    assert MatchLength(DivOpen, "<div>" + (z + "</div>")) == 5;
    ReplacePatternHit("<div>", z + "</div>", DivOpen, "\n\n");
    ReplacePatternSkip(z, "</div>", DivOpen, "\n\n");
    BreakSkipsDivClose(DivOpen, "\n\n");
  }

  /** `</div>` disappears. */
  lemma DivCloseRemoved(z: string)
    requires '<' !in z
    ensures ReplaceAll(z + "</div>", "</div>", "") == z
  {
    ReplaceAllSkip(z, "</div>", "</div>", "");
    assert "</div>" == "</div>" + [];
    ReplaceAllHit([], "</div>", "");
  }

  /** Step one on a two-line `div`: the line break becomes a newline. */
  lemma BreakInDivStepOne(x: string, y: string)
    requires '<' !in x && '<' !in y
    ensures ReplacePattern("<div>" + x + "<br/>" + y + "</div>", LineBreak, "\n")
         == "<div>" + (x + "\n" + y) + "</div>"
  {
    var rest := "<br/>" + y + "</div>";
    BreakSkipsDiv(x, rest);
    BreakRewritten(y);
    SeqShapes(x, y);
  }

  /** The sequence identities `BreakInDivStepOne` regroups by. */
  lemma SeqShapes(x: string, y: string)
    ensures "<div>" + x + ("<br/>" + y + "</div>") == "<div>" + x + "<br/>" + y + "</div>"
    ensures "<div>" + x + ("\n" + y + "</div>") == "<div>" + (x + "\n" + y) + "</div>"
  {
  }

  /** Steps two and three on a `div`: its opening becomes a blank line and its closing goes. */
  lemma DivStepsTwoThree(z: string)
    requires '<' !in z
    ensures ReplaceAll(ReplacePattern("<div>" + z + "</div>", DivOpen, "\n\n"), "</div>", "")
         == "\n\n" + z
  {
    DivRewritten(z);
    assert "\n\n" + z + "</div>" == ("\n\n" + z) + "</div>";
    DivCloseRemoved("\n\n" + z);
  }

  /** The layout steps on a two-line `div`. */
  lemma BreakInDivLayout(x: string, y: string)
    requires '<' !in x && '<' !in y
    ensures ConvertLayout("<div>" + x + "<br/>" + y + "</div>") == "\n\n" + x + "\n" + y
  {
    var s := "<div>" + x + "<br/>" + y + "</div>";
    var z := x + "\n" + y;
    var a := "<div>" + z + "</div>";
    var c := "\n\n" + z;
    BreakInDivStepOne(x, y);
    DivStepsTwoThree(z);
    ReplaceAllNone(c, "<li>", "• ");
    ReplaceAllNone(c, "</li>", "\n");
    assert c == "\n\n" + x + "\n" + y;
  }

  /**
   * Two lines in a `div` separated by `<br/>` come out as the two lines
   * separated by one newline; the blank line the `div` opens is trimmed.
   */
  lemma BreakInDiv(x: string, y: string)
    requires '<' !in x && '<' !in y && '&' !in x && '&' !in y
    requires x != [] && !IsSpace(x[0]) && y != [] && !IsSpace(y[|y| - 1])
    ensures CleanHtml("<div>" + x + "<br/>" + y + "</div>") == x + "\n" + y
  {
    var html := "<div>" + x + "<br/>" + y + "</div>";
    var z := x + "\n" + y;
    var c := "\n\n" + z;
    assert ConvertLayout(html) == c by {
      BreakInDivLayout(x, y);
      assert "\n\n" + x + "\n" + y == c;
    }
    assert '<' !in c && '&' !in c by {
      assert forall ch :: ch in c ==> ch == '\n' || ch in x || ch in y;
    }
    assert StripTags(c) == c && DecodeEntities(c) == c by {
      NoMarkupUnchanged(c);
      NoEntityUnchanged(c);
    }
    assert Trim(c) == z by {
      assert z[0] == x[0] && z[|z| - 1] == y[|y| - 1];
      assert c == "\n\n" + z + [];
      TrimSurrounded("\n\n", z, []);
    }
    CleanHtmlStages(html, c, c, c);
  }

  // --- a list item ----------------------------------------------------

  /** The two patterns leave a list item alone. */
  lemma ItemPatternsUnchanged(a: string, p: Pattern, rep: string)
    requires '<' !in a && (p == LineBreak || p == DivOpen)
    ensures ReplacePattern("<li>" + a + "</li>", p, rep) == "<li>" + a + "</li>"
  {
    var b := ("li>" + a) + "</li>";
    assert "<li>" + a + "</li>" == "<" + b;
    assert ("<" + b)[1] == 'l';
    ReplacePatternMiss(b, p, rep);
    ReplacePatternSkip("li>" + a, "</li>", p, rep);
    ItemClosePatternsUnchanged(p, rep);
  }

  /** The two patterns leave `</li>` alone. */
  lemma ItemClosePatternsUnchanged(p: Pattern, rep: string)
    requires p == LineBreak || p == DivOpen
    ensures ReplacePattern("</li>", p, rep) == "</li>"
  {
    assert "</li>" == "<" + ("/li>" + []);
    assert ("<" + ("/li>" + []))[1] == '/';
    ReplacePatternMiss("/li>" + [], p, rep);
    ReplacePatternSkip("/li>", [], p, rep);
  }

  /** No `</div>` in a list item. */
  lemma ItemHasNoDivClose(a: string)
    requires '<' !in a
    ensures ReplaceAll("<li>" + a + "</li>", "</div>", "") == "<li>" + a + "</li>"
  {
    var s := "<li>" + a + "</li>";
    assert s == "<" + (("li>" + a) + "</li>");
    assert s[1] == 'l';
    ReplaceAllMiss(s, "</div>", "");
    assert s[1..] == ("li>" + a) + "</li>";
    ReplaceAllSkip("li>" + a, "</li>", "</div>", "");
    ReplaceAllShort("</li>", "</div>", "");
  }

  /** A closing `</li>` is not an opening `<li>`. */
  lemma ItemCloseNotOpen(t: string)
    requires t == "</li>"
    ensures ReplaceAll(t, "<li>", "• ") == t
  {
    assert t == "<" + "/li>" && t[1] == '/';
    ReplaceAllMiss(t, "<li>", "• ");
    ReplaceAllNone("/li>", "<li>", "• ");
  }

  /** `<li>` becomes a bullet. */
  lemma ItemOpenRewritten(a: string)
    requires '<' !in a
    ensures ReplaceAll("<li>" + a + "</li>", "<li>", "• ") == "• " + a + "</li>"
  {
    var t := a + "</li>";
    assert "<li>" + a + "</li>" == "<li>" + t;
    ReplaceAllHit(t, "<li>", "• ");
    ItemTailNoOpen(a);
    assert "• " + t == "• " + a + "</li>";
  }

  /** No `<li>` in the rest of a list item. */
  lemma ItemTailNoOpen(a: string)
    requires '<' !in a
    ensures ReplaceAll(a + "</li>", "<li>", "• ") == a + "</li>"
  {
    ReplaceAllSkip(a, "</li>", "<li>", "• ");
    ItemCloseNotOpen("</li>");
  }

  /** `</li>` becomes a newline. */
  lemma ItemCloseRewritten(a: string)
    requires '<' !in a
    ensures ReplaceAll("• " + a + "</li>", "</li>", "\n") == "• " + a + "\n"
  {
    assert "• " + a + "</li>" == ("• " + a) + ("</li>" + []);
    ReplaceAllSkip("• " + a, "</li>" + [], "</li>", "\n");
    ReplaceAllHit([], "</li>", "\n");
  }

  /** A list item comes out as a bulleted line. */
  lemma ListItem(a: string)
    requires '<' !in a && '&' !in a && a != [] && !IsSpace(a[|a| - 1])
    ensures CleanHtml("<li>" + a + "</li>") == "• " + a
  {
    var html := "<li>" + a + "</li>";
    var f := "• " + a + "\n";
    assert ConvertLayout(html) == f by {
      ItemPatternsUnchanged(a, LineBreak, "\n");
      ItemPatternsUnchanged(a, DivOpen, "\n\n");
      ItemHasNoDivClose(a);
      ItemOpenRewritten(a);
      ItemCloseRewritten(a);
    }
    assert StripTags(f) == f by { NoMarkupUnchanged(f); }
    assert DecodeEntities(f) == f by { NoEntityUnchanged(f); }
    assert Trim(f) == "• " + a by {
      assert f == [] + ("• " + a) + "\n";
      TrimSurrounded([], "• " + a, "\n");
    }
  }

  // --- entities ---------------------------------------------------------

  /** Steps two to five of decoding leave a text without `;` unchanged. */
  lemma LaterEntitiesAbsent(t: string)
    requires ';' !in t
    ensures ReplaceAll(ReplaceAll(ReplaceAll(ReplaceAll(t, "&lt;", "<"), "&gt;", ">"), "&quot;", "\""), "&nbsp;", " ") == t
  {
    ReplaceAllAbsentChar(t, "&lt;", "<", ';');
    ReplaceAllAbsentChar(t, "&gt;", ">", ';');
    ReplaceAllAbsentChar(t, "&quot;", "\"", ';');
    ReplaceAllAbsentChar(t, "&nbsp;", " ", ';');
  }

  /** `&amp;` between two plain texts is decoded to `&`, and nothing else changes. */
  lemma AmpersandDecoded(a: string, b: string)
    requires '&' !in a && '&' !in b && ';' !in a && ';' !in b
    ensures DecodeEntities(a + "&amp;" + b) == a + "&" + b
  {
    var t := a + "&" + b;
    assert ReplaceAll(a + "&amp;" + b, "&amp;", "&") == t by {
      assert a + "&amp;" + b == a + ("&amp;" + b);
      ReplaceAllSkip(a, "&amp;" + b, "&amp;", "&");
      ReplaceAllHit(b, "&amp;", "&");
      ReplaceAllNone(b, "&amp;", "&");
    }
    assert ';' !in t by {
      assert forall ch :: ch in t ==> ch in a || ch == '&' || ch in b;
    }
    LaterEntitiesAbsent(t);
  }

  /**
   * An escaped ampersand in plain text comes out as `&`; the text after it
   * has no `;`, so it cannot complete a second entity.
   */
  lemma AmpersandInText(a: string, b: string)
    requires '&' !in a && '&' !in b && ';' !in a && ';' !in b && '<' !in a && '<' !in b
    requires a != [] && !IsSpace(a[0]) && b != [] && !IsSpace(b[|b| - 1])
    ensures CleanHtml(a + "&amp;" + b) == a + "&" + b
  {
    var s := a + "&amp;" + b;
    var t := a + "&" + b;
    assert '<' !in s by {
      assert forall ch :: ch in s ==> ch in a || ch in "&amp;" || ch in b;
    }
    PlainTextCleaned(s);
    AmpersandDecoded(a, b);
    assert t[0] == a[0] && t[|t| - 1] == b[|b| - 1];
    TrimIdentity(t);
  }

  /** Decoding starts with `&amp;`, so a doubly escaped `&amp;lt;` comes out as `<`. */
  lemma DoubleEscapeExample()
    ensures DecodeEntities("&amp;lt;") == "<"
  {
    ReplaceAllHit("lt;", "&amp;", "&");
    ReplaceAllNone("lt;", "&amp;", "&");
    assert "&amp;lt;" == "&amp;" + "lt;";
    ReplaceAllHit([], "&lt;", "<");
    assert "&lt;" == "&lt;" + [];
    assert ReplaceAll("&amp;lt;", "&amp;", "&") == "&lt;";
    ReplaceAllNone("<", "&gt;", ">");
    ReplaceAllNone("<", "&quot;", "\"");
    ReplaceAllNone("<", "&nbsp;", " ");
  }

  /** `&lt;` is decoded to `<`. */
  lemma LessThanDecoded(s: string)
    requires s == "&lt;b&gt;"
    ensures ReplaceAll(s, "&lt;", "<") == "<b&gt;"
  {
    var g := "&gt;";
    LessThanShape(s);
    ReplaceAllHit("b" + g, "&lt;", "<");
    ReplaceAllSkip("b", g, "&lt;", "<");
    ReplaceAllAbsentChar(g, "&lt;", "<", 'l');
  }

  /** How `LessThanDecoded` splits its input. */
  lemma LessThanShape(s: string)
    requires s == "&lt;b&gt;"
    ensures s == "&lt;" + ("b" + "&gt;") && "<" + ("b" + "&gt;") == "<b&gt;"
  {
  }

  /** `&gt;` is decoded to `>`. */
  lemma GreaterThanDecoded(t: string)
    requires t == "<b&gt;"
    ensures ReplaceAll(t, "&gt;", ">") == "<b>"
  {
    assert t == "<b" + ("&gt;" + []);
    ReplaceAllSkip("<b", "&gt;", "&gt;", ">");
    ReplaceAllHit([], "&gt;", ">");
  }

  /** Decoding turns the escaped tag into a tag. */
  lemma BracketsDecoded(s: string)
    requires s == "&lt;b&gt;"
    ensures DecodeEntities(s) == "<b>"
  {
    var t, u := "<b&gt;", "<b>";
    ReplaceAllAbsentChar(s, "&amp;", "&", 'm');
    LessThanDecoded(s);
    GreaterThanDecoded(t);
    ReplaceAllAbsentChar(u, "&quot;", "\"", '&');
    ReplaceAllAbsentChar(u, "&nbsp;", " ", '&');
    DecodeStages(s, s, t, u, u, u);
  }

  /** The escaped tag has no `<`, so only decoding and trimming apply to it. */
  lemma EscapedTagIsPlain(s: string)
    requires s == "&lt;b&gt;"
    ensures CleanHtml(s) == Trim(DecodeEntities(s))
  {
    PlainTextCleaned(s);
  }

  /** Decoded and trimmed, the escaped tag is the tag. */
  lemma EscapedTagTrimmed(s: string)
    requires s == "&lt;b&gt;"
    ensures Trim(DecodeEntities(s)) == "<b>"
  {
    BracketsDecoded(s);
    TrimIdentity("<b>");
  }

  /** The first pass of `NotIdempotent`: escaped brackets are decoded into a tag. */
  lemma EscapedTagDecoded(s: string)
    requires s == "&lt;b&gt;"
    ensures CleanHtml(s) == "<b>"
  {
    EscapedTagIsPlain(s);
    EscapedTagTrimmed(s);
  }

  /** The second pass of `NotIdempotent`: the decoded tag is stripped. */
  lemma DecodedTagStripped(u: string)
    requires u == "<b>"
    ensures CleanHtml(u) == []
  {
    LineBreakAbsent(u, "\n");
    DivOpenAbsent(u, "\n\n");
    ReplaceAllAbsentChar(u, "</div>", "", 'd');
    ReplaceAllAbsentChar(u, "<li>", "• ", 'l');
    ReplaceAllAbsentChar(u, "</li>", "\n", 'l');
    assert u == u + [];
    assert MatchLength(AnyTag, u + []) == 3;
    ReplacePatternHit(u, [], AnyTag, "");
    NoEntityUnchanged([]);
  }

  /** Sanitising twice is not sanitising once: escaped brackets survive one pass but not two. */
  lemma NotIdempotent()
    ensures CleanHtml("&lt;b&gt;") == "<b>" && CleanHtml(CleanHtml("&lt;b&gt;")) == []
  {
    EscapedTagDecoded("&lt;b&gt;");
    DecodedTagStripped("<b>");
  }

  /** A line break needs an `r`: a text without one has no line-break tag. */
  lemma LineBreakAbsent(s: string, rep: string)
    requires 'r' !in s
    ensures ReplacePattern(s, LineBreak, rep) == s
  {
    forall i | 0 <= i < |s| ensures MatchLength(LineBreak, s[i..]) == 0 {
      if |s[i..]| >= 3 {
        assert s[i..][2] == s[i + 2] != 'r';
      }
    }
    ReplacePatternNoMatch(s, LineBreak, rep);
  }

  /** A `div` opening needs a `d`: a text without one has none. */
  lemma DivOpenAbsent(s: string, rep: string)
    requires 'd' !in s
    ensures ReplacePattern(s, DivOpen, rep) == s
  {
    forall i | 0 <= i < |s| ensures MatchLength(DivOpen, s[i..]) == 0 {
      if |s[i..]| >= 4 {
        assert s[i..][1] == s[i + 1] != 'd';
      }
    }
    ReplacePatternNoMatch(s, DivOpen, rep);
  }
}
