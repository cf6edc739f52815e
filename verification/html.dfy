/**
 * The HTML view of a message: `htmlspecialchars($text, ENT_NOQUOTES)`, the
 * `<br>` line breaks, the colour and bold/italic/underline wrappers of
 * `addText`, and the default outer span that `getProtocolMessage` adds.
 */
module Html {
  import opened Optional
  import opened Encoding
  import opened Text

  const FORMAT_BOLD_TEXT: nat := 0x01
  const FORMAT_ITALIC_TEXT: nat := 0x02
  const FORMAT_UNDERLINE_TEXT: nat := 0x04
  const FORMAT_NEW_LINE: nat := 0x08

  /** `bits & flag` is non-zero, for a one-bit `flag` (two's complement for negative `bits`). */
  predicate HasFlag(bits: int, flag: nat)
    requires flag > 0
  {
    (bits / flag) % 2 == 1
  }

  // ---------------------------------------------------------------------
  // Escaping

  /** `htmlspecialchars` with ENT_NOQUOTES on one character: quotes pass through. */
  function EscapeChar(c: char): string {
    if c == '&' then "&amp;" else if c == '<' then "&lt;" else if c == '>' then "&gt;" else [c]
  }

  function EscapeHtml(s: string): string {
    if s == [] then [] else EscapeChar(s[0]) + EscapeHtml(s[1..])
  }

  /** The reading a browser gives the three entities `EscapeHtml` produces. */
  function UnescapeHtml(s: string): string
    decreases |s|
  {
    if s == [] then []
    else if |s| >= 5 && s[..5] == "&amp;" then "&" + UnescapeHtml(s[5..])
    else if |s| >= 4 && s[..4] == "&lt;" then "<" + UnescapeHtml(s[4..])
    else if |s| >= 4 && s[..4] == "&gt;" then ">" + UnescapeHtml(s[4..])
    else [s[0]] + UnescapeHtml(s[1..])
  }

  /** Unescaping undoes the escape of one leading character. */
  lemma UnescapeHead(c: char, t: string)
    ensures UnescapeHtml(EscapeChar(c) + t) == [c] + UnescapeHtml(t)
  {
    var x := EscapeChar(c) + t;
    if c == '&' {
      assert x[..5] == "&amp;" && x[5..] == t;
    } else if c == '<' {
      UnescapeLt(t);
    } else if c == '>' {
      UnescapeGt(t);
    } else {
      UnescapePlain(c, t);
    }
  }

  /** Unescaping turns a leading `&lt;` back into `<`. */
  lemma UnescapeLt(t: string)
    ensures UnescapeHtml("&lt;" + t) == "<" + UnescapeHtml(t)
  {
    var x := "&lt;" + t;
    assert x[1] == 'l';
    assert !(|x| >= 5 && x[..5] == "&amp;");
    assert x[..4] == "&lt;" && x[4..] == t;
  }

  /** Unescaping turns a leading `&gt;` back into `>`. */
  lemma UnescapeGt(t: string)
    ensures UnescapeHtml("&gt;" + t) == ">" + UnescapeHtml(t)
  {
    var x := "&gt;" + t;
    assert x[1] == 'g';
    assert !(|x| >= 5 && x[..5] == "&amp;");
    assert x[..4] != "&lt;";
    assert x[..4] == "&gt;" && x[4..] == t;
  }

  /** Unescaping keeps a leading character that starts no entity. */
  lemma UnescapePlain(c: char, t: string)
    requires c != '&'
    ensures UnescapeHtml([c] + t) == [c] + UnescapeHtml(t)
  {
    var x := [c] + t;
    assert x[0] == c && x[1..] == t;
    assert !(|x| >= 5 && x[..5] == "&amp;");
    assert !(|x| >= 4 && x[..4] == "&lt;");
    assert !(|x| >= 4 && x[..4] == "&gt;");
  }

  /** Escaping loses nothing: the text reads back exactly. */
  lemma {:induction false} UnescapeEscape(s: string)
    ensures UnescapeHtml(EscapeHtml(s)) == s
  {
    if s != [] {
      UnescapeHead(s[0], EscapeHtml(s[1..]));
      UnescapeEscape(s[1..]);
      assert [s[0]] + s[1..] == s;
    }
  }

  /** Escaped text holds no angle bracket, so it can open or close no tag. */
  lemma {:induction false} EscapeHasNoTags(s: string)
    ensures '<' !in EscapeHtml(s) && '>' !in EscapeHtml(s)
  {
    if s != [] {
      EscapeHasNoTags(s[1..]);
    }
  }

  /** Text without `&`, `<` and `>` is not changed: quotes in particular are kept as they are. */
  lemma {:induction false} EscapeKeepsPlainText(s: string)
    requires '&' !in s && '<' !in s && '>' !in s
    ensures EscapeHtml(s) == s
  {
    if s != [] {
      EscapeKeepsPlainText(s[1..]);
      assert [s[0]] + s[1..] == s;
    }
  }

  // ---------------------------------------------------------------------
  // The HTML of one addText call

  /** The escaped text with each CR LF turned into `<br>`. */
  function TextHtml(text: string): string {
    ReplaceAll(EscapeHtml(text), "\r\n", "<br>")
  }

  /** Turning `<br>` back into CR LF undoes the first rewrite on text without `<`. */
  lemma {:induction false} BreaksRoundTrip(x: string)
    requires '<' !in x
    ensures ReplaceAll(ReplaceAll(x, "\r\n", "<br>"), "<br>", "\r\n") == x
    decreases |x|
  {
    if |x| >= 2 {
      if x[..2] == "\r\n" {
        var y := ReplaceAll(x[2..], "\r\n", "<br>");
        BreaksRoundTrip(x[2..]);
        assert ("<br>" + y)[..4] == "<br>" && ("<br>" + y)[4..] == y;
        assert "\r\n" + x[2..] == x;
      } else {
        var y := ReplaceAll(x[1..], "\r\n", "<br>");
        BreaksRoundTrip(x[1..]);
        var z := [x[0]] + y;
        assert x[0] in x;
        assert z[0] == x[0] && z[1..] == y;
        if |z| >= 4 {
          assert z[..4] != "<br>";
        } else {
          assert ReplaceAll(y, "<br>", "\r\n") == y;
        }
        assert [x[0]] + x[1..] == x;
      }
    }
  }

  /** The HTML of a text reads back as the text: `<br>` as CR LF, entities as their characters. */
  lemma TextHtmlRoundTrip(text: string)
    ensures UnescapeHtml(ReplaceAll(TextHtml(text), "<br>", "\r\n")) == text
  {
    EscapeHasNoTags(text);
    BreaksRoundTrip(EscapeHtml(text));
    UnescapeEscape(text);
  }

  /** `<span style="color:#rrggbb;">`, two lowercase zero-padded digits per component. */
  function ColorOpen(r: Byte, g: Byte, b: Byte): string {
    "<span style=\"color:#" + HexPad(r, 2) + HexPad(g, 2) + HexPad(b, 2) + ";\">"
  }

  predicate HasColor(r: Byte, g: Byte, b: Byte) {
    r != 0 || g != 0 || b != 0
  }

  /** The HTML `addText` appends: the colour span, then `<b>`, `<i>`, `<u>` around it in that order. */
  function StyledHtml(text: string, bits: int, r: Byte, g: Byte, b: Byte): string {
    var h0 := TextHtml(text);
    var h1 := if HasColor(r, g, b) then ColorOpen(r, g, b) + h0 + "</span>" else h0;
    var h2 := if HasFlag(bits, FORMAT_BOLD_TEXT) then "<b>" + h1 + "</b>" else h1;
    var h3 := if HasFlag(bits, FORMAT_ITALIC_TEXT) then "<i>" + h2 + "</i>" else h2;
    if HasFlag(bits, FORMAT_UNDERLINE_TEXT) then "<u>" + h3 + "</u>" else h3
  }

  function OpenIf(c: bool, tag: string): string {
    if c then tag else ""
  }

  /** The tags opened before the text, outermost first. */
  function OpeningTags(bits: int, r: Byte, g: Byte, b: Byte): string {
    OpenIf(HasFlag(bits, FORMAT_UNDERLINE_TEXT), "<u>") + (OpenIf(HasFlag(bits, FORMAT_ITALIC_TEXT), "<i>")
    + (OpenIf(HasFlag(bits, FORMAT_BOLD_TEXT), "<b>") + OpenIf(HasColor(r, g, b), ColorOpen(r, g, b))))
  }

  /** The tags closed after the text, innermost first. */
  function ClosingTags(bits: int, r: Byte, g: Byte, b: Byte): string {
    OpenIf(HasColor(r, g, b), "</span>") + OpenIf(HasFlag(bits, FORMAT_BOLD_TEXT), "</b>")
    + OpenIf(HasFlag(bits, FORMAT_ITALIC_TEXT), "</i>") + OpenIf(HasFlag(bits, FORMAT_UNDERLINE_TEXT), "</u>")
  }

  /**
   * The fragment is the escaped text between properly nested tags: underline
   * outermost, then italic, bold and, innermost, the colour span, which is
   * present exactly when a component is non-zero.
   */
  lemma StyledHtmlLayout(text: string, bits: int, r: Byte, g: Byte, b: Byte)
    ensures StyledHtml(text, bits, r, g, b)
      == OpeningTags(bits, r, g, b) + TextHtml(text) + ClosingTags(bits, r, g, b)
  {
    var h0 := TextHtml(text);
    var c, cc := OpenIf(HasColor(r, g, b), ColorOpen(r, g, b)), OpenIf(HasColor(r, g, b), "</span>");
    var bo, bc := OpenIf(HasFlag(bits, FORMAT_BOLD_TEXT), "<b>"), OpenIf(HasFlag(bits, FORMAT_BOLD_TEXT), "</b>");
    var io, ic := OpenIf(HasFlag(bits, FORMAT_ITALIC_TEXT), "<i>"), OpenIf(HasFlag(bits, FORMAT_ITALIC_TEXT), "</i>");
    var uo, uc := OpenIf(HasFlag(bits, FORMAT_UNDERLINE_TEXT), "<u>"), OpenIf(HasFlag(bits, FORMAT_UNDERLINE_TEXT), "</u>");
    var h1 := if HasColor(r, g, b) then ColorOpen(r, g, b) + h0 + "</span>" else h0;
    var h2 := if HasFlag(bits, FORMAT_BOLD_TEXT) then "<b>" + h1 + "</b>" else h1;
    var h3 := if HasFlag(bits, FORMAT_ITALIC_TEXT) then "<i>" + h2 + "</i>" else h2;
    var h4 := if HasFlag(bits, FORMAT_UNDERLINE_TEXT) then "<u>" + h3 + "</u>" else h3;
    WrapIf(HasColor(r, g, b), ColorOpen(r, g, b), h0, "</span>");
    WrapIf(HasFlag(bits, FORMAT_BOLD_TEXT), "<b>", h1, "</b>");
    WrapIf(HasFlag(bits, FORMAT_ITALIC_TEXT), "<i>", h2, "</i>");
    WrapIf(HasFlag(bits, FORMAT_UNDERLINE_TEXT), "<u>", h3, "</u>");
    Regroup(bo, c, h0, cc, bc);
    Regroup(io, bo + c, h0, cc + bc, ic);
    Regroup(uo, io + (bo + c), h0, cc + bc + ic, uc);
    assert h4 == StyledHtml(text, bits, r, g, b);
  }

  /** A conditional wrapping written with `OpenIf`; kept apart to keep `TextHtml` proofs cheap. */
  lemma WrapIf(cond: bool, open: string, h: string, close: string)
    ensures (if cond then open + h + close else h) == OpenIf(cond, open) + h + OpenIf(cond, close)
  {
    if !cond {
      assert "" + h + "" == h;
    }
  }

  /** Regrouping nested wrappings; kept apart to keep `TextHtml` proofs cheap. */
  lemma Regroup(o1: string, o2: string, h: string, c2: string, c1: string)
    ensures o1 + (o2 + h + c2) + c1 == (o1 + o2) + h + (c2 + c1)
  {
  }

  /** The six digits of the colour span read back as the colour (0xRRGGBB). */
  lemma ColorOpenDigits(r: Byte, g: Byte, b: Byte)
    ensures var d := HexPad(r, 2) + HexPad(g, 2) + HexPad(b, 2);
      |d| == 6 && AllHex(d) && ParseHex(d) == r * 0x1_0000 + g * 0x100 + b
  {
    Pow16Values();
    HexPadLength(r, 2);
    HexPadLength(g, 2);
    HexPadLength(b, 2);
    HexPadRoundTrip(r, 2);
    HexPadRoundTrip(g, 2);
    HexPadRoundTrip(b, 2);
    ParseHexAppend(HexPad(r, 2), HexPad(g, 2));
    ParseHexAppend(HexPad(r, 2) + HexPad(g, 2), HexPad(b, 2));
  }

  // ---------------------------------------------------------------------
  // The outer span of getProtocolMessage

  /** The style of the default span: black, 9pt 'MS Shell Dlg 2'. */
  const DEFAULT_SPAN_ATTRIBUTES: string :=
    " style=\"color:#000000;" + " font-family:'MS Shell Dlg 2';" + " font-size:9pt; \""
  const DEFAULT_SPAN_OPEN: string := "<span" + DEFAULT_SPAN_ATTRIBUTES + ">"
  const SPAN_CLOSE: string := "</span>"

  /** The first position at or after `from` holding `c`. */
  function IndexOf(s: string, c: char, from: nat): (r: Option<nat>)
    ensures r.Some? ==> from <= r.value < |s| && s[r.value] == c
    ensures r.Some? ==> forall j :: from <= j < r.value ==> s[j] != c
    ensures r.None? ==> forall j :: from <= j < |s| ==> s[j] != c
    decreases |s| - from
  {
    if from >= |s| then None else if s[from] == c then Some(from) else IndexOf(s, c, from + 1)
  }

  /**
   * `preg_match('/^<span[^>]*>.+<\/span>$/s', $html, $o)` with `$o[0] == $html`:
   * the HTML starts with `<span`, its first `>` closes that tag, it ends with
   * `</span>`, and at least one character lies between that `>` and the
   * closing `</span>` (`.+`, where `/s` lets `.` match a newline).
   */
  predicate IsWrapped(html: string) {
    |html| >= 7 && html[..5] == "<span" && html[|html| - 7..] == SPAN_CLOSE &&
    match IndexOf(html, '>', 5)
    case None => false
    case Some(k) => k + 1 < |html| - 7
  }

  /** The HTML as sent: wrapped in the default span unless it already passes the test. */
  function FinalHtml(html: string): string {
    if IsWrapped(html) then html else DEFAULT_SPAN_OPEN + html + SPAN_CLOSE
  }

  /** A span whose opening tag has no `>` inside, around a non-empty body, passes the test. */
  lemma WrappedIntro(attributes: string, body: string)
    requires '>' !in attributes && |body| >= 1
    ensures IsWrapped("<span" + attributes + ">" + body + SPAN_CLOSE)
  {
    var h := "<span" + attributes + ">" + body + SPAN_CLOSE;
    var k := 5 + |attributes|;
    assert h[..5] == "<span";
    assert h[|h| - 7..] == SPAN_CLOSE;
    assert h[k] == '>';
    assert forall j :: 5 <= j < k ==> h[j] == attributes[j - 5];
    assert IndexOf(h, '>', 5) == Some(k) by {
      IndexOfFirst(h, '>', 5, k);
    }
  }

  /** `IndexOf` finds the first occurrence at or after `from`. */
  lemma {:induction false} IndexOfFirst(s: string, c: char, from: nat, k: nat)
    requires from <= k < |s| && s[k] == c
    requires forall j :: from <= j < k ==> s[j] != c
    ensures IndexOf(s, c, from) == Some(k)
    decreases k - from
  {
    if from < k {
      IndexOfFirst(s, c, from + 1, k);
    }
  }

  /** Conversely, HTML that passes the test is such a span, its tag ending at the first `>`. */
  lemma WrappedShape(html: string)
    requires IsWrapped(html)
    ensures var k := IndexOf(html, '>', 5).value;
      html == "<span" + html[5..k] + ">" + html[k + 1..|html| - 7] + SPAN_CLOSE
      && '>' !in html[5..k] && |html[k + 1..|html| - 7]| >= 1
  {
    var k := IndexOf(html, '>', 5).value;
    assert html == html[..5] + html[5..k] + [html[k]] + html[k + 1..|html| - 7] + html[|html| - 7..];
  }

  /** The default span attributes contain no `>`. */
  lemma DefaultAttributesCloseNoTag()
    ensures '>' !in DEFAULT_SPAN_ATTRIBUTES
  {
    assert '>' !in " style=\"color:#000000;";
    assert '>' !in " font-family:'MS Shell Dlg 2';";
    assert '>' !in " font-size:9pt; \"";
  }

  /** After finalisation, non-empty HTML always passes the test. */
  lemma FinalHtmlIsWrapped(html: string)
    requires html != ""
    ensures IsWrapped(FinalHtml(html))
  {
    if !IsWrapped(html) {
      DefaultAttributesCloseNoTag();
      WrappedIntro(DEFAULT_SPAN_ATTRIBUTES, html);
    }
  }

  /** Finalising non-empty HTML twice adds no second span. */
  lemma FinalHtmlIdempotent(html: string)
    requires html != ""
    ensures FinalHtml(FinalHtml(html)) == FinalHtml(html)
  {
    FinalHtmlIsWrapped(html);
  }

  /** A span with nothing between its tags fails the test. */
  lemma EmptySpanNotWrapped(attributes: string)
    requires '>' !in attributes
    ensures !IsWrapped("<span" + attributes + ">" + SPAN_CLOSE)
  {
    var h := "<span" + attributes + ">" + SPAN_CLOSE;
    var k := 5 + |attributes|;
    assert h[k] == '>';
    assert forall j :: 5 <= j < k ==> h[j] == attributes[j - 5];
    IndexOfFirst(h, '>', 5, k);
  }

  /** Empty HTML is wrapped again on every pass: the body of `<span …></span>` is empty. */
  lemma FinalHtmlOfEmptyGrows()
    ensures FinalHtml("") == DEFAULT_SPAN_OPEN + SPAN_CLOSE
    ensures FinalHtml(FinalHtml("")) == DEFAULT_SPAN_OPEN + DEFAULT_SPAN_OPEN + SPAN_CLOSE + SPAN_CLOSE
  {
    assert !IsWrapped("");
    assert "" + DEFAULT_SPAN_OPEN == DEFAULT_SPAN_OPEN;
    DefaultAttributesCloseNoTag();
    EmptySpanNotWrapped(DEFAULT_SPAN_ATTRIBUTES);
    ConcatAssoc(DEFAULT_SPAN_OPEN, DEFAULT_SPAN_OPEN, SPAN_CLOSE);
  }

  /** The test looks only at the ends: two sibling spans pass it as if one enclosed the whole. */
  lemma SiblingSpansPass()
    ensures IsWrapped("<span>a</span><span>b</span>")
  {
    WrappedIntro("", "a</span><span>b");
    assert "<span" + "" + ">" + "a</span><span>b" + SPAN_CLOSE == "<span>a</span><span>b</span>";
  }
}
