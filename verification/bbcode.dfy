/**
 * The BBCode scanner of `addBBcode`: the tag pattern
 * `\[(\/)?(b|i|u|color)(=#?[0-9a-fA-F]{6})?\]`, the leftmost-match search,
 * the stack of open scopes and the style each literal span receives.
 */
module BBCode {
  import opened Optional
  import opened Encoding
  import opened Text

  datatype TagName = Bold | Italic | Underline | Color

  /**
   * One match of the tag pattern: whether it has the `/`, its name, the value
   * of its six-digit argument when it has one, and its length in characters.
   */
  datatype Tag = Tag(closing: bool, name: TagName, argument: Option<nat>, length: nat)

  /** An entry of the stack of open scopes (`$heap`). */
  datatype Entry = BoldEntry | ItalicEntry | UnderlineEntry | ColorEntry(r: Byte, g: Byte, b: Byte)

  /** The resolved style of a span: the three flags and the colour. */
  datatype Style = Style(bold: bool, italic: bool, underline: bool, r: Byte, g: Byte, b: Byte)

  const PLAIN: Style := Style(false, false, false, 0, 0, 0)

  /** A literal span with the style it is added with. */
  datatype Span = Span(text: string, style: Style)

  /** The argument of a `color` tag: the value of its digits and the position after them. */
  datatype Argument = NoArgument | Argument(value: nat, end: nat)

  /** The outcome of a search: where the leftmost match starts and what it matched, or nothing. */
  datatype Found = NotFound | Found(at: nat, tag: Tag)

  /** The matched text, or the literal text between matches. */
  datatype Token = Literal(text: string) | TagToken(tag: Tag, raw: string)

  // ---------------------------------------------------------------------
  // Matching the tag pattern

  function NameText(name: TagName): string {
    match name
    case Bold => "b"
    case Italic => "i"
    case Underline => "u"
    case Color => "color"
  }

  /** `(b|i|u|color)` at position `j`. */
  function NameAt(s: string, j: nat): (r: Option<TagName>)
    ensures r.Some? ==> j + |NameText(r.value)| <= |s|
  {
    if j >= |s| then None
    else if s[j] == 'b' then Some(Bold)
    else if s[j] == 'i' then Some(Italic)
    else if s[j] == 'u' then Some(Underline)
    else if j + 5 <= |s| && s[j] == 'c' && s[j + 1] == 'o' && s[j + 2] == 'l' && s[j + 3] == 'o' && s[j + 4] == 'r' then Some(Color)
    else None
  }

  /** `[0-9a-fA-F]{n}` at position `k`. */
  predicate HexRun(s: string, k: nat, n: nat)
    requires k + n <= |s|
  {
    n == 0 || (HexRun(s, k, n - 1) && IsHexDigit(s[k + n - 1]))
  }

  /** `hexdec` of the `n` digits at position `k`. */
  function HexValue(s: string, k: nat, n: nat): (v: nat)
    requires k + n <= |s| && HexRun(s, k, n)
    ensures v < Pow16(n)
  {
    if n == 0 then 0 else 16 * HexValue(s, k, n - 1) + DigitValue(s[k + n - 1])
  }

  /** The run of digits and its value are `AllHex` and `hexdec` of the same characters. */
  lemma {:induction false} HexRunIsParseHex(s: string, k: nat, n: nat)
    requires k + n <= |s|
    ensures HexRun(s, k, n) == AllHex(s[k..k + n])
    ensures HexRun(s, k, n) ==> HexValue(s, k, n) == ParseHex(s[k..k + n])
  {
    if n > 0 {
      var d := s[k..k + n];
      HexRunIsParseHex(s, k, n - 1);
      assert d[..n - 1] == s[k..k + n - 1];
      assert d[n - 1] == s[k + n - 1];
      if AllHex(d) {
        assert forall i :: 0 <= i < n - 1 ==> d[..n - 1][i] == d[i];
      }
    }
  }

  /**
   * `(=#?[0-9a-fA-F]{6})` at position `k`: the value of the digits (at most
   * 24 bits) and the position after them, 7 or 8 characters on.
   */
  function ArgumentAt(s: string, k: nat): (r: Argument)
    ensures r.Argument? ==> (r.end == k + 7 || r.end == k + 8) && r.end <= |s| && r.value < 0x100_0000
  {
    if k < |s| && s[k] == '=' then
      if k + 1 < |s| && s[k + 1] == '#' then
        if k + 8 <= |s| && HexRun(s, k + 2, 6) then Argument(HexValue(s, k + 2, 6), k + 8) else NoArgument
      else if k + 7 <= |s| && HexRun(s, k + 1, 6) then Argument(HexValue(s, k + 1, 6), k + 7)
      else NoArgument
    else NoArgument
  }

  /**
   * The match of the tag pattern that starts at position `i`, if any. The
   * pattern has a single way to match at a given position, so no
   * backtracking choice is left open.
   */
  function MatchTagAt(s: string, i: nat): (r: Option<Tag>)
    ensures r.Some? ==> r.value.length >= 3 && i + r.value.length <= |s|
  {
    if i >= |s| || s[i] != '[' then None
    else
      var closing := i + 1 < |s| && s[i + 1] == '/';
      var j := if closing then i + 2 else i + 1;
      match NameAt(s, j)
      case None => None
      case Some(name) =>
        var k := j + |NameText(name)|;
        match ArgumentAt(s, k)
        case Argument(value, e) =>
          if e < |s| && s[e] == ']' then Some(Tag(closing, name, Some(value), e + 1 - i)) else None
        case NoArgument =>
          if k < |s| && s[k] == ']' then Some(Tag(closing, name, None, k + 1 - i)) else None
  }

  /** `preg_match` with an offset: the leftmost match at or after `from`. */
  function FindTag(s: string, from: nat): (r: Found)
    requires from <= |s|
    ensures r.Found? ==> from <= r.at && r.at + r.tag.length <= |s| && r.tag.length >= 3
    decreases |s| - from
  {
    if from == |s| then NotFound
    else match MatchTagAt(s, from)
      case Some(tag) => Found(from, tag)
      case None => FindTag(s, from + 1)
  }

  /** What the search returns is a match of the pattern at the position it returns. */
  lemma {:induction false} FoundIsMatch(s: string, from: nat)
    requires from <= |s| && FindTag(s, from).Found?
    ensures MatchTagAt(s, FindTag(s, from).at) == Some(FindTag(s, from).tag)
    decreases |s| - from
  {
    if MatchTagAt(s, from).None? {
      FoundIsMatch(s, from + 1);
    }
  }

  /**
   * The match returned is the leftmost one: no position from the offset up to
   * it holds a match, and when the search returns nothing no position from
   * the offset on does.
   */
  lemma {:induction false} NoMatchBefore(s: string, from: nat, q: nat)
    requires from <= q < |s|
    requires FindTag(s, from).Found? ==> q < FindTag(s, from).at
    ensures MatchTagAt(s, q).None?
    decreases q - from
  {
    if from < q {
      NoMatchBefore(s, from + 1, q);
    }
  }

  /** The search passes over a stretch without `[`: it finds what it finds after the stretch. */
  lemma {:induction false} SkipText(s: string, from: nat, to: nat)
    requires from <= to <= |s| && '[' !in s[from..to]
    ensures FindTag(s, from) == FindTag(s, to)
    decreases |s| - from
  {
    if from < to {
      assert s[from] == s[from..to][0];
      assert s[from + 1..to] == s[from..to][1..];
      SkipText(s, from + 1, to);
    }
  }

  // ---------------------------------------------------------------------
  // The stack of open scopes

  /** The entry an opening tag pushes; `[color]` without digits pushes black, as `hexdec('')` is 0. */
  function EntryOf(tag: Tag): Entry {
    match tag.name
    case Bold => BoldEntry
    case Italic => ItalicEntry
    case Underline => UnderlineEntry
    case Color =>
      var v := match tag.argument case None => 0 case Some(n) => n;
      ColorEntry((v / 0x1_0000) % 0x100, (v / 0x100) % 0x100, v % 0x100)
  }

  /** An opening tag pushes its entry; any closing tag pops the top entry, and does nothing on an empty stack. */
  function Step(heap: seq<Entry>, tag: Tag): seq<Entry> {
    if !tag.closing then heap + [EntryOf(tag)]
    else if heap == [] then heap
    else heap[..|heap| - 1]
  }

  /** One iteration of the `foreach ($heap as $h)` loop. */
  function Apply(style: Style, entry: Entry): Style {
    match entry
    case BoldEntry => style.(bold := true)
    case ItalicEntry => style.(italic := true)
    case UnderlineEntry => style.(underline := true)
    case ColorEntry(r, g, b) => style.(r := r, g := g, b := b)
  }

  /** The style the stack gives a span: the loop over the stack from bottom to top. */
  function StyleOf(heap: seq<Entry>): Style {
    if heap == [] then PLAIN else Apply(StyleOf(heap[..|heap| - 1]), heap[|heap| - 1])
  }

  /** The `$flags` value of a style: 0x01 bold, 0x02 italic, 0x04 underline. */
  function FlagBits(style: Style): (bits: nat)
    ensures bits < 8
  {
    (if style.bold then 1 else 0) + (if style.italic then 2 else 0) + (if style.underline then 4 else 0)
  }

  /** The style is bold, italic or underlined exactly when such an entry is open anywhere in the stack. */
  lemma {:induction false} StyleOfFlags(heap: seq<Entry>)
    ensures StyleOf(heap).bold <==> BoldEntry in heap
    ensures StyleOf(heap).italic <==> ItalicEntry in heap
    ensures StyleOf(heap).underline <==> UnderlineEntry in heap
  {
    if heap != [] {
      var init := heap[..|heap| - 1];
      StyleOfFlags(init);
      assert heap == init + [heap[|heap| - 1]];
    }
  }

  /** The colour is that of the topmost colour entry. */
  lemma {:induction false} StyleOfTopColor(heap: seq<Entry>, k: nat)
    requires k < |heap| && heap[k].ColorEntry?
    requires forall j :: k < j < |heap| ==> !heap[j].ColorEntry?
    ensures (StyleOf(heap).r, StyleOf(heap).g, StyleOf(heap).b) == (heap[k].r, heap[k].g, heap[k].b)
  {
    if k < |heap| - 1 {
      StyleOfTopColor(heap[..|heap| - 1], k);
    }
  }

  /** Without a colour entry the colour is black. */
  lemma {:induction false} StyleOfNoColor(heap: seq<Entry>)
    requires forall j :: 0 <= j < |heap| ==> !heap[j].ColorEntry?
    ensures StyleOf(heap).r == 0 && StyleOf(heap).g == 0 && StyleOf(heap).b == 0
  {
    if heap != [] {
      StyleOfNoColor(heap[..|heap| - 1]);
    }
  }

  /** The `foreach ($heap as $h)` loop of `addBBcode`: it computes `StyleOf(heap)`. */
  method ResolveStyle(heap: seq<Entry>) returns (style: Style)
    ensures style == StyleOf(heap)
  {
    style := PLAIN;
    for i := 0 to |heap|
      invariant style == StyleOf(heap[..i])
    {
      assert heap[..i + 1][..i] == heap[..i];
      match heap[i]
      case BoldEntry => style := style.(bold := true);
      case ItalicEntry => style := style.(italic := true);
      case UnderlineEntry => style := style.(underline := true);
      case ColorEntry(r, g, b) => style := style.(r := r, g := g, b := b);
    }
    assert heap[..|heap|] == heap;
  }

  // ---------------------------------------------------------------------
  // Tokens and spans

  /**
   * The result of the search from every offset of `s`: entry `f` is what
   * `preg_match` with offset `f` returns.
   */
  function Searches(s: string): (t: seq<Found>)
    ensures Searching(s, t)
  {
    seq(|s| + 1, f requires 0 <= f <= |s| => FindTag(s, f))
  }

  /**
   * What the scan relies on in a table of searches: one entry per offset,
   * and a tag found from an offset starts there or later, ends inside the
   * text and is not empty.
   */
  predicate Searching(s: string, t: seq<Found>) {
    |t| == |s| + 1 &&
    forall f :: 0 <= f <= |s| && t[f].Found? ==> f <= t[f].at && t[f].at + t[f].tag.length <= |s| && t[f].tag.length >= 3
  }

  /**
   * The input cut at the matches found by the loop, searching with the table
   * `t`: each literal stretch before a match (when non-empty), each match, and
   * the text after the last.
   */
  function Lex(s: string, t: seq<Found>, from: nat): seq<Token>
    requires Searching(s, t) && from <= |s|
    decreases |s| - from
  {
    match t[from]
    case NotFound => if from < |s| then [Literal(s[from..])] else []
    case Found(p, tag) =>
      var rest := [TagToken(tag, s[p..p + tag.length])] + Lex(s, t, p + tag.length);
      if from < p then [Literal(s[from..p])] + rest else rest
  }

  function Piece(t: Token): string {
    match t
    case Literal(text) => text
    case TagToken(_, raw) => raw
  }

  /** The text the tokens were cut from. */
  function Unlex(tokens: seq<Token>): string {
    if tokens == [] then [] else Piece(tokens[0]) + Unlex(tokens[1..])
  }

  /** The literal text alone, tags taken out. */
  function Literals(tokens: seq<Token>): string {
    if tokens == [] then []
    else (if tokens[0].Literal? then tokens[0].text else []) + Literals(tokens[1..])
  }

  /**
   * The `addText` calls of the loop: a literal before a tag gets the style of
   * the stack; a literal that ends the input gets the plain style.
   */
  function Resolve(tokens: seq<Token>, heap: seq<Entry>): seq<Span> {
    if tokens == [] then []
    else match tokens[0]
      case Literal(text) =>
        if |tokens| == 1 then [Span(text, PLAIN)] else [Span(text, StyleOf(heap))] + Resolve(tokens[1..], heap)
      case TagToken(tag, _) => Resolve(tokens[1..], Step(heap, tag))
  }

  /** `str_replace('[br]', "\n", $bbcode)`, done before scanning. */
  function Prepare(bbcode: string): string {
    ReplaceAll(bbcode, "[br]", "\n")
  }

  /** The tokens `addBBcode` cuts its input into. */
  function Tokens(bbcode: string): seq<Token> {
    var s := Prepare(bbcode);
    Lex(s, Searches(s), 0)
  }

  /** The spans `addBBcode` adds, in order. */
  function Spans(bbcode: string): seq<Span> {
    Resolve(Tokens(bbcode), [])
  }

  function Texts(spans: seq<Span>): string {
    if spans == [] then [] else spans[0].text + Texts(spans[1..])
  }

  // ---------------------------------------------------------------------
  // Properties of the scan

  /** Unfolding `Unlex` by one token; kept apart so callers do not unfold it themselves. */
  lemma UnlexCons(t: Token, rest: seq<Token>)
    ensures Unlex([t] + rest) == Piece(t) + Unlex(rest)
  {
    assert ([t] + rest)[1..] == rest;
  }

  /** Rejoining two adjacent slices; kept apart to keep the scanning proofs cheap. */
  lemma SliceJoin(s: string, i: nat, j: nat)
    requires i <= j <= |s|
    ensures s[i..j] + s[j..] == s[i..]
  {
  }

  /** Putting the literal stretches and the matched tags back together gives the scanned text. */
  lemma {:induction false} LexRoundTrip(s: string, t: seq<Found>, from: nat)
    requires Searching(s, t) && from <= |s|
    ensures Unlex(Lex(s, t, from)) == s[from..]
    decreases |s| - from
  {
    match t[from]
    case NotFound =>
      UnlexRest(s, t, from);
    case Found(p, tag) =>
      LexRoundTrip(s, t, p + tag.length);
      if from < p {
        UnlexBeforeTag(s, t, from, p, tag);
      } else {
        UnlexAtTag(s, t, from, p, tag);
      }
  }

  /** The last step of `LexRoundTrip`: with no tag left, the rest is one literal, or nothing. */
  lemma UnlexRest(s: string, t: seq<Found>, from: nat)
    requires Searching(s, t) && from <= |s| && t[from].NotFound?
    ensures Unlex(Lex(s, t, from)) == s[from..]
  {
    if from < |s| {
      UnlexCons(Literal(s[from..]), []);
    }
  }

  /** The step of `LexRoundTrip` at a tag found right at the offset. */
  lemma UnlexAtTag(s: string, t: seq<Found>, from: nat, p: nat, tag: Tag)
    requires Searching(s, t) && from <= |s| && t[from] == Found(p, tag) && from == p
    requires Unlex(Lex(s, t, p + tag.length)) == s[p + tag.length..]
    ensures Unlex(Lex(s, t, from)) == s[from..]
  {
    var e := p + tag.length;
    UnlexCons(TagToken(tag, s[p..e]), Lex(s, t, e));
    SliceJoin(s, p, e);
  }

  /** The step of `LexRoundTrip` at a tag found after the offset. */
  lemma UnlexBeforeTag(s: string, t: seq<Found>, from: nat, p: nat, tag: Tag)
    requires Searching(s, t) && from <= |s| && t[from] == Found(p, tag) && from < p
    requires Unlex(Lex(s, t, p + tag.length)) == s[p + tag.length..]
    ensures Unlex(Lex(s, t, from)) == s[from..]
  {
    var e := p + tag.length;
    var rest := [TagToken(tag, s[p..e])] + Lex(s, t, e);
    UnlexCons(TagToken(tag, s[p..e]), Lex(s, t, e));
    SliceJoin(s, p, e);
    UnlexCons(Literal(s[from..p]), rest);
    SliceJoin(s, from, p);
  }

  /** Unfolding `Resolve` at a leading tag; kept apart to keep the induction cheap. */
  lemma ResolveTagHead(tag: Tag, raw: string, rest: seq<Token>, heap: seq<Entry>)
    ensures Resolve([TagToken(tag, raw)] + rest, heap) == Resolve(rest, Step(heap, tag))
  {
    assert ([TagToken(tag, raw)] + rest)[1..] == rest;
  }

  /** Unfolding `Resolve` at a leading literal; kept apart to keep the induction cheap. */
  lemma ResolveLiteralHead(x: string, rest: seq<Token>, heap: seq<Entry>)
    requires rest != []
    ensures Resolve([Literal(x)] + rest, heap) == [Span(x, StyleOf(heap))] + Resolve(rest, heap)
  {
    assert ([Literal(x)] + rest)[1..] == rest;
  }

  /**
   * One iteration of the scan, at a tag found right at the offset: the
   * rest is scanned from after the tag with the stack updated by the tag.
   */
  lemma ResolveAtTag(s: string, t: seq<Found>, from: nat, heap: seq<Entry>, p: nat, tag: Tag)
    requires Searching(s, t) && from <= |s| && t[from] == Found(p, tag) && from == p
    ensures p + tag.length <= |s|
    ensures Resolve(Lex(s, t, from), heap) == Resolve(Lex(s, t, p + tag.length), Step(heap, tag))
  {
    var e := p + tag.length;
    ResolveTagHead(tag, s[p..e], Lex(s, t, e), heap);
  }

  /**
   * One iteration of the scan, at a tag found at `p` after the offset: the
   * literal before it is a span with the style of the stack, and the rest is
   * scanned from after the tag with the stack updated by the tag.
   */
  lemma ResolveBeforeTag(s: string, t: seq<Found>, from: nat, heap: seq<Entry>, p: nat, tag: Tag)
    requires Searching(s, t) && from <= |s| && t[from] == Found(p, tag) && from < p
    ensures p + tag.length <= |s|
    ensures Resolve(Lex(s, t, from), heap) == [Span(s[from..p], StyleOf(heap))] + Resolve(Lex(s, t, p + tag.length), Step(heap, tag))
  {
    var e := p + tag.length;
    ResolveTagHead(tag, s[p..e], Lex(s, t, e), heap);
    ResolveLiteralHead(s[from..p], [TagToken(tag, s[p..e])] + Lex(s, t, e), heap);
  }

  /** The end of the scan: what is left is one plain span, or nothing. */
  lemma ResolveRest(s: string, t: seq<Found>, from: nat, heap: seq<Entry>)
    requires Searching(s, t) && from <= |s| && t[from].NotFound?
    ensures Resolve(Lex(s, t, from), heap) == if from < |s| then [Span(s[from..], PLAIN)] else []
  {
  }

  /** Every literal stretch is non-empty, and two literal stretches never follow each other. */
  predicate Separated(tokens: seq<Token>) {
    forall k :: 0 <= k < |tokens| && tokens[k].Literal? ==>
      |tokens[k].text| > 0 && (k + 1 < |tokens| ==> tokens[k + 1].TagToken?)
  }

  /** Putting a token in front of separated tokens keeps them separated. */
  lemma SeparatedCons(token: Token, rest: seq<Token>)
    requires Separated(rest)
    requires token.Literal? ==> |token.text| > 0 && (rest != [] ==> rest[0].TagToken?)
    ensures Separated([token] + rest)
  {
    var tokens := [token] + rest;
    forall k | 0 < k < |tokens|
      ensures tokens[k] == rest[k - 1]
    {
    }
  }

  /** The scan cuts the text into separated tokens. */
  lemma {:induction false} LexSeparated(s: string, t: seq<Found>, from: nat)
    requires Searching(s, t) && from <= |s|
    ensures Separated(Lex(s, t, from))
    decreases |s| - from
  {
    match t[from]
    case NotFound =>
    case Found(p, tag) =>
      var e := p + tag.length;
      var rest := [TagToken(tag, s[p..e])] + Lex(s, t, e);
      LexSeparated(s, t, e);
      SeparatedCons(TagToken(tag, s[p..e]), Lex(s, t, e));
      if from < p {
        SeparatedCons(Literal(s[from..p]), rest);
      }
  }

  /** The spans carry the literal text, in order, whatever the stack. */
  lemma {:induction false} ResolveTexts(tokens: seq<Token>, heap: seq<Entry>)
    ensures Texts(Resolve(tokens, heap)) == Literals(tokens)
  {
    if tokens != [] {
      match tokens[0]
      case Literal(text) =>
        ResolveTexts(tokens[1..], heap);
        if |tokens| == 1 {
          assert Literals(tokens[1..]) == [];
        }
      case TagToken(tag, _) =>
        ResolveTexts(tokens[1..], Step(heap, tag));
    }
  }

  /** One span per literal stretch, each as long as its stretch. */
  lemma {:induction false} ResolveNonEmpty(tokens: seq<Token>, heap: seq<Entry>)
    requires forall k :: 0 <= k < |tokens| && tokens[k].Literal? ==> |tokens[k].text| > 0
    ensures forall k :: 0 <= k < |Resolve(tokens, heap)| ==> |Resolve(tokens, heap)[k].text| > 0
  {
    if tokens != [] {
      assert forall k :: 0 <= k < |tokens[1..]| ==> tokens[1..][k] == tokens[k + 1];
      match tokens[0]
      case Literal(text) =>
        ResolveNonEmpty(tokens[1..], heap);
      case TagToken(tag, _) =>
        ResolveNonEmpty(tokens[1..], Step(heap, tag));
    }
  }

  /** A literal that ends the input is added plain, whatever is still open. */
  lemma {:induction false} ResolveTrailing(tokens: seq<Token>, heap: seq<Entry>)
    requires |tokens| > 0 && tokens[|tokens| - 1].Literal?
    ensures |Resolve(tokens, heap)| > 0
    ensures Resolve(tokens, heap)[|Resolve(tokens, heap)| - 1] == Span(tokens[|tokens| - 1].text, PLAIN)
  {
    if |tokens| > 1 {
      assert tokens[1..][|tokens| - 2] == tokens[|tokens| - 1];
      match tokens[0]
      case Literal(text) =>
        ResolveTrailing(tokens[1..], heap);
      case TagToken(tag, _) =>
        ResolveTrailing(tokens[1..], Step(heap, tag));
    }
  }

  /**
   * The spans passed to `addText`, concatenated, are the input after `[br]`
   * replacement with the matched tags taken out; none of them is empty.
   */
  lemma SpansAreTheLiteralText(bbcode: string)
    ensures Texts(Spans(bbcode)) == Literals(Tokens(bbcode)) && Unlex(Tokens(bbcode)) == Prepare(bbcode)
    ensures forall k :: 0 <= k < |Spans(bbcode)| ==> |Spans(bbcode)[k].text| > 0
  {
    var s := Prepare(bbcode);
    var tokens := Tokens(bbcode);
    ResolveTexts(tokens, []);
    LexRoundTrip(s, Searches(s), 0);
    LexSeparated(s, Searches(s), 0);
    ResolveNonEmpty(tokens, []);
  }

  /** Text after the last tag is added with flags 0 and black, even with tags still open. */
  lemma TrailingTextIsPlain(bbcode: string)
    requires |Tokens(bbcode)| > 0 && Tokens(bbcode)[|Tokens(bbcode)| - 1].Literal?
    ensures var tokens := Tokens(bbcode);
      |Spans(bbcode)| > 0 && Spans(bbcode)[|Spans(bbcode)| - 1] == Span(tokens[|tokens| - 1].text, PLAIN)
  {
    ResolveTrailing(Tokens(bbcode), []);
  }
}

module BBCodeExample {
  import opened Optional
  import opened Encoding
  import opened Text
  import opened BBCode

  const EXAMPLE: string := "[b]Hi[/b]" + " " + "[color=#FF0000]there" + "[/color]"

  /** The example holds no `[br]`, so the replacement before the scan leaves it as it is. */
  lemma PrepareExample()
    ensures Prepare(EXAMPLE) == EXAMPLE
  {
    var a, b, c, d := "[b]Hi", "[/b] ", "[color=#FF0000]there", "[/color]";
    ExampleCut();
    assert '[' !in "br]";
    PiecesUnchanged();
    ReplaceAllSplit(c, d, "[br]", "\n");
    ReplaceAllSplit(b, c + d, "[br]", "\n");
    ReplaceAllSplit(a, b + (c + d), "[br]", "\n");
  }

  /** The example cut before each of its tags. */
  lemma ExampleCut()
    ensures EXAMPLE == "[b]Hi" + ("[/b] " + ("[color=#FF0000]there" + "[/color]"))
  {
  }

  /** None of the example's pieces holds `[br]`. */
  lemma PiecesUnchanged()
    ensures ReplaceAll("[b]Hi", "[br]", "\n") == "[b]Hi"
    ensures ReplaceAll("[/b] ", "[br]", "\n") == "[/b] "
    ensures ReplaceAll("[color=#FF0000]there", "[br]", "\n") == "[color=#FF0000]there"
    ensures ReplaceAll("[/color]", "[br]", "\n") == "[/color]"
  {
    assert "[b]Hi"[1..] == "b]Hi";
    PieceUnchanged("[b]Hi");
    assert "[/b] "[1..] == "/b] ";
    PieceUnchanged("[/b] ");
    assert "[color=#FF0000]there"[1..] == "color=#FF0000]there";
    PieceUnchanged("[color=#FF0000]there");
    assert "[/color]"[1..] == "/color]";
    PieceUnchanged("[/color]");
  }

  /** A piece that starts with a `[` other than that of `[br]` and has no other `[` holds no `[br]`. */
  lemma PieceUnchanged(piece: string)
    requires |piece| >= 4 && piece[0] == '[' && '[' !in piece[1..] && (piece[1] != 'b' || piece[2] != 'r')
    ensures ReplaceAll(piece, "[br]", "\n") == piece
  {
    var br := "[br]";
    assert br[1] == 'b' && br[2] == 'r';
    assert piece[..4][1] == piece[1] && piece[..4][2] == piece[2];
    ReplaceAllHeadOnly(piece, "[br]", "\n");
  }

  const OPEN_BOLD: Tag := Tag(false, Bold, None, 3)
  const CLOSE_BOLD: Tag := Tag(true, Bold, None, 4)
  const OPEN_RED: Tag := Tag(false, Color, Some(0xFF0000), 15)
  const CLOSE_COLOR: Tag := Tag(true, Color, None, 8)

  /** The example's colour argument reads as 0xFF0000. */
  lemma RedValue()
    ensures HexRun(EXAMPLE, 18, 6) && HexValue(EXAMPLE, 18, 6) == 0xFF0000
  {
    var s := EXAMPLE;
    assert s[18] == 'F' && s[19] == 'F' && s[20] == '0' && s[21] == '0' && s[22] == '0' && s[23] == '0';
    assert DigitValue('F') == 15 && DigitValue('0') == 0;
    HexStep(s, 18, 0);
    HexStep(s, 18, 1);
    HexStep(s, 18, 2);
    HexStep(s, 18, 3);
    HexStep(s, 18, 4);
    HexStep(s, 18, 5);
  }

  /** One more digit of a run. */
  lemma HexStep(s: string, k: nat, n: nat)
    requires k + n < |s| && HexRun(s, k, n) && IsHexDigit(s[k + n])
    ensures HexRun(s, k, n + 1) && HexValue(s, k, n + 1) == 16 * HexValue(s, k, n) + DigitValue(s[k + n])
  {
  }

  /** The example's tag at offset 0 is `[b]`. */
  lemma MatchOpenBold()
    ensures MatchTagAt(EXAMPLE, 0) == Some(OPEN_BOLD)
  {
    var s := EXAMPLE;
    assert s[0] == '[' && s[1] == 'b' && s[2] == ']' && s[3] == 'H';
    assert NameAt(s, 1) == Some(Bold);
    assert ArgumentAt(s, 2) == NoArgument;
  }

  /** The example's tag at offset 5 is `[/b]`. */
  lemma MatchCloseBold()
    ensures MatchTagAt(EXAMPLE, 5) == Some(CLOSE_BOLD)
  {
    var s := EXAMPLE;
    assert s[5] == '[' && s[6] == '/' && s[7] == 'b' && s[8] == ']';
    assert NameAt(s, 7) == Some(Bold);
    assert ArgumentAt(s, 8) == NoArgument;
  }

  /** The example's tag at offset 10 is the red colour tag. */
  lemma MatchOpenRed()
    ensures MatchTagAt(EXAMPLE, 10) == Some(OPEN_RED)
  {
    var s := EXAMPLE;
    assert s[10] == '[' && s[11] == 'c' && s[12] == 'o' && s[13] == 'l' && s[14] == 'o' && s[15] == 'r';
    assert s[16] == '=' && s[17] == '#' && s[24] == ']';
    assert NameAt(s, 11) == Some(Color);
    RedValue();
    assert ArgumentAt(s, 16) == Argument(0xFF0000, 24);
  }

  /** The example's tag at offset 30 is `[/color]`. */
  lemma MatchCloseColor()
    ensures MatchTagAt(EXAMPLE, 30) == Some(CLOSE_COLOR)
  {
    var s := EXAMPLE;
    assert s[30..] == "[/color]";
    var t := s[30..];
    assert t[0] == '[' && t[1] == '/' && t[7] == ']';
    assert t[2..7] == "color";
    assert NameAt(s, 32) == Some(Color);
    assert ArgumentAt(s, 37) == NoArgument;
  }

  /** The first tag search in the example stops at `[b]`. */
  lemma SearchOpenBold()
    ensures FindTag(EXAMPLE, 0) == Found(0, OPEN_BOLD)
  {
    MatchOpenBold();
  }

  /** The second tag search in the example stops at `[/b]`. */
  lemma SearchCloseBold()
    ensures FindTag(EXAMPLE, 3) == Found(5, CLOSE_BOLD)
  {
    Words();
    SkipText(EXAMPLE, 3, 5);
    MatchCloseBold();
  }

  /** The third tag search in the example stops at the colour tag. */
  lemma SearchOpenRed()
    ensures FindTag(EXAMPLE, 9) == Found(10, OPEN_RED)
  {
    Words();
    SkipText(EXAMPLE, 9, 10);
    MatchOpenRed();
  }

  /** The fourth tag search in the example stops at `[/color]`. */
  lemma SearchCloseColor()
    ensures FindTag(EXAMPLE, 25) == Found(30, CLOSE_COLOR)
  {
    Words();
    SkipText(EXAMPLE, 25, 30);
    MatchCloseColor();
  }

  /** The literal words between the example's tags. */
  lemma Words()
    ensures EXAMPLE[3..5] == "Hi" && EXAMPLE[9..10] == " " && EXAMPLE[25..30] == "there"
  {
    var s := EXAMPLE;
    assert s[3] == 'H';
    assert s[4] == 'i';
    assert s[9] == ' ';
    assert s[25] == 't';
    assert s[26] == 'h';
    assert s[27] == 'e';
    assert s[28] == 'r';
    assert s[29] == 'e';
  }

  /** The colour tag of the example pushes red on the style stack. */
  lemma RedEntry()
    ensures EntryOf(OPEN_RED) == ColorEntry(0xFF, 0, 0)
  {
    assert 0xFF0000 / 0x1_0000 == 0xFF;
    assert 0xFF0000 / 0x100 == 0xFF00;
  }

  const RED: Style := PLAIN.(r := 0xFF)
  const BOLD: Style := PLAIN.(bold := true)

  /** The example's last word resolves to a red span. */
  lemma ThereSpan()
    ensures Resolve(Lex(EXAMPLE, Searches(EXAMPLE), 25), [ColorEntry(0xFF, 0, 0)]) == [Span("there", RED)]
  {
    var t := Searches(EXAMPLE);
    var red := ColorEntry(0xFF, 0, 0);
    assert EXAMPLE[25..30] == "there" by { Words(); }
    assert StyleOf([red]) == RED by { assert [red][..0] == []; }
    assert t[38] == NotFound;
    ResolveRest(EXAMPLE, t, 38, []);
    assert t[25] == Found(30, CLOSE_COLOR) by { SearchCloseColor(); }
    ResolveBeforeTag(EXAMPLE, t, 25, [red], 30, CLOSE_COLOR);
    assert [Span("there", RED)] + [] == [Span("there", RED)];
  }

  /** From the space on, the example resolves to a plain space and a red word. */
  lemma SpaceSpan()
    ensures Resolve(Lex(EXAMPLE, Searches(EXAMPLE), 9), []) == [Span(" ", PLAIN), Span("there", RED)]
  {
    var t := Searches(EXAMPLE);
    assert EXAMPLE[9..10] == " " by { Words(); }
    assert Step([], OPEN_RED) == [ColorEntry(0xFF, 0, 0)] by { RedEntry(); }
    ThereSpan();
    assert t[9] == Found(10, OPEN_RED) by { SearchOpenRed(); }
    ResolveBeforeTag(EXAMPLE, t, 9, [], 10, OPEN_RED);
    assert [Span(" ", PLAIN)] + [Span("there", RED)] == [Span(" ", PLAIN), Span("there", RED)];
  }

  /** The example's first word resolves to a bold span. */
  lemma HiSpan()
    ensures Resolve(Lex(EXAMPLE, Searches(EXAMPLE), 3), [BoldEntry]) == [Span("Hi", BOLD), Span(" ", PLAIN), Span("there", RED)]
  {
    var t := Searches(EXAMPLE);
    assert EXAMPLE[3..5] == "Hi" by { Words(); }
    assert StyleOf([BoldEntry]) == BOLD by { assert [BoldEntry][..0] == []; }
    SpaceSpan();
    assert t[3] == Found(5, CLOSE_BOLD) by { SearchCloseBold(); }
    ResolveBeforeTag(EXAMPLE, t, 3, [BoldEntry], 5, CLOSE_BOLD);
    assert [Span("Hi", BOLD)] + [Span(" ", PLAIN), Span("there", RED)] == [Span("Hi", BOLD), Span(" ", PLAIN), Span("there", RED)];
  }

  /**
   * "[b]Hi[/b] [color=#FF0000]there[/color]" is added as three spans: "Hi"
   * bold, the space between the tags plain, and "there" red.
   */
  lemma ThreeSpans()
    ensures Spans(EXAMPLE) == [Span("Hi", BOLD), Span(" ", PLAIN), Span("there", RED)]
  {
    PrepareExample();
    ScanExample();
  }

  /** The scan of the example from its start, with an empty stack. */
  lemma ScanExample()
    ensures Resolve(Lex(EXAMPLE, Searches(EXAMPLE), 0), []) == [Span("Hi", BOLD), Span(" ", PLAIN), Span("there", RED)]
  {
    var t := Searches(EXAMPLE);
    HiSpan();
    assert t[0] == Found(0, OPEN_BOLD) by { SearchOpenBold(); }
    ResolveAtTag(EXAMPLE, t, 0, [], 0, OPEN_BOLD);
    assert Step([], OPEN_BOLD) == [BoldEntry];
  }
}
