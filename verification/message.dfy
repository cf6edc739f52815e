/**
 * The state of a `MessageBuilder` as a value, and what each of its
 * operations does to it. The class in message_builder.dfy is proved to
 * follow these functions; the properties of a message are proved here.
 */
module Message {
  import opened Optional
  import opened Encoding
  import opened Text
  import opened Utf8
  import opened Crc32
  import opened Html
  import opened StyleRuns
  import opened BBCode

  /**
   * The fields of a builder. `format` is None where PHP holds null, which
   * `setAlternativeText` stores; `r`, `g`, `b` are the last text colour.
   */
  datatype Msg = Msg(
    recipients: seq<int>,
    sendToOffline: bool,
    html: string,
    text: string,
    format: Option<seq<Byte>>,
    r: Byte, g: Byte, b: Byte,
    images: map<string, seq<Byte>>)

  /** The argument of `setRecipients`: one number, a list, or null; `(array)` turns each into a list. */
  datatype Recipients = Number(number: int) | Numbers(numbers: seq<int>) | NoNumber

  /** A fresh builder: no recipients, delivery to offline numbers on, empty text and format. */
  function Initial(): Msg {
    Msg([], true, "", "", Some([]), 0, 0, 0, map[])
  }

  /** `clear`: everything back to its initial value except the images. */
  function Clear(m: Msg): Msg {
    Initial().(images := m.images)
  }

  // ---------------------------------------------------------------------
  // addText

  /** The text `addText` stores: CR LF appended for FORMAT_NEW_LINE, then line endings normalised. */
  function AddedText(text: string, bits: int): string {
    NormalizeNewlines(if HasFlag(bits, FORMAT_NEW_LINE) then text + "\r\n" else text)
  }

  /** The flags byte of a text record: the bold, italic and underline bits, and 0x08, which is always set. */
  function RecordFlags(bits: int): Byte {
    bits % 8 + COLOR_PRESENT
  }

  /** The record `addText` appends: the character offset (16 bits), the flags and the colour. */
  function TextRecord(m: Msg, bits: int, r: Byte, g: Byte, b: Byte): Run {
    TextRun(|m.text| % TWO16, RecordFlags(bits), r, g, b)
  }

  /**
   * `addText`: while the format is tracked it appends a text record, the
   * text and remembers the colour; the styled HTML is appended in all cases.
   */
  function AddText(m: Msg, text: string, bits: int, r: Byte, g: Byte, b: Byte): Msg {
    var t := AddedText(text, bits);
    var html := m.html + StyledHtml(t, bits, r, g, b);
    match m.format
    case None => m.(html := html)
    case Some(f) =>
      m.(html := html, text := m.text + t, format := Some(f + EncodeRun(TextRecord(m, bits, r, g, b))),
         r := r, g := g, b := b)
  }

  // ---------------------------------------------------------------------
  // addBBcode

  /** One `addText` call of `addBBcode`, with the flags and colour of the span's style. */
  function AddSpan(m: Msg, span: Span): Msg {
    AddText(m, span.text, FlagBits(span.style), span.style.r, span.style.g, span.style.b)
  }

  /** The `addText` calls for the spans, in order. */
  function ApplySpans(m: Msg, spans: seq<Span>): Msg
    decreases |spans|
  {
    if spans == [] then m else ApplySpans(AddSpan(m, spans[0]), spans[1..])
  }

  /** `addBBcode`. */
  function AddBBcode(m: Msg, bbcode: string): Msg {
    ApplySpans(m, Spans(bbcode))
  }

  // ---------------------------------------------------------------------
  // HTML, alternative text, recipients

  function AddRawHtml(m: Msg, html: string): Msg {
    m.(html := m.html + html)
  }

  function SetRawHtml(m: Msg, html: string): Msg {
    m.(html := html)
  }

  /** `setAlternativeText`: the text is replaced and the format becomes null. */
  function SetAlternativeText(m: Msg, message: string): Msg {
    m.(format := None, text := message)
  }

  /** PHP's `(array)` cast of the argument. */
  function AsList(numbers: Recipients): seq<int> {
    match numbers
    case Number(n) => [n]
    case Numbers(ns) => ns
    case NoNumber => []
  }

  function SetRecipients(m: Msg, numbers: Recipients): Msg {
    m.(recipients := AsList(numbers))
  }

  function SetSendToOffline(m: Msg, sendToOffline: bool): Msg {
    m.(sendToOffline := sendToOffline)
  }

  // ---------------------------------------------------------------------
  // addImage

  /** `sprintf('%08x%08x', crc32($content), strlen($content))`. */
  function ImageHash(content: seq<Byte>): string {
    HexPad(Checksum(content), 8) + HexPad(|content|, 8)
  }

  function ImageTag(hash: string): string {
    "<img name=\"" + hash + "\">"
  }

  /** The record `addImage` appends: the byte offset (16 bits), the size (32 bits) and the checksum. */
  function ImageRecord(m: Msg, content: seq<Byte>): Run {
    ImageRun(StrLen(m.text) % TWO16, |content| % TWO32, Checksum(content))
  }

  /**
   * `addImage` with raw content: the image is stored under its hash, its
   * record is appended to the format (a null format becomes that record
   * alone) and an `<img>` tag naming the hash is appended to the HTML.
   */
  function AddImage(m: Msg, content: seq<Byte>): Msg {
    var prior := match m.format case None => [] case Some(f) => f;
    m.(images := m.images[ImageHash(content) := content],
       format := Some(prior + EncodeRun(ImageRecord(m, content))),
       html := m.html + ImageTag(ImageHash(content)))
  }

  // ---------------------------------------------------------------------
  // getProtocolMessage

  /** PHP's `empty()` on the format: null, the empty string and "0". */
  predicate FormatEmpty(format: Option<seq<Byte>>) {
    format.None? || format.value == [] || format.value == [0x30]
  }

  /** The format bytes that go on the wire. */
  function SentFormat(format: Option<seq<Byte>>): seq<Byte> {
    if FormatEmpty(format) then [] else format.value
  }

  /** The format block: empty for an `empty()` format, else 0x02, the 16-bit length and the bytes. */
  function FormatBlock(format: Option<seq<Byte>>): seq<Byte> {
    if FormatEmpty(format) then [] else [2 as Byte] + U16(|format.value|) + format.value
  }

  /**
   * The payload: four little-endian 32-bit words (HTML length + 1, text
   * length + 1, 0, format block length), then the NUL-terminated HTML and
   * text and the format block.
   */
  function Serialize(html: string, text: string, format: Option<seq<Byte>>): seq<Byte> {
    var h := Encode(html);
    var t := Encode(text);
    var block := FormatBlock(format);
    U32(|h| + 1) + U32(|t| + 1) + U32(0) + U32(|block|) + (h + [0] + t + [0] + block)
  }

  /** `getProtocolMessage`: the new state, with the outer span added when needed, and the payload. */
  function ProtocolMessage(m: Msg): (Msg, seq<Byte>) {
    var html := FinalHtml(m.html);
    (m.(html := html), Serialize(html, m.text, m.format))
  }

  /** The three parts of a payload, as a reader recovers them. */
  datatype Parsed = Parsed(html: string, text: string, format: seq<Byte>)

  /** Reads a payload back: the four words, then the body they describe. */
  function ParsePayload(bytes: seq<Byte>): Option<Parsed> {
    if |bytes| < 16 then None
    else ParseBody(ReadU32(bytes), ReadU32(bytes[4..]), ReadU32(bytes[8..]), ReadU32(bytes[12..]), bytes[16..])
  }

  /** The body: both strings NUL-terminated and valid UTF-8, then the format block. */
  function ParseBody(hl: nat, tl: nat, zero: nat, fl: nat, body: seq<Byte>): Option<Parsed> {
    if hl == 0 || tl == 0 || zero != 0 || |body| != hl + tl + fl then None
    else if body[hl - 1] != 0 || body[hl + tl - 1] != 0 then None
    else match (Decode(body[..hl - 1]), Decode(body[hl..hl + tl - 1]), ParseBlock(body[hl + tl..]))
      case (Some(h), Some(t), Some(f)) => Some(Parsed(h, t, f))
      case _ => None
  }

  /** The format block: empty, or 0x02 and a 16-bit length that matches the bytes after it. */
  function ParseBlock(block: seq<Byte>): Option<seq<Byte>> {
    if block == [] then Some([])
    else if |block| >= 3 && block[0] == 2 && ReadU16(block[1..]) == |block| - 3 then Some(block[3..])
    else None
  }

  // ---------------------------------------------------------------------
  // Properties

  /** Either the format is null, or it is a well-formed stream of records. */
  predicate Inv(m: Msg) {
    m.format.None? || DecodeRuns(m.format.value).Some?
  }

  /** The records of the format, or none when it is null. */
  function Records(m: Msg): seq<Run>
    requires Inv(m)
  {
    if m.format.None? then [] else DecodeRuns(m.format.value).value
  }

  /** A new builder, and any builder after `clear`, has a well-formed format holding no records. */
  lemma InitialInv(m: Msg)
    ensures Inv(Initial()) && Records(Initial()) == []
    ensures Inv(Clear(m)) && Records(Clear(m)) == [] && Clear(m).images == m.images
  {
    assert DecodeRuns([]) == Some([]);
  }

  /** The flags byte keeps the bold, italic and underline bits, always has 0x08, and is never the image marker. */
  lemma RecordFlagsBits(bits: int)
    ensures HasFlag(RecordFlags(bits), FORMAT_BOLD_TEXT) == HasFlag(bits, FORMAT_BOLD_TEXT)
    ensures HasFlag(RecordFlags(bits), FORMAT_ITALIC_TEXT) == HasFlag(bits, FORMAT_ITALIC_TEXT)
    ensures HasFlag(RecordFlags(bits), FORMAT_UNDERLINE_TEXT) == HasFlag(bits, FORMAT_UNDERLINE_TEXT)
    ensures HasFlag(RecordFlags(bits), COLOR_PRESENT)
    ensures RecordFlags(bits) != IMAGE_MARKER
  {
    var low := bits % 8;
    assert bits == (bits / 8) * 8 + low;
    assert bits / 2 == (bits / 8) * 4 + low / 2;
    assert bits / 4 == (bits / 8) * 2 + low / 4;
  }

  /** While the format is tracked, `addText` appends exactly one text record to it. */
  lemma AddTextRecords(m: Msg, text: string, bits: int, r: Byte, g: Byte, b: Byte)
    requires Inv(m) && m.format.Some?
    ensures var m' := AddText(m, text, bits, r, g, b);
      Inv(m') && m'.format.Some? && Records(m') == Records(m) + [TextRecord(m, bits, r, g, b)]
  {
    RecordFlagsBits(bits);
    DecodeAppend(m.format.value, TextRecord(m, bits, r, g, b));
  }

  /** `addText` appends its fragment: the escaped text between the style tags, outermost first. */
  lemma AddTextHtml(m: Msg, text: string, bits: int, r: Byte, g: Byte, b: Byte)
    ensures AddText(m, text, bits, r, g, b).html ==
      m.html + (OpeningTags(bits, r, g, b) + TextHtml(AddedText(text, bits)) + ClosingTags(bits, r, g, b))
  {
    var t := AddedText(text, bits);
    assert AddText(m, text, bits, r, g, b).html == m.html + StyledHtml(t, bits, r, g, b);
    StyledHtmlLayout(t, bits, r, g, b);
  }

  /**
   * While the format is tracked, `addText` appends its text with every line
   * ending normalised to CR LF; with a null format the text is left alone.
   */
  lemma AddTextText(m: Msg, text: string, bits: int, r: Byte, g: Byte, b: Byte)
    ensures var m' := AddText(m, text, bits, r, g, b);
      m'.text == (if m.format.Some? then m.text + AddedText(text, bits) else m.text) &&
      LfAfterCr(AddedText(text, bits))
  {
    NormalizedLfAfterCr(if HasFlag(bits, FORMAT_NEW_LINE) then text + "\r\n" else text);
  }

  /** After `setAlternativeText`, `addText` changes neither the text nor the null format. */
  lemma AlternativeTextIsKept(m: Msg, message: string, text: string, bits: int, r: Byte, g: Byte, b: Byte)
    ensures var m' := AddText(SetAlternativeText(m, message), text, bits, r, g, b);
      m'.text == message && m'.format == None && Inv(m')
  {
  }

  /** `addImage` appends one image record; on a null format that record is the whole format. */
  lemma AddImageRecords(m: Msg, content: seq<Byte>)
    requires Inv(m)
    ensures var m' := AddImage(m, content);
      Inv(m') && m'.format.Some? && Records(m') == Records(m) + [ImageRecord(m, content)]
  {
    var prior := match m.format case None => [] case Some(f) => f;
    assert DecodeRuns([]) == Some([]);
    assert DecodeRuns(prior).value == Records(m);
    DecodeAppend(prior, ImageRecord(m, content));
  }

  /** The hash is 16 lowercase hex digits: the checksum, then the size. */
  lemma ImageHashFields(content: seq<Byte>)
    requires |content| < TWO32
    ensures var h := ImageHash(content);
      |h| == 16 && AllLowerHex(h) &&
      ParseHex(h[..8]) == Checksum(content) && ParseHex(h[8..]) == |content|
  {
    var c := HexPad(Checksum(content), 8);
    var n := HexPad(|content|, 8);
    Pow16Values();
    HexPadLength(Checksum(content), 8);
    HexPadLength(|content|, 8);
    HexPadRoundTrip(Checksum(content), 8);
    HexPadRoundTrip(|content|, 8);
    assert (c + n)[..8] == c && (c + n)[8..] == n;
    assert forall i :: 0 <= i < 16 ==> (c + n)[i] == if i < 8 then c[i] else n[i - 8];
  }

  /** Adding an image stores it under its hash and keeps every image already stored; adding it again changes nothing there. */
  lemma AddImageStore(m: Msg, content: seq<Byte>)
    ensures var m' := AddImage(m, content);
      ImageHash(content) in m'.images && m'.images[ImageHash(content)] == content &&
      m.images.Keys <= m'.images.Keys &&
      (forall h :: h in m.images && h != ImageHash(content) ==> m'.images[h] == m.images[h]) &&
      AddImage(m', content).images == m'.images
  {
  }

  /** A well-formed format is never `empty()` through the string "0": it is empty only when null or blank. */
  lemma FormatEmptyOnlyWhenBlank(m: Msg)
    requires Inv(m)
    ensures FormatEmpty(m.format) <==> m.format.None? || m.format.value == []
  {
    if m.format.Some? {
      DecodableLength(m.format.value);
    }
  }

  /**
   * The text record counts characters of the text, the image record counts
   * its UTF-8 bytes: after the text of the one character U+017C (two bytes),
   * a text record would say offset 1 and an image record says offset 2.
   */
  lemma OffsetUnitsDiffer(content: seq<Byte>)
    ensures var m := AddText(Initial(), "\U{017C}", 0, 0, 0, 0);
      TextRecord(m, 0, 0, 0, 0).offset == 1 && ImageRecord(m, content).offset == 2
  {
    var m := AddText(Initial(), "\U{017C}", 0, 0, 0, 0);
    assert !HasFlag(0, FORMAT_NEW_LINE);
    NormalizeWithoutLineBreaks("\U{017C}");
    assert AddedText("\U{017C}", 0) == "\U{017C}";
    assert m.text == [] + "\U{017C}";
    assert |EncodeChar('\U{017C}')| == 2;
    assert Encode(m.text) == EncodeChar('\U{017C}') + Encode([]);
  }

  /** A 32-bit word read at the start of `prefix + rest` is the word of `prefix`. */
  lemma ReadU32Head(word: nat, rest: seq<Byte>)
    requires word < TWO32
    ensures ReadU32(U32(word) + rest) == word
  {
    var s := U32(word) + rest;
    U32RoundTrip(word);
    assert s[0] == U32(word)[0] && s[1] == U32(word)[1] && s[2] == U32(word)[2] && s[3] == U32(word)[3];
  }

  /** The header of a payload reads back as the four words it was written from. */
  lemma HeaderRoundTrip(a: nat, b: nat, c: nat, d: nat, body: seq<Byte>)
    requires a < TWO32 && b < TWO32 && c < TWO32 && d < TWO32
    ensures var bytes := U32(a) + U32(b) + U32(c) + U32(d) + body;
      |bytes| == 16 + |body| && bytes[16..] == body &&
      ReadU32(bytes) == a && ReadU32(bytes[4..]) == b && ReadU32(bytes[8..]) == c && ReadU32(bytes[12..]) == d
  {
    var bytes := U32(a) + U32(b) + U32(c) + U32(d) + body;
    assert bytes == U32(a) + (U32(b) + U32(c) + U32(d) + body);
    assert bytes[4..] == U32(b) + (U32(c) + U32(d) + body);
    assert bytes[8..] == U32(c) + (U32(d) + body);
    assert bytes[12..] == U32(d) + body;
    ReadU32Head(a, U32(b) + U32(c) + U32(d) + body);
    ReadU32Head(b, U32(c) + U32(d) + body);
    ReadU32Head(c, U32(d) + body);
    ReadU32Head(d, body);
  }

  /** The format block reads back as the format bytes sent. */
  lemma BlockRoundTrip(format: Option<seq<Byte>>)
    requires format.Some? ==> |format.value| < TWO16
    ensures ParseBlock(FormatBlock(format)) == Some(SentFormat(format))
  {
    if !FormatEmpty(format) {
      var f := format.value;
      var block := FormatBlock(format);
      U16RoundTrip(|f|);
      assert block[1..][..2] == U16(|f|);
      assert block[3..] == f;
    }
  }

  /** The strings and the block of a body sit where the lengths say. */
  lemma BodyParts(h: seq<Byte>, t: seq<Byte>, block: seq<Byte>)
    ensures var body := h + [0] + t + [0] + block;
      var hl, tl := |h| + 1, |t| + 1;
      |body| == hl + tl + |block| && body[hl - 1] == 0 && body[hl + tl - 1] == 0 &&
      body[..hl - 1] == h && body[hl..hl + tl - 1] == t && body[hl + tl..] == block
  {
    var body := h + [0] + t + [0] + block;
    assert body == h + ([0] + t + [0] + block);
    assert body[|h| + 1..] == t + ([0] + block);
  }

  /** A body built from two decodable strings and a readable block reads back as them. */
  lemma ParseBodyParts(h: seq<Byte>, t: seq<Byte>, block: seq<Byte>, html: string, text: string, f: seq<Byte>)
    requires Decode(h) == Some(html) && Decode(t) == Some(text) && ParseBlock(block) == Some(f)
    ensures ParseBody(|h| + 1, |t| + 1, 0, |block|, h + [0] + t + [0] + block) == Some(Parsed(html, text, f))
  {
    BodyParts(h, t, block);
  }

  /** The four words of a payload lead the reader to the body they were written for. */
  lemma ParseHeader(h: seq<Byte>, t: seq<Byte>, block: seq<Byte>)
    requires |h| + 1 < TWO32 && |t| + 1 < TWO32 && |block| < TWO32
    ensures var body := h + [0] + t + [0] + block;
      ParsePayload(U32(|h| + 1) + U32(|t| + 1) + U32(0) + U32(|block|) + body) == ParseBody(|h| + 1, |t| + 1, 0, |block|, body)
  {
    HeaderRoundTrip(|h| + 1, |t| + 1, 0, |block|, h + [0] + t + [0] + block);
  }

  /**
   * The payload reads back as the HTML, the text and the format bytes sent,
   * as long as each length fits its field.
   */
  lemma ParseSerialize(html: string, text: string, format: Option<seq<Byte>>)
    requires StrLen(html) + 1 < TWO32 && StrLen(text) + 1 < TWO32
    requires format.Some? ==> |format.value| < TWO16
    ensures ParsePayload(Serialize(html, text, format)) == Some(Parsed(html, text, SentFormat(format)))
  {
    BlockRoundTrip(format);
    Utf8.DecodeEncode(html);
    Utf8.DecodeEncode(text);
    ParseParts(Encode(html), Encode(text), FormatBlock(format), html, text, SentFormat(format));
  }

  /** A payload built from two decodable strings and a readable block reads back as them. */
  lemma ParseParts(h: seq<Byte>, t: seq<Byte>, block: seq<Byte>, html: string, text: string, f: seq<Byte>)
    requires |h| + 1 < TWO32 && |t| + 1 < TWO32 && |block| < TWO32
    requires Decode(h) == Some(html) && Decode(t) == Some(text) && ParseBlock(block) == Some(f)
    ensures ParsePayload(U32(|h| + 1) + U32(|t| + 1) + U32(0) + U32(|block|) + (h + [0] + t + [0] + block))
      == Some(Parsed(html, text, f))
  {
    ParseHeader(h, t, block);
    ParseBodyParts(h, t, block, html, text, f);
  }

  /**
   * `getProtocolMessage` leaves an HTML that passes its own test, so a
   * second call sends the same bytes and leaves the same state, unless the
   * HTML was empty.
   */
  lemma ProtocolMessageStable(m: Msg)
    requires m.html != ""
    ensures IsWrapped(ProtocolMessage(m).0.html)
    ensures ProtocolMessage(ProtocolMessage(m).0) == ProtocolMessage(m)
  {
    FinalHtmlIsWrapped(m.html);
    FinalHtmlIdempotent(m.html);
  }

  /** The texts of the spans, each with its line endings normalised. */
  function NormalizedTexts(spans: seq<Span>): string {
    if spans == [] then [] else NormalizeNewlines(spans[0].text) + NormalizedTexts(spans[1..])
  }

  /** A span's flags never ask for FORMAT_NEW_LINE, so its text is only normalised. */
  lemma SpanAddedText(span: Span)
    ensures AddedText(span.text, FlagBits(span.style)) == NormalizeNewlines(span.text)
  {
    assert !HasFlag(FlagBits(span.style), FORMAT_NEW_LINE);
  }

  /**
   * The text records the spans add after the text `text`: one per span, at
   * the character offset the text has reached, with the span's flags and
   * colour.
   */
  function SpanRuns(text: string, spans: seq<Span>): (runs: seq<Run>)
    ensures |runs| == |spans|
    decreases |spans|
  {
    if spans == [] then []
    else
      var style := spans[0].style;
      [TextRun(|text| % TWO16, RecordFlags(FlagBits(style)), style.r, style.g, style.b)] +
      SpanRuns(text + AddedText(spans[0].text, FlagBits(style)), spans[1..])
  }

  /**
   * While the format is tracked, the spans keep the records already there
   * and append one text record each, with the span's running offset, flags
   * and colour.
   */
  lemma {:induction false} ApplySpansRecords(m: Msg, spans: seq<Span>)
    requires Inv(m) && m.format.Some?
    ensures var m' := ApplySpans(m, spans);
      Inv(m') && m'.format.Some? && Records(m') == Records(m) + SpanRuns(m.text, spans) &&
      |Records(m')| == |Records(m)| + |spans|
    decreases |spans|
  {
    if spans != [] {
      var m1 := AddSpan(m, spans[0]);
      AddSpanRecords(m, spans[0]);
      ApplySpansRecords(m1, spans[1..]);
      SpanRunsCons(m.text, spans);
      SeqAssoc(Records(m), SpanRuns(m.text, [spans[0]]), SpanRuns(m1.text, spans[1..]));
    }
  }

  /** Unfolding `SpanRuns` by one span; kept apart to keep the induction above cheap. */
  lemma SpanRunsCons(text: string, spans: seq<Span>)
    requires spans != []
    ensures SpanRuns(text, spans) ==
      SpanRuns(text, [spans[0]]) + SpanRuns(text + AddedText(spans[0].text, FlagBits(spans[0].style)), spans[1..])
  {
  }

  /** Regrouping a concatenation of three record sequences. */
  lemma SeqAssoc(a: seq<Run>, b: seq<Run>, c: seq<Run>)
    ensures a + b + c == a + (b + c)
  {
  }

  /** One span appends its own text record and its text; kept apart to keep the induction above cheap. */
  lemma AddSpanRecords(m: Msg, span: Span)
    requires Inv(m) && m.format.Some?
    ensures var m' := AddSpan(m, span);
      Inv(m') && m'.format.Some? && Records(m') == Records(m) + SpanRuns(m.text, [span]) &&
      m'.text == m.text + AddedText(span.text, FlagBits(span.style))
  {
    var st := span.style;
    AddTextRecords(m, span.text, FlagBits(st), st.r, st.g, st.b);
    AddTextText(m, span.text, FlagBits(st), st.r, st.g, st.b);
  }

  /** The `addText` calls of `addBBcode` leave the image map alone. */
  lemma {:induction false} ApplySpansImages(m: Msg, spans: seq<Span>)
    ensures ApplySpans(m, spans).images == m.images
    decreases |spans|
  {
    if spans != [] {
      ApplySpansImages(AddSpan(m, spans[0]), spans[1..]);
    }
  }

  /** One span appends its normalised text. */
  lemma AddSpanText(m: Msg, span: Span)
    requires m.format.Some?
    ensures AddSpan(m, span).format.Some? && AddSpan(m, span).text == m.text + NormalizeNewlines(span.text)
  {
    AddTextText(m, span.text, FlagBits(span.style), span.style.r, span.style.g, span.style.b);
    SpanAddedText(span);
  }

  /** While the format is tracked, the spans append their normalised texts, in order. */
  lemma {:induction false} ApplySpansText(m: Msg, spans: seq<Span>)
    requires m.format.Some?
    ensures ApplySpans(m, spans).text == m.text + NormalizedTexts(spans)
    decreases |spans|
  {
    if spans != [] {
      AddSpanText(m, spans[0]);
      ApplySpansText(AddSpan(m, spans[0]), spans[1..]);
      ApplySpansTextStep(m, spans);
    }
  }

  /** The step of `ApplySpansText`: the first span's text comes first. */
  lemma ApplySpansTextStep(m: Msg, spans: seq<Span>)
    requires spans != [] && m.format.Some?
    requires AddSpan(m, spans[0]).text == m.text + NormalizeNewlines(spans[0].text)
    requires ApplySpans(AddSpan(m, spans[0]), spans[1..]).text == AddSpan(m, spans[0]).text + NormalizedTexts(spans[1..])
    ensures ApplySpans(m, spans).text == m.text + NormalizedTexts(spans)
  {
    var x := NormalizeNewlines(spans[0].text);
    ConcatAssoc(m.text, x, NormalizedTexts(spans[1..]));
  }

  /** With a null format the spans change neither the text nor the format. */
  lemma {:induction false} ApplySpansAlternative(m: Msg, spans: seq<Span>)
    requires m.format.None?
    ensures ApplySpans(m, spans).text == m.text && ApplySpans(m, spans).format == None
    decreases |spans|
  {
    if spans != [] {
      ApplySpansAlternative(AddSpan(m, spans[0]), spans[1..]);
    }
  }

  /** `addText` keeps the format well-formed, whether it is tracked or null. */
  lemma AddTextKeepsInv(m: Msg, text: string, bits: int, r: Byte, g: Byte, b: Byte)
    requires Inv(m)
    ensures Inv(AddText(m, text, bits, r, g, b))
  {
    if m.format.Some? {
      AddTextRecords(m, text, bits, r, g, b);
    }
  }

  /** `addBBcode` keeps the format well-formed, whether it is tracked or null. */
  lemma AddBBcodeKeepsInv(m: Msg, bbcode: string)
    requires Inv(m)
    ensures Inv(AddBBcode(m, bbcode))
  {
    if m.format.Some? {
      ApplySpansRecords(m, Spans(bbcode));
    } else {
      ApplySpansAlternative(m, Spans(bbcode));
    }
  }

  /**
   * Every operation of the builder keeps the format null or well-formed, so
   * `Inv` holds of every builder reachable from `Initial()`.
   */
  lemma InvKept(m: Msg, text: string, bits: int, r: Byte, g: Byte, b: Byte, bbcode: string,
                html: string, content: seq<Byte>, numbers: Recipients, sendToOffline: bool)
    requires Inv(m)
    ensures Inv(Clear(m)) && Inv(AddText(m, text, bits, r, g, b)) && Inv(AddBBcode(m, bbcode))
    ensures Inv(AddRawHtml(m, html)) && Inv(SetRawHtml(m, html)) && Inv(SetAlternativeText(m, text))
    ensures Inv(AddImage(m, content)) && Inv(SetRecipients(m, numbers)) && Inv(SetSendToOffline(m, sendToOffline))
    ensures Inv(ProtocolMessage(m).0)
  {
    InitialInv(m);
    AddTextKeepsInv(m, text, bits, r, g, b);
    AddBBcodeKeepsInv(m, bbcode);
    AddImageRecords(m, content);
  }

  /**
   * No operation of the builder removes an image: `addImage` only adds one,
   * `clear` keeps them, and every other operation leaves the map as it is.
   */
  lemma ImagesKept(m: Msg, text: string, bits: int, r: Byte, g: Byte, b: Byte, bbcode: string,
                   html: string, content: seq<Byte>, numbers: Recipients, sendToOffline: bool)
    ensures Clear(m).images == m.images && AddText(m, text, bits, r, g, b).images == m.images
    ensures AddBBcode(m, bbcode).images == m.images
    ensures AddRawHtml(m, html).images == m.images && SetRawHtml(m, html).images == m.images
    ensures SetAlternativeText(m, text).images == m.images && SetRecipients(m, numbers).images == m.images
    ensures SetSendToOffline(m, sendToOffline).images == m.images && ProtocolMessage(m).0.images == m.images
    ensures m.images.Keys <= AddImage(m, content).images.Keys
  {
    ApplySpansImages(m, Spans(bbcode));
  }

  /** BBCode without `[` is one plain `addText` call, or none when empty. */
  lemma AddBBcodeWithoutTags(m: Msg, bbcode: string)
    requires '[' !in bbcode
    ensures AddBBcode(m, bbcode) == if bbcode == "" then m else AddText(m, bbcode, 0, 0, 0, 0)
  {
    ReplaceAllNoMatch(bbcode, "[br]", "\n");
    assert Prepare(bbcode) == bbcode;
    assert bbcode[0..|bbcode|] == bbcode;
    SkipText(bbcode, 0, |bbcode|);
    ScanRest(m, bbcode, Searches(bbcode), 0, []);
    assert bbcode[0..] == bbcode;
  }

  /** Unfolding `ApplySpans` by one span; kept apart to keep the example proofs cheap. */
  lemma ApplySpansCons(m: Msg, span: Span, spans: seq<Span>)
    ensures ApplySpans(m, [span] + spans) == ApplySpans(AddSpan(m, span), spans)
  {
    assert ([span] + spans)[1..] == spans;
  }

  /**
   * One round of the `addBBcode` scan from `from`, with message `m` and stack
   * `heap`, at a tag found at `p` after `from`: the text before the tag is
   * added with the style of the stack, giving `m'`, and the scan goes on from
   * `to`, after the tag, with the stack `heap'` updated by it.
   */
  lemma ScanBeforeTag(m: Msg, s: string, t: seq<Found>, from: nat, heap: seq<Entry>, p: nat, tag: Tag, m': Msg, to: nat, heap': seq<Entry>)
    requires Searching(s, t) && from <= |s| && t[from] == Found(p, tag) && from < p
    requires m' == AddSpan(m, Span(s[from..p], StyleOf(heap)))
    requires to == p + tag.length && heap' == Step(heap, tag)
    ensures to <= |s|
    ensures ApplySpans(m, Resolve(Lex(s, t, from), heap)) == ApplySpans(m', Resolve(Lex(s, t, to), heap'))
  {
    ResolveBeforeTag(s, t, from, heap, p, tag);
    ApplySpansCons(m, Span(s[from..p], StyleOf(heap)), Resolve(Lex(s, t, to), heap'));
  }

  /**
   * One round of the `addBBcode` scan at a tag found right at `from`: nothing
   * is added, and the scan goes on from `to`, after the tag, with the stack
   * `heap'` updated by it.
   */
  lemma ScanAtTag(m: Msg, s: string, t: seq<Found>, from: nat, heap: seq<Entry>, p: nat, tag: Tag, to: nat, heap': seq<Entry>)
    requires Searching(s, t) && from <= |s| && t[from] == Found(p, tag) && from == p
    requires to == p + tag.length && heap' == Step(heap, tag)
    ensures to <= |s|
    ensures ApplySpans(m, Resolve(Lex(s, t, from), heap)) == ApplySpans(m, Resolve(Lex(s, t, to), heap'))
  {
    ResolveAtTag(s, t, from, heap, p, tag);
  }

  /** The end of the `addBBcode` scan: what is left after the last tag is added as plain text. */
  lemma ScanRest(m: Msg, s: string, t: seq<Found>, from: nat, heap: seq<Entry>)
    requires Searching(s, t) && from <= |s| && t[from].NotFound?
    ensures ApplySpans(m, Resolve(Lex(s, t, from), heap)) ==
      if from < |s| then AddText(m, s[from..], 0, 0, 0, 0) else m
  {
    ResolveRest(s, t, from, heap);
    if from < |s| {
      ApplySpansCons(m, Span(s[from..], PLAIN), []);
      assert FlagBits(PLAIN) == 0;
    }
  }
}

/**
 * The message a fresh builder holds after `addBBcode` of
 * "[b]Hi[/b] [color=#FF0000]there[/color]".
 */
module MessageExample {
  import opened Optional
  import opened Encoding
  import opened Text
  import opened Html
  import opened StyleRuns
  import opened BBCode
  import opened BBCodeExample
  import opened Message

  const HI_RECORD: seq<Byte> := EncodeRun(TextRun(0, 0x09, 0, 0, 0))
  const SPACE_RECORD: seq<Byte> := EncodeRun(TextRun(2, 0x08, 0, 0, 0))
  const THERE_RECORD: seq<Byte> := EncodeRun(TextRun(3, 0x08, 0xFF, 0, 0))
  const RED_OPEN: string := "<span style=\"color:#" + "ff0000" + ";\">"

  /**
   * The text is "Hi there"; the format holds three text records, at
   * character offsets 0, 2 and 3: bold and black, plain and black, plain and
   * red; the HTML is the bold "Hi", the space, and "there" in a red span.
   */
  lemma ExampleMessage()
    ensures var m := AddBBcode(Initial(), EXAMPLE);
      m.text == "Hi there" &&
      m.format == Some(HI_RECORD + SPACE_RECORD + THERE_RECORD) &&
      m.html == "<b>Hi</b> " + RED_OPEN + "there</span>" &&
      (m.r, m.g, m.b) == (0xFF, 0, 0)
  {
    var spans := [Span("Hi", BOLD), Span(" ", PLAIN), Span("there", RED)];
    ThreeSpans();
    var m1 := AddSpan(Initial(), spans[0]);
    var m2 := AddSpan(m1, spans[1]);
    var m3 := AddSpan(m2, spans[2]);
    assert ApplySpans(Initial(), spans) == ApplySpans(m1, spans[1..]);
    assert ApplySpans(m1, spans[1..]) == ApplySpans(m2, spans[2..]);
    assert ApplySpans(m2, spans[2..]) == ApplySpans(m3, []);
    HiStep();
    SpaceStep(m1);
    ThereStep(m2);
    Joined();
  }

  /** The three steps joined: the pieces appended to the empty fields. */
  lemma Joined()
    ensures "" + "Hi" + " " + "there" == "Hi there"
    ensures "" + ("<b>" + "Hi" + "</b>") + " " + (RED_OPEN + "there" + "</span>") == "<b>Hi</b> " + RED_OPEN + "there</span>"
    ensures [] + HI_RECORD + SPACE_RECORD + THERE_RECORD == HI_RECORD + SPACE_RECORD + THERE_RECORD
  {
  }

  /** Text with no line break and nothing to escape is stored and shown as it is. */
  lemma PlainWord(w: string, bits: int)
    requires CR !in w && LF !in w && '&' !in w && '<' !in w && '>' !in w
    requires !HasFlag(bits, FORMAT_NEW_LINE)
    ensures Message.AddedText(w, bits) == w && TextHtml(w) == w
  {
    NormalizeWithoutLineBreaks(w);
    EscapeKeepsPlainText(w);
    ReplaceAllNoMatch(w, "\r\n", "<br>");
  }

  /** The first span of the example, applied to a new builder. */
  lemma HiStep()
    ensures var m := AddSpan(Initial(), Span("Hi", BOLD));
      m.text == "" + "Hi" && m.html == "" + ("<b>" + "Hi" + "</b>") && m.format == Some([] + HI_RECORD)
  {
    assert FlagBits(BOLD) == 1;
    PlainWord("Hi", 1);
    assert StyledHtml("Hi", 1, 0, 0, 0) == "<b>" + "Hi" + "</b>";
    assert RecordFlags(1) == 0x09;
  }

  /** The second span of the example, a plain space. */
  lemma SpaceStep(m: Msg)
    requires m.text == "" + "Hi" && m.html == "" + ("<b>" + "Hi" + "</b>") && m.format == Some([] + HI_RECORD)
    ensures var m' := AddSpan(m, Span(" ", PLAIN));
      m'.text == "" + "Hi" + " " && m'.html == "" + ("<b>" + "Hi" + "</b>") + " " &&
      m'.format == Some([] + HI_RECORD + SPACE_RECORD)
  {
    assert FlagBits(PLAIN) == 0;
    PlainWord(" ", 0);
    assert StyledHtml(" ", 0, 0, 0, 0) == " ";
    assert RecordFlags(0) == 0x08;
  }

  /** The third span of the example, red text. */
  lemma ThereStep(m: Msg)
    requires m.text == "" + "Hi" + " " && m.html == "" + ("<b>" + "Hi" + "</b>") + " "
    requires m.format == Some([] + HI_RECORD + SPACE_RECORD)
    ensures var m' := AddSpan(m, Span("there", RED));
      m'.text == "" + "Hi" + " " + "there" && m'.html == "" + ("<b>" + "Hi" + "</b>") + " " + (RED_OPEN + "there" + "</span>") &&
      m'.format == Some([] + HI_RECORD + SPACE_RECORD + THERE_RECORD) && (m'.r, m'.g, m'.b) == (0xFF, 0, 0)
  {
    assert FlagBits(RED) == 0;
    PlainWord("there", 0);
    RedSpanOpen();
    assert StyledHtml("there", 0, 0xFF, 0, 0) == RED_OPEN + "there" + "</span>";
    assert RecordFlags(0) == 0x08;
  }

  /** The colour span of red: `ff`, `00`, `00`. */
  lemma RedSpanOpen()
    ensures ColorOpen(0xFF, 0, 0) == RED_OPEN
  {
    HexDigits();
    assert HexPad(0xFF, 2) + HexPad(0, 2) + HexPad(0, 2) == "ff0000";
  }

  /** The two colour digit pairs the example's HTML uses. */
  lemma HexDigits()
    ensures HexPad(0xFF, 2) == "ff" && HexPad(0, 2) == "00"
  {
    assert Hex(0xFF) == Hex(0xF) + [HexDigit(0xF)];
    assert Hex(0) == "0";
    assert Zeros(1) == "0";
  }
}
