# MessageBuilder of the GG BotAPI library, modelled in Dafny

`MessageBuilder` (src/MessageBuilder.php) puts together a rich-text message
for the GG BotAPI wire protocol. It keeps four buffers in step:

- an HTML string;
- a plain-text string;
- a binary "format" stream of style records, 6 bytes per text run and
  13 bytes per image;
- a map of images keyed by a hash of their content.

`getProtocolMessage` packs the buffers into a length-prefixed little-endian
payload. `addBBcode` turns `[b]`, `[i]`, `[u]` and `[color=#rrggbb]` markup
into a series of `addText` calls, using a stack of open tags.

The project has two layers:

- **Message** (message.dfy) holds the fields of a builder as a value `Msg`,
  with one function per operation. The properties of a message are proved
  there as lemmas:
  - the records the format holds;
  - the HTML and the text that are appended;
  - the image map;
  - that the payload reads back as its parts.
- **Builder.MessageBuilder** (message_builder.dfy) is the class. Its fields
  are the PHP object's fields. Each method updates them in place, and is
  proved to leave exactly the state that the matching Message function
  computes from the state before the call. The constructor establishes
  `Message.Inv` (the format is null or a well-formed stream of records),
  and every method keeps it. `AddBBcode` keeps the scanning
  `while` loop of the source, with its stack, and is proved against the
  specification of the scan given in BBCode.

Supporting modules:

- **Text**: `str_replace` and the line-ending normalisation.
- **Encoding**: `pack` 'v'/'V', `dechex`, `str_pad` and `hexdec`.
- **Utf8**: UTF-8 as in RFC 3629. `mb_strlen` is the length of the string.
  `strlen` is the length of its UTF-8 form.
- **Crc32**: the CRC-32 of IEEE 802.3, computed bit by bit.
- **Html**: escaping, the style tags, and the outer-span test of
  `getProtocolMessage`.
- **StyleRuns**: the layout of the format stream, with a decoder.
- **BBCode**: the tag pattern, the leftmost search, the tag stack and the
  resulting spans.
- **BBCodeExample** and **MessageExample**: the message built from
  `[b]Hi[/b] [color=#FF0000]there[/color]`.

Text is a sequence of Unicode scalar values, so it is always well-formed
UTF-8. Integers are unbounded. The 16- and 32-bit fields of `pack` are
written with explicit truncation (`% 2^16`, `% 2^32`).

Behaviour of the code that the model keeps, with the lemma that shows it:

- **Quotes are not escaped.** `htmlspecialchars` is called with ENT_NOQUOTES
  (`Html.EscapeKeepsPlainText`).
- **Normalising line endings twice can change the text again.** Four CRs
  become two on the first pass and one on the second
  (`Text.NormalizeNotIdempotent`).
- **The text record always has bit 0x08 set**, because of `1 || …`
  (`Message.RecordFlagsBits`).
- **Text records and image records count offsets differently.** Text records
  count characters (`mb_strlen`); image records count UTF-8 bytes (`strlen`)
  (`Message.OffsetUnitsDiffer`).
- **An image record is 13 bytes long** (`pack('vCCCVV')`: 2+1+1+1+4+4).
- **`addImage` after `setAlternativeText` turns the null format into a
  format holding that one record** (`Message.AddImageRecords`).
- **The "already wrapped" test of `getProtocolMessage` only looks at the
  ends of the HTML.** Two sibling spans pass it (`Html.SiblingSpansPass`).
- **An empty HTML is wrapped again on every call.** The first call leaves
  `<span …></span>`, whose body is empty, and that fails the test
  (`Html.FinalHtmlOfEmptyGrows`).
- **BBCode text after the last tag is added plain, even when tags are still
  open** (`BBCode.TrailingTextIsPlain`). A closing tag pops the top entry of
  the stack whatever its name. `[color]` without digits pushes black.
- **`[b]Hi[/b] [color=#FF0000]there[/color]` gives three `addText`
  calls.** "Hi" is bold, the space between the tags gets its own plain
  call, and "there" is red (`BBCodeExample.ThreeSpans`). The text records
  sit at character offsets 0, 2 and 3 (`MessageExample.ExampleMessage`).

The scan of `addBBcode` is stated over positions in the text. The PHP code
works on byte offsets (`preg_match` without `/u`, `substr`, `strlen`). The
pattern and the `[` it starts with are ASCII, and no byte of a multi-byte
UTF-8 sequence is an ASCII byte. So both ways cut the text at the same
places.

The regular expression `/^<span[^>]*>.+<\/span>$/s` of `getProtocolMessage`,
together with the check `$o[0] != $this->html`, accepts exactly an HTML
that:

- starts with `<span`;
- has its first `>` closing that tag;
- ends with `</span>`;
- has at least one character between that `>` and the closing `</span>`
  (with `/s`, `.` also matches a newline).

A final newline that `$` lets the match stop before makes `$o[0]` differ
from the HTML. So `Html.IsWrapped` asks for the whole HTML to match.

## Model

| member | source | states |
|---|---|---|
| Builder.MessageBuilder.constructor | src/MessageBuilder.php:41-74 | A new builder has no recipients, delivers to offline numbers, has empty HTML, text and format, black colour and no images; its format is well-formed (`Message.Inv`). |
| Builder.MessageBuilder.Clear | src/MessageBuilder.php:79-92 | Every field returns to its initial value except the image map, which `clear` keeps; the format is well-formed afterwards. |
| Builder.MessageBuilder.AddText | src/MessageBuilder.php:106-149 | The fields after the call are those `Message.AddText` gives. While the format is tracked, that is one text record, the normalised text and the call's colour. The HTML always grows by the styled fragment, even with a null format. |
| Builder.MessageBuilder.AppendTextRecord | src/MessageBuilder.php:115-131 | The `format !== null` block: with a tracked format, the record, the text and the colour are updated as `addText` does; with a null format nothing changes; the HTML is left alone. |
| Builder.MessageBuilder.AddBBcode | src/MessageBuilder.php:158-231 | The `while` loop over the tag matches leaves the fields that one `addText` call per span of `BBCode.Spans` gives, in order. The loop invariant is that applying the spans still to come to the current state gives the final state. |
| Builder.MessageBuilder.AddRawHtml | src/MessageBuilder.php:240-245 | Only the HTML changes, and it gains the argument at its end. |
| Builder.MessageBuilder.SetRawHtml | src/MessageBuilder.php:254-259 | Only the HTML changes; it becomes the argument. |
| Builder.MessageBuilder.SetAlternativeText | src/MessageBuilder.php:268-274 | The format becomes null and the text becomes the message; nothing else changes. A null format satisfies `Message.Inv`. |
| Builder.MessageBuilder.AddImage | src/MessageBuilder.php:286-301 | Raw-content path. The image is stored under its hash. One 13-byte image record is appended to the format; a null format becomes that record. The HTML gains `<img name="HASH">`. The text is unchanged. |
| Builder.MessageBuilder.SetRecipients | src/MessageBuilder.php:310-315 | The recipients become the `(array)` cast of the argument: one number, a list, or nothing for null. |
| Builder.MessageBuilder.SetSendToOffline | src/MessageBuilder.php:323-328 | Only the offline-delivery flag changes. |
| Builder.MessageBuilder.GetProtocolMessage | src/MessageBuilder.php:333-346 | The HTML field is wrapped in the default span unless it passes the outer-span test. The bytes returned are the payload of the new HTML, the text and the format. |
| Builder.MessageBuilder.GetImages | src/MessageBuilder.php:365-368 | Returns the image map as it is. |
| Message.InitialInv | src/MessageBuilder.php:54-92 | A new or cleared builder has a well-formed format with no records. |
| Message.RecordFlagsBits | src/MessageBuilder.php:119-122 | The flags byte keeps the bold, italic and underline bits of the argument, always has 0x08, and is never the image marker 0x80. |
| Message.AddTextRecords | src/MessageBuilder.php:115-131 | While the format is tracked, `addText` appends exactly one record to the stream. The record holds the character count of the text before the call, the flags and the colour. |
| Message.AddTextText | src/MessageBuilder.php:108-112 | While the format is tracked, the text gains the argument (plus CR LF for FORMAT_NEW_LINE) normalised, in which every LF follows a CR. With a null format the text is unchanged. |
| Message.AddTextHtml | src/MessageBuilder.php:113-146 | The HTML gains the escaped text with `<br>` for CR LF, between the opening tags (`<u>`, `<i>`, `<b>`, colour span, outermost first) and the matching closing tags. |
| Message.AlternativeTextIsKept | src/MessageBuilder.php:268-273 | After `setAlternativeText`, `addText` leaves the message text and the null format as they are. |
| Message.AddImageRecords | src/MessageBuilder.php:297 | `addImage` appends exactly one image record to the records; on a null format it is the only record. |
| Message.ImageHashFields | src/MessageBuilder.php:292-293 | The hash is 16 lowercase hex digits. The first eight read back as the CRC-32 of the content, the last eight as its length. |
| Message.AddImageStore | src/MessageBuilder.php:295 | The content is stored under its hash. Every other stored image is kept. Adding the same content again leaves the map as it is. |
| Message.FormatEmptyOnlyWhenBlank | src/MessageBuilder.php:343 | For a well-formed format, PHP's `empty()` holds exactly when it is null or empty: it never holds through the string "0". |
| Message.OffsetUnitsDiffer | src/MessageBuilder.php:297 | After the one-character text "ż", a text record would carry offset 1 and an image record carries offset 2. |
| Message.HeaderRoundTrip | src/MessageBuilder.php:343 | The four 32-bit header words read back as written, and the body follows them. |
| Message.BlockRoundTrip | src/MessageBuilder.php:343 | The format block (empty, or 0x02, the 16-bit length and the bytes) reads back as the format bytes sent. |
| Message.ParseParts | src/MessageBuilder.php:343 | A payload built from decodable HTML bytes, text bytes and a readable block reads back as those three parts. |
| Message.ParseSerialize | src/MessageBuilder.php:343 | The payload reads back as the HTML, the text and the sent format bytes: nothing is lost and the lengths locate every part. |
| Message.ProtocolMessageStable | src/MessageBuilder.php:335-345 | For non-empty HTML, the HTML after the call passes the outer-span test. A second call returns the same bytes and leaves the same state. |
| Message.SpanAddedText | src/MessageBuilder.php:191 | The flags used for a BBCode span never ask for FORMAT_NEW_LINE, so its text is only normalised. |
| Message.ApplySpansRecords | src/MessageBuilder.php:191 | While the format is tracked, the `addText` calls of `addBBcode` keep the records already there and append exactly `SpanRuns` of the text so far: one record per span, at the offset the text has reached, with the span's flags and colour. |
| Message.AddSpanRecords | src/MessageBuilder.php:191 | One `addText` call of `addBBcode` appends the span's record and its normalised text. |
| Message.ApplySpansImages | src/MessageBuilder.php:191 | The `addText` calls of `addBBcode` leave the image map as it is. |
| Message.ApplySpansText | src/MessageBuilder.php:191 | While the format is tracked, those calls append the normalised span texts, in order. |
| Message.ApplySpansAlternative | src/MessageBuilder.php:191 | With a null format, `addBBcode` changes neither the text nor the format. |
| Message.AddBBcodeWithoutTags | src/MessageBuilder.php:163-228 | BBCode without `[` is one plain `addText` call of the whole input, or no call when it is empty. |
| Message.ScanBeforeTag | src/MessageBuilder.php:166-221 | One loop round with a tag after the offset. The literal before the tag is added with the style of the stack. The scan goes on after the tag, with the stack updated. |
| Message.ScanAtTag | src/MessageBuilder.php:194-221 | One loop round with a tag right at the offset. Nothing is added. The scan goes on after the tag, with the stack updated. |
| Message.ScanRest | src/MessageBuilder.php:225-228 | When no tag is left, what remains is added with flags 0 and black, or nothing is added when nothing remains. |
| Message.AddTextKeepsInv | src/MessageBuilder.php:106-149 | `addText` keeps the format null or well-formed, on a tracked and on a null format. |
| Message.AddBBcodeKeepsInv | src/MessageBuilder.php:158-231 | `addBBcode` keeps the format null or well-formed. |
| Message.InvKept | src/MessageBuilder.php:79-346 | Every operation of the builder (`clear`, `addText`, `addBBcode`, `addRawHtml`, `setRawHtml`, `setAlternativeText`, `addImage`, `setRecipients`, `setSendToOffline`, `getProtocolMessage`) keeps the format null or well-formed, so the premise of `Message.FormatEmptyOnlyWhenBlank` holds for every builder. |
| Message.ImagesKept | src/MessageBuilder.php:79-346 | No operation of the builder drops an image: `clear`, `addText`, `addBBcode`, `addRawHtml`, `setRawHtml`, `setAlternativeText`, `setRecipients`, `setSendToOffline` and `getProtocolMessage` keep the image map unchanged, and `addImage` keeps every hash already there. |
| Message.Initial | src/MessageBuilder.php:41-60 | Defines the field defaults of a new builder. |
| Message.Clear | src/MessageBuilder.php:79-92 | Defines `clear`: the defaults, with the image map kept. |
| Message.AddedText | src/MessageBuilder.php:108-112 | Defines the text `addText` stores: CR LF appended for FORMAT_NEW_LINE, then `str_replace` of LF by CR LF and of CR CR by CR. |
| Message.RecordFlags | src/MessageBuilder.php:119-122 | Defines the flags byte: the low three bits of the argument plus 0x08. |
| Message.TextRecord | src/MessageBuilder.php:116-124 | Defines the text record: `mb_strlen` of the text so far (16 bits), the flags and the colour. |
| Message.AddText | src/MessageBuilder.php:106-149 | Defines `addText` on the fields: HTML always, record, text and colour only while the format is not null. |
| Message.AddSpan | src/MessageBuilder.php:191 | Defines one `addText` call of `addBBcode` with the flags and colour of a span's style. |
| Message.ApplySpans | src/MessageBuilder.php:165-228 | Defines the `addText` calls of `addBBcode`, one per span, in order. |
| Message.SpanRuns | src/MessageBuilder.php:116-124 | The text records those calls append: as many as there are spans, each at the offset the text has reached before it. |
| Message.AddBBcode | src/MessageBuilder.php:158-231 | Defines `addBBcode` as the `addText` calls for `BBCode.Spans` of the input. |
| Message.AddRawHtml | src/MessageBuilder.php:240-245 | Defines `addRawHtml`: the argument appended to the HTML. |
| Message.SetRawHtml | src/MessageBuilder.php:254-259 | Defines `setRawHtml`: the HTML replaced. |
| Message.SetAlternativeText | src/MessageBuilder.php:268-274 | Defines `setAlternativeText`: null format, text replaced. |
| Message.AsList | src/MessageBuilder.php:312 | Defines the `(array)` cast of one number, a list or null. |
| Message.SetRecipients | src/MessageBuilder.php:310-315 | Defines `setRecipients`. |
| Message.SetSendToOffline | src/MessageBuilder.php:323-328 | Defines `setSendToOffline`. |
| Message.ImageHash | src/MessageBuilder.php:292-293 | Defines the hash: `%08x` of the CRC-32, then `%08x` of the length. |
| Message.ImageTag | src/MessageBuilder.php:298 | Defines the `<img name="…">` tag. |
| Message.ImageRecord | src/MessageBuilder.php:297 | Defines the image record: `strlen` of the text (16 bits), the length and the CRC (32 bits each). |
| Message.AddImage | src/MessageBuilder.php:286-301 | Defines `addImage` with raw content: image stored, record appended (to an empty string when the format is null), tag appended. |
| Message.FormatEmpty | src/MessageBuilder.php:343 | Defines PHP's `empty()` on the format: null, "" or "0". |
| Message.SentFormat | src/MessageBuilder.php:343 | Defines the format bytes that go on the wire: none when `empty()`. |
| Message.FormatBlock | src/MessageBuilder.php:343 | Defines the format block: nothing when `empty()`, else `pack('Cv', 0x02, length)` and the bytes. |
| Message.Serialize | src/MessageBuilder.php:343 | Defines the payload: `pack('VVVV', …)`, the NUL-terminated HTML and text, and the format block. |
| Message.ProtocolMessage | src/MessageBuilder.php:333-346 | Defines `getProtocolMessage`: the HTML after the wrap test, and the payload of the new state. |
| MessageExample.ExampleMessage | src/MessageBuilder.php:106-231 | A fresh builder given `[b]Hi[/b] [color=#FF0000]there[/color]` ends with text "Hi there". Its three records sit at character offsets 0, 2 and 3: bold black, plain black, plain red. Its HTML is `<b>Hi</b> ` followed by "there" in a `#ff0000` span. |
| MessageExample.RedSpanOpen | src/MessageBuilder.php:134 | The colour span of (255, 0, 0) is `<span style="color:#ff0000;">`. |
| BBCode.NameAt | src/MessageBuilder.php:165 | The tag name (b, i, u or color) at a position: the name found ends inside the text. |
| BBCode.HexRun | src/MessageBuilder.php:165 | Defines the group `[0-9a-fA-F]{n}` at a position: n hex digits in either case. |
| BBCode.HexValue | src/MessageBuilder.php:206 | The value of n hex digits is below 16^n. |
| BBCode.EntryOf | src/MessageBuilder.php:196-216 | Defines the stack entry an opening tag pushes: its name, or its colour split into three bytes (black without digits). |
| BBCode.Step | src/MessageBuilder.php:196-221 | Defines the stack after a tag: push for an opening tag, pop of the top entry (if any) for a closing one. |
| BBCode.Apply | src/MessageBuilder.php:170-187 | Defines one round of the `foreach`/`switch` over the stack. |
| BBCode.StyleOf | src/MessageBuilder.php:168-189 | Defines the style of a span as the fold of that round over the stack, bottom to top. |
| BBCode.Lex | src/MessageBuilder.php:165-194 | Defines the scan: the literal before each leftmost match, the match, and the text after the last match. |
| BBCode.Resolve | src/MessageBuilder.php:166-228 | Defines the spans: each non-empty literal with the style of the stack, the trailing literal plain. |
| BBCode.Prepare | src/MessageBuilder.php:163 | Defines the `[br]` to LF replacement. |
| BBCode.Tokens | src/MessageBuilder.php:163-194 | Defines the scan of the prepared input. |
| BBCode.Spans | src/MessageBuilder.php:163-228 | Defines the spans `addBBcode` passes to `addText`. |
| BBCode.HexRunIsParseHex | src/MessageBuilder.php:206 | A run of `[0-9a-fA-F]` matched by the pattern has exactly the value `hexdec` gives its digits. |
| BBCode.ArgumentAt | src/MessageBuilder.php:165 | An argument `=`, optional `#`, six hex digits takes 7 or 8 characters inside the text, and its value fits in 24 bits. |
| BBCode.MatchTagAt | src/MessageBuilder.php:165 | A match of the tag pattern is at least 3 characters long and ends inside the text. |
| BBCode.FindTag | src/MessageBuilder.php:165 | The search from an offset finds a match starting at or after the offset, ending inside the text. |
| BBCode.FoundIsMatch | src/MessageBuilder.php:165 | What the search returns is a match of the pattern at the position returned. |
| BBCode.NoMatchBefore | src/MessageBuilder.php:165 | The match returned is the leftmost one. No position between the offset and it holds a match, and none after the offset does when nothing is found. |
| BBCode.SkipText | src/MessageBuilder.php:165 | The search passes over a stretch without `[` as if it started after it. |
| BBCode.Searches | src/MessageBuilder.php:165 | Entry `f` of the table is the search from offset `f`, and each match it names starts at or after `f` and ends inside the text. |
| BBCode.FlagBits | src/MessageBuilder.php:168-183 | The `$flags` value of a style is below 8. |
| BBCode.StyleOfFlags | src/MessageBuilder.php:170-183 | A span is bold, italic or underlined exactly when a `b`, `i` or `u` entry is open anywhere in the stack. |
| BBCode.StyleOfTopColor | src/MessageBuilder.php:184-187 | A span's colour is that of the topmost open `color` entry. |
| BBCode.StyleOfNoColor | src/MessageBuilder.php:169 | Without an open `color` entry a span is black. |
| BBCode.ResolveStyle | src/MessageBuilder.php:168-189 | The `foreach` loop over the stack computes the style `StyleOf` defines. |
| BBCode.LexRoundTrip | src/MessageBuilder.php:165-194 | Putting the literal stretches and the matched tags back together gives the scanned text. |
| BBCode.LexSeparated | src/MessageBuilder.php:166-167 | The scan yields no empty literal stretch, and no two stretches in a row. |
| BBCode.ResolveAtTag | src/MessageBuilder.php:194-221 | At a tag right at the offset, the spans are those of the rest of the text with the stack pushed or popped by the tag. |
| BBCode.ResolveBeforeTag | src/MessageBuilder.php:166-221 | At a tag after the offset, the first span is the stretch before it, with the style of the stack. The rest follows with the stack updated. |
| BBCode.ResolveRest | src/MessageBuilder.php:225-228 | With no tag left, the remaining text is one plain span, or there is no span. |
| BBCode.ResolveTexts | src/MessageBuilder.php:166-191 | The spans carry the literal text, in order, whatever the stack. |
| BBCode.ResolveNonEmpty | src/MessageBuilder.php:166-167 | Every span is non-empty when every literal stretch is. |
| BBCode.ResolveTrailing | src/MessageBuilder.php:225-228 | A literal that ends the tokens becomes the last span, plain, whatever the stack holds. |
| BBCode.SpansAreTheLiteralText | src/MessageBuilder.php:163-228 | The spans passed to `addText`, joined, are the input after `[br]` replacement with the matched tags taken out. The tokens rejoin to that input, and no span is empty. |
| BBCode.TrailingTextIsPlain | src/MessageBuilder.php:225-228 | Text after the last tag is added with flags 0 and black, even with tags still open. |
| BBCodeExample.PrepareExample | src/MessageBuilder.php:163 | The example holds no `[br]`, so the replacement leaves it unchanged. |
| BBCodeExample.RedEntry | src/MessageBuilder.php:205-213 | `[color=#FF0000]` pushes the entry (255, 0, 0). |
| BBCodeExample.ThreeSpans | src/MessageBuilder.php:163-228 | The example gives three spans: "Hi" bold, " " plain and "there" red. |
| Text.ReplaceAll | src/MessageBuilder.php:112 | Defines `str_replace` of one search string, left to right without overlap. |
| Text.NormalizeNewlines | src/MessageBuilder.php:112 | Defines the line-ending rewrite of `addText`. |
| Text.ExpandLfAfterCr | src/MessageBuilder.php:112 | After LF becomes CR LF, every LF follows a CR. |
| Text.CollapseKeepsLfAfterCr | src/MessageBuilder.php:112 | Collapsing CR CR into CR keeps every LF after a CR and keeps the first character. |
| Text.NormalizedLfAfterCr | src/MessageBuilder.php:112 | After normalisation, every LF is immediately preceded by CR. |
| Text.NormalizeWithoutLineBreaks | src/MessageBuilder.php:112 | Text with no CR and no LF is unchanged by normalisation. |
| Text.NormalizeNotIdempotent | src/MessageBuilder.php:112 | Normalising "\r\r\r\r" twice differs from normalising it once. |
| Text.ReplaceAllSplit | src/MessageBuilder.php:163 | `str_replace` of a pattern whose first character appears in it only once works piece by piece on a text cut just before that character. |
| Html.FORMAT_BOLD_TEXT | src/MessageBuilder.php:33 | Defines the bold flag, 0x01. |
| Html.FORMAT_ITALIC_TEXT | src/MessageBuilder.php:34 | Defines the italic flag, 0x02. |
| Html.FORMAT_UNDERLINE_TEXT | src/MessageBuilder.php:35 | Defines the underline flag, 0x04. |
| Html.FORMAT_NEW_LINE | src/MessageBuilder.php:36 | Defines the new-line flag, 0x08. |
| Html.HasFlag | src/MessageBuilder.php:136-144 | Defines `$formatBits & FLAG` being non-zero for a one-bit flag, as PHP computes it on two's-complement integers, negative ones included. The same test is used at lines 108 and 119-121. |
| Html.HasColor | src/MessageBuilder.php:133 | Defines the colour test, true when any of R, G or B is truthy: some component is non-zero. |
| Html.DEFAULT_SPAN_OPEN | src/MessageBuilder.php:337 | Defines the opening tag of the default span, black 9pt 'MS Shell Dlg 2'. |
| Html.SPAN_CLOSE | src/MessageBuilder.php:337 | Defines the closing tag of the default span, `</span>`, also the end the outer-span test looks for. |
| Html.EscapeHtml | src/MessageBuilder.php:113 | Defines `htmlspecialchars` with ENT_NOQUOTES: `&`, `<` and `>` become entities. |
| Html.TextHtml | src/MessageBuilder.php:113 | Defines the HTML of a text: escaped, then CR LF replaced by `<br>`. |
| Html.ColorOpen | src/MessageBuilder.php:134 | Defines the colour span opening tag with the three components as two-digit hex. |
| Html.StyledHtml | src/MessageBuilder.php:133-146 | Defines the fragment: colour span, then `<b>`, `<i>`, `<u>` wrapped around it in that order. |
| Html.IsWrapped | src/MessageBuilder.php:335 | Defines the outer-span test (the regular expression together with the whole-match check). |
| Html.FinalHtml | src/MessageBuilder.php:335-341 | Defines the HTML after the test: unchanged when it passes, else wrapped in the default span. |
| Html.UnescapeEscape | src/MessageBuilder.php:113 | Escaping loses nothing: reading the entities back gives the text. |
| Html.EscapeHasNoTags | src/MessageBuilder.php:113 | Escaped text holds no `<` or `>`. |
| Html.EscapeKeepsPlainText | src/MessageBuilder.php:113 | Text without `&`, `<` and `>`, quotes included, is unchanged by escaping. |
| Html.TextHtmlRoundTrip | src/MessageBuilder.php:113 | The HTML of a text reads back as the text, with `<br>` as CR LF and entities as their characters. |
| Html.StyledHtmlLayout | src/MessageBuilder.php:133-146 | The fragment is the escaped text between properly nested tags: `<u>` outermost, then `<i>`, `<b>` and the colour span. The colour span is there exactly when a component is non-zero. |
| Html.ColorOpenDigits | src/MessageBuilder.php:134 | The colour span carries six hex digits reading back as 0xRRGGBB. |
| Html.IndexOf | src/MessageBuilder.php:335 | The position found holds the first `>` at or after the start, as `[^>]*>` requires. |
| Html.WrappedIntro | src/MessageBuilder.php:335 | A span whose opening tag has no `>` inside, around a non-empty body, passes the test. |
| Html.WrappedShape | src/MessageBuilder.php:335 | HTML that passes the test is such a span, with its tag ending at the first `>` and a non-empty body. |
| Html.FinalHtmlIsWrapped | src/MessageBuilder.php:335-341 | Non-empty HTML passes the test after finalisation. |
| Html.FinalHtmlIdempotent | src/MessageBuilder.php:335-341 | Finalising non-empty HTML twice adds no second span. |
| Html.EmptySpanNotWrapped | src/MessageBuilder.php:335 | A span with nothing between its tags fails the test. |
| Html.FinalHtmlOfEmptyGrows | src/MessageBuilder.php:335-341 | Empty HTML becomes `<span …></span>`, and a second pass wraps it again. |
| Html.SiblingSpansPass | src/MessageBuilder.php:335 | `<span>a</span><span>b</span>` passes the test, as if one span enclosed it all. |
| StyleRuns.IMAGE_MARKER | src/MessageBuilder.php:297 | Defines the byte 0x80 that marks an image record at offset 2. |
| StyleRuns.IMAGE_KIND | src/MessageBuilder.php:297 | Defines the image record's fourth byte, 0x09. |
| StyleRuns.IMAGE_FLAGS | src/MessageBuilder.php:297 | Defines the image record's fifth byte, 0x01. |
| StyleRuns.COLOR_PRESENT | src/MessageBuilder.php:122 | Defines the 0x08 bit every text record's flags byte carries. |
| StyleRuns.DecodeRuns | src/MessageBuilder.php:116-124 | Defines how the format stream reads back: record by record, 13 bytes when the byte at offset 2 is 0x80, else 6. |
| StyleRuns.EncodeRun | src/MessageBuilder.php:116-124 | A text record (`pack('vC')` + `pack('CCC')`) is 6 bytes long; an image record (`pack('vCCCVV')`, line 297) is 13. |
| StyleRuns.DecodeRunHead | src/MessageBuilder.php:116-124 | A well-formed record followed by any bytes decodes as that record first. |
| StyleRuns.DecodeAppend | src/MessageBuilder.php:116-124 | Appending one record to a decodable stream appends exactly that record to what the stream decodes to. |
| StyleRuns.DecodeEncode | src/MessageBuilder.php:116-124 | A stream of well-formed records decodes back to those records. |
| StyleRuns.DecodableLength | src/MessageBuilder.php:343 | A decodable format is exactly as long as its records and never one byte long, so it is never the string "0" that `empty()` would take for blank. |
| Encoding.U16 | src/MessageBuilder.php:116-118 | `pack('v')` gives two bytes. |
| Encoding.U32 | src/MessageBuilder.php:297 | `pack('V')` gives four bytes. |
| Encoding.Hex | src/MessageBuilder.php:134 | `dechex` gives at least one lowercase hex digit. |
| Encoding.HexPad | src/MessageBuilder.php:134 | `str_pad(dechex(n), w, '0', STR_PAD_LEFT)` (and `%0wx`) gives lowercase hex digits. |
| Encoding.ParseHex | src/MessageBuilder.php:206 | Defines `hexdec` of a numeral of hex digits in either case, most significant first ("" is 0). |
| Encoding.U16RoundTrip | src/MessageBuilder.php:116-118 | `pack('v', n)` reads back as n mod 2^16. |
| Encoding.U32RoundTrip | src/MessageBuilder.php:297 | `pack('V', n)` reads back as n mod 2^32. |
| Encoding.ParseHexOfHex | src/MessageBuilder.php:134 | `hexdec(dechex(n)) == n`. |
| Encoding.HexPadRoundTrip | src/MessageBuilder.php:293 | A zero-padded hex numeral reads back as its number. |
| Encoding.HexPadLength | src/MessageBuilder.php:134 | Below 16^w, the padded numeral has exactly w digits. |
| Utf8.Encode | src/MessageBuilder.php:343 | The UTF-8 form of a string has between one and four bytes per character. |
| Utf8.StrLen | src/MessageBuilder.php:297 | Defines `strlen` as the length of the UTF-8 form. |
| Utf8.DecodeEncode | src/MessageBuilder.php:343 | The UTF-8 form of a string decodes back to the string. |
| Utf8.EncodeAppend | src/MessageBuilder.php:343 | The UTF-8 form of a concatenation is the concatenation of the forms. |
| Utf8.StrLenIsLengthIffAscii | src/MessageBuilder.php:297 | `strlen` and `mb_strlen` agree exactly on all-ASCII text. |
| Crc32.Checksum | src/MessageBuilder.php:292 | The CRC-32 is a 32-bit unsigned value. |
| Crc32.KnownValues | src/MessageBuilder.php:292 | The CRC-32 of the empty input is 0, and that of "a" is 0xE8B7BE43. |

## Left out

- `reply` (src/MessageBuilder.php:351-363) sends HTTP headers and prints the payload. That is output, not state; the payload it prints is `GetProtocolMessage`.
- The `IMG_FILE` path of `addImage` reads a file (`file_get_contents`). Only raw content is modelled, and the file-name argument is gone.
- `$botApiVersion` and the constructor's argument are used only by `reply`.
- The `$tagsLength` counter of `addBBcode` is computed and never read.
- src/PushConnection.php and src/BotAPIAuthorization.php (HTTP traffic) are not part of this model.
- Invalid UTF-8 input cannot be expressed, because text is a sequence of Unicode scalar values. In particular the empty result `htmlspecialchars` gives for invalid input is not modelled.
- The colour components of `addText` are bytes (0..255). PHP accepts any integer there; `pack('C')` then keeps the low byte while `dechex` prints the whole number.
- Recipients are integers. PHP also accepts numeric strings, which `reply` prints the same way.
- Message.ParseSerialize: proved only when the HTML and the text are shorter than 2^32 - 1 bytes and the format shorter than 2^16 bytes. Beyond that, `pack` truncates the length fields and the payload no longer reads back.
- Message.ImageHashFields: proved for content shorter than 2^32 bytes. Beyond that, `%08x` prints more than eight digits for the length.
- Message.ProtocolMessageStable: holds only for non-empty HTML. Empty HTML is wrapped again on every call (`Html.FinalHtmlOfEmptyGrows`).
