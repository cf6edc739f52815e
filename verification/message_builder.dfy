/**
 * `MessageBuilder`, the object whose methods update its fields in place.
 * Each method is proved to leave exactly the state that the matching
 * function of the Message module computes from the state before the call.
 */
module Builder {
  import opened Optional
  import opened Encoding
  import opened Text
  import opened Utf8
  import opened Crc32
  import opened Html
  import opened StyleRuns
  import opened BBCode
  import Message

  class MessageBuilder {
    var recipientNumbers: seq<int>
    var sendToOffline: bool
    var html: string
    var text: string
    /** None once `setAlternativeText` has stored PHP's null. */
    var format: Option<seq<Byte>>
    var R: Byte
    var G: Byte
    var B: Byte
    /** The images added so far, by hash; `clear` keeps them. */
    var images: map<string, seq<Byte>>

    /** The fields as a value. */
    function Snapshot(): Message.Msg
      reads this
    {
      Message.Msg(recipientNumbers, sendToOffline, html, text, format, R, G, B, images)
    }

    constructor()
      ensures Snapshot() == Message.Initial() && Message.Inv(Snapshot())
    {
      recipientNumbers := [];
      sendToOffline := true;
      html := "";
      text := "";
      format := Some([]);
      R, G, B := 0, 0, 0;
      images := map[];
      Message.InitialInv(Message.Initial());
    }

    method Clear()
      modifies this
      ensures Snapshot() == Message.Clear(old(Snapshot()))
      ensures Message.Inv(Snapshot())
    {
      recipientNumbers := [];
      sendToOffline := true;
      html := "";
      text := "";
      format := Some([]);
      R, G, B := 0, 0, 0;
      Message.InitialInv(old(Snapshot()));
    }

    method AddText(text: string, bits: int, r: Byte, g: Byte, b: Byte)
      modifies this
      ensures Snapshot() == Message.AddText(old(Snapshot()), text, bits, r, g, b)
      ensures Message.Inv(old(Snapshot())) ==> Message.Inv(Snapshot())
    {
      var t := text;
      if HasFlag(bits, FORMAT_NEW_LINE) {
        t := t + "\r\n";
      }
      t := NormalizeNewlines(t);
      var fragment := TextHtml(t);
      AppendTextRecord(text, bits, r, g, b, t);
      if HasColor(r, g, b) {
        fragment := ColorOpen(r, g, b) + fragment + "</span>";
      }
      if HasFlag(bits, FORMAT_BOLD_TEXT) {
        fragment := "<b>" + fragment + "</b>";
      }
      if HasFlag(bits, FORMAT_ITALIC_TEXT) {
        fragment := "<i>" + fragment + "</i>";
      }
      if HasFlag(bits, FORMAT_UNDERLINE_TEXT) {
        fragment := "<u>" + fragment + "</u>";
      }
      assert fragment == StyledHtml(t, bits, r, g, b);
      html := html + fragment;
      if Message.Inv(old(Snapshot())) {
        Message.AddTextKeepsInv(old(Snapshot()), text, bits, r, g, b);
      }
    }

    /**
     * The `$this->format !== null` block of `addText`: while the format is
     * tracked, append a text record for the normalised text `t`, remember
     * the colour and append `t` to the text; the HTML is left to the caller.
     */
    method AppendTextRecord(text: string, bits: int, r: Byte, g: Byte, b: Byte, t: string)
      requires t == Message.AddedText(text, bits)
      modifies this
      ensures Snapshot() == Message.AddText(old(Snapshot()), text, bits, r, g, b).(html := old(html))
    {
      if format.Some? {
        var f := format.value + U16(|this.text| % TWO16) + [Message.RecordFlags(bits)];
        f := f + [r, g, b];
        assert f == format.value + EncodeRun(TextRun(|this.text| % TWO16, Message.RecordFlags(bits), r, g, b));
        format := Some(f);
        R, G, B := r, g, b;
        this.text := this.text + t;
      }
    }

    /**
     * The scan of `addBBcode`: find the leftmost tag from `start`, add the
     * literal before it with the style of the stack, push or pop, and go on
     * after the tag; then add what is left, plain.
     */
    method AddBBcode(bbcode: string)
      modifies this
      ensures Snapshot() == Message.AddBBcode(old(Snapshot()), bbcode)
      ensures Message.Inv(old(Snapshot())) ==> Message.Inv(Snapshot())
    {
      ghost var target := Message.AddBBcode(Snapshot(), bbcode);
      var s := Prepare(bbcode);
      ghost var t := Searches(s);
      var heap: seq<Entry> := [];
      var start := 0;
      var found := FindTag(s, start);
      while found.Found?
        invariant start <= |s| && found == FindTag(s, start) == t[start]
        invariant Message.ApplySpans(Snapshot(), Resolve(Lex(s, t, start), heap)) == target
        decreases |s| - start
      {
        var p, tag := found.at, found.tag;
        ghost var (start0, heap0, before) := (start, heap, Snapshot());
        var piece := s[start..p];
        // strlen($s) is non-zero exactly when the piece is non-empty
        if |piece| > 0 {
          var style := ResolveStyle(heap);
          AddText(piece, FlagBits(style), style.r, style.g, style.b);
        }
        start := p + tag.length;
        if !tag.closing {
          heap := heap + [EntryOf(tag)];
        } else if |heap| > 0 {
          heap := heap[..|heap| - 1];
        }
        if start0 < p {
          Message.ScanBeforeTag(before, s, t, start0, heap0, p, tag, Snapshot(), start, heap);
        } else {
          Message.ScanAtTag(before, s, t, start0, heap0, p, tag, start, heap);
        }
        found := FindTag(s, start);
      }
      Message.ScanRest(Snapshot(), s, t, start, heap);
      var piece := s[start..];
      if |piece| > 0 {
        AddText(piece, 0, 0, 0, 0);
      }
      if Message.Inv(old(Snapshot())) {
        Message.AddBBcodeKeepsInv(old(Snapshot()), bbcode);
      }
    }

    method AddRawHtml(html: string)
      modifies this
      ensures Snapshot() == Message.AddRawHtml(old(Snapshot()), html)
      ensures Message.Inv(old(Snapshot())) ==> Message.Inv(Snapshot())
    {
      this.html := this.html + html;
    }

    method SetRawHtml(html: string)
      modifies this
      ensures Snapshot() == Message.SetRawHtml(old(Snapshot()), html)
      ensures Message.Inv(old(Snapshot())) ==> Message.Inv(Snapshot())
    {
      this.html := html;
    }

    method SetAlternativeText(message: string)
      modifies this
      ensures Snapshot() == Message.SetAlternativeText(old(Snapshot()), message)
      ensures Message.Inv(Snapshot())
    {
      format := None;
      text := message;
    }

    /** `addImage` with IMG_RAW: the content itself is given. */
    method AddImage(content: seq<Byte>)
      modifies this
      ensures Snapshot() == Message.AddImage(old(Snapshot()), content)
      ensures Message.Inv(old(Snapshot())) ==> Message.Inv(Snapshot())
    {
      var crc := Checksum(content);
      var hash := HexPad(crc, 8) + HexPad(|content|, 8);
      images := images[hash := content];
      var prior := if format.Some? then format.value else [];
      var record := U16(StrLen(text) % TWO16) + [IMAGE_MARKER, IMAGE_KIND, IMAGE_FLAGS] + U32(|content| % TWO32) + U32(crc);
      assert record == EncodeRun(ImageRun(StrLen(text) % TWO16, |content| % TWO32, crc));
      format := Some(prior + record);
      AddRawHtml("<img name=\"" + hash + "\">");
      if Message.Inv(old(Snapshot())) {
        Message.AddImageRecords(old(Snapshot()), content);
      }
    }

    method SetRecipients(numbers: Message.Recipients)
      modifies this
      ensures Snapshot() == Message.SetRecipients(old(Snapshot()), numbers)
      ensures Message.Inv(old(Snapshot())) ==> Message.Inv(Snapshot())
    {
      recipientNumbers := Message.AsList(numbers);
    }

    method SetSendToOffline(sendToOffline: bool)
      modifies this
      ensures Snapshot() == Message.SetSendToOffline(old(Snapshot()), sendToOffline)
      ensures Message.Inv(old(Snapshot())) ==> Message.Inv(Snapshot())
    {
      this.sendToOffline := sendToOffline;
    }

    /**
     * Wraps the HTML in the default span unless it already is one span
     * around everything, then builds the payload.
     */
    method GetProtocolMessage() returns (bytes: seq<Byte>)
      modifies this`html
      ensures (Snapshot(), bytes) == Message.ProtocolMessage(old(Snapshot()))
      ensures Message.Inv(old(Snapshot())) ==> Message.Inv(Snapshot())
    {
      if !IsWrapped(html) {
        html := DEFAULT_SPAN_OPEN + html + SPAN_CLOSE;
      }
      bytes := Message.Serialize(html, text, format);
    }

    method GetImages() returns (result: map<string, seq<Byte>>)
      ensures result == images
    {
      result := images;
    }
  }
}
