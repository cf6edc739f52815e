/**
 * The binary "format" stream: a flat concatenation of 6-byte text style
 * records and 13-byte image records, told apart by the byte at offset 2
 * (0x80 marks an image; a text record's flags byte is 0x08..0x0F).
 */
module StyleRuns {
  import opened Optional
  import opened Encoding

  const IMAGE_MARKER: Byte := 0x80
  const IMAGE_KIND: Byte := 0x09
  const IMAGE_FLAGS: Byte := 0x01
  const COLOR_PRESENT: nat := 0x08

  /** One record of the stream, with the fields as they are stored. */
  datatype Run =
    | TextRun(offset: nat, flags: Byte, r: Byte, g: Byte, b: Byte)
    | ImageRun(offset: nat, size: nat, crc: nat)

  /** The fields fit their widths and a text record cannot be mistaken for an image. */
  predicate WellFormed(run: Run) {
    run.offset < TWO16 &&
    match run
    case TextRun(_, flags, _, _, _) => flags != IMAGE_MARKER
    case ImageRun(_, size, crc) => size < TWO32 && crc < TWO32
  }

  /**
   * `pack('vC', offset, flags) . pack('CCC', R, G, B)` for text, and
   * `pack('vCCCVV', offset, 0x80, 0x09, 0x01, size, crc)` for an image.
   */
  function EncodeRun(run: Run): (bytes: seq<Byte>)
    ensures |bytes| == RecordSize(run)
  {
    match run
    case TextRun(offset, flags, r, g, b) => U16(offset) + [flags, r, g, b]
    case ImageRun(offset, size, crc) => U16(offset) + [IMAGE_MARKER, IMAGE_KIND, IMAGE_FLAGS] + U32(size) + U32(crc)
  }

  function EncodeRuns(runs: seq<Run>): seq<Byte> {
    if runs == [] then [] else EncodeRuns(runs[..|runs| - 1]) + EncodeRun(runs[|runs| - 1])
  }

  /** 2 + 1 + 3 bytes for text, 2 + 3 + 4 + 4 bytes for an image. */
  function RecordSize(run: Run): nat {
    if run.TextRun? then 6 else 13
  }

  function TotalSize(runs: seq<Run>): nat {
    if runs == [] then 0 else RecordSize(runs[0]) + TotalSize(runs[1..])
  }

  /** Splits the stream into records, using the byte at offset 2 to tell each record's size. */
  function DecodeRuns(bytes: seq<Byte>): Option<seq<Run>>
    decreases |bytes|
  {
    if bytes == [] then Some([])
    else if |bytes| >= 3 && bytes[2] == IMAGE_MARKER then
      if |bytes| >= 13 && bytes[3] == IMAGE_KIND && bytes[4] == IMAGE_FLAGS then
        match DecodeRuns(bytes[13..])
        case None => None
        case Some(rest) => Some([ImageRun(ReadU16(bytes), ReadU32(bytes[5..9]), ReadU32(bytes[9..13]))] + rest)
      else None
    else if |bytes| >= 6 then
      match DecodeRuns(bytes[6..])
      case None => None
      case Some(rest) => Some([TextRun(ReadU16(bytes), bytes[2], bytes[3], bytes[4], bytes[5])] + rest)
    else None
  }

  /** A well-formed record followed by anything decodes as that record first. */
  lemma DecodeRunHead(run: Run, rest: seq<Byte>)
    requires WellFormed(run)
    ensures DecodeRuns(EncodeRun(run) + rest) ==
      match DecodeRuns(rest)
      case None => None
      case Some(runs) => Some([run] + runs)
  {
    var e := EncodeRun(run) + rest;
    U16RoundTrip(run.offset);
    assert e[..2] == U16(run.offset);
    assert ReadU16(e) == run.offset;
    if run.TextRun? {
      assert e[6..] == rest;
    } else {
      DecodeImageFields(run, rest);
    }
  }

  /** The size and checksum fields of an image record read back as they were written. */
  lemma DecodeImageFields(run: Run, rest: seq<Byte>)
    requires run.ImageRun? && WellFormed(run)
    ensures var e := EncodeRun(run) + rest;
      |e| >= 13 && e[13..] == rest && ReadU32(e[5..9]) == run.size && ReadU32(e[9..13]) == run.crc
  {
    var e := EncodeRun(run) + rest;
    assert e[13..] == rest;
    U32RoundTrip(run.size);
    U32RoundTrip(run.crc);
    assert e[5..9] == U32(run.size);
    assert e[9..13] == U32(run.crc);
  }

  /** The size of the first record of a stream, read from its byte at offset 2. */
  function HeadSize(bytes: seq<Byte>): nat {
    if |bytes| >= 3 && bytes[2] == IMAGE_MARKER then 13 else 6
  }

  /** Bytes after a decodable stream do not change how its first record decodes. */
  lemma DecodeShift(bytes: seq<Byte>, tail: seq<Byte>)
    requires bytes != [] && DecodeRuns(bytes).Some?
    ensures HeadSize(bytes) <= |bytes|
    ensures DecodeRuns(bytes + tail) ==
      match DecodeRuns(bytes[HeadSize(bytes)..] + tail)
      case None => None
      case Some(rest) => Some([DecodeRuns(bytes).value[0]] + rest)
  {
    var be := bytes + tail;
    var n := HeadSize(bytes);
    assert be[..n] == bytes[..n];
    assert be[n..] == bytes[n..] + tail;
    assert ReadU16(be) == ReadU16(bytes);
    if n == 13 {
      assert be[5..9] == bytes[5..9] && be[9..13] == bytes[9..13];
    }
  }

  /** Appending one record to a decodable stream appends exactly that record to what it decodes to. */
  lemma {:induction false} DecodeAppend(bytes: seq<Byte>, run: Run)
    requires DecodeRuns(bytes).Some? && WellFormed(run)
    ensures DecodeRuns(bytes + EncodeRun(run)) == Some(DecodeRuns(bytes).value + [run])
    decreases |bytes|
  {
    var e := EncodeRun(run);
    if bytes == [] {
      assert bytes + e == e + [];
      DecodeRunHead(run, []);
      assert DecodeRuns([]) == Some([]);
      assert DecodeRuns(bytes).value + [run] == [run] + [];
    } else {
      var n := HeadSize(bytes);
      DecodeShift(bytes, e);
      DecodeAppend(bytes[n..], run);
      var head := DecodeRuns(bytes).value[0];
      var rest := DecodeRuns(bytes[n..]).value;
      assert DecodeRuns(bytes).value == [head] + rest;
      assert [head] + (rest + [run]) == ([head] + rest) + [run];
    }
  }

  /** Decoding an encoded stream gives back its records. */
  lemma {:induction false} DecodeEncode(runs: seq<Run>)
    requires forall i :: 0 <= i < |runs| ==> WellFormed(runs[i])
    ensures DecodeRuns(EncodeRuns(runs)) == Some(runs)
  {
    if runs != [] {
      var init := runs[..|runs| - 1];
      DecodeEncode(init);
      DecodeAppend(EncodeRuns(init), runs[|runs| - 1]);
      assert init + [runs[|runs| - 1]] == runs;
    }
  }

  /**
   * A decodable stream is exactly as long as its records: 6 bytes per text
   * record and 13 per image record; in particular it never has one byte.
   */
  lemma {:induction false} DecodableLength(bytes: seq<Byte>)
    requires DecodeRuns(bytes).Some?
    ensures |bytes| == TotalSize(DecodeRuns(bytes).value)
    ensures |bytes| != 1
    decreases |bytes|
  {
    if bytes != [] {
      var runs := DecodeRuns(bytes).value;
      var n := if bytes[2] == IMAGE_MARKER then 13 else 6;
      DecodableLength(bytes[n..]);
      assert runs[1..] == DecodeRuns(bytes[n..]).value;
    }
  }
}
