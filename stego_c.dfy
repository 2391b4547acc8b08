/** The C steganography tool (`stego.c`): the header read through `fread`,
    `hide_message` and `reveal_message`. The input file is the byte sequence
    `file`; the output file of `hide_message` is the returned sequence. */
module StegoC {
  import opened StegoBits

  /** `read_bmp_header`: the `fread` of 54 bytes must return all of them,
      then the signature and bit-depth checks apply. */
  function ReadBmpHeader(file: seq<bv8>): (r: Result<BmpInfo>)
    ensures r.Ok? <==> |file| >= HeaderSize && file[0] == 'B' as bv8 && file[1] == 'M' as bv8
                       && file[28] == 24 && file[29] == 0
    ensures |file| < HeaderSize ==> r == Err(ReadHeaderFailed)
    ensures r.Ok? ==> r.value.header == file[..HeaderSize]
  {
    if |file| < HeaderSize then Err(ReadHeaderFailed) else ParseHeader(file[..HeaderSize])
  }

  /** What `hide_message` writes: the header as read, then every remaining
      byte of the input with the message and its terminator in the low bits. */
  function HideSpec(file: seq<bv8>, message: seq<bv8>): Result<seq<bv8>>
  {
    match ReadBmpHeader(file)
    case Err(e) => Err(e)
    case Ok(info) =>
      if 8 * (|message| + 1) > PixelBytes(info) then Err(MessageTooLong)
      else Ok(info.header + Embedded(file[HeaderSize..], message + [0]))
  }

  /** What `reveal_message` prints: the characters read from the bytes after
      the header, at most `max_chars = (file_size - 54) / 8` of them. */
  function RevealSpec(file: seq<bv8>): Result<seq<bv8>>
  {
    match ReadBmpHeader(file)
    case Err(e) => Err(e)
    case Ok(info) => Ok(Revealed(file[HeaderSize..], PixelBytes(info) / 8))
  }

  /** `hide_message`. `message` is a C string: its bytes up to, not
      including, the terminating NUL. */
  method HideMessage(file: seq<bv8>, message: seq<bv8>) returns (r: Result<seq<bv8>>)
    requires 0 !in message
    ensures r == HideSpec(file, message)
  {
    var header := ReadBmpHeader(file);
    if header.Err? {
      return Err(header.error);
    }
    var info := header.value;
    var msgLen := |message| + 1;
    var requiredBytes := msgLen * 8;
    var availableBytes := PixelBytes(info);
    if requiredBytes > availableBytes {
      return Err(MessageTooLong);
    }
    var output := CopyEmbedding(info.header, file, message + [0]);
    r := Ok(output);
  }

  /** The copy loop of `hide_message`: the header, then each byte read from
      the input, with the next bit of the C string (terminator included) in
      its least significant bit while bits remain. */
  method CopyEmbedding(header: seq<bv8>, file: seq<bv8>, cString: seq<bv8>) returns (output: seq<bv8>)
    requires |file| >= HeaderSize
    ensures output == header + Embedded(file[HeaderSize..], cString)
  {
    ghost var embedded := Embedded(file[HeaderSize..], cString);
    var msgLen := |cString|;
    output := header;
    var charIdx := 0;
    var bitIdx := 0;
    var pos := HeaderSize;
    while pos < |file|
      invariant HeaderSize <= pos <= |file|
      invariant 0 <= bitIdx < 8 && charIdx <= msgLen
      invariant 8 * charIdx + bitIdx == if pos - HeaderSize < 8 * msgLen then pos - HeaderSize else 8 * msgLen
      invariant output == header + embedded[..pos - HeaderSize]
    {
      var pixelByte := file[pos];
      if charIdx < msgLen {
        DivMod8(pos - HeaderSize, charIdx, bitIdx);
        var msgBit := GetBitAt(cString[charIdx], bitIdx);
        pixelByte := EmbedBit(pixelByte, msgBit);
        bitIdx := bitIdx + 1;
        if bitIdx == 8 {
          bitIdx := 0;
          charIdx := charIdx + 1;
        }
      }
      output := output + [pixelByte];
      pos := pos + 1;
    }
    assert embedded[..pos - HeaderSize] == embedded;
  }

  /** `reveal_message`: the message buffer holds `max_chars + 1` bytes. */
  method RevealMessage(file: seq<bv8>) returns (r: Result<seq<bv8>>)
    ensures r == RevealSpec(file)
  {
    var header := ReadBmpHeader(file);
    if header.Err? {
      return Err(header.error);
    }
    var info := header.value;
    var maxChars := PixelBytes(info) / 8;
    var message := ExtractLoop(file, maxChars);
    r := Ok(message);
  }

  /** The read loop of `reveal_message`: assemble characters from the least
      significant bits of the bytes after the header, most significant bit
      first, into a buffer of `maxChars + 1` bytes; stop at the end of the
      file, after `maxChars` characters, or at a NUL. */
  method ExtractLoop(file: seq<bv8>, maxChars: nat) returns (text: seq<bv8>)
    requires |file| >= HeaderSize
    ensures text == Revealed(file[HeaderSize..], maxChars)
  {
    var message := new bv8[maxChars + 1];
    ghost var pixels := file[HeaderSize..];
    ghost var found: seq<bv8> := [];
    ghost var rest := pixels;
    ghost var target := Revealed(pixels, maxChars);
    var charIdx := 0;
    var bitIdx := 0;
    var currentChar: bv8 := 0;
    var pos := HeaderSize;
    while pos < |file| && charIdx < maxChars
      invariant HeaderSize <= pos <= |file|
      invariant 0 <= bitIdx < 8 && charIdx <= maxChars
      invariant pos - HeaderSize == 8 * charIdx + bitIdx
      invariant rest == pixels[8 * charIdx..]
      invariant currentChar == Assemble(rest, bitIdx)
      invariant message[..charIdx] == found
      invariant target == found + Revealed(rest, maxChars - charIdx)
    {
      assert rest[bitIdx] == file[pos];
      AssembleNext(rest, bitIdx, currentChar);
      var bit := ExtractBit(file[pos]);
      currentChar := PlaceBit(currentChar, bit, bitIdx);
      bitIdx := bitIdx + 1;
      pos := pos + 1;
      if bitIdx == 8 {
        assert currentChar == CharOf(rest);
        message[charIdx] := currentChar;
        assert message[..charIdx + 1] == found + [currentChar];
        CompleteChar(rest, maxChars - charIdx, found, target, currentChar);
        if currentChar == 0 {
          assert message[..charIdx] == found;
          break;
        }
        assert rest[8..] == pixels[8 * (charIdx + 1)..];
        found := found + [currentChar];
        rest := rest[8..];
        currentChar := 0;
        bitIdx := 0;
        charIdx := charIdx + 1;
      }
    }
    if bitIdx < 8 {
      RevealedStop(rest, maxChars - charIdx);
    }
    assert target == found;
    message[charIdx] := 0;
    text := message[..charIdx];
    assert text == found;
  }

  /** `hide_message` refuses the message exactly when the message and its
      terminator need more pixel bytes than the header's file size leaves. */
  lemma HideRejects(file: seq<bv8>, message: seq<bv8>)
    ensures HideSpec(file, message) == Err(MessageTooLong)
            <==> ReadBmpHeader(file).Ok?
                 && 8 * (|message| + 1) > PixelBytes(ReadBmpHeader(file).value)
  {
  }

  /** A successful hide writes the input's header followed by the embedded
      pixel bytes. */
  lemma HideShape(file: seq<bv8>, message: seq<bv8>)
    requires HideSpec(file, message).Ok?
    ensures |file| >= HeaderSize
    ensures HideSpec(file, message).value == file[..HeaderSize] + Embedded(file[HeaderSize..], message + [0])
  {
  }

  /** A successful hide keeps the file's length and its header. */
  lemma HideKeepsHeader(file: seq<bv8>, message: seq<bv8>)
    requires HideSpec(file, message).Ok?
    ensures |HideSpec(file, message).value| == |file|
    ensures HideSpec(file, message).value[..HeaderSize] == file[..HeaderSize]
  {
    HideShape(file, message);
  }

  /** A successful hide changes only least significant bits, and leaves the
      bytes past the message and its terminator as they were. */
  lemma HidePixel(file: seq<bv8>, message: seq<bv8>, k: nat)
    requires HideSpec(file, message).Ok?
    requires HeaderSize <= k < |file|
    ensures HideSpec(file, message).value[k] & 0xFE == file[k] & 0xFE
    ensures k >= HeaderSize + 8 * (|message| + 1) ==> HideSpec(file, message).value[k] == file[k]
  {
    HideShape(file, message);
    var pixels := file[HeaderSize..];
    var z := message + [0];
    assert HideSpec(file, message).value[k] == Embedded(pixels, z)[k - HeaderSize];
    assert file[k] == pixels[k - HeaderSize];
    EmbeddedBytes(pixels, z, k - HeaderSize);
  }

  /** Revealing the output of a successful hide gives the message back,
      provided the file really holds the pixel bytes of the message's own
      characters (the terminator's bytes may be missing). */
  lemma HideThenReveal(file: seq<bv8>, message: seq<bv8>)
    requires 0 !in message
    requires HideSpec(file, message).Ok?
    requires |file| >= HeaderSize + 8 * |message|
    ensures RevealSpec(HideSpec(file, message).value) == Ok(message)
  {
    var info := ReadBmpHeader(file).value;
    var out := HideSpec(file, message).value;
    assert out[..HeaderSize] == file[..HeaderSize];
    assert ReadBmpHeader(out) == ReadBmpHeader(file);
    assert out[HeaderSize..] == Embedded(file[HeaderSize..], message + [0]);
    RevealEmbedded(file[HeaderSize..], message, PixelBytes(info) / 8);
  }
}
