/** The Go steganography tool (`stego.go`): `readBMPHeader`, `hideMessage`
    and `revealMessage`. The input file is the byte sequence `file`; the
    output file of `hideMessage` is the returned sequence. Each
    `(*os.File).Read` is one call that copies what is left of the file, up to
    the buffer's length, and fails only when nothing is left for a non-empty
    buffer. */
module StegoGo {
  import opened StegoBits
  import StegoC

  // ---------------------------------------------------------------------
  // Reading
  // ---------------------------------------------------------------------

  /** Whether a `Read` into `n` bytes at offset `pos` reports an error
      (`io.EOF`): only when the buffer is not empty and nothing is left. */
  predicate ReadFails(file: seq<bv8>, pos: nat, n: nat)
  {
    n > 0 && pos >= |file|
  }

  /** How many bytes a `Read` into `n` bytes at offset `pos` copies. */
  function ReadCount(file: seq<bv8>, pos: nat, n: nat): (count: nat)
    ensures count <= n
    ensures pos + count <= |file| || count == 0
    ensures count < n ==> pos + count >= |file|
  {
    if pos >= |file| then 0 else if n <= |file| - pos then n else |file| - pos
  }

  /** A zero-filled buffer of `n` bytes after one `Read` at offset `pos`. */
  function Filled(file: seq<bv8>, pos: nat, n: nat): (buf: seq<bv8>)
    ensures |buf| == n
  {
    seq(n, i requires 0 <= i < n => if i < ReadCount(file, pos, n) then file[pos + i] else 0)
  }

  /** A buffer that the rest of the file fills completely holds exactly the
      next bytes of the file. */
  lemma FilledFromFile(file: seq<bv8>, pos: nat, n: nat)
    requires pos + n <= |file|
    ensures Filled(file, pos, n) == file[pos..pos + n]
  {
    assert ReadCount(file, pos, n) == n;
    forall i | 0 <= i < n
      ensures Filled(file, pos, n)[i] == file[pos..pos + n][i]
    {
    }
  }

  /** `make([]byte, n)` followed by one `Read` into it. */
  method MakeAndRead(file: seq<bv8>, pos: nat, n: nat) returns (buf: array<bv8>, failed: bool)
    ensures fresh(buf)
    ensures failed == ReadFails(file, pos, n)
    ensures buf[..] == Filled(file, pos, n)
  {
    buf := new bv8[n](_ => 0);
    failed := ReadFails(file, pos, n);
    var count := ReadCount(file, pos, n);
    forall i | 0 <= i < count {
      buf[i] := file[pos + i];
    }
    assert buf[..] == Filled(file, pos, n);
  }

  /** The number of bytes the header read consumes. */
  function HeaderRead(file: seq<bv8>): (count: nat)
    ensures count <= HeaderSize && count <= |file|
    ensures |file| >= HeaderSize ==> count == HeaderSize
  {
    ReadCount(file, 0, HeaderSize)
  }

  /** `readBMPHeader`: one `Read` into the zero-initialised 54-byte array,
      which fails only on an empty file, then the signature and bit-depth
      checks on the array. A file shorter than 54 bytes leaves the tail of
      the array zero. */
  function ReadBmpHeader(file: seq<bv8>): (r: Result<BmpInfo>)
    ensures (r == Err(ReadHeaderFailed)) <==> |file| == 0
    ensures r.Ok? <==> |file| > 0 && var h := Filled(file, 0, HeaderSize);
                       h[0] == 'B' as bv8 && h[1] == 'M' as bv8 && h[28] == 24 && h[29] == 0
    ensures r.Ok? ==> r.value.header == Filled(file, 0, HeaderSize)
  {
    if ReadFails(file, 0, HeaderSize) then Err(ReadHeaderFailed)
    else ParseHeader(Filled(file, 0, HeaderSize))
  }

  /** On a file holding a whole header, the Go header read and the C one
      agree. */
  lemma HeaderAgrees(file: seq<bv8>)
    requires |file| >= HeaderSize
    ensures ReadBmpHeader(file) == StegoC.ReadBmpHeader(file)
  {
    FilledFromFile(file, 0, HeaderSize);
  }

  // ---------------------------------------------------------------------
  // Specifications
  // ---------------------------------------------------------------------

  /** What `hideMessage` writes: the header array, then the pixel buffer of
      `FileSize - 54` bytes with the message bytes and a zero appended
      embedded in its low bits. The capacity check uses Go's signed `int`. */
  function HideSpec(file: seq<bv8>, message: seq<bv8>): Result<seq<bv8>>
  {
    match ReadBmpHeader(file)
    case Err(e) => Err(e)
    case Ok(info) =>
      if 8 * (|message| + 1) > info.fileSize - HeaderSize then Err(MessageTooLong)
      else if ReadFails(file, HeaderRead(file), PixelBytes(info)) then Err(ReadPixelsFailed)
      else Ok(info.header + Embedded(Filled(file, HeaderRead(file), PixelBytes(info)), message + [0]))
  }

  /** What `revealMessage` prints: the characters read from the whole pixel
      buffer, which has no limit other than its own length. */
  function RevealSpec(file: seq<bv8>): Result<seq<bv8>>
  {
    match ReadBmpHeader(file)
    case Err(e) => Err(e)
    case Ok(info) =>
      if ReadFails(file, HeaderRead(file), PixelBytes(info)) then Err(ReadPixelsFailed)
      else
        var pixels := Filled(file, HeaderRead(file), PixelBytes(info));
        Ok(Revealed(pixels, |pixels| / 8))
  }

  // ---------------------------------------------------------------------
  // The tool
  // ---------------------------------------------------------------------

  /** `hideMessage`. */
  method HideMessage(file: seq<bv8>, message: seq<bv8>) returns (r: Result<seq<bv8>>)
    ensures r == HideSpec(file, message)
  {
    var header := ReadBmpHeader(file);
    if header.Err? {
      return Err(header.error);
    }
    var info := header.value;
    var msgBytes := message + [0];
    var msgLen := |msgBytes|;
    var requiredBytes := msgLen * 8;
    var availableBytes := info.fileSize - HeaderSize;
    if requiredBytes > availableBytes {
      return Err(MessageTooLong);
    }
    var pixelData, failed := MakeAndRead(file, HeaderRead(file), PixelBytes(info));
    if failed {
      return Err(ReadPixelsFailed);
    }
    EmbedMessage(pixelData, msgBytes);
    r := Ok(info.header + pixelData[..]);
  }

  /** The embedding loop of `hideMessage`, in place on the pixel buffer. */
  method EmbedMessage(pixelData: array<bv8>, msgBytes: seq<bv8>)
    modifies pixelData
    ensures pixelData[..] == Embedded(old(pixelData[..]), msgBytes)
  {
    ghost var embedded := Embedded(pixelData[..], msgBytes);
    var msgLen := |msgBytes|;
    var charIdx := 0;
    var bitIdx := 0;
    for i := 0 to pixelData.Length
      invariant 0 <= bitIdx < 8 && charIdx <= msgLen
      invariant 8 * charIdx + bitIdx == if i < 8 * msgLen then i else 8 * msgLen
      invariant forall k :: 0 <= k < i ==> pixelData[k] == embedded[k]
      invariant forall k :: i <= k < pixelData.Length ==> pixelData[k] == old(pixelData[k])
    {
      if charIdx < msgLen {
        DivMod8(i, charIdx, bitIdx);
        var msgBit := GetBitAt(msgBytes[charIdx], bitIdx);
        pixelData[i] := EmbedBit(pixelData[i], msgBit);
        bitIdx := bitIdx + 1;
        if bitIdx == 8 {
          bitIdx := 0;
          charIdx := charIdx + 1;
        }
      }
    }
    assert pixelData[..] == embedded;
  }

  /** `revealMessage`. */
  method RevealMessage(file: seq<bv8>) returns (r: Result<seq<bv8>>)
    ensures r == RevealSpec(file)
  {
    var header := ReadBmpHeader(file);
    if header.Err? {
      return Err(header.error);
    }
    var info := header.value;
    var pixelData, failed := MakeAndRead(file, HeaderRead(file), PixelBytes(info));
    if failed {
      return Err(ReadPixelsFailed);
    }
    var message := ExtractMessage(pixelData);
    r := Ok(message);
  }

  /** The extraction loop of `revealMessage`: assemble characters from the
      least significant bits, most significant bit first, append each one,
      stop at a zero character, and drop a trailing partial group. */
  method ExtractMessage(pixelData: array<bv8>) returns (message: seq<bv8>)
    ensures message == Revealed(pixelData[..], pixelData.Length / 8)
  {
    ghost var pixels := pixelData[..];
    ghost var limit := pixelData.Length / 8;
    ghost var target := Revealed(pixels, limit);
    ghost var rest := pixels;
    message := [];
    var bitIdx := 0;
    var currentChar: bv8 := 0;
    var i := 0;
    while i < pixelData.Length
      invariant 0 <= i <= pixelData.Length
      invariant 0 <= bitIdx < 8
      invariant i == 8 * |message| + bitIdx
      invariant rest == pixels[8 * |message|..]
      invariant currentChar == Assemble(rest, bitIdx)
      invariant target == message + Revealed(rest, limit - |message|)
    {
      var pixelByte := pixelData[i];
      assert rest[bitIdx] == pixelByte;
      AssembleNext(rest, bitIdx, currentChar);
      var bit := ExtractBit(pixelByte);
      currentChar := PlaceBit(currentChar, bit, bitIdx);
      bitIdx := bitIdx + 1;
      i := i + 1;
      if bitIdx == 8 {
        assert currentChar == CharOf(rest);
        WholeGroups(pixelData.Length, |message|);
        CompleteChar(rest, limit - |message|, message, target, currentChar);
        if currentChar == 0 {
          break;
        }
        assert rest[8..] == pixels[8 * (|message| + 1)..];
        message := message + [currentChar];
        rest := rest[8..];
        currentChar := 0;
        bitIdx := 0;
      }
    }
    if bitIdx < 8 {
      RevealedStop(rest, limit - |message|);
    }
  }

  lemma WholeGroups(length: nat, chars: nat)
    requires 8 * (chars + 1) <= length
    ensures chars < length / 8
  {
  }

  // ---------------------------------------------------------------------
  // Properties
  // ---------------------------------------------------------------------

  /** `hideMessage` refuses the message exactly when the message and its
      terminator need more bytes than `FileSize - 54`, computed without
      wrap-around; a header claiming fewer than 54 bytes refuses every
      message. */
  lemma HideRejects(file: seq<bv8>, message: seq<bv8>)
    ensures HideSpec(file, message) == Err(MessageTooLong)
            <==> ReadBmpHeader(file).Ok?
                 && 8 * (|message| + 1) > ReadBmpHeader(file).value.fileSize - HeaderSize
  {
  }

  /** A successful hide reads a whole header and a non-empty pixel buffer
      from a file longer than the header, and writes the header followed by
      that buffer with the message embedded. */
  lemma HideShape(file: seq<bv8>, message: seq<bv8>)
    requires HideSpec(file, message).Ok?
    ensures |file| > HeaderSize && ReadBmpHeader(file).Ok?
    ensures 8 * (|message| + 1) <= PixelBytes(ReadBmpHeader(file).value)
    ensures HideSpec(file, message).value
            == file[..HeaderSize]
               + Embedded(Filled(file, HeaderSize, PixelBytes(ReadBmpHeader(file).value)), message + [0])
  {
    FilledFromFile(file, 0, HeaderSize);
  }

  /** Two files with the same first 54 bytes have the same header. */
  lemma SameHeader(file: seq<bv8>, other: seq<bv8>)
    requires |file| >= HeaderSize && |other| >= HeaderSize
    requires other[..HeaderSize] == file[..HeaderSize]
    ensures ReadBmpHeader(other) == ReadBmpHeader(file)
  {
    HeaderAgrees(file);
    HeaderAgrees(other);
  }

  /** A successful hide writes the input's first 54 bytes followed by exactly
      `FileSize - 54` pixel bytes, so the output is as long as its header
      says. */
  lemma HideOutputSize(file: seq<bv8>, message: seq<bv8>)
    requires HideSpec(file, message).Ok?
    ensures |file| > HeaderSize
    ensures HideSpec(file, message).value[..HeaderSize] == file[..HeaderSize]
    ensures |HideSpec(file, message).value| == ReadBmpHeader(file).value.fileSize
  {
    HideShape(file, message);
  }

  /** On a file exactly as long as its header says, `revealMessage` reads
      every byte after the header. */
  lemma RevealWhole(file: seq<bv8>)
    requires |file| >= HeaderSize && ReadBmpHeader(file).Ok?
    requires |file| == HeaderSize + PixelBytes(ReadBmpHeader(file).value)
    ensures RevealSpec(file)
            == Ok(Revealed(file[HeaderSize..], PixelBytes(ReadBmpHeader(file).value) / 8))
  {
    var n := PixelBytes(ReadBmpHeader(file).value);
    FilledFromFile(file, HeaderSize, n);
    assert file[HeaderSize..HeaderSize + n] == file[HeaderSize..];
  }

  /** Revealing the output of a successful hide gives the message back when
      the message holds no zero byte. */
  lemma HideThenReveal(file: seq<bv8>, message: seq<bv8>)
    requires 0 !in message
    requires HideSpec(file, message).Ok?
    ensures RevealSpec(HideSpec(file, message).value) == Ok(message)
  {
    HideShape(file, message);
    var n := PixelBytes(ReadBmpHeader(file).value);
    var pixels := Filled(file, HeaderSize, n);
    var out := HideSpec(file, message).value;
    assert out[..HeaderSize] == file[..HeaderSize];
    SameHeader(file, out);
    RevealWhole(out);
    assert out[HeaderSize..] == Embedded(pixels, message + [0]);
    RevealEmbedded(pixels, message, n / 8);
  }

  /** On a file exactly as long as its header says, the pixel read fills
      its buffer with every byte after the header. */
  lemma PixelsWhole(file: seq<bv8>)
    requires |file| >= HeaderSize && ReadBmpHeader(file).Ok?
    requires ReadBmpHeader(file).value.fileSize == |file|
    ensures PixelBytes(ReadBmpHeader(file).value) == |file| - HeaderSize
    ensures !ReadFails(file, HeaderRead(file), |file| - HeaderSize)
    ensures Filled(file, HeaderRead(file), |file| - HeaderSize) == file[HeaderSize..]
  {
    var info := ReadBmpHeader(file).value;
    assert |file| == info.fileSize < 0x1_0000_0000;
    assert PixelBytes(info) == |file| - HeaderSize;
    var pos := HeaderRead(file);
    assert pos == HeaderSize;
    FilledFromFile(file, HeaderSize, |file| - HeaderSize);
    assert file[HeaderSize..|file|] == file[HeaderSize..];
  }

  /** On a well-formed file — its header's size field equal to its length —
      the Go and C tools hide alike. */
  lemma HideAgrees(file: seq<bv8>, message: seq<bv8>)
    requires StegoC.ReadBmpHeader(file).Ok? && StegoC.ReadBmpHeader(file).value.fileSize == |file|
    ensures HideSpec(file, message) == StegoC.HideSpec(file, message)
  {
    HeaderAgrees(file);
    PixelsWhole(file);
  }

  /** On a well-formed file the Go and C tools reveal alike, although only
      C has a character limit. */
  lemma RevealAgrees(file: seq<bv8>)
    requires StegoC.ReadBmpHeader(file).Ok? && StegoC.ReadBmpHeader(file).value.fileSize == |file|
    ensures RevealSpec(file) == StegoC.RevealSpec(file)
  {
    HeaderAgrees(file);
    PixelsWhole(file);
  }
}
