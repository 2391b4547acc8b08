/** LSB steganography in 24-bit BMP files: the parts shared by the C tool
    and the Go tool — the header layout and its checks, the three bit
    helpers, and the two specification functions `Embedded` (what hiding
    does to the pixel bytes) and `Revealed` (what revealing reads back). */
module StegoBits {

  /** Size of the BMP file header plus info header, in bytes. */
  const HeaderSize: nat := 54

  /** Why an operation stopped; one constructor per error message of the tools. */
  datatype Error =
    | ReadHeaderFailed   // the header could not be read
    | BadSignature       // the file does not start with 'B' 'M'
    | Not24Bit           // bits per pixel is not 24
    | MessageTooLong     // the message with its terminator does not fit
    | ReadPixelsFailed   // the pixel data could not be read

  datatype Result<T> = Ok(value: T) | Err(error: Error)

  /** The values of `uint16_t` and `uint32_t`. */
  type U16 = x: int | 0 <= x < 0x1_0000
  type U32 = x: int | 0 <= x < 0x1_0000_0000

  /** The parsed header: the 54 raw bytes and the fields read from them. */
  datatype BmpInfo = BmpInfo(
    header: seq<bv8>,
    fileSize: U32,
    dataOffset: U32,
    width: U32,
    height: U32,
    bitsPerPixel: U16)

  // ---------------------------------------------------------------------
  // Little-endian fields
  // ---------------------------------------------------------------------

  /** The little-endian value of four bytes, as `read_le32` and
      `binary.LittleEndian.Uint32` compute it; `Le32Bitwise` shows that the
      shift-and-or expression of the source yields this value. */
  function ReadLe32(buf: seq<bv8>, at: nat): (r: U32)
    requires at + 4 <= |buf|
  {
    buf[at] as int + 0x100 * buf[at + 1] as int + 0x1_0000 * buf[at + 2] as int + 0x100_0000 * buf[at + 3] as int
  }

  /** The little-endian value of two bytes, as `read_le16` and
      `binary.LittleEndian.Uint16` compute it. */
  function ReadLe16(buf: seq<bv8>, at: nat): (r: U16)
    requires at + 2 <= |buf|
  {
    buf[at] as int + 0x100 * buf[at + 1] as int
  }

  /** `buf[0] | (buf[1] << 8) | (buf[2] << 16) | (buf[3] << 24)`, computed
      without overflow, is the little-endian value. */
  lemma Le32Bitwise(buf: seq<bv8>, at: nat)
    requires at + 4 <= |buf|
    ensures (buf[at] as bv32 | (buf[at + 1] as bv32 << 8) | (buf[at + 2] as bv32 << 16) | (buf[at + 3] as bv32 << 24)) as int
            == ReadLe32(buf, at)
  {
    Le32Value(buf[at], buf[at + 1], buf[at + 2], buf[at + 3]);
  }

  /** `buf[0] | (buf[1] << 8)` is the little-endian value. */
  lemma Le16Bitwise(buf: seq<bv8>, at: nat)
    requires at + 2 <= |buf|
    ensures (buf[at] as bv16 | (buf[at + 1] as bv16 << 8)) as int == ReadLe16(buf, at)
  {
    Le16Value(buf[at], buf[at + 1]);
  }

  lemma Le32Value(b0: bv8, b1: bv8, b2: bv8, b3: bv8)
    ensures (b0 as bv32 | (b1 as bv32 << 8) | (b2 as bv32 << 16) | (b3 as bv32 << 24)) as int
            == b0 as int + 0x100 * b1 as int + 0x1_0000 * b2 as int + 0x100_0000 * b3 as int
  {
  }

  lemma Le16Value(b0: bv8, b1: bv8)
    ensures (b0 as bv16 | (b1 as bv16 << 8)) as int == b0 as int + 0x100 * b1 as int
  {
  }

  // ---------------------------------------------------------------------
  // Header validation
  // ---------------------------------------------------------------------

  /** The checks of `read_bmp_header` / `readBMPHeader` once the 54 header
      bytes are in memory: signature 'B' 'M' first, then 24 bits per pixel. */
  function ParseHeader(header: seq<bv8>): (r: Result<BmpInfo>)
    requires |header| == HeaderSize
    ensures r.Ok? <==> header[0] == 'B' as bv8 && header[1] == 'M' as bv8
                       && header[28] == 24 && header[29] == 0
    ensures r.Err? ==> r.error == (if header[0] != 'B' as bv8 || header[1] != 'M' as bv8
                                   then BadSignature else Not24Bit)
    ensures r.Ok? ==> r.value == BmpInfo(header, ReadLe32(header, 2), ReadLe32(header, 10),
                                         ReadLe32(header, 18), ReadLe32(header, 22), 24)
  {
    if header[0] != 'B' as bv8 || header[1] != 'M' as bv8 then
      Err(BadSignature)
    else
      var info := BmpInfo(header, ReadLe32(header, 2), ReadLe32(header, 10),
                          ReadLe32(header, 18), ReadLe32(header, 22), ReadLe16(header, 28));
      if info.bitsPerPixel != 24 then Err(Not24Bit) else Ok(info)
  }

  /** `file_size - 54` as both tools compute it: `uint32_t` minus `int` in
      C and `uint32` minus an untyped constant in Go are unsigned 32-bit
      subtractions, so a header claiming fewer than 54 bytes wraps round to a
      value close to 2^32. */
  function PixelBytes(info: BmpInfo): (n: nat)
    ensures n < 0x1_0000_0000
    ensures info.fileSize >= HeaderSize ==> n == info.fileSize - HeaderSize
    ensures info.fileSize < HeaderSize ==> n == info.fileSize + 0x1_0000_0000 - HeaderSize
  {
    (info.fileSize - HeaderSize) % 0x1_0000_0000
  }

  // ---------------------------------------------------------------------
  // Bit helpers
  // ---------------------------------------------------------------------

  /** `embed_bit`: replace the least significant bit of `b` by that of `bit`. */
  function EmbedBit(b: bv8, bit: bv8): (r: bv8)
    ensures r & 0xFE == b & 0xFE
    ensures ExtractBit(r) == bit & 1
  {
    (b & 0xFE) | (bit & 0x01)
  }

  /** `extract_bit`: the least significant bit, as 0 or 1. */
  function ExtractBit(b: bv8): (r: bv8)
    ensures r == 0 || r == 1
    ensures (b & 0xFE) | r == b
  {
    b & 0x01
  }

  /** `get_bit_at`: bit `7 - pos` of `ch`, so positions 0..7 walk from the
      most significant bit down to the least significant one. */
  function GetBitAt(ch: bv8, pos: int): (r: bv8)
    requires 0 <= pos < 8
    ensures r == 0 || r == 1
  {
    (ch >> (7 - pos)) & 0x01
  }

  // ---------------------------------------------------------------------
  // What hiding writes
  // ---------------------------------------------------------------------

  /** The pixel bytes after hiding `msg` (terminator included): pixel byte
      `k` carries bit `k % 8` (most significant first) of character `k / 8`
      while there are message bits left, and is copied unchanged after. */
  function Embedded(pixels: seq<bv8>, msg: seq<bv8>): (out: seq<bv8>)
    ensures |out| == |pixels|
  {
    seq(|pixels|, k requires 0 <= k < |pixels| =>
      if k < 8 * |msg| then EmbedBit(pixels[k], GetBitAt(msg[k / 8], k % 8)) else pixels[k])
  }

  /** Hiding touches only least significant bits, sets them to the message
      bits in order, and leaves every byte past the message as it was. */
  lemma EmbeddedBytes(pixels: seq<bv8>, msg: seq<bv8>, k: nat)
    requires k < |pixels|
    ensures Embedded(pixels, msg)[k] & 0xFE == pixels[k] & 0xFE
    ensures k < 8 * |msg| ==> ExtractBit(Embedded(pixels, msg)[k]) == GetBitAt(msg[k / 8], k % 8)
    ensures k >= 8 * |msg| ==> Embedded(pixels, msg)[k] == pixels[k]
  {
  }

  /** Dropping the first character of the message and the first eight
      pixel bytes commutes with embedding. */
  lemma EmbeddedTail(pixels: seq<bv8>, msg: seq<bv8>)
    requires |msg| >= 1 && |pixels| >= 8
    ensures Embedded(pixels, msg)[8..] == Embedded(pixels[8..], msg[1..])
  {
    var a := Embedded(pixels, msg)[8..];
    var b := Embedded(pixels[8..], msg[1..]);
    forall k | 0 <= k < |a|
      ensures a[k] == b[k]
    {
      DivMod8(k + 8, k / 8 + 1, k % 8);
    }
  }

  lemma DivMod8(i: int, c: int, b: int)
    requires i == 8 * c + b && 0 <= b < 8
    ensures i / 8 == c && i % 8 == b
  {
  }

  // ---------------------------------------------------------------------
  // What revealing reads
  // ---------------------------------------------------------------------

  /** The character being assembled after `n` pixel bytes of a group: bit
      `n - 1` of the group lands at position `7 - (n - 1)`, most significant
      first. */
  function Assemble(group: seq<bv8>, n: nat): (c: bv8)
    requires n <= 8 && n <= |group|
  {
    if n == 0 then 0 else PlaceBit(Assemble(group, n - 1), ExtractBit(group[n - 1]), n - 1)
  }

  /** `current_char |= (bit << (7 - bit_idx))`: put `bit` at position
      `bitIdx` counted from the most significant end. */
  function PlaceBit(current: bv8, bit: bv8, bitIdx: int): bv8
    requires 0 <= bitIdx < 8
  {
    current | (bit << (7 - bitIdx))
  }

  /** One step of the read loops: placing the next byte's low bit extends
      the assembled prefix by one position. */
  lemma AssembleNext(group: seq<bv8>, n: nat, current: bv8)
    requires n < 8 && n < |group| && current == Assemble(group, n)
    ensures PlaceBit(current, ExtractBit(group[n]), n) == Assemble(group, n + 1)
  {
  }

  /** The character stored in the least significant bits of eight bytes. */
  function CharOf(group: seq<bv8>): bv8
    requires |group| >= 8
  {
    Assemble(group, 8)
  }

  /** Eight bytes whose low bits are the bits of `c`, most significant
      first, spell `c`. */
  lemma CharOfBits(group: seq<bv8>, c: bv8)
    requires |group| >= 8
    requires forall k :: 0 <= k < 8 ==> ExtractBit(group[k]) == GetBitAt(c, k)
    ensures CharOf(group) == c
  {
    var e0, e1, e2, e3 := ExtractBit(group[0]), ExtractBit(group[1]), ExtractBit(group[2]), ExtractBit(group[3]);
    var e4, e5, e6, e7 := ExtractBit(group[4]), ExtractBit(group[5]), ExtractBit(group[6]), ExtractBit(group[7]);
    assert Assemble(group, 0) == 0;
    assert Assemble(group, 1) == Assemble(group, 0) | (e0 << 7);
    assert Assemble(group, 2) == Assemble(group, 1) | (e1 << 6);
    assert Assemble(group, 3) == Assemble(group, 2) | (e2 << 5);
    assert Assemble(group, 4) == Assemble(group, 3) | (e3 << 4);
    assert Assemble(group, 5) == Assemble(group, 4) | (e4 << 3);
    assert Assemble(group, 6) == Assemble(group, 5) | (e5 << 2);
    assert Assemble(group, 7) == Assemble(group, 6) | (e6 << 1);
    assert Assemble(group, 8) == Assemble(group, 7) | e7;
    assert e0 == GetBitAt(c, 0) && e1 == GetBitAt(c, 1) && e2 == GetBitAt(c, 2) && e3 == GetBitAt(c, 3);
    assert e4 == GetBitAt(c, 4) && e5 == GetBitAt(c, 5) && e6 == GetBitAt(c, 6) && e7 == GetBitAt(c, 7);
    SpellByte(c);
  }

  lemma SpellByte(c: bv8)
    ensures c == (((c >> 7) & 1) << 7) | (((c >> 6) & 1) << 6) | (((c >> 5) & 1) << 5) | (((c >> 4) & 1) << 4)
               | (((c >> 3) & 1) << 3) | (((c >> 2) & 1) << 2) | (((c >> 1) & 1) << 1) | (c & 1)
  {
  }

  /** The message read back from the pixel bytes: one character per eight
      bytes, stopping at a zero character, after `limit` characters, or when
      fewer than eight bytes remain (a trailing partial group is dropped). */
  function Revealed(pixels: seq<bv8>, limit: nat): (m: seq<bv8>)
    decreases limit
  {
    if limit == 0 || |pixels| < 8 || CharOf(pixels) == 0 then []
    else [CharOf(pixels)] + Revealed(pixels[8..], limit - 1)
  }

  /** Reading stops at the limit, at a trailing partial group, and at a
      zero character. */
  lemma RevealedStop(pixels: seq<bv8>, limit: nat)
    requires limit == 0 || |pixels| < 8 || CharOf(pixels) == 0
    ensures Revealed(pixels, limit) == []
  {
  }

  /** The message read back has at most `limit` characters, uses at most
      the whole groups available, and never contains a zero byte. */
  lemma {:induction false} RevealedBounds(pixels: seq<bv8>, limit: nat)
    ensures |Revealed(pixels, limit)| <= limit
    ensures |Revealed(pixels, limit)| <= |pixels| / 8
    ensures 0 !in Revealed(pixels, limit)
    decreases limit
  {
    if limit == 0 || |pixels| < 8 || CharOf(pixels) == 0 {
    } else {
      RevealedBounds(pixels[8..], limit - 1);
      assert |pixels[8..]| / 8 == |pixels| / 8 - 1;
    }
  }

  /** The step of the read loops once eight bytes are in: a zero character
      ends the message, any other one is appended. */
  lemma CompleteChar(rest: seq<bv8>, limit: nat, found: seq<bv8>, target: seq<bv8>, current: bv8)
    requires limit > 0 && |rest| >= 8 && current == CharOf(rest)
    requires target == found + Revealed(rest, limit)
    ensures current == 0 ==> target == found
    ensures current != 0 ==> target == (found + [current]) + Revealed(rest[8..], limit - 1)
  {
  }

  /** A limit at or above the number of whole groups changes nothing. */
  lemma {:induction false} RevealedLimit(pixels: seq<bv8>, limit: nat)
    requires limit >= |pixels| / 8
    ensures Revealed(pixels, limit) == Revealed(pixels, |pixels| / 8)
    decreases limit
  {
    if limit == 0 || |pixels| < 8 || CharOf(pixels) == 0 {
    } else {
      assert |pixels[8..]| / 8 == |pixels| / 8 - 1;
      RevealedLimit(pixels[8..], limit - 1);
      RevealedLimit(pixels[8..], |pixels| / 8 - 1);
    }
  }

  /** Round trip: hiding `msg` with its terminator, then revealing with a
      limit of at least `|msg|` characters, gives back `msg` — provided
      `msg` holds no zero byte and the pixels hold its own bits. Whether or
      not the terminator fits, reading stops right after `msg`: at the
      embedded zero, or at a trailing partial group. */
  lemma {:induction false} RevealEmbedded(pixels: seq<bv8>, msg: seq<bv8>, limit: nat)
    requires 0 !in msg
    requires 8 * |msg| <= |pixels|
    requires |msg| <= limit
    ensures Revealed(Embedded(pixels, msg + [0]), limit) == msg
    decreases msg
  {
    var z := msg + [0];
    var out := Embedded(pixels, z);
    if |pixels| < 8 {
      assert msg == [];
    } else {
      forall k | 0 <= k < 8
        ensures ExtractBit(out[k]) == GetBitAt(z[0], k)
      {
        EmbeddedBytes(pixels, z, k);
        DivMod8(k, 0, k);
      }
      CharOfBits(out, z[0]);
      if msg == [] {
        assert z[0] == 0;
      } else {
        assert z[0] == msg[0] != 0;
        EmbeddedTail(pixels, z);
        assert z[1..] == msg[1..] + [0];
        RevealEmbedded(pixels[8..], msg[1..], limit - 1);
      }
    }
  }
}
