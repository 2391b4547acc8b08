# LFSR stream cipher and LSB steganography, modelled in Dafny

This project models two small bit-level tools of a low-level cryptography lab.

The first is a 16-bit Fibonacci linear-feedback shift register and the XOR stream
cipher built on it. `lfsr/c/lfsr.c` and `lfsr/go/lfsr.go` are line-for-line
translations of each other, so one module (`Lfsr`, in `lfsr.dfy`) models both:

- the pure specification: `Init`, `Parity`, `PopCount`, `Next`, `Advance`, `KeyByte`,
  `Keystream`, `CryptBytes`;
- the class `Lfsr.Register`, whose `state`/`taps` fields are updated in place by
  `Step`, `GetByte` and `Crypt` over an `array<bv8>`, with the source's loops;
- the `popcount` loop as the method `PopcountLoop`;
- the demo's encrypt/decrypt sequence as `EncryptDecrypt`.

The Go counterparts of the C lines cited below are:

- `lfsrInit`: lfsr.go lines 21-26
- `popcount`: lines 29-36
- `step`: lines 39-44
- `getByte`: lines 47-53
- `crypt`: lines 59-63
- the demo: lines 99-107

The second tool hides a NUL-terminated message in the least significant bits of the
pixel bytes of a 24-bit BMP file, most significant bit of each character first, and
reads it back. There is a C tool (`Steganography/c/stego.c`) and a Go tool
(`Steganography/stego.go`). They differ in how they read the file, in their capacity
arithmetic and in the limit on revealed characters.

- `StegoBits` (`stego_bits.dfy`) holds what they share: the little-endian fields, the
  header checks, the three bit helpers, and the specification functions `Embedded`
  (what hiding writes) and `Revealed` (what revealing reads back).
- `StegoC` (`stego_c.dfy`) and `StegoGo` (`stego_go.dfy`) hold each tool's
  `hide`/`reveal` with its own loops.

A file is the byte sequence `file: seq<bv8>`. The output file of a hide is the returned
byte sequence, and the printed message of a reveal is the returned text. Errors are
`Err(...)` values of a `Result`, one per error message of the tools.

Arithmetic is modelled as the source does it:

- `uint16` register arithmetic is `bv16`.
- The `uint8` popcount counter is `bv8`.
- `file_size - 54` is unsigned 32-bit subtraction in both tools (`PixelBytes`). It wraps
  around when a header claims fewer than 54 bytes.
- Go's capacity check is done on a signed `int`, so it does not wrap.

The C tool reads the input one byte at a time until end of file. It trusts the
header's size field only for the capacity check and for `max_chars`. The Go tool
reads `FileSize - 54` bytes with one `(*os.File).Read`. That read is modelled as
copying whatever is left of the file, up to the buffer's length, into a
zero-initialised buffer. It fails only when nothing is left and the buffer is not
empty.

Two facts about the register's bit conventions:

- The first clocked bit lands in bit 0 of the keystream byte, so bytes are assembled
  LSB first (`KeyByteBits`).
- A step can turn a non-zero state into zero: with taps `0xB400` (bit 0 clear), state 1
  steps to 0. The model therefore keeps no non-zero invariant. Instead it proves that a
  zero state is a fixed point with an all-zero keystream (`ZeroStateStays`,
  `ZeroStateKeystream`).

## Model

| member | source | states |
|---|---|---|
| `Lfsr.Init` | lfsr/c/lfsr.c:19-21 | the taps are stored verbatim; the state is the seed when the seed is non-zero and 1 when it is zero, so it is never zero |
| `Lfsr.PopCountIsSetBits` | lfsr/c/lfsr.c:24-28 | what the shift-and-add loop computes equals the number of set bits of `x`, counted position by position, and is at most 16 |
| `Lfsr.PopCountParity` | lfsr/c/lfsr.c:32 | `popcount(x) & 1` is the XOR-reduction (parity) of the bits of `x` |
| `Lfsr.PopcountLoop` | lfsr/c/lfsr.c:24-28 | the `uint8` counter loop terminates with the set-bit count of `x`, which is at most 16, so the counter never overflows |
| `Lfsr.TappedParity` | lfsr/c/lfsr.c:32 | the feedback expression `popcount(state & taps) & 1` is 1 exactly when the tapped bits have odd parity |
| `Lfsr.Register.constructor` | lfsr/c/lfsr.c:89 | a register built from `(seed, taps)` holds `lfsr_init(seed, taps)` |
| `Lfsr.Register.Step` | lfsr/c/lfsr.c:31-36 | returns the old LSB, which is 0 or 1; the new state is the old state shifted right with the parity of the tapped bits at bit 15; the taps do not change |
| `Lfsr.AdvanceKeepsTaps` | lfsr/c/lfsr.c:31-36 | any number of clocks leaves the tap mask unchanged |
| `Lfsr.ZeroStateStays` | lfsr/c/lfsr.c:32-34 | from a zero state every later state is zero and every output bit is zero |
| `Lfsr.ZeroStateKeystream` | lfsr/c/lfsr.c:50-53 | from a zero state the keystream is all zero, so crypt leaves the buffer unchanged |
| `Lfsr.Register.GetByte` | lfsr/c/lfsr.c:39-44 | returns the keystream byte of the old state and advances the register by exactly 8 clocks |
| `Lfsr.KeyByteBits` | lfsr/c/lfsr.c:41-42 | bit `i` of a keystream byte is the output of the `i`-th clock (the first bit produced is the LSB) |
| `Lfsr.Register.Crypt` | lfsr/c/lfsr.c:50-53 | the buffer becomes the old buffer XOR the keystream, byte by byte; the register advances by exactly `8 * len` clocks; nothing else changes, and an empty buffer changes nothing |
| `Lfsr.KeystreamAt` | lfsr/c/lfsr.c:50-52 | keystream byte `j` is the byte assembled after `8 * j` clocks |
| `Lfsr.CryptAt` | lfsr/c/lfsr.c:52 | ciphertext byte `i` is plaintext byte `i` XOR the keystream byte produced after `8 * i` clocks |
| `Lfsr.CryptInvolutive` | lfsr/c/lfsr.c:50-53 | crypting twice from the same register value restores the buffer |
| `Lfsr.InitRoundTrip` | lfsr/c/lfsr.c:89-95 | two registers from `lfsr_init(S, T)` undo each other's crypt, and seed 0 encrypts exactly like seed 1 |
| `Lfsr.EncryptDecrypt` | lfsr/c/lfsr.c:88-96 | the demo's encrypt then decrypt with two fresh registers of equal seed and taps leaves the buffer as it was |
| `StegoBits.Le32Bitwise` | Steganography/c/stego.c:28-30 | the shift-and-or of four bytes (computed unsigned) is the little-endian value `b0 + 2^8 b1 + 2^16 b2 + 2^24 b3` |
| `StegoBits.Le16Bitwise` | Steganography/c/stego.c:33-35 | the shift-and-or of two bytes is the little-endian value `b0 + 2^8 b1` |
| `StegoBits.ParseHeader` | Steganography/c/stego.c:42-58 | the header is accepted exactly when it starts with 'B' 'M' and the 16-bit field at offset 28 is 24; the error says which check failed, signature first; on success the fields are the LE32 values at offsets 2, 10, 18 and 22 and the bit count is 24 |
| `StegoBits.PixelBytes` | Steganography/c/stego.c:109 | `file_size - 54` in unsigned 32-bit arithmetic: the difference when the size is at least 54, otherwise the wrapped value |
| `StegoBits.EmbedBit` | Steganography/c/stego.c:68-70 | bits 1..7 of the byte are kept, and the extracted LSB is the embedded bit's LSB |
| `StegoBits.ExtractBit` | Steganography/c/stego.c:76-78 | the result is a single bit, and it is the byte's LSB: putting it back under the upper seven bits gives the byte |
| `StegoBits.GetBitAt` | Steganography/c/stego.c:86-88 | the result is a single bit; `CharOfBits` shows that positions 0..7 are the bits of the character, most significant first |
| `StegoBits.CharOfBits` | Steganography/c/stego.c:193-197 | eight bytes whose LSBs are `get_bit_at(c, 0..7)` are assembled, MSB first, back into `c` |
| `StegoBits.EmbeddedBytes` | Steganography/c/stego.c:133-146 | hiding changes only LSBs; pixel byte `k < 8 * len` carries bit `k % 8` of character `k / 8`, and the later bytes are unchanged |
| `StegoBits.RevealedBounds` | Steganography/stego.go:177-206 | the revealed message has at most `limit` characters and at most one per whole group of 8 bytes, and contains no zero byte |
| `StegoBits.RevealedLimit` | Steganography/c/stego.c:174 | a character limit of at least the number of whole 8-byte groups makes no difference |
| `StegoBits.RevealEmbedded` | Steganography/c/stego.c:129-211 | round trip: revealing the pixels that hold `m` and its terminator gives `m` back, when `m` has no zero byte, the pixels hold its own 8 bits per character (the terminator's bytes may be cut off), and it is within the limit |
| `StegoC.ReadBmpHeader` | Steganography/c/stego.c:38-59 | fails when fewer than 54 bytes can be read; otherwise accepted exactly when the signature is 'B' 'M' and the bit count is 24; the stored header is the first 54 bytes |
| `StegoC.HideMessage` | Steganography/c/stego.c:92-155 | the output is the header read, followed by every remaining input byte with the message and its NUL embedded; errors for a bad header and for a message that does not fit |
| `StegoC.CopyEmbedding` | Steganography/c/stego.c:125-146 | the byte-at-a-time copy loop with `char_idx`/`bit_idx` writes the header followed by the embedded pixel bytes |
| `StegoC.HideRejects` | Steganography/c/stego.c:106-115 | the message is refused as too long exactly when the header is valid and `(strlen + 1) * 8 > file_size - 54` (32-bit unsigned) |
| `StegoC.HideShape` | Steganography/c/stego.c:125-146 | a successful hide writes the input's first 54 bytes followed by the embedded pixel bytes |
| `StegoC.HideKeepsHeader` | Steganography/c/stego.c:126-145 | a successful hide keeps the file length and the 54 header bytes verbatim |
| `StegoC.HidePixel` | Steganography/c/stego.c:133-146 | a successful hide changes only the LSBs of the pixel bytes, and none past the message and its terminator |
| `StegoC.RevealMessage` | Steganography/c/stego.c:159-221 | the printed message is what `Revealed` reads from the bytes after the header, with `max_chars = (file_size - 54) / 8`; errors for a bad header |
| `StegoC.ExtractLoop` | Steganography/c/stego.c:182-213 | the read loop fills a buffer of `max_chars + 1` bytes without writing past it, and returns the characters up to the first NUL, at most `max_chars` of them, dropping a partial group |
| `StegoC.HideThenReveal` | Steganography/c/stego.c:129-211 | revealing the output of a successful hide gives back a message with no NUL, when the file holds the pixel bytes of the message's characters, even if the terminator's bytes are cut off |
| `StegoGo.ReadBmpHeader` | Steganography/stego.go:34-58 | fails to read exactly on an empty file; otherwise accepted exactly when the zero-padded 54-byte array starts with 'B' 'M' and has bit count 24, and that array is the stored header |
| `StegoGo.HeaderAgrees` | Steganography/stego.go:37-57 | on a file holding a whole header the Go and C header reads agree |
| `StegoGo.MakeAndRead` | Steganography/stego.go:116-119 | `make` plus one `Read` gives a fresh zero-initialised buffer filled from the file, and an error only when nothing is left |
| `StegoGo.HideMessage` | Steganography/stego.go:91-154 | the output is the 54-byte header array followed by the `FileSize - 54` byte pixel buffer with the message and its zero embedded; errors for a bad header, a message that does not fit, and a failed pixel read |
| `StegoGo.EmbedMessage` | Steganography/stego.go:122-137 | the in-place loop with `charIdx`/`bitIdx` turns `pixelData` into the embedded pixel bytes, keeping its length |
| `StegoGo.HideRejects` | Steganography/stego.go:104-113 | the message is refused as too long exactly when the header is valid and `8 * (len + 1) > FileSize - 54` on signed integers, so a size below 54 refuses every message |
| `StegoGo.HideShape` | Steganography/stego.go:115-148 | a successful hide reads a whole header from a file longer than it, and writes the header followed by the embedded buffer |
| `StegoGo.HideOutputSize` | Steganography/stego.go:116-148 | a successful hide keeps the first 54 bytes, and its output is exactly as long as the header's size field says |
| `StegoGo.RevealMessage` | Steganography/stego.go:158-211 | the printed message is what `Revealed` reads from the whole `FileSize - 54` byte buffer, with no other limit; errors for a bad header and a failed read |
| `StegoGo.ExtractMessage` | Steganography/stego.go:177-206 | the loop appends each completed character, stops before the first zero character, and drops a trailing partial group |
| `StegoGo.RevealWhole` | Steganography/stego.go:170-177 | on a file exactly as long as its header says, the reveal reads every byte after the header |
| `StegoGo.PixelsWhole` | Steganography/stego.go:170-174 | on such a file the pixel read succeeds and fills its buffer with exactly the bytes after the header |
| `StegoGo.HideThenReveal` | Steganography/stego.go:122-206 | revealing the output of a successful hide gives back a message with no zero byte |
| `StegoGo.HideAgrees` | Steganography/stego.go:91-148 | on a file whose size field equals its length, the Go and C hides produce the same result |
| `StegoGo.RevealAgrees` | Steganography/stego.go:158-206 | on such a file the Go and C reveals agree, although only C has a character limit |

## Left out

- All file and console I/O: opening and closing files, writing the output file, the
  printed messages, `print_hex`/`print_ascii`/`printHex`/`printASCII`, the usage text
  and the command-line dispatch in `main`. The input file is a parameter, and the
  output file and printed text are results.
- Memory allocation failure in `reveal_message` (`malloc` returning NULL) is not modelled.
- A failure to open or create a file is not modelled.
- C's per-byte `fread` is modelled as reading the file's bytes in order to the end. Go's
  `Read` is modelled as one call that returns everything left, up to the buffer's
  length. Short reads in the middle of a file are not modelled.
- `read_le32` shifts `buf[3] << 24` on a promoted `int`, which is undefined behaviour
  in C when the top bit is set. The model gives the intended unsigned value.
- `data_offset`, `width` and `height` are parsed and kept in `BmpInfo`. Neither tool
  uses them; pixel data is taken to start at byte 54.
- No claim about maximal period or cryptographic strength is made. The tap polynomial
  is only named in a comment of the demo and is never checked.
- The demo's concrete plaintext `"HELLO_LFSR!"` is covered by `EncryptDecrypt` for
  every buffer. Its concrete ciphertext is not computed.
- StegoBits.GetBitAt: the contract says only that the result is one bit. That this bit
  is bit `7 - pos` of the character is stated through `CharOfBits`.
