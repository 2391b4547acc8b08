/** A 16-bit Fibonacci linear-feedback shift register and the XOR stream cipher
    built on it (lfsr/c/lfsr.c and its line-for-line translation lfsr/go/lfsr.go).

    The pure part (Reg, Init, Next, Advance, KeyByte, Keystream) is the
    specification; the class Register holds the mutable `state`/`taps` pair that
    the source passes by pointer, and its methods follow the source's loops. */
module Lfsr {

  /** The value of an `LFSR` struct. */
  datatype Reg = Reg(state: bv16, taps: bv16)

  /** 1 when bit `mask` of x is set, 0 otherwise: a number to add up. */
  function CountOf(x: bv16, mask: bv16): (c: nat)
    ensures c <= 1
  {
    if x & mask != 0 then 1 else 0
  }

  /** `lfsr_init`: a zero seed is replaced by 1, the taps are kept verbatim. */
  function Init(seed: bv16, taps: bv16): (r: Reg)
    ensures r.taps == taps && r.state != 0
    ensures seed != 0 ==> r.state == seed
    ensures seed == 0 ==> r.state == 1
  {
    Reg(if seed != 0 then seed else 1, taps)
  }

  /** The number of set bits of x, position by position. */
  function SetBits(x: bv16): nat
  {
    CountOf(x, 0x0001) + CountOf(x, 0x0002) + CountOf(x, 0x0004) + CountOf(x, 0x0008) +
    CountOf(x, 0x0010) + CountOf(x, 0x0020) + CountOf(x, 0x0040) + CountOf(x, 0x0080) +
    CountOf(x, 0x0100) + CountOf(x, 0x0200) + CountOf(x, 0x0400) + CountOf(x, 0x0800) +
    CountOf(x, 0x1000) + CountOf(x, 0x2000) + CountOf(x, 0x4000) + CountOf(x, 0x8000)
  }

  /** The XOR-reduction of the bits of x: XOR of the LSB with the parity of the rest. */
  function Parity(x: bv16): bv1
    decreases x
  {
    if x == 0 then 0 else (if CountOf(x, 1) == 1 then 1 else 0) ^ Parity(x >> 1)
  }

  /** What `popcount` computes: add the LSB, shift right, until nothing is left. */
  function PopCount(x: bv16): nat
    decreases x
  {
    if x == 0 then 0 else CountOf(x, 1) + PopCount(x >> 1)
  }

  /** The feedback bit: parity of the tapped bits. */
  function Feedback(r: Reg): bv16
  {
    if Parity(r.state & r.taps) == 1 then 1 else 0
  }

  /** The bit leaving the register on the next clock: the current LSB. */
  function OutBit(r: Reg): bv8
  {
    (r.state & 1) as bv8
  }

  /** One clock: shift right, inject the feedback at bit 15. */
  function Next(r: Reg): Reg
  {
    Reg((r.state >> 1) | (Feedback(r) << 15), r.taps)
  }

  /** The register after n clocks. */
  function Advance(r: Reg, n: nat): Reg
    decreases n
  {
    if n == 0 then r else Advance(Next(r), n - 1)
  }

  /** The first n output bits packed LSB-first (bit i = output of clock i). */
  function KeyAcc(r: Reg, n: nat): bv8
    requires n <= 8
  {
    if n == 0 then 0 else KeyAcc(r, n - 1) | (OutBit(Advance(r, n - 1)) << (n - 1))
  }

  /** One keystream byte: eight clocks, first output bit in bit 0. */
  function KeyByte(r: Reg): bv8
  {
    KeyAcc(r, 8)
  }

  /** The first n keystream bytes; byte j is assembled after 8*j clocks. */
  function Keystream(r: Reg, n: nat): (ks: seq<bv8>)
    ensures |ks| == n
    decreases n
  {
    if n == 0 then [] else [KeyByte(r)] + Keystream(Advance(r, 8), n - 1)
  }

  /** Byte-wise XOR of two equally long buffers. */
  function XorBytes(a: seq<bv8>, ks: seq<bv8>): (c: seq<bv8>)
    requires |a| == |ks|
    ensures |c| == |a|
  {
    seq(|a|, i requires 0 <= i < |a| => a[i] ^ ks[i])
  }

  /** What `lfsr_crypt` leaves in the buffer. */
  function CryptBytes(r: Reg, data: seq<bv8>): seq<bv8>
  {
    XorBytes(data, Keystream(r, |data|))
  }

  // ---------------------------------------------------------------------------
  // Properties of the specification
  // ---------------------------------------------------------------------------

  /** Shifting right by one moves bit k+1 to bit k and clears bit 15. */
  lemma ShiftedBits(x: bv16)
    ensures (x >> 1) & 0x8000 == 0
    ensures ((x >> 1) & 0x0001 != 0) == (x & 0x0002 != 0)
    ensures ((x >> 1) & 0x0002 != 0) == (x & 0x0004 != 0)
    ensures ((x >> 1) & 0x0004 != 0) == (x & 0x0008 != 0)
    ensures ((x >> 1) & 0x0008 != 0) == (x & 0x0010 != 0)
    ensures ((x >> 1) & 0x0010 != 0) == (x & 0x0020 != 0)
    ensures ((x >> 1) & 0x0020 != 0) == (x & 0x0040 != 0)
    ensures ((x >> 1) & 0x0040 != 0) == (x & 0x0080 != 0)
    ensures ((x >> 1) & 0x0080 != 0) == (x & 0x0100 != 0)
    ensures ((x >> 1) & 0x0100 != 0) == (x & 0x0200 != 0)
    ensures ((x >> 1) & 0x0200 != 0) == (x & 0x0400 != 0)
    ensures ((x >> 1) & 0x0400 != 0) == (x & 0x0800 != 0)
    ensures ((x >> 1) & 0x0800 != 0) == (x & 0x1000 != 0)
    ensures ((x >> 1) & 0x1000 != 0) == (x & 0x2000 != 0)
    ensures ((x >> 1) & 0x2000 != 0) == (x & 0x4000 != 0)
    ensures ((x >> 1) & 0x4000 != 0) == (x & 0x8000 != 0)
  {
  }

  lemma ShiftedCounts(x: bv16)
    ensures CountOf(x >> 1, 0x8000) == 0
    ensures CountOf(x >> 1, 0x0001) == CountOf(x, 0x0002)
    ensures CountOf(x >> 1, 0x0002) == CountOf(x, 0x0004)
    ensures CountOf(x >> 1, 0x0004) == CountOf(x, 0x0008)
    ensures CountOf(x >> 1, 0x0008) == CountOf(x, 0x0010)
    ensures CountOf(x >> 1, 0x0010) == CountOf(x, 0x0020)
    ensures CountOf(x >> 1, 0x0020) == CountOf(x, 0x0040)
    ensures CountOf(x >> 1, 0x0040) == CountOf(x, 0x0080)
    ensures CountOf(x >> 1, 0x0080) == CountOf(x, 0x0100)
    ensures CountOf(x >> 1, 0x0100) == CountOf(x, 0x0200)
    ensures CountOf(x >> 1, 0x0200) == CountOf(x, 0x0400)
    ensures CountOf(x >> 1, 0x0400) == CountOf(x, 0x0800)
    ensures CountOf(x >> 1, 0x0800) == CountOf(x, 0x1000)
    ensures CountOf(x >> 1, 0x1000) == CountOf(x, 0x2000)
    ensures CountOf(x >> 1, 0x2000) == CountOf(x, 0x4000)
    ensures CountOf(x >> 1, 0x4000) == CountOf(x, 0x8000)
  {
    ShiftedBits(x);
  }

  lemma SetBitsShift(x: bv16)
    ensures SetBits(x) == CountOf(x, 1) + SetBits(x >> 1)
  {
    ShiftedCounts(x);
  }

  /** `popcount(x)` is the number of set bits of x, hence at most 16. */
  lemma {:induction false} PopCountIsSetBits(x: bv16)
    ensures PopCount(x) == SetBits(x) && PopCount(x) <= 16
    decreases x
  {
    if x != 0 {
      PopCountIsSetBits(x >> 1);
      SetBitsShift(x);
    }
    assert SetBits(x) <= 16;
  }

  /** `popcount(x) & 1` is the XOR-reduction (parity) of x. */
  lemma {:induction false} PopCountParity(x: bv16)
    ensures PopCount(x) % 2 == if Parity(x) == 1 then 1 else 0
    decreases x
  {
    if x != 0 {
      PopCountParity(x >> 1);
    }
  }

  lemma {:induction false} AdvanceAdd(r: Reg, a: nat, b: nat)
    ensures Advance(r, a + b) == Advance(Advance(r, a), b)
    decreases a
  {
    if a > 0 {
      AdvanceAdd(Next(r), a - 1, b);
    }
  }

  lemma AdvanceSucc(r: Reg, n: nat)
    ensures Advance(r, n + 1) == Next(Advance(r, n))
  {
    AdvanceAdd(r, n, 1);
  }

  /** The clocks never change the tap mask. */
  lemma {:induction false} AdvanceKeepsTaps(r: Reg, n: nat)
    ensures Advance(r, n).taps == r.taps
    decreases n
  {
    if n > 0 {
      AdvanceKeepsTaps(Next(r), n - 1);
    }
  }

  /** Bit i of the partial byte is the i-th output bit, or 0 if not yet produced. */
  lemma {:induction false} KeyAccBits(r: Reg, n: nat, i: nat)
    requires n <= 8 && i < 8
    ensures (KeyAcc(r, n) >> i) & 1 == if i < n then OutBit(Advance(r, i)) else 0
  {
    if n > 0 {
      KeyAccBits(r, n - 1, i);
      OrShiftedBit(KeyAcc(r, n - 1), OutBit(Advance(r, n - 1)), n - 1, i);
    }
  }

  /** Bit i of `a | (o << k)` for a one-bit o. */
  lemma OrShiftedBit(a: bv8, o: bv8, k: nat, i: nat)
    requires o <= 1 && k < 8 && i < 8
    ensures ((a | (o << k)) >> i) & 1 == if i == k then ((a >> i) & 1) | o else (a >> i) & 1
  {
  }

  /** `lfsr_get_byte`: bit i of the keystream byte is the output of clock i. */
  lemma KeyByteBits(r: Reg, i: nat)
    requires i < 8
    ensures (KeyByte(r) >> i) & 1 == OutBit(Advance(r, i))
  {
    KeyAccBits(r, 8, i);
  }

  /** Keystream byte j is the byte assembled after 8*j clocks. */
  lemma {:induction false} KeystreamAt(r: Reg, n: nat, j: nat)
    requires j < n
    ensures Keystream(r, n)[j] == KeyByte(Advance(r, 8 * j))
    decreases j
  {
    if j > 0 {
      KeystreamAt(Advance(r, 8), n - 1, j - 1);
      AdvanceAdd(r, 8, 8 * (j - 1));
    }
  }

  /** Crypting twice with the same starting register restores the buffer. */
  lemma CryptInvolutive(r: Reg, data: seq<bv8>)
    ensures CryptBytes(r, CryptBytes(r, data)) == data
  {
    var ks := Keystream(r, |data|);
    var c := XorBytes(data, ks);
    assert |c| == |data|;
    forall i | 0 <= i < |data|
      ensures XorBytes(c, ks)[i] == data[i]
    {
      assert c[i] == data[i] ^ ks[i];
    }
  }

  /** Two registers from `Init(S, T)` undo each other's crypt; a zero seed
      behaves exactly like seed 1. */
  lemma InitRoundTrip(seed: bv16, taps: bv16, data: seq<bv8>)
    ensures CryptBytes(Init(seed, taps), CryptBytes(Init(seed, taps), data)) == data
    ensures seed == 0 ==> CryptBytes(Init(seed, taps), data) == CryptBytes(Init(1, taps), data)
  {
    CryptInvolutive(Init(seed, taps), data);
  }

  /** A zero state is a fixed point: it stays zero and outputs only zero bits. */
  lemma {:induction false} ZeroStateStays(r: Reg, n: nat)
    requires r.state == 0
    ensures Advance(r, n).state == 0 && OutBit(Advance(r, n)) == 0
    decreases n
  {
    if n > 0 {
      ZeroStateStays(Next(r), n - 1);
    }
  }

  /** From a zero state the partial keystream byte stays zero. */
  lemma {:induction false} ZeroStateKeyAcc(r: Reg, n: nat)
    requires r.state == 0 && n <= 8
    ensures KeyAcc(r, n) == 0
  {
    if n > 0 {
      ZeroStateKeyAcc(r, n - 1);
      ZeroStateStays(r, n - 1);
    }
  }

  /** From a zero state every keystream byte is zero, so crypt changes nothing. */
  lemma ZeroStateKeystream(r: Reg, data: seq<bv8>)
    requires r.state == 0
    ensures CryptBytes(r, data) == data
  {
    var ks := Keystream(r, |data|);
    forall j | 0 <= j < |data|
      ensures ks[j] == 0
    {
      KeystreamAt(r, |data|, j);
      ZeroStateStays(r, 8 * j);
      ZeroStateKeyAcc(Advance(r, 8 * j), 8);
    }
  }

  // ---------------------------------------------------------------------------
  // The source's loops
  // ---------------------------------------------------------------------------

  /** `popcount`: shift x right until it is zero, adding up the LSBs in a
      `uint8` counter, which cannot overflow. */
  method PopcountLoop(x: bv16) returns (count: bv8)
    ensures count as nat == PopCount(x) && count <= 16
  {
    count := 0;
    var y := x;
    PopCountIsSetBits(x);
    while y != 0
      invariant count as nat + PopCount(y) == PopCount(x)
      decreases y
    {
      CountStep(count, y, PopCount(x));
      count := count + (y & 1) as bv8;
      y := y >> 1;
    }
    SmallCount(count);
  }

  /** One iteration of `popcount`'s loop keeps `count + PopCount(x) == total`. */
  lemma CountStep(count: bv8, y: bv16, total: nat)
    requires y != 0 && count as nat + PopCount(y) == total <= 16
    ensures (count + (y & 1) as bv8) as nat + PopCount(y >> 1) == total
  {
    assert PopCount(y) == CountOf(y, 1) + PopCount(y >> 1);
  }

  lemma SmallCount(count: bv8)
    requires count as nat <= 16
    ensures count <= 16
  {
  }

  lemma LowBit(c: bv8, p: bv1)
    requires c as int % 2 == if p == 1 then 1 else 0
    ensures (c & 1) as bv16 == if p == 1 then 1 else 0
  {
  }

  /** The feedback expression `popcount(state & taps) & 1` of `lfsr_step`,
      applied to the tapped bits v: it is the XOR-reduction of v. */
  method TappedParity(v: bv16) returns (feedback: bv16)
    ensures feedback == if Parity(v) == 1 then 1 else 0
  {
    var count := PopcountLoop(v);
    feedback := (count & 1) as bv16;
    PopCountParity(v);
    LowBit(count, Parity(v));
  }

  /** The in-place register of `lfsr_step`, `lfsr_get_byte` and `lfsr_crypt`. */
  class Register {
    var state: bv16
    var taps: bv16

    function Value(): Reg
      reads this
    {
      Reg(state, taps)
    }

    /** `LFSR enc = lfsr_init(seed, taps)`. */
    constructor (seed: bv16, taps: bv16)
      ensures Value() == Init(seed, taps)
    {
      var r := Init(seed, taps);
      state := r.state;
      this.taps := r.taps;
    }

    /** `lfsr_step`: return the old LSB, shift right and inject the parity of
        the tapped bits at bit 15. */
    method Step() returns (out: bv8)
      modifies this
      ensures out == OutBit(old(Value())) && (out == 0 || out == 1)
      ensures Value() == Next(old(Value()))
    {
      var feedback := TappedParity(state & taps);
      assert feedback == Feedback(Value());
      out := (state & 1) as bv8;
      state := (state >> 1) | (feedback << 15);
    }

    /** `lfsr_get_byte`: eight clocks, output i placed at bit i. */
    method GetByte() returns (b: bv8)
      modifies this
      ensures b == KeyByte(old(Value()))
      ensures Value() == Advance(old(Value()), 8)
    {
      b := 0;
      for i := 0 to 8
        invariant Value() == Advance(old(Value()), i)
        invariant b == KeyAcc(old(Value()), i)
      {
        var bit := Step();
        AdvanceSucc(old(Value()), i);
        b := b | (bit << i);
      }
    }

    /** `lfsr_crypt`: XOR each byte with the next keystream byte, in place. */
    method Crypt(data: array<bv8>)
      modifies this, data
      ensures data[..] == CryptBytes(old(Value()), old(data[..]))
      ensures Value() == Advance(old(Value()), 8 * data.Length)
    {
      ghost var r0 := Value();
      ghost var plain := data[..];
      ghost var cipher := CryptBytes(r0, plain);
      for i := 0 to data.Length
        invariant Value() == Advance(r0, 8 * i)
        invariant forall j :: 0 <= j < i ==> data[j] == cipher[j]
        invariant forall j :: i <= j < data.Length ==> data[j] == plain[j]
      {
        var k := GetByte();
        CryptAt(r0, plain, i);
        AdvanceAdd(r0, 8 * i, 8);
        assert 8 * i + 8 == 8 * (i + 1);
        data[i] := data[i] ^ k;
      }
      assert data[..] == cipher;
    }
  }

  /** Byte `i` of the ciphertext is plaintext byte `i` XOR the keystream
      byte produced after `8 * i` clocks. */
  lemma CryptAt(r: Reg, data: seq<bv8>, i: nat)
    requires i < |data|
    ensures CryptBytes(r, data)[i] == data[i] ^ KeyByte(Advance(r, 8 * i))
  {
    KeystreamAt(r, |data|, i);
  }

  /** The demo's encrypt/decrypt sequence: two registers built by `lfsr_init`
      from the same seed and taps; the second crypt restores the plaintext. */
  method EncryptDecrypt(seed: bv16, taps: bv16, data: array<bv8>)
    modifies data
    ensures data[..] == old(data[..])
  {
    var enc := new Register(seed, taps);
    enc.Crypt(data);
    var dec := new Register(seed, taps);
    dec.Crypt(data);
    InitRoundTrip(seed, taps, old(data[..]));
  }
}
