/**
 The frequency-register image of the AD9833 driver (`get_FREQX_register`).

 A 28-bit tuning word is split into a low and a high 14-bit half. Each half
 travels as two bytes, high byte first, and the top two bits of each high byte
 carry the register-select marker: 01 for FREQ0, 10 for FREQ1. The driver
 emits the LOW half first (bytes 0-1) and the HIGH half second (bytes 2-3).

 The tuning word is the driver's `unsigned long`, 32 bits wide on its target,
 so it is a `bv32` here; each byte of the image is a `uint8_t`, a `bv8`.
 In each high byte, mask 0xC0 selects the marker bits and 0x3F the six
 payload bits; a half ranges below 0x4000 (2^14) and a word below
 0x1000_0000 (2^28). These appear as literals so that the solver can
 reason about them bit by bit.
 */
module FreqRegister {

  /** The four bytes `FREQ28[0..3]`. */
  datatype Payload = Payload(b0: bv8, b1: bv8, b2: bv8, b3: bv8)

  /**
   Storing a 32-bit value into a `uint8_t` keeps its low eight bits: the
   `unsigned long` halves stored into `FREQ28`, and the `int` result of
   `set_waveform`'s OR stored back into `CTRL[1]`.
   */
  function Narrow(x: bv32): bv8
  {
    (x & 0xFF) as bv8
  }

  /** The register-select marker chosen from `FREQX` (FREQX_0 = 0 or FREQX_1 = 1). */
  function Marker(freqx: bv8): (m: bv8)
    ensures m & 0x3F == 0
    ensures m & 0xC0 == m && m != 0
    ensures m == 0x40 <==> freqx == 0
    ensures m == 0x80 <==> freqx != 0
  {
    if freqx == 0 then 0x40 else 0x80
  }

  /** The 14-bit payload of a half's two bytes, marker bits stripped. */
  function HalfValue(hi: bv8, lo: bv8): (v: bv32)
    ensures v < 0x4000
  {
    (hi & 0x3F) as bv32 * 0x100 + lo as bv32
  }

  /**
   The receiving side of the packing: strip both markers and recombine the
   halves, low half from bytes 0-1 and high half from bytes 2-3.
   */
  function Decode(p: Payload): (w: bv32)
    ensures w < 0x1000_0000
  {
    HalfValue(p.b0, p.b1) + 0x4000 * HalfValue(p.b2, p.b3)
  }

  /** Both high bytes carry exactly the marker of `freqx` in their top two bits. */
  predicate Tagged(p: Payload, freqx: bv8)
  {
    p.b0 & 0xC0 == Marker(freqx) && p.b2 & 0xC0 == Marker(freqx)
  }

  /**
   `get_FREQX_register` after the tuning word has been computed: the word is
   split into `word % 2^14` and `word / 2^14`, each high byte is OR-ed with the
   marker, and each byte is narrowed to `uint8_t` when stored. A word of 2^28
   or more keeps only its low 28 bits as payload, and its bits 28-29 spill
   into the marker bits of byte 2 (see `TaggedExactly`).
   */
  function Pack(word: bv32, freqx: bv8): (p: Payload)
    ensures Decode(p) == word % 0x1000_0000
    ensures word < 0x1000_0000 ==> Tagged(p, freqx)
  {
    var lsbs14 := word % 0x4000;
    var msbs14 := word / 0x4000;
    Payload(Narrow(lsbs14 / 0x100) | Marker(freqx), Narrow(lsbs14 % 0x100),
            Narrow(msbs14 / 0x100) | Marker(freqx), Narrow(msbs14 % 0x100))
  }

  /** Round trip: a word that fits the register decodes back to itself. */
  lemma PackDecode(word: bv32, freqx: bv8)
    requires word < 0x1000_0000
    ensures Decode(Pack(word, freqx)) == word
  {
    assert word % 0x1000_0000 == word;
  }

  /**
   The other round trip: a payload whose high bytes carry the marker of
   `freqx` is exactly the packing of the word it decodes to.
   */
  lemma DecodePack(p: Payload, freqx: bv8)
    requires Tagged(p, freqx)
    ensures Pack(Decode(p), freqx) == p
  {
  }

  /**
   For a word that fits the register, each high byte is the half's upper
   bits plus the marker: those upper bits are below 0x40, so the OR in the
   driver adds the marker. The low bytes are the halves' low eight bits.
   */
  lemma PackMarkerAdds(word: bv32, freqx: bv8)
    requires word < 0x1000_0000
    ensures Pack(word, freqx).b0 as bv32 == (word % 0x4000) / 0x100 + Marker(freqx) as bv32
    ensures Pack(word, freqx).b2 as bv32 == (word / 0x4000) / 0x100 + Marker(freqx) as bv32
    ensures Pack(word, freqx).b1 as bv32 == word % 0x100
    ensures Pack(word, freqx).b3 as bv32 == (word / 0x4000) % 0x100
  {
  }

  /** Two words that fit the register and pack alike are the same word. */
  lemma PackInjective(w1: bv32, w2: bv32, freqx: bv8)
    requires w1 < 0x1000_0000 && w2 < 0x1000_0000
    requires Pack(w1, freqx) == Pack(w2, freqx)
    ensures w1 == w2
  {
  }

  /**
   Words equal modulo 2^28 carry the same payload bits: only the marker bits
   of byte 2 can tell them apart.
   */
  lemma PackKeepsLow28Bits(w1: bv32, w2: bv32, freqx: bv8)
    requires w1 % 0x1000_0000 == w2 % 0x1000_0000
    ensures Pack(w1, freqx).b0 == Pack(w2, freqx).b0 && Pack(w1, freqx).b1 == Pack(w2, freqx).b1
    ensures Pack(w1, freqx).b3 == Pack(w2, freqx).b3
    ensures Pack(w1, freqx).b2 & 0x3F == Pack(w2, freqx).b2 & 0x3F
  {
  }

  /**
   A word at or above 2^28 has its bits 28-29 OR-ed over the marker bits of
   byte 2. With bit 29 set, byte 2 carries both marker bits even though FREQ0
   is selected.
   */
  lemma OverflowSpillsIntoMarker(word: bv32)
    requires word & 0x2000_0000 != 0
    ensures Pack(word, 0).b2 & 0xC0 == 0xC0
    ensures !Tagged(Pack(word, 0), 0)
  {
  }

  /**
   Exactly which words keep the marker. Bit 28 lands on FREQ0's marker bit
   and bit 29 on FREQ1's, so a word stays tagged exactly when the bit that
   lands on the other register's marker bit is clear. Bits 30-31 fall off
   when the byte is narrowed.
   */
  lemma TaggedExactly(word: bv32, freqx: bv8)
    ensures Tagged(Pack(word, freqx), freqx)
        <==> word & (if freqx == 0 then 0x2000_0000 else 0x1000_0000) == 0
  {
  }

  /** The two register slots receive the same payload bits and differ only in the marker. */
  lemma SlotsDifferOnlyInMarker(word: bv32)
    ensures Pack(word, 0).b1 == Pack(word, 1).b1
    ensures Pack(word, 0).b3 == Pack(word, 1).b3
    ensures Pack(word, 0).b0 & 0x3F == Pack(word, 1).b0 & 0x3F
    ensures Pack(word, 0).b2 & 0x3F == Pack(word, 1).b2 & 0x3F
  {
  }
}
