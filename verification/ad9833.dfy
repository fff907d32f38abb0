/**
 The AD9833 driver object: two control-register bytes, four frequency-register
 bytes and the register-select field, and the public operations that update
 them and send one 6-byte frame `[CTRL0, CTRL1, FREQ0, FREQ1, FREQ2, FREQ3]`.

 `CTRL[0]` holds control bits D15..D8: 0, 0, B28, HLB, FSELECT, PSELECT, 0, RESET.
 `CTRL[1]` holds control bits D7..D0: SLEEP1, SLEEP12, OPBITEN, 0, DIV2, 0, MODE, 0.
 */
module AD9833 {
  import opened FreqRegister

  /**
   The waveform codes accepted by `set_waveform`: WAVEFORM_SINUSOIDAL 0x00,
   WAVEFORM_TRIANGLE 0x02 and WAVEFORM_SQUARE 0x28. The argument is a 32-bit
   `int` that only ever meets bitwise operations, so it is modelled by its
   two's-complement bit pattern. Masks are written as literals throughout,
   which lets the solver evaluate them bit by bit.
   */
  predicate IsWaveform(waveform: bv32)
  {
    waveform == 0x00 || waveform == 0x02 || waveform == 0x28
  }

  /** `CTRL[0]` without RESET (bit 0): B28, HLB, FSELECT, PSELECT and the zero bits. */
  function OtherControl0(c: bv8): bv8
  {
    c & 0xFE
  }

  /** B28 (bit 5 of `CTRL[0]`): the frequency register is loaded as 28 bits in two writes. */
  predicate B28Set(c: bv8)
  {
    c & 0x20 == 0x20
  }

  /** OPBITEN, DIV2 and MODE (bits 5, 3 and 1 of `CTRL[1]`): the bits `set_waveform` rewrites. */
  function WaveformField(c: bv8): bv8
  {
    c & 0x2A
  }

  /** The bits of `CTRL[1]` that survive the mask 0b11010101 of `set_waveform`. */
  function KeptBits(c: bv8): bv8
  {
    c & 0xD5
  }

  /** The driver's register image. `freqx` is set at construction and never reassigned. */
  datatype Device = Device(ctrl0: bv8, ctrl1: bv8, freq28: Payload, freqx: bv8)

  /** A device state after an operation, with the frame that operation sent. */
  datatype Step = Step(dev: Device, frame: seq<bv8>)

  /** RESET clear: the chip's output runs. */
  predicate OutputEnabled(d: Device)
  {
    d.ctrl0 & 0x01 == 0
  }

  /** The 6-byte image `send_data` writes, in wire order. */
  function Frame(d: Device): (f: seq<bv8>)
    ensures |f| == 6
    ensures f[0] == d.ctrl0 && f[1] == d.ctrl1
    ensures f[2] == d.freq28.b0 && f[3] == d.freq28.b1
    ensures f[4] == d.freq28.b2 && f[5] == d.freq28.b3
  {
    [d.ctrl0, d.ctrl1, d.freq28.b0, d.freq28.b1, d.freq28.b2, d.freq28.b3]
  }

  /**
   A frame shows the whole image but the register select: two images that
   send the same frame differ at most in `freqx`.
   */
  lemma FrameDeterminesImage(d1: Device, d2: Device)
    requires Frame(d1) == Frame(d2) && d1.freqx == d2.freqx
    ensures d1 == d2
  {
    assert Frame(d1)[2] == Frame(d2)[2] && Frame(d1)[3] == Frame(d2)[3];
    assert Frame(d1)[4] == Frame(d2)[4] && Frame(d1)[5] == Frame(d2)[5];
  }

  /** The tuning word a receiver reads from a frame's four frequency bytes. */
  function FrameWord(f: seq<bv8>): (w: bv32)
    requires |f| == 6
    ensures w < 0x1000_0000
  {
    Decode(Payload(f[2], f[3], f[4], f[5]))
  }

  /** Send the current image: the state is unchanged, the frame is its snapshot. */
  function Send(d: Device): Step
  {
    Step(d, Frame(d))
  }

  /**
   The object after construction: B28 set, everything else in the control
   register clear, a zero frequency image and FREQ0 selected.
   */
  function Init(): (d: Device)
    ensures B28Set(d.ctrl0) && OutputEnabled(d)
    ensures d.ctrl0 & 0xDE == 0 && d.ctrl1 == 0
    ensures Decode(d.freq28) == 0 && d.freqx == 0
  {
    Device(0x20, 0x00, Payload(0, 0, 0, 0), 0)
  }

  /** `output_on`: clear RESET, then send. */
  function OutputOn(d: Device): (s: Step)
    ensures OutputEnabled(s.dev)
    ensures OtherControl0(s.dev.ctrl0) == OtherControl0(d.ctrl0)
    ensures s.dev.ctrl1 == d.ctrl1 && s.dev.freq28 == d.freq28 && s.dev.freqx == d.freqx
    ensures s.frame == Frame(s.dev)
  {
    Send(d.(ctrl0 := (d.ctrl0 & 0xFE) | 0x00))
  }

  /** `output_off`: set RESET, then send. */
  function OutputOff(d: Device): (s: Step)
    ensures !OutputEnabled(s.dev)
    ensures OtherControl0(s.dev.ctrl0) == OtherControl0(d.ctrl0)
    ensures s.dev.ctrl1 == d.ctrl1 && s.dev.freq28 == d.freq28 && s.dev.freqx == d.freqx
    ensures s.frame == Frame(s.dev)
  {
    Send(d.(ctrl0 := (d.ctrl0 & 0xFE) | 0x01))
  }

  /**
   `set_frequency` from the tuning word on: repack `FREQ28` for the selected
   register, then send. The control bytes are untouched.
   */
  function SetFrequency(d: Device, word: bv32): (s: Step)
    ensures Decode(s.dev.freq28) == word % 0x1000_0000
    ensures word < 0x1000_0000 ==> Tagged(s.dev.freq28, d.freqx)
    ensures s.dev.ctrl0 == d.ctrl0 && s.dev.ctrl1 == d.ctrl1 && s.dev.freqx == d.freqx
    ensures s.frame == Frame(s.dev)
  {
    Send(d.(freq28 := Pack(word, d.freqx)))
  }

  /**
   `set_waveform`: clear OPBITEN, DIV2 and MODE, OR in the code, then send.
   The code is not validated: every bit of its low byte ends up set, and the
   bits it does not name are kept outside the waveform bits and cleared inside.
   */
  function SetWaveform(d: Device, waveform: bv32): (s: Step)
    ensures s.dev.ctrl1 & Narrow(waveform) == Narrow(waveform)
    ensures KeptBits(s.dev.ctrl1 & !Narrow(waveform)) == KeptBits(d.ctrl1 & !Narrow(waveform))
    ensures WaveformField(s.dev.ctrl1 & !Narrow(waveform)) == 0
    ensures s.dev.ctrl0 == d.ctrl0 && s.dev.freq28 == d.freq28 && s.dev.freqx == d.freqx
    ensures s.frame == Frame(s.dev)
  {
    Send(d.(ctrl1 := (d.ctrl1 & 0xD5) | Narrow(waveform)))
  }

  /** The low byte of a valid waveform code is the code itself, inside the waveform bits. */
  lemma WaveformCodes(waveform: bv32)
    requires IsWaveform(waveform)
    ensures Narrow(waveform) as bv32 == waveform
    ensures KeptBits(Narrow(waveform)) == 0
  {
  }

  /**
   With one of the three waveform codes, `CTRL[1]`'s waveform bits hold
   exactly that code and the other five bits are kept.
   */
  lemma SetWaveformSelects(d: Device, waveform: bv32)
    requires IsWaveform(waveform)
    ensures WaveformField(SetWaveform(d, waveform).dev.ctrl1) == Narrow(waveform)
    ensures WaveformField(SetWaveform(d, waveform).dev.ctrl1) as bv32 == waveform
    ensures KeptBits(SetWaveform(d, waveform).dev.ctrl1) == KeptBits(d.ctrl1)
  {
  }

  /** Enabling the output twice is the same as once. */
  lemma OutputOnIdempotent(d: Device)
    ensures OutputOn(OutputOn(d).dev) == OutputOn(d)
  {
  }

  /** Disabling the output twice is the same as once. */
  lemma OutputOffIdempotent(d: Device)
    ensures OutputOff(OutputOff(d).dev) == OutputOff(d)
  {
  }

  /** Off, then on, restores a device whose output was enabled. */
  lemma OffThenOnRestores(d: Device)
    requires OutputEnabled(d)
    ensures OutputOn(OutputOff(d).dev).dev == d
  {
  }

  /** On, then off, restores a device whose output was disabled. */
  lemma OnThenOffRestores(d: Device)
    requires !OutputEnabled(d)
    ensures OutputOff(OutputOn(d).dev).dev == d
  {
  }

  /**
   Enable, disable, enable: every control bit except RESET is as it was, and
   the output ends enabled.
   */
  lemma OnOffOnKeepsControl(d: Device)
    ensures var e := OutputOn(OutputOff(OutputOn(d).dev).dev).dev;
            OtherControl0(e.ctrl0) == OtherControl0(d.ctrl0) && e.ctrl1 == d.ctrl1 && OutputEnabled(e)
  {
  }

  /** Selecting the same waveform twice is the same as once. */
  lemma SetWaveformIdempotent(d: Device, waveform: bv32)
    ensures SetWaveform(SetWaveform(d, waveform).dev, waveform) == SetWaveform(d, waveform)
  {
  }

  /**
   The last waveform wins, provided the earlier code stayed inside the
   waveform bits (true of the three constants): otherwise the reserved bits
   it set are kept by the later call's mask.
   */
  lemma SetWaveformLastWins(d: Device, first: bv32, second: bv32)
    requires KeptBits(Narrow(first)) == 0
    ensures SetWaveform(SetWaveform(d, first).dev, second) == SetWaveform(d, second)
  {
  }

  /** Masking and OR-ing twice is OR-ing the second code once, when the first stays in the waveform bits. */
  lemma MaskOrTwice(c: bv8, w1: bv8, w2: bv8)
    requires w1 == w2 || KeptBits(w1) == 0
    ensures (((c & 0xD5) | w1) & 0xD5) | w2 == (c & 0xD5) | w2
  {
  }

  /**
   An earlier code with a reserved bit sticks: a later `set_waveform` masks
   only the waveform bits, so every bit outside them that the first code set
   (SLEEP1 0x80, say) is still sent after the second.
   */
  lemma ReservedBitsStick(d: Device, first: bv32, second: bv32)
    ensures SetWaveform(SetWaveform(d, first).dev, second).dev.ctrl1 & KeptBits(Narrow(first))
         == KeptBits(Narrow(first))
  {
  }

  /** The SLEEP1 instance: a code with bit 0x80 set leaves SLEEP1 set through any later code. */
  lemma Sleep1Sticks(d: Device, first: bv32, second: bv32)
    requires Narrow(first) & 0x80 == 0x80
    ensures SetWaveform(SetWaveform(d, first).dev, second).dev.ctrl1 & 0x80 == 0x80
  {
    ReservedBitsStick(d, first, second);
  }

  /**
   The frequency image after `set_frequency` depends only on the word and the
   register select, not on the image before; and the frame carries the word.
   */
  lemma SetFrequencyOverwrites(d1: Device, d2: Device, word: bv32)
    requires d1.freqx == d2.freqx
    ensures SetFrequency(d1, word).dev.freq28 == SetFrequency(d2, word).dev.freq28
    ensures FrameWord(SetFrequency(d1, word).frame) == word % 0x1000_0000
  {
    var s := SetFrequency(d1, word);
    assert Payload(s.frame[2], s.frame[3], s.frame[4], s.frame[5]) == s.dev.freq28;
  }

  /** Setting the same word twice is the same as once. */
  lemma SetFrequencyIdempotent(d: Device, word: bv32)
    ensures SetFrequency(SetFrequency(d, word).dev, word) == SetFrequency(d, word)
  {
  }

  /** Frequency and waveform live in different registers, so their order does not matter. */
  lemma FrequencyWaveformCommute(d: Device, word: bv32, waveform: bv32)
    ensures SetWaveform(SetFrequency(d, word).dev, waveform).dev
         == SetFrequency(SetWaveform(d, waveform).dev, word).dev
  {
  }

  /** The output switch and the frequency image are independent as well. */
  lemma OutputFrequencyCommute(d: Device, word: bv32)
    ensures OutputOn(SetFrequency(d, word).dev).dev == SetFrequency(OutputOn(d).dev, word).dev
    ensures OutputOff(SetFrequency(d, word).dev).dev == SetFrequency(OutputOff(d).dev, word).dev
  {
  }

  /**
   Before the first frequency is set the image is all zero, so a frame sent
   then carries no register-select marker in either half.
   */
  lemma InitialFrameUnmarked()
    ensures OutputOn(Init()).frame[2] & 0xC0 == 0
    ensures OutputOn(Init()).frame[4] & 0xC0 == 0
    ensures !Tagged(Init().freq28, Init().freqx)
  {
  }
}
