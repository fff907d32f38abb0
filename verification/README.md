# AD9833 register image, modelled in Dafny

This project models the register arithmetic of the `AD9833` Arduino driver,
a single C++ header. The driver keeps an image of the chip's control
register, `CTRL[2]`, and of one 28-bit frequency register, `FREQ28[4]`. Each
public call (`output_on`, `output_off`, `set_frequency`, `set_waveform`)
updates that image with a fixed mask and OR, then sends one 6-byte frame
`[CTRL[0], CTRL[1], FREQ28[0], FREQ28[1], FREQ28[2], FREQ28[3]]` over SPI.
`set_frequency` fills `FREQ28` from a tuning word. The word is split into a
low and a high 14-bit half, and each half's high byte is tagged with a
register-select marker: 0x40 for FREQ0, 0x80 for FREQ1.

Three modules follow the header's structure:

- `freq_register.dfy`, module `FreqRegister`: `get_FREQX_register`. This is
  the packer `Pack`, its inverse `Decode` (strip the markers, recombine the
  halves), and the round-trip, marker and injectivity lemmas.
- `ad9833.dfy`, module `AD9833`: the driver object. It holds the image as an
  immutable `Device` datatype, models each public call as a pure function
  returning the new image and the frame it sends, and proves the
  bit-preservation, idempotence and commutation lemmas.
- `session.dfy`, module `Session`: a sequence of calls and the trace of
  frames it sends. It proves by induction that the final image depends only
  on the last call of each kind, that B28 is never cleared, and what every
  frame sent from construction looks like.

Bytes are `bv8` (`uint8_t`). The tuning word is `bv32`, the driver's 32-bit
`unsigned long`, so a word of 2^28 or more is handled exactly as the code
handles it. `set_waveform` takes an `int` that only meets `&` and `|`, so the
model takes its 32-bit two's-complement pattern (`bv32`). The `uint8_t` store
keeps only its low byte (`Narrow`).

Three details of the code shape the model:

- The code sends the low 14-bit half first (`FREQ28[0..1]`), then the high
  half (`FREQ28[2..3]`). The frame keeps that order.
- `set_waveform` masks the old `CTRL[1]` with 0b11010101, but it ORs the new
  code in unmasked. A code outside OPBITEN/DIV2/MODE therefore sets reserved
  bits, and no later `set_waveform` clears them (`AD9833.ReservedBitsStick`).
- `get_FREQX_register` ORs the marker into the high bytes without masking
  the word. Bits 28-29 of a word at or above 2^28 land on the marker bits of
  byte 2, and bits 30-31 are dropped when the byte is stored. With FREQ0 the
  marker survives exactly when bit 29 is clear, and with FREQ1 exactly when
  bit 28 is clear (`FreqRegister.TaggedExactly`).

The frequency image starts at all zeros (`AD9833.h:90`). So from
construction, every frame sent before the first `set_frequency` has zero
frequency bytes and no register-select marker
(`Session.UnmarkedUntilSetFrequency`).

## Model

| member | source | states |
|---|---|---|
| FreqRegister.Marker | AD9833.h:97-102 | The marker is 0x40 exactly when FREQX is 0, and 0x80 otherwise. It sits in the top two bits and leaves the six payload bits clear. |
| FreqRegister.Pack | AD9833.h:104-110 | Decoding the packed image gives the tuning word modulo 2^28. For a word below 2^28, both high bytes carry exactly the marker of the selected register. |
| FreqRegister.PackDecode | AD9833.h:104-110 | Round trip: a word below 2^28 decodes back to itself. The low half comes from bytes 0-1 and the high half from bytes 2-3. |
| FreqRegister.DecodePack | AD9833.h:104-110 | Inverse round trip: an image whose two high bytes carry the marker equals the packing of the word it decodes to. |
| FreqRegister.PackMarkerAdds | AD9833.h:107-110 | For a word below 2^28, each high byte equals its half's upper bits plus the marker, so the OR adds. Each low byte is its half's low eight bits. |
| FreqRegister.PackInjective | AD9833.h:104-110 | Two words below 2^28 that produce the same image are equal. |
| FreqRegister.PackKeepsLow28Bits | AD9833.h:104-110 | Words equal modulo 2^28 produce the same bytes, except for the marker bits of byte 2. |
| FreqRegister.OverflowSpillsIntoMarker | AD9833.h:105-109 | Every word with bit 29 set spills into byte 2's marker bits. With FREQ0 selected, byte 2 then carries both marker bits and the image is untagged. |
| FreqRegister.TaggedExactly | AD9833.h:97-110 | The packed image carries the selected register's marker exactly when the word's bit 29 is clear (FREQ0) or its bit 28 is clear (FREQ1). |
| FreqRegister.SlotsDifferOnlyInMarker | AD9833.h:97-110 | FREQ0 and FREQ1 packings of the same word differ only in the marker bits. |
| AD9833.Frame | AD9833.h:46 | A frame has six bytes: the two control bytes, then `FREQ28[0..3]` in order. |
| AD9833.FrameDeterminesImage | AD9833.h:46 | Two images with the same register select that send the same frame are equal. |
| AD9833.Init | AD9833.h:28-33 | After construction B28 is set, RESET is clear (output enabled), every other control bit is clear, the frequency image decodes to 0, and FREQ0 is selected. |
| AD9833.OutputOn | AD9833.h:43-48 | RESET is clear afterwards. Every other bit of `CTRL[0]`, all of `CTRL[1]`, `FREQ28` and the register select are unchanged. The frame is the updated image. |
| AD9833.OutputOff | AD9833.h:50-55 | RESET is set afterwards. Every other bit of `CTRL[0]`, all of `CTRL[1]`, `FREQ28` and the register select are unchanged. The frame is the updated image. |
| AD9833.SetFrequency | AD9833.h:57-64 | The new image decodes to the word modulo 2^28. For a word below 2^28 it is tagged with the selected register's marker. Both control bytes are unchanged, and the frame is the updated image. |
| AD9833.SetWaveform | AD9833.h:66-72 | Every bit of the code's low byte is set afterwards. Of the other bits of `CTRL[1]`, those outside OPBITEN/DIV2/MODE keep their value and those inside are cleared. `CTRL[0]` and `FREQ28` are unchanged, and the frame is the updated image. |
| AD9833.WaveformCodes | AD9833.h:20-22 | Each of the three waveform constants fits in a byte and lies inside OPBITEN/DIV2/MODE. |
| AD9833.SetWaveformSelects | AD9833.h:68 | With one of the three constants, the waveform bits of `CTRL[1]` equal that constant and the other five bits are kept. |
| AD9833.OutputOnIdempotent | AD9833.h:45 | Calling `output_on` twice gives the same image and frame as calling it once. |
| AD9833.OutputOffIdempotent | AD9833.h:52 | Calling `output_off` twice gives the same image and frame as calling it once. |
| AD9833.OffThenOnRestores | AD9833.h:43-55 | Off then on restores an image whose output was enabled. |
| AD9833.OnThenOffRestores | AD9833.h:43-55 | On then off restores an image whose output was disabled. |
| AD9833.OnOffOnKeepsControl | AD9833.h:43-55 | After on, off, on, every control bit except RESET is as before and the output is enabled. |
| AD9833.SetWaveformIdempotent | AD9833.h:68 | Calling `set_waveform` twice with the same code gives the same image and frame as calling it once. |
| AD9833.SetWaveformLastWins | AD9833.h:68 | If the earlier code stays inside the waveform bits, two waveform calls equal the second call alone. |
| AD9833.ReservedBitsStick | AD9833.h:68 | Every bit outside OPBITEN/DIV2/MODE that a `set_waveform` code sets is still set after any later `set_waveform`. |
| AD9833.Sleep1Sticks | AD9833.h:68 | A code with SLEEP1 (0x80) set leaves SLEEP1 set through any later `set_waveform`. |
| AD9833.SetFrequencyOverwrites | AD9833.h:57-64 | The new `FREQ28` depends only on the word and the register select, not on the earlier image. The frame's frequency bytes decode to the word modulo 2^28. |
| AD9833.SetFrequencyIdempotent | AD9833.h:57-64 | Setting the same word twice gives the same image and frame as setting it once. |
| AD9833.FrequencyWaveformCommute | AD9833.h:57-72 | `set_frequency` and `set_waveform` commute on the image. |
| AD9833.OutputFrequencyCommute | AD9833.h:43-64 | `set_frequency` commutes with `output_on` and with `output_off` on the image. |
| AD9833.InitialFrameUnmarked | AD9833.h:89-90 | The frequency image at construction is untagged, and the frame `output_on` sends right after construction has no marker in either high byte. |
| Session.Run | AD9833.h:43-79 | A session sends exactly one six-byte frame per call, and its last frame is the final image. The register select never changes. |
| Session.RunFrames | AD9833.h:43-79 | Frame k is the image just after call k. |
| Session.UnmarkedUntilSetFrequency | AD9833.h:43-90 | From construction, every frame sent before the first `set_frequency` has frequency bytes 0, 0, 0, 0, so neither high byte carries a marker. |
| Session.RunKeepsControl0 | AD9833.h:45-52 | No sequence of calls changes any bit of `CTRL[0]` other than RESET. |
| Session.RunOutputState | AD9833.h:43-55 | The output is enabled after a session exactly when the last switch was `output_on`. With no switch, it is enabled exactly when it was before. |
| Session.RunWaveform | AD9833.h:66-72 | If every code stays inside the waveform bits, `CTRL[1]` is unchanged without `set_waveform`. Otherwise it is the old byte with the waveform bits replaced by the last code. |
| Session.RunFrequency | AD9833.h:57-64 | `FREQ28` is unchanged without `set_frequency`. Otherwise it is the packing of the last word, whatever it held before. |
| Session.RunTagged | AD9833.h:97-110 | With words below 2^28, the image carries the marker after a session exactly when it did before or some `set_frequency` happened. It then decodes to the last word. |
| Session.InitImage | AD9833.h:28-72 | From construction, using only the three waveform constants: B28 stays set, `CTRL[0]` is 0x20 or 0x21, and `CTRL[1]` is one of the three codes. |
| Session.InitFrames | AD9833.h:28-79 | From construction, using only the three constants: every frame's byte 0 is 0x20 or 0x21, and its byte 1 is one of the three waveform codes. |

## Left out

- The tuning-word computation `(unsigned long)(0x10000000 * f_target / F_MSCK)` (AD9833.h:103, F_MSCK at AD9833.h:83) is double arithmetic, and its conversion is undefined for negative or out-of-range values. `SetFrequency` takes the computed 32-bit word instead.
- `begin`, `send_data`, `pinMode`, `digitalWrite`, `SPIClass` and `writeBytes` (AD9833.h:35-41, 74-79) are hardware I/O through a platform library that is not part of this model. Transmission is modelled only as returning the 6-byte frame. The chip-select toggling is not modelled.
- The unused member `waveform` (AD9833.h:88) and the pin number `_ss` (AD9833.h:86) carry no register logic.
- `FREQX` (AD9833.h:87) is never reassigned, so it is a field set to 0 at construction and no call changes it. The packer lemmas hold for either value.
- AD9833.SetWaveform: for codes outside the waveform bits the contract states the per-bit mask/OR outcome, not a "last call wins" law. `SetWaveformLastWins` and `Session.RunWaveform` require every earlier code to stay inside OPBITEN/DIV2/MODE, because reserved bits set by such a code stick.
- Session.RunTagged: requires every word below 2^28. A larger word keeps the marker only when the bit that lands on the other register's marker bit is clear (`FreqRegister.TaggedExactly`), and it decodes to the word modulo 2^28 rather than the word.
