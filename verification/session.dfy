/**
 A sequence of calls on one AD9833 object and the frames it sends.

 Every public operation sends exactly one 6-byte frame, so a session is the
 final register image plus the list of frames in call order. The final image
 depends only on the last call of each kind: the last output switch decides
 RESET, the last waveform decides the waveform bits, the last frequency
 decides the frequency image, and nothing changes B28 or the register select.
 */
module Session {
  import opened FreqRegister
  import opened AD9833

  /** The public operations, with their arguments. */
  datatype Call =
    | OutputOnCall
    | OutputOffCall
    | SetFrequencyCall(word: bv32)
    | SetWaveformCall(waveform: bv32)

  datatype Option<T> = None | Some(value: T)

  /** The image after a session, and the frames sent, first call first. */
  datatype Trace = Trace(dev: Device, frames: seq<seq<bv8>>)

  /** One public operation on the image. */
  function Apply(d: Device, c: Call): (s: Step)
    ensures s.frame == Frame(s.dev) && s.dev.freqx == d.freqx
  {
    match c
    case OutputOnCall => OutputOn(d)
    case OutputOffCall => OutputOff(d)
    case SetFrequencyCall(word) => SetFrequency(d, word)
    case SetWaveformCall(waveform) => SetWaveform(d, waveform)
  }

  /**
   The calls applied in order: one frame per call, every frame six bytes,
   and the last frame is the final image.
   */
  function Run(d: Device, calls: seq<Call>): (t: Trace)
    ensures |t.frames| == |calls|
    ensures forall k :: 0 <= k < |t.frames| ==> |t.frames[k]| == 6
    ensures |calls| > 0 ==> t.frames[|calls| - 1] == Frame(t.dev)
    ensures |calls| == 0 ==> t.dev == d
    ensures t.dev.freqx == d.freqx
    decreases |calls|
  {
    if calls == [] then Trace(d, [])
    else
      var s := Apply(d, calls[0]);
      var rest := Run(s.dev, calls[1..]);
      Trace(rest.dev, [s.frame] + rest.frames)
  }

  /** Running two call sequences back to back is running their concatenation. */
  lemma {:induction false} RunAppend(d: Device, a: seq<Call>, b: seq<Call>)
    ensures Run(d, a + b).dev == Run(Run(d, a).dev, b).dev
    ensures Run(d, a + b).frames == Run(d, a).frames + Run(Run(d, a).dev, b).frames
    decreases |a|
  {
    if a == [] {
      assert a + b == b;
    } else {
      var s := Apply(d, a[0]);
      assert (a + b)[0] == a[0];
      assert (a + b)[1..] == a[1..] + b;
      RunAppend(s.dev, a[1..], b);
      assert [s.frame] + (Run(s.dev, a[1..]).frames + Run(Run(s.dev, a[1..]).dev, b).frames)
          == ([s.frame] + Run(s.dev, a[1..]).frames) + Run(Run(s.dev, a[1..]).dev, b).frames;
    }
  }

  /** One more call adds its step's image and frame to the trace. */
  lemma RunSnoc(d: Device, calls: seq<Call>, c: Call)
    ensures Run(d, calls + [c]).dev == Apply(Run(d, calls).dev, c).dev
    ensures Run(d, calls + [c]).frames == Run(d, calls).frames + [Apply(Run(d, calls).dev, c).frame]
  {
    RunAppend(d, calls, [c]);
    var s := Apply(Run(d, calls).dev, c);
    assert [c][1..] == [];
    assert Run(Run(d, calls).dev, [c]) == Trace(s.dev, [s.frame]);
  }

  /** Frame `k` is the image just after call `k`. */
  lemma {:induction false} RunFrames(d: Device, calls: seq<Call>, k: nat)
    requires k < |calls|
    ensures Run(d, calls).frames[k] == Frame(Run(d, calls[..k + 1]).dev)
  {
    var pre := calls[..k + 1];
    RunAppend(d, pre, calls[k + 1..]);
    assert pre + calls[k + 1..] == calls;
  }

  /** No single call changes a control bit of `CTRL[0]` other than RESET. */
  lemma ApplyKeepsControl0(d: Device, c: Call)
    ensures OtherControl0(Apply(d, c).dev.ctrl0) == OtherControl0(d.ctrl0)
  {
    match c
    case OutputOnCall =>
    case OutputOffCall =>
    case SetFrequencyCall(word) =>
    case SetWaveformCall(waveform) =>
  }

  /** No call changes any control bit of `CTRL[0]` but RESET. */
  lemma {:induction false} RunKeepsControl0(d: Device, calls: seq<Call>)
    ensures OtherControl0(Run(d, calls).dev.ctrl0) == OtherControl0(d.ctrl0)
    decreases |calls|
  {
    if calls != [] {
      var init := calls[..|calls| - 1];
      assert calls == init + [calls[|calls| - 1]];
      RunKeepsControl0(d, init);
      RunSnoc(d, init, calls[|calls| - 1]);
      ApplyKeepsControl0(Run(d, init).dev, calls[|calls| - 1]);
    }
  }

  /** The last `output_on` or `output_off`, as "output enabled", if any. */
  function LastSwitch(calls: seq<Call>): Option<bool>
  {
    if calls == [] then None
    else match calls[|calls| - 1]
      case OutputOnCall => Some(true)
      case OutputOffCall => Some(false)
      case _ => LastSwitch(calls[..|calls| - 1])
  }

  /**
   The output is enabled after a session exactly when the last switch was
   `output_on`, or, with no switch at all, when it was enabled before.
   */
  lemma {:induction false} RunOutputState(d: Device, calls: seq<Call>)
    ensures OutputEnabled(Run(d, calls).dev)
        <==> match LastSwitch(calls) { case None => OutputEnabled(d) case Some(on) => on }
    decreases |calls|
  {
    if calls != [] {
      var init := calls[..|calls| - 1];
      assert calls == init + [calls[|calls| - 1]];
      RunOutputState(d, init);
      RunSnoc(d, init, calls[|calls| - 1]);
    }
  }

  /** The code of the last `set_waveform`, if any. */
  function LastWaveform(calls: seq<Call>): Option<bv32>
  {
    if calls == [] then None
    else match calls[|calls| - 1]
      case SetWaveformCall(w) => Some(w)
      case _ => LastWaveform(calls[..|calls| - 1])
  }

  /** Every `set_waveform` code stays within OPBITEN, DIV2 and MODE (true of the three constants). */
  predicate CodesInWaveformBits(calls: seq<Call>)
  {
    forall i :: 0 <= i < |calls| && calls[i].SetWaveformCall? ==> KeptBits(Narrow(calls[i].waveform)) == 0
  }

  /** `CTRL[1]` once the waveform bits of `c1` have been replaced by `last`, if any. */
  function WithWaveform(c1: bv8, last: Option<bv32>): bv8
  {
    match last
    case None => c1
    case Some(w) => (c1 & 0xD5) | Narrow(w)
  }

  /**
   `CTRL[1]` after a session: untouched without `set_waveform`, otherwise the
   byte before with its waveform bits replaced by the last code.
   */
  lemma {:induction false} RunWaveform(d: Device, calls: seq<Call>)
    requires CodesInWaveformBits(calls)
    ensures Run(d, calls).dev.ctrl1 == WithWaveform(d.ctrl1, LastWaveform(calls))
    decreases |calls|
  {
    if calls != [] {
      var init := calls[..|calls| - 1];
      var c := calls[|calls| - 1];
      assert calls == init + [c];
      CodesInWaveformBitsPrefix(calls, |calls| - 1);
      RunWaveform(d, init);
      RunSnoc(d, init, c);
      ApplyControl1(Run(d, init).dev, c);
      if LastWaveform(init).Some? {
        LastWaveformInBits(init);
      }
      WaveformStep(d.ctrl1, LastWaveform(init), c);
    }
  }

  /** One call moves `CTRL[1]` from the image of the earlier last code to that of the new one. */
  lemma WaveformStep(c1: bv8, last: Option<bv32>, c: Call)
    requires last.Some? ==> KeptBits(Narrow(last.value)) == 0
    ensures (if c.SetWaveformCall? then (WithWaveform(c1, last) & 0xD5) | Narrow(c.waveform)
             else WithWaveform(c1, last))
         == WithWaveform(c1, if c.SetWaveformCall? then Some(c.waveform) else last)
  {
    if c.SetWaveformCall? && last.Some? {
      MaskOrTwice(c1, Narrow(last.value), Narrow(c.waveform));
    }
  }

  /** Only `set_waveform` writes `CTRL[1]`. */
  lemma ApplyControl1(d: Device, c: Call)
    ensures Apply(d, c).dev.ctrl1
         == if c.SetWaveformCall? then (d.ctrl1 & 0xD5) | Narrow(c.waveform) else d.ctrl1
  {
  }

  lemma CodesInWaveformBitsPrefix(calls: seq<Call>, n: nat)
    requires CodesInWaveformBits(calls) && n <= |calls|
    ensures CodesInWaveformBits(calls[..n])
  {
    forall i | 0 <= i < n && calls[..n][i].SetWaveformCall?
      ensures KeptBits(Narrow(calls[..n][i].waveform)) == 0
    {
      assert calls[..n][i] == calls[i];
    }
  }

  /** The last waveform code, like every code, stays within the waveform bits. */
  lemma LastWaveformInBits(calls: seq<Call>)
    requires CodesInWaveformBits(calls) && LastWaveform(calls).Some?
    ensures KeptBits(Narrow(LastWaveform(calls).value)) == 0
  {
    LastWaveformIsCalled(calls);
  }

  /** The last waveform code is the code of one of the calls. */
  lemma {:induction false} LastWaveformIsCalled(calls: seq<Call>)
    requires LastWaveform(calls).Some?
    ensures exists i :: 0 <= i < |calls| && calls[i] == SetWaveformCall(LastWaveform(calls).value)
    decreases |calls|
  {
    var init := calls[..|calls| - 1];
    var c := calls[|calls| - 1];
    if c.SetWaveformCall? {
      assert calls[|calls| - 1] == SetWaveformCall(LastWaveform(calls).value);
    } else {
      LastWaveformIsCalled(init);
      var i :| 0 <= i < |init| && init[i] == SetWaveformCall(LastWaveform(init).value);
      assert calls[i] == init[i];
    }
  }

  /** The word of the last `set_frequency`, if any. */
  function LastFrequency(calls: seq<Call>): Option<bv32>
  {
    if calls == [] then None
    else match calls[|calls| - 1]
      case SetFrequencyCall(w) => Some(w)
      case _ => LastFrequency(calls[..|calls| - 1])
  }

  /**
   `FREQ28` after a session: untouched without `set_frequency`, otherwise the
   packing of the last word, whatever the image held before.
   */
  lemma {:induction false} RunFrequency(d: Device, calls: seq<Call>)
    ensures Run(d, calls).dev.freq28
         == match LastFrequency(calls) { case None => d.freq28 case Some(w) => Pack(w, d.freqx) }
    decreases |calls|
  {
    if calls != [] {
      var init := calls[..|calls| - 1];
      assert calls == init + [calls[|calls| - 1]];
      RunFrequency(d, init);
      RunSnoc(d, init, calls[|calls| - 1]);
    }
  }

  /** Every `set_frequency` word fits the 28-bit register. */
  predicate WordsFit(calls: seq<Call>)
  {
    forall i :: 0 <= i < |calls| && calls[i].SetFrequencyCall? ==> calls[i].word < 0x1000_0000
  }

  /** The last frequency word is the word of one of the calls. */
  lemma {:induction false} LastFrequencyIsCalled(calls: seq<Call>)
    requires LastFrequency(calls).Some?
    ensures exists i :: 0 <= i < |calls| && calls[i] == SetFrequencyCall(LastFrequency(calls).value)
    decreases |calls|
  {
    var init := calls[..|calls| - 1];
    var c := calls[|calls| - 1];
    if c.SetFrequencyCall? {
      assert calls[|calls| - 1] == SetFrequencyCall(LastFrequency(calls).value);
    } else {
      LastFrequencyIsCalled(init);
      var i :| 0 <= i < |init| && init[i] == SetFrequencyCall(LastFrequency(init).value);
      assert calls[i] == init[i];
    }
  }

  /**
   With words that fit, the frequency image carries the register-select
   marker after a session exactly when it did before or some
   `set_frequency` happened, and it then decodes to the last word.
   */
  lemma RunTagged(d: Device, calls: seq<Call>)
    requires WordsFit(calls)
    ensures Tagged(Run(d, calls).dev.freq28, d.freqx)
        <==> Tagged(d.freq28, d.freqx) || LastFrequency(calls).Some?
    ensures LastFrequency(calls).Some? ==> Decode(Run(d, calls).dev.freq28) == LastFrequency(calls).value
  {
    var f := Run(d, calls).dev.freq28;
    RunFrequency(d, calls);
    match LastFrequency(calls)
    case None =>
      assert f == d.freq28;
    case Some(w) =>
      LastFrequencyFits(calls);
      PackDecode(w, d.freqx);
  }

  /** The last frequency word, like every word, fits the register. */
  lemma LastFrequencyFits(calls: seq<Call>)
    requires WordsFit(calls) && LastFrequency(calls).Some?
    ensures LastFrequency(calls).value < 0x1000_0000
  {
    LastFrequencyIsCalled(calls);
  }

  /** No call in the sequence is a `set_frequency`. */
  predicate NoSetFrequency(calls: seq<Call>)
  {
    forall i :: 0 <= i < |calls| ==> !calls[i].SetFrequencyCall?
  }

  /** Without a `set_frequency` there is no last frequency word. */
  lemma {:induction false} NoLastFrequency(calls: seq<Call>)
    requires NoSetFrequency(calls)
    ensures LastFrequency(calls).None?
    decreases |calls|
  {
    if calls != [] {
      var init := calls[..|calls| - 1];
      assert NoSetFrequency(init) by {
        forall i | 0 <= i < |init|
          ensures !init[i].SetFrequencyCall?
        {
          assert init[i] == calls[i];
        }
      }
      NoLastFrequency(init);
    }
  }

  /**
   From construction, every frame sent before the first `set_frequency`
   carries the all-zero frequency image, so neither half has a
   register-select marker.
   */
  lemma UnmarkedUntilSetFrequency(calls: seq<Call>, k: nat)
    requires k < |calls| && NoSetFrequency(calls[..k + 1])
    ensures Run(Init(), calls).frames[k][2..] == [0, 0, 0, 0]
    ensures Run(Init(), calls).frames[k][2] & 0xC0 == 0 && Run(Init(), calls).frames[k][4] & 0xC0 == 0
  {
    var pre := calls[..k + 1];
    RunFrames(Init(), calls, k);
    NoLastFrequency(pre);
    RunFrequency(Init(), pre);
    assert Run(Init(), pre).dev.freq28 == Payload(0, 0, 0, 0);
  }

  /** Every waveform code is one of the three constants. */
  predicate WaveformsValid(calls: seq<Call>)
  {
    forall i :: 0 <= i < |calls| && calls[i].SetWaveformCall? ==> IsWaveform(calls[i].waveform)
  }

  /**
   From construction, with the three waveform constants only: B28 stays set,
   the rest of `CTRL[0]` but RESET stays clear, and `CTRL[1]` is always one
   of the three codes (the sine code until the first `set_waveform`).
   */
  lemma InitImage(calls: seq<Call>)
    requires WaveformsValid(calls)
    ensures B28Set(Run(Init(), calls).dev.ctrl0)
    ensures Run(Init(), calls).dev.ctrl0 == 0x20 || Run(Init(), calls).dev.ctrl0 == 0x21
    ensures IsWaveform(Run(Init(), calls).dev.ctrl1 as bv32)
  {
    RunKeepsControl0(Init(), calls);
    assert CodesInWaveformBits(calls) by {
      forall i | 0 <= i < |calls| && calls[i].SetWaveformCall?
        ensures KeptBits(Narrow(calls[i].waveform)) == 0
      {
        WaveformCodes(calls[i].waveform);
      }
    }
    RunWaveform(Init(), calls);
    match LastWaveform(calls)
    case None =>
    case Some(w) =>
      LastWaveformIsCalled(calls);
      WaveformCodes(w);
  }

  /**
   The same holds of every frame sent from construction: byte 0 is 0x20 or
   0x21 and byte 1 is one of the three waveform codes.
   */
  lemma InitFrames(calls: seq<Call>, k: nat)
    requires WaveformsValid(calls) && k < |calls|
    ensures Run(Init(), calls).frames[k][0] == 0x20 || Run(Init(), calls).frames[k][0] == 0x21
    ensures IsWaveform(Run(Init(), calls).frames[k][1] as bv32)
  {
    var pre := calls[..k + 1];
    assert WaveformsValid(pre) by {
      forall i | 0 <= i < |pre| && pre[i].SetWaveformCall?
        ensures IsWaveform(pre[i].waveform)
      {
        assert pre[i] == calls[i];
      }
    }
    RunFrames(Init(), calls, k);
    InitImage(pre);
  }
}
