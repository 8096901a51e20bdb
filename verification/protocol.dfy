/** The controller protocol engine of ssd1306-drv.c: the command sender,
    the bring-up sequence, the flush and the two power toggles.

    The bus is an oracle: `bus(i)` is what `i2c_smbus_write_byte_data`
    returns for the i-th command byte put on the wire during one operation.
    The observable output is the trace of command bytes put on the wire. */
module Protocol {
  import opened Errors
  import opened Commands
  import opened Framebuffer

  type Bus = nat -> bv32

  /** A handle whose I2C client is bound, so commands reach the wire. */
  predicate Attached(oled: Option<Oled>) {
    oled.Some? && oled.value.client
  }

  /** Every call at wire positions base .. base + n - 1 returns 0. */
  ghost predicate CallsSucceed(bus: Bus, base: nat, n: nat) {
    forall i :: base <= i < base + n ==> bus(i) == 0
  }

  /** `err = r0; err |= r1; ...` over n consecutive bus results. */
  function OrResults(bus: Bus, base: nat, n: nat): (err: bv32)
    decreases n
  {
    if n == 0 then 0 else bus(base) | OrResults(bus, base + 1, n - 1)
  }

  /** An ORed step result is zero exactly when every call in it returned 0. */
  lemma {:induction false} OrResultsZero(bus: Bus, base: nat, n: nat)
    ensures OrResults(bus, base, n) == 0 <==> CallsSucceed(bus, base, n)
    decreases n
  {
    if n > 0 {
      OrResultsZero(bus, base + 1, n - 1);
    }
  }

  /** `send_cmd`: no wire traffic and `-ENXIO` without a bus client. */
  function SendCmd(oled: Option<Oled>, bus: Bus, trace: seq<bv8>, cmd: bv8): (r: (seq<bv8>, bv32)) {
    if !Attached(oled) then (trace, ENXIO)
    else (trace + [cmd], bus(|trace|))
  }

  /** One step of several `send_cmd` calls joined by `err |=`: every byte
      is sent even after one of them failed. */
  function SendAll(oled: Option<Oled>, bus: Bus, trace: seq<bv8>, bytes: seq<bv8>): (r: (seq<bv8>, bv32))
    ensures Attached(oled) ==> r.0 == trace + bytes && r.1 == OrResults(bus, |trace|, |bytes|)
    ensures !Attached(oled) ==> r.0 == trace && r.1 == (if bytes == [] then 0 else ENXIO)
    decreases |bytes|
  {
    if bytes == [] then (trace, 0)
    else
      var (t, e) := SendCmd(oled, bus, trace, bytes[0]);
      var (t', e') := SendAll(oled, bus, t, bytes[1..]);
      (t', e | e')
  }

  /** The wire bytes of each command of a list. */
  function EncodeAll(cmds: seq<Command>): (steps: seq<seq<bv8>>)
    ensures |steps| == |cmds|
    ensures forall i :: 0 <= i < |cmds| ==> steps[i] == Encode(cmds[i])
  {
    seq(|cmds|, i requires 0 <= i < |cmds| => Encode(cmds[i]))
  }

  /** The bytes of a list of steps, in order. */
  function Concat(steps: seq<seq<bv8>>): (bytes: seq<bv8>) {
    if steps == [] then [] else steps[0] + Concat(steps[1..])
  }

  /** Runs the steps in order and stops at the first failing one, whose
      ORed bus result it returns. */
  function RunSteps(oled: Option<Oled>, bus: Bus, trace: seq<bv8>, steps: seq<seq<bv8>>): (r: (seq<bv8>, Status))
    ensures !Attached(oled) && steps != [] && steps[0] != [] ==> r.0 == trace && r.1 == Fail(Bus(ENXIO))
    ensures Attached(oled) && r.1 == Ok ==> r.0 == trace + Concat(steps)
    decreases |steps|
  {
    if steps == [] then (trace, Ok)
    else
      var step := SendAll(oled, bus, trace, steps[0]);
      if step.1 != 0 then (step.0, Fail(Bus(step.1)))
      else
        var r := RunSteps(oled, bus, step.0, steps[1..]);
        assert Attached(oled) && r.1 == Ok ==> r.0 == trace + Concat(steps) by {
          if Attached(oled) && r.1 == Ok {
            assert r.0 == (trace + steps[0]) + Concat(steps[1..]);
          }
        }
        r
  }

  /** When every call succeeds the run completes and emits every step. */
  lemma {:induction false} RunStepsSucceed(oled: Option<Oled>, bus: Bus, trace: seq<bv8>, steps: seq<seq<bv8>>)
    requires Attached(oled) && CallsSucceed(bus, |trace|, |Concat(steps)|)
    ensures RunSteps(oled, bus, trace, steps) == (trace + Concat(steps), Ok)
    decreases |steps|
  {
    if steps != [] {
      OrResultsZero(bus, |trace|, |steps[0]|);
      RunStepsSucceed(oled, bus, trace + steps[0], steps[1..]);
    }
  }

  /** The bytes of the first k + 1 steps are the head's followed by those of
      the first k steps of the rest. */
  lemma ConcatPrefixCons(steps: seq<seq<bv8>>, k: nat)
    requires k < |steps|
    ensures Concat(steps[..k + 1]) == steps[0] + Concat(steps[1..][..k])
  {
    assert steps[..k + 1][1..] == steps[1..][..k];
  }

  /** A run that fails at step k has emitted every byte of steps 0 .. k and
      nothing after, and reports the ORed result of step k. */
  lemma {:induction false} RunStepsAbort(oled: Option<Oled>, bus: Bus, trace: seq<bv8>, steps: seq<seq<bv8>>, k: nat)
    requires Attached(oled) && k < |steps|
    requires CallsSucceed(bus, |trace|, |Concat(steps[..k])|)
    requires !CallsSucceed(bus, |trace| + |Concat(steps[..k])|, |steps[k]|)
    ensures RunSteps(oled, bus, trace, steps) ==
      (trace + Concat(steps[..k + 1]),
       Fail(Bus(OrResults(bus, |trace| + |Concat(steps[..k])|, |steps[k]|))))
    decreases k
  {
    var head, tail := steps[0], steps[1..];
    ConcatPrefixCons(steps, k);
    OrResultsZero(bus, |trace|, |head|);
    if k == 0 {
      assert steps[..0] == [] && tail[..0] == [];
      assert Concat(steps[..1]) == head + [] == head;
      assert !CallsSucceed(bus, |trace|, |head|);
    } else {
      ConcatPrefixCons(steps, k - 1);
      assert CallsSucceed(bus, |trace|, |head|);
      RunStepsAbort(oled, bus, trace + head, tail, k - 1);
      assert trace + head + Concat(tail[..k]) == trace + (head + Concat(tail[..k]));
    }
  }

  /** The configuration steps of `ssd1306_init_hw` after the probe, up to and
      including the charge pump. */
  const CONFIG: seq<Command> := [
    DisplayPower(false),
    MultiplexRatio(0x3F),
    DisplayOffset(0x00),
    StartLineZero,
    SegmentRemap,
    ComScanIncrement,
    ComPins(0x02),
    Contrast(0xFF),
    FollowRam,
    ClockDivider(0x80),
    ChargePump(true)
  ]

  /** The full bring-up trace when every call succeeds. */
  const INIT_TRACE: seq<bv8> :=
    [0xE3, 0xAE, 0xA8, 0x3F, 0xD3, 0x00, 0x40, 0xA0, 0xC0,
     0xDA, 0x02, 0x81, 0xFF, 0xA4, 0xD5, 0x80, 0x8D, 0x14, 0xAF]

  /** The bytes of each configuration step. */
  const CONFIG_BYTES: seq<seq<bv8>> :=
    [[0xAE], [0xA8, 0x3F], [0xD3, 0x00], [0x40], [0xA0], [0xC0],
     [0xDA, 0x02], [0x81, 0xFF], [0xA4], [0xD5, 0x80], [0x8D, 0x14]]

  lemma EncodeConfig()
    ensures EncodeAll(CONFIG) == CONFIG_BYTES
  {
    var steps := EncodeAll(CONFIG);
    forall i | 0 <= i < |CONFIG|
      ensures steps[i] == CONFIG_BYTES[i]
    {
    }
  }

  lemma ConcatStep(steps: seq<seq<bv8>>, i: nat, tail: seq<bv8>)
    requires i < |steps| && Concat(steps[i + 1..]) == tail
    ensures Concat(steps[i..]) == steps[i] + tail
  {
    assert steps[i..][1..] == steps[i + 1..];
  }

  lemma ConcatConfigBytes()
    ensures Concat(CONFIG_BYTES) ==
      [0xAE, 0xA8, 0x3F, 0xD3, 0x00, 0x40, 0xA0, 0xC0, 0xDA, 0x02, 0x81, 0xFF, 0xA4, 0xD5, 0x80, 0x8D, 0x14]
  {
  }

  /** The NOP probe: one byte on the wire when a client is bound. */
  lemma Probe(oled: Option<Oled>, bus: Bus)
    ensures SendAll(oled, bus, [], Encode(Nop)) == if Attached(oled) then ([NOP], bus(0)) else ([], ENXIO)
  {
    assert Encode(Nop) == [NOP];
    assert OrResults(bus, 0, 1) == bus(0);
    var r := SendAll(oled, bus, [], [NOP]);
    if Attached(oled) {
      assert r.0 == [NOP];
      assert r.1 == OrResults(bus, 0, 1);
    }
  }

  /** `ssd1306_init_hw`: probe with a NOP (any failure there is reported
      as EIO), run the configuration steps, then send display-on and
      discard its result. */
  function InitHw(oled: Option<Oled>, bus: Bus): (r: (seq<bv8>, Status))
    ensures !Attached(oled) ==> r == ([], Fail(EIO))
    ensures Attached(oled) && bus(0) != 0 ==> r == ([NOP], Fail(EIO))
  {
    Probe(oled, bus);
    var probe := SendAll(oled, bus, [], Encode(Nop));
    if probe.1 != 0 then (probe.0, Fail(EIO))
    else
      var run := RunSteps(oled, bus, probe.0, EncodeAll(CONFIG));
      if run.1.Fail? then run
      else (SendAll(oled, bus, run.0, Encode(DisplayPower(true))).0, Ok)
  }

  /** The probe byte, the configuration bytes and display-on make up the
      bring-up trace. */
  lemma ConfigTrace()
    ensures [NOP] + Concat(EncodeAll(CONFIG)) + [SET_DISP_ON] == INIT_TRACE
    ensures |Concat(EncodeAll(CONFIG))| == 17
  {
    EncodeConfig();
    ConcatConfigBytes();
    WrapConfig(Concat(CONFIG_BYTES));
  }

  lemma WrapConfig(c: seq<bv8>)
    requires c == [0xAE, 0xA8, 0x3F, 0xD3, 0x00, 0x40, 0xA0, 0xC0, 0xDA, 0x02, 0x81, 0xFF, 0xA4, 0xD5, 0x80, 0x8D, 0x14]
    ensures [NOP] + c + [SET_DISP_ON] == INIT_TRACE
  {
  }

  /** Bring-up succeeds exactly when every call up to and including the
      charge pump succeeds; the trace is then the whole sequence. */
  lemma InitHwSucceeds(oled: Option<Oled>, bus: Bus)
    ensures InitHw(oled, bus).1 == Ok <==> Attached(oled) && CallsSucceed(bus, 0, 18)
    ensures InitHw(oled, bus).1 == Ok ==> InitHw(oled, bus).0 == INIT_TRACE
  {
    ConfigTrace();
    Probe(oled, bus);
    var cfg := EncodeAll(CONFIG);
    assert Encode(DisplayPower(true)) == [SET_DISP_ON];
    if Attached(oled) && CallsSucceed(bus, 0, 18) {
      RunStepsSucceed(oled, bus, [NOP], cfg);
    }
    if InitHw(oled, bus).1 == Ok {
      assert Attached(oled) && bus(0) == 0;
      RunStepsOk(oled, bus, [NOP], cfg);
    }
  }

  /** A completed run had every call succeed. */
  lemma {:induction false} RunStepsOk(oled: Option<Oled>, bus: Bus, trace: seq<bv8>, steps: seq<seq<bv8>>)
    requires Attached(oled) && RunSteps(oled, bus, trace, steps).1 == Ok
    ensures CallsSucceed(bus, |trace|, |Concat(steps)|)
    decreases |steps|
  {
    if steps != [] {
      OrResultsZero(bus, |trace|, |steps[0]|);
      RunStepsOk(oled, bus, trace + steps[0], steps[1..]);
    }
  }

  /** Two bus oracles give the same results at positions base .. base + n - 1. */
  ghost predicate Agree(bus: Bus, bus': Bus, base: nat, n: nat) {
    forall i :: base <= i < base + n ==> bus(i) == bus'(i)
  }

  lemma {:induction false} OrResultsAgree(bus: Bus, bus': Bus, base: nat, n: nat)
    requires Agree(bus, bus', base, n)
    ensures OrResults(bus, base, n) == OrResults(bus', base, n)
    decreases n
  {
    if n > 0 {
      OrResultsAgree(bus, bus', base + 1, n - 1);
    }
  }

  /** A run only looks at the results of the calls it makes. */
  lemma {:induction false} RunStepsAgree(oled: Option<Oled>, bus: Bus, bus': Bus, trace: seq<bv8>, steps: seq<seq<bv8>>)
    requires Agree(bus, bus', |trace|, |Concat(steps)|)
    ensures RunSteps(oled, bus, trace, steps) == RunSteps(oled, bus', trace, steps)
    decreases |steps|
  {
    if steps != [] {
      OrResultsAgree(bus, bus', |trace|, |steps[0]|);
      var t := SendAll(oled, bus, trace, steps[0]).0;
      RunStepsAgree(oled, bus, bus', t, steps[1..]);
    }
  }

  /** The result of the final display-on command is discarded: two buses
      that agree on every earlier call give the same bring-up, whatever
      they answer to display-on. */
  lemma InitHwIgnoresDisplayOn(oled: Option<Oled>, bus: Bus, bus': Bus)
    requires Agree(bus, bus', 0, 18)
    ensures InitHw(oled, bus) == InitHw(oled, bus')
  {
    ConfigTrace();
    Probe(oled, bus);
    Probe(oled, bus');
    if Attached(oled) {
      RunStepsAgree(oled, bus, bus', [NOP], EncodeAll(CONFIG));
    }
  }

  /** Bring-up that fails at configuration step k (0 = display off, ...,
      10 = charge pump) stops right after the bytes of that step and
      returns that step's ORed bus result. */
  lemma InitHwAbort(oled: Option<Oled>, bus: Bus, k: nat)
    requires Attached(oled) && k < |CONFIG|
    requires CallsSucceed(bus, 0, 1 + |Concat(EncodeAll(CONFIG)[..k])|)
    requires !CallsSucceed(bus, 1 + |Concat(EncodeAll(CONFIG)[..k])|, |Encode(CONFIG[k])|)
    ensures InitHw(oled, bus) ==
      ([NOP] + Concat(EncodeAll(CONFIG)[..k + 1]),
       Fail(Bus(OrResults(bus, 1 + |Concat(EncodeAll(CONFIG)[..k])|, |Encode(CONFIG[k])|))))
  {
    var cfg := EncodeAll(CONFIG);
    var n := |Concat(cfg[..k])|;
    Probe(oled, bus);
    assert bus(0) == 0;
    assert cfg[k] == Encode(CONFIG[k]);
    assert CallsSucceed(bus, |[NOP]|, n);
    RunStepsAbort(oled, bus, [NOP], cfg, k);
    var run := RunSteps(oled, bus, [NOP], cfg);
    assert run.1.Fail?;
    assert InitHw(oled, bus) == run;
  }

  /** The bytes of the first one and two configuration steps. */
  lemma ConfigPrefix()
    ensures Concat(EncodeAll(CONFIG)[..1]) == [0xAE]
    ensures Concat(EncodeAll(CONFIG)[..2]) == [0xAE, 0xA8, 0x3F]
  {
    EncodeConfig();
    var steps := EncodeAll(CONFIG);
    assert steps[..1] == [[0xAE]];
    assert Concat(steps[..1]) == [0xAE] by {
      ConcatStep(steps[..1], 0, []);
      assert steps[..1][0..] == steps[..1];
    }
    assert steps[..2] == [[0xAE], [0xA8, 0x3F]];
    assert Concat(steps[..2]) == [0xAE, 0xA8, 0x3F] by {
      ConcatStep(steps[..2], 1, []);
      ConcatStep(steps[..2], 0, [0xA8, 0x3F]);
      assert steps[..2][0..] == steps[..2];
    }
  }

  /** A failing multiplex-ratio step (the second after the probe) ends the
      bring-up with its two bytes on the wire and nothing after. */
  lemma InitHwMultiplexFails(oled: Option<Oled>, bus: Bus)
    requires Attached(oled) && bus(0) == 0 && bus(1) == 0 && (bus(2) != 0 || bus(3) != 0)
    ensures InitHw(oled, bus) == ([0xE3, 0xAE, 0xA8, 0x3F], Fail(Bus(bus(2) | bus(3))))
  {
    ConfigPrefix();
    assert Encode(CONFIG[1]) == [0xA8, 0x3F];
    assert OrResults(bus, 2, 2) == bus(2) | bus(3);
    assert CallsSucceed(bus, 0, 2);
    assert !CallsSucceed(bus, 2, 2);
    InitHwAbort(oled, bus, 1);
    assert [NOP] + Concat(EncodeAll(CONFIG)[..2]) == [0xE3, 0xAE, 0xA8, 0x3F];
  }

  /** What one `ssd1306_display` call did: the command bytes put on the
      wire, the frame handed to `i2c_master_send` (if it got that far), the
      handle afterwards and the status returned. */
  datatype Flush = Flush(trace: seq<bv8>, sent: Option<Frame>, oled: Option<Oled>, status: Status)

  /** Horizontal addressing over the whole panel: columns 0 .. 127 and
      pages 0 .. 7. */
  const WINDOW: seq<Command> := [AddressingMode(0x00), ColumnWindow(0x00, 0x7F), PageWindow(0x00, 0x07)]

  const WINDOW_TRACE: seq<bv8> := [0x20, 0x00, 0x21, 0x00, 0x7F, 0x22, 0x00, 0x07]

  /** `ssd1306_display`: set the addressing window in three checked steps,
      repair the header byte, then hand the whole buffer to the bus. `xfer`
      is what `i2c_master_send` returns; a short but non-negative count is
      not an error. */
  function Display(oled: Option<Oled>, bus: Bus, xfer: bv32): (r: Flush)
    ensures oled.None? ==> r == Flush([], None, oled, Fail(EPERM))
    ensures r.sent.None? ==> r.oled == oled && r.status.Fail?
    ensures r.sent.Some? ==>
      && Attached(oled)
      && r.sent.value == RepairHeader(oled.value.fb)
      && r.oled == Some(Oled(true, r.sent.value))
      && (r.status == Ok <==> !IsNegative(xfer))
      && (r.status.Fail? ==> r.status.error == Bus(xfer))
  {
    if oled.None? then Flush([], None, oled, Fail(EPERM))
    else
      var run := RunSteps(oled, bus, [], EncodeAll(WINDOW));
      if run.1.Fail? then Flush(run.0, None, oled, run.1)
      else
        var fb := RepairHeader(oled.value.fb);
        Flush(run.0, Some(fb), Some(oled.value.(fb := fb)),
              if IsNegative(xfer) then Fail(Bus(xfer)) else Ok)
  }

  lemma WindowBytes()
    ensures Concat(EncodeAll(WINDOW)) == WINDOW_TRACE
  {
    var steps := EncodeAll(WINDOW);
    assert steps == [[0x20, 0x00], [0x21, 0x00, 0x7F], [0x22, 0x00, 0x07]];
    ConcatStep(steps, 2, []);
    ConcatStep(steps, 1, [0x22, 0x00, 0x07]);
    ConcatStep(steps, 0, [0x21, 0x00, 0x7F, 0x22, 0x00, 0x07]);
    assert steps[0..] == steps;
  }

  /** The frame goes out exactly when the handle is bound and all eight
      window calls succeed; the wire then carries the whole window set-up,
      and the panel gets every pixel of the buffer. */
  lemma DisplaySends(oled: Option<Oled>, bus: Bus, xfer: bv32)
    ensures Display(oled, bus, xfer).sent.Some? <==> Attached(oled) && CallsSucceed(bus, 0, 8)
    ensures Display(oled, bus, xfer).sent.Some? ==>
      && Display(oled, bus, xfer).trace == WINDOW_TRACE
      && forall x, y :: OnScreen(x, y) ==>
           (PixelOn(Display(oled, bus, xfer).sent.value, x, y) <==> PixelOn(oled.value.fb, x, y))
  {
    WindowBytes();
    var steps := EncodeAll(WINDOW);
    if Attached(oled) && CallsSucceed(bus, 0, 8) {
      RunStepsSucceed(oled, bus, [], steps);
      var fb := oled.value.fb;
      forall x, y | OnScreen(x, y)
        ensures PixelOn(RepairHeader(fb), x, y) <==> PixelOn(fb, x, y)
      {
        assert RepairHeader(fb)[Address(x, y)] == fb[Address(x, y)];
      }
    }
    if Display(oled, bus, xfer).sent.Some? {
      RunStepsOk(oled, bus, [], steps);
    }
  }

  /** A flush whose window step k is the first to fail stops right after
      that step's bytes, transfers nothing, leaves the handle as it was and
      returns the step's ORed bus result. */
  lemma DisplayAbort(oled: Oled, bus: Bus, xfer: bv32, k: nat)
    requires oled.client && k < |WINDOW|
    requires CallsSucceed(bus, 0, |Concat(EncodeAll(WINDOW)[..k])|)
    requires !CallsSucceed(bus, |Concat(EncodeAll(WINDOW)[..k])|, |Encode(WINDOW[k])|)
    ensures Display(Some(oled), bus, xfer) ==
      Flush(Concat(EncodeAll(WINDOW)[..k + 1]), None, Some(oled),
            Fail(Bus(OrResults(bus, |Concat(EncodeAll(WINDOW)[..k])|, |Encode(WINDOW[k])|))))
  {
    RunStepsAbort(Some(oled), bus, [], EncodeAll(WINDOW), k);
  }

  /** The bytes of the first window step, and of the first two. */
  lemma WindowPrefix()
    ensures Concat(EncodeAll(WINDOW)[..1]) == [0x20, 0x00]
    ensures Concat(EncodeAll(WINDOW)[..2]) == [0x20, 0x00, 0x21, 0x00, 0x7F]
  {
    var steps := EncodeAll(WINDOW);
    assert steps[..1] == [[0x20, 0x00]];
    assert Concat(steps[..1]) == [0x20, 0x00] by {
      ConcatStep(steps[..1], 0, []);
      assert steps[..1][0..] == steps[..1];
    }
    assert steps[..2] == [[0x20, 0x00], [0x21, 0x00, 0x7F]];
    assert Concat(steps[..2]) == [0x20, 0x00, 0x21, 0x00, 0x7F] by {
      ConcatStep(steps[..2], 1, []);
      ConcatStep(steps[..2], 0, [0x21, 0x00, 0x7F]);
      assert steps[..2][0..] == steps[..2];
    }
  }

  /** A failing column-window step leaves 20 00 21 00 7F on the wire and
      returns the OR of its three results. */
  lemma DisplayColumnWindowFails(oled: Oled, bus: Bus, xfer: bv32)
    requires oled.client && bus(0) == 0 && bus(1) == 0 && (bus(2) != 0 || bus(3) != 0 || bus(4) != 0)
    ensures Display(Some(oled), bus, xfer) ==
      Flush([0x20, 0x00, 0x21, 0x00, 0x7F], None, Some(oled), Fail(Bus(bus(2) | bus(3) | bus(4))))
  {
    WindowPrefix();
    assert Encode(WINDOW[1]) == [0x21, 0x00, 0x7F];
    assert OrResults(bus, 2, 3) == bus(2) | bus(3) | bus(4);
    assert CallsSucceed(bus, 0, 2);
    assert !CallsSucceed(bus, 2, 3);
    DisplayAbort(oled, bus, xfer, 1);
  }

  /** A non-null handle without a bus client fails at the first step with
      `-ENXIO` and touches nothing. */
  lemma DisplayUnbound(oled: Oled, bus: Bus, xfer: bv32)
    requires !oled.client
    ensures Display(Some(oled), bus, xfer) == Flush([], None, Some(oled), Fail(Bus(ENXIO)))
  {
    assert EncodeAll(WINDOW)[0] == [0x20, 0x00];
  }

  /** Flushing twice sends the same frame: the header repair of the first
      flush leaves nothing for the second to change. */
  lemma DisplayTwice(oled: Option<Oled>, bus: Bus, xfer: bv32, bus': Bus, xfer': bv32)
    requires Display(oled, bus, xfer).sent.Some?
    ensures var first := Display(oled, bus, xfer);
      var second := Display(first.oled, bus', xfer');
      second.oled == first.oled && (second.sent.Some? ==> second.sent == first.sent)
  {
  }

  /** `ssd1306_enable_charge_pump`: the register byte followed by the on or
      off value, both sent and their results ORed. */
  function EnableChargePump(oled: Option<Oled>, bus: Bus, enable: bool): (r: (seq<bv8>, Status))
    ensures oled.None? ==> r == ([], Fail(EPERM))
    ensures oled.Some? && !Attached(oled) ==> r == ([], Fail(Bus(ENXIO)))
    ensures Attached(oled) ==>
      && r.0 == [ENABLE_CHARGE_PUMP_REG, if enable then ENABLE_CHARGE_PUMP else DISABLE_CHARGE_PUMP]
      && (r.1 == Ok <==> bus(0) == 0 && bus(1) == 0)
      && (r.1.Fail? ==> r.1.error == Bus(bus(0) | bus(1)))
  {
    if oled.None? then ([], Fail(EPERM))
    else
      var step := SendAll(oled, bus, [], [ENABLE_CHARGE_PUMP_REG, if enable then ENABLE_CHARGE_PUMP else DISABLE_CHARGE_PUMP]);
      (step.0, StatusOf(step.1))
  }

  /** `ssd1306_enable_display`: a single display on or off command. */
  function EnableDisplay(oled: Option<Oled>, bus: Bus, enable: bool): (r: (seq<bv8>, Status))
    ensures oled.None? ==> r == ([], Fail(EPERM))
    ensures oled.Some? && !Attached(oled) ==> r == ([], Fail(Bus(ENXIO)))
    ensures Attached(oled) ==>
      && r.0 == [if enable then SET_DISP_ON else SET_DISP_OFF]
      && (r.1 == Ok <==> bus(0) == 0)
      && (r.1.Fail? ==> r.1.error == Bus(bus(0)))
  {
    if oled.None? then ([], Fail(EPERM))
    else
      var step := SendAll(oled, bus, [], [if enable then SET_DISP_ON else SET_DISP_OFF]);
      (step.0, StatusOf(step.1))
  }

  /** The bytes either toggle puts on the wire decode back to the command
      it was asked for. */
  lemma TogglesDecode(oled: Option<Oled>, bus: Bus, enable: bool)
    requires Attached(oled)
    ensures Decode(EnableChargePump(oled, bus, enable).0) == Some(ChargePump(enable))
    ensures Decode(EnableDisplay(oled, bus, enable).0) == Some(DisplayPower(enable))
  {
    DecodeEncode(ChargePump(enable));
    DecodeEncode(DisplayPower(enable));
  }
}
