/** The LOCAL/SERIAL mode arbiter: `SetMode`, `writeCommand`, `On`, `Off`,
    `OnHV1/2` and `OffHV1/2`. Each command is a function from the arbiter's
    fields (`last_serial_change`, `ForceStep`, `ForceProtect`) and an
    environment (the clock, the device properties, the mode the hardware
    reports) to the new fields and the ordered list of frames written or
    polled next. The second half proves the serial cooldown over any run of
    commands. */
module Arbitration {
  import opened Outcomes
  import opened Strings
  import opened Commands

  /** `ForceStep` / `ForceProtect`: a property string, or the `False` the
      commands store once they have done what it asked. */
  datatype Flag = Text(s: string) | Cleared

  /** `str(flag.lower()) in ('true', 'yes')`; on `False` the call to `lower`
      raises and the surrounding `try` turns that into "no". */
  predicate Forced(f: Flag)
  {
    f.Text? && (Lower(f.s) == "true" || Lower(f.s) == "yes")
  }

  datatype Arbiter = Arbiter(last: real, forceStep: Flag, forceProtect: Flag)

  /** What a command sees of the outside: `time.time()` (one instant for the
      whole command), the ForceLocal and DefaultStatus properties, and the
      result of `getModeLocal()` (a mode name, or the exception it raises). */
  datatype Env = Env(now: real, forceLocal: string, defaultStatus: string, mode: Result<string>)

  /** `writeCommand` adds a frame for sending; `setPolledNext` moves a read
      frame to the front of the polling list (both go by table name);
      `SendCommand` exchanges raw frames synchronously. */
  datatype Event = Write(name: string) | PollNext(name: string) | Exchanged(frames: seq<string>)

  /** The fields after a command, what it emitted, and the exception it
      ended with, if any. */
  datatype Run = Run(arb: Arbiter, events: seq<Event>, failure: Option<Error>)

  const SerialWait: real := 60.0

  /** `local = time.time() >= last_serial_change + 60 and ForceLocal`:
      ForceLocal counts by its truthiness, so any non-empty text will do. */
  predicate RestoreLocal(a: Arbiter, env: Env)
  {
    env.now >= a.last + SerialWait && env.forceLocal != ""
  }

  /** The run `r` followed by `s`, which started in `r`'s final fields. */
  function Append(r: Run, s: Run): Run
  {
    Run(s.arb, r.events + s.events, s.failure)
  }

  /** Frames already sent, then an appended run's: the same log as sending
      the two runs' frames one after the other. */
  lemma AppendLog(log: seq<Event>, r: Run, s: Run)
    ensures log + Append(r, s).events == log + r.events + s.events
  {
  }

  /** `SetMode('serial')`: inside the cooldown nothing happens; otherwise
      'Serial On' is written, the clock is recorded and ModeLocal is polled
      next; the confirmation reads of the mode raise if the read fails. */
  function SerialOn(a: Arbiter, env: Env): Run
  {
    if env.now >= a.last + SerialWait then
      Run(a.(last := env.now), [Write("Serial On"), PollNext("ModeLocal")],
        if env.mode.Err? then Some(env.mode.error) else None)
    else Run(a, [], None)
  }

  /** `SetMode('local')`: always writes 'Serial Off' and resets the clock. */
  function SerialOff(a: Arbiter): Run
  {
    Run(a.(last := 0.0), [Write("Serial Off")], None)
  }

  predicate IsModeArgument(m: string)
  {
    m == "fixed" || m == "step" || m == "start" || m == "protect"
  }

  /** The pair of frames a mode argument writes, channel 1 first. */
  function ModeWrites(m: string): seq<Event>
    requires IsModeArgument(m)
  {
    if m == "fixed" then [Write("HV1setFixed"), Write("HV2setFixed")]
    else if m == "step" then [Write("HV1setStep"), Write("HV2setStep")]
    else if m == "start" then [Write("HV1setStart"), Write("HV2setStart")]
    else [Write("HV1setProtect"), Write("HV2setProtect")]
  }

  /** `SetMode` with fixed/step/start/protect: decide on restoring local mode
      at entry, go serial, write both channels, clear the flag that asked for
      fixed or protect mode, then go local if so decided. */
  function ModeCommand(a: Arbiter, env: Env, m: string): Run
    requires IsModeArgument(m)
  {
    var local := RestoreLocal(a, env);
    var r1 := SerialOn(a, env);
    if r1.failure.Some? then r1
    else
      var a2 := if m == "fixed" then r1.arb.(forceStep := Cleared)
                else if m == "protect" then r1.arb.(forceProtect := Cleared)
                else r1.arb;
      var r2 := Run(a2, r1.events + ModeWrites(m), None);
      if local then Append(r2, SerialOff(a2)) else r2
  }

  /** `SetMode(argin)`, matched case-insensitively; anything else does nothing. */
  function SetMode(a: Arbiter, env: Env, argin: string): Run
  {
    var m := Lower(argin);
    if m == "serial" then SerialOn(a, env)
    else if m == "local" then SerialOff(a)
    else if IsModeArgument(m) then ModeCommand(a, env, m)
    else Run(a, [], None)
  }

  /** `writeCommand(name, frame, mode)`: without `mode` just the write; with
      it, read the hardware mode, go serial unless it says SERIAL, write, and
      go local when the entry decision says so. */
  function WriteCommand(a: Arbiter, env: Env, name: string, mode: bool): Run
  {
    if !mode then Run(a, [Write(name)], None)
    else
      var local := RestoreLocal(a, env);
      match env.mode
      case Err(e) => Run(a, [], Some(e))
      case Ok(m) =>
        var r1 := if Contains(m, "SERIAL") then Run(a, [], None) else SetMode(a, env, "serial");
        if r1.failure.Some? then r1
        else
          var r2 := Append(r1, Run(r1.arb, [Write(name)], None));
          if local then Append(r2, SerialOff(r2.arb)) else r2
  }

  /** `str(DefaultStatus or 'On,On').lower().strip()`. */
  function OnSelection(defaultStatus: string): string
  {
    Strip(Lower(if defaultStatus != "" then defaultStatus else "On,On"))
  }

  /** The channels `On` switches: HV1 when the selection starts with "on",
      HV2 when it ends with "on". */
  function OnWrites(status: string): seq<Event>
  {
    (if StartsWith(status, "on") then [Write("HV1 On"), PollNext("HV1Status")] else [])
    + (if EndsWith(status, "on") then [Write("HV2 On"), PollNext("HV2Status")] else [])
  }

  const OffWrites: seq<Event> := [Write("HV1 Off"), PollNext("HV1Status"), Write("HV2 Off"), PollNext("HV2Status")]

  /** `On` and `Off`: go serial, write, go local if decided at entry. */
  function Switch(a: Arbiter, env: Env, writes: seq<Event>): Run
  {
    var local := RestoreLocal(a, env);
    var r1 := SerialOn(a, env);
    if r1.failure.Some? then r1
    else
      var r2 := Run(r1.arb, r1.events + writes, None);
      if local then Append(r2, SerialOff(r2.arb)) else r2
  }

  function On(a: Arbiter, env: Env): Run
  {
    Switch(a, env, OnWrites(OnSelection(env.defaultStatus)))
  }

  function Off(a: Arbiter, env: Env): Run
  {
    Switch(a, env, OffWrites)
  }

  /** `OnHV1`, `OnHV2`, `OffHV1`, `OffHV2`: one write with the mode logic,
      then poll that channel's status next. */
  function ChannelCommand(a: Arbiter, env: Env, name: string, status: string): Run
  {
    var r := WriteCommand(a, env, name, true);
    if r.failure.Some? then r else Append(r, Run(r.arb, [PollNext(status)], None))
  }

  /** A NACK in an answer as an exception, `None` when there is none. */
  function NackFailure(answer: string): Option<Error>
  {
    match CheckNack(answer)
    case Err(e) => Some(e)
    case Ok(_) => None
  }

  /** What the exchange raises: `SendCommandError` when a device call
      raised, else the NACK decoded from the answer, if any. */
  function ExchangeFailure(answer: Option<string>): Option<Error>
  {
    match answer
    case None => Some(SendCommandError)
    case Some(result) => NackFailure(result)
  }

  /** `SendCommand(argin, separator, mode)`: with `mode`, the same serial wrap
      as `writeCommand`, around a synchronous exchange of the frames (`reply`
      gives the device's answer to each frame, or raises); a raising device
      call or a NACK ends the command before local mode would be restored.
      The `Exchanged(frames)` event is the attempted exchange; the answer
      itself is `Exchange(frames, reply, separator)`. */
  function SendCommand(a: Arbiter, env: Env, frames: seq<string>, reply: Reply, separator: string, mode: bool): Run
  {
    var nack := ExchangeFailure(Exchange(frames, reply, separator));
    if !mode then Run(a, [Exchanged(frames)], nack)
    else
      var local := RestoreLocal(a, env);
      match env.mode
      case Err(e) => Run(a, [], Some(e))
      case Ok(m) =>
        var r1 := if Contains(m, "SERIAL") then Run(a, [], None) else SerialOn(a, env);
        if r1.failure.Some? then r1
        else
          var r2 := Append(r1, Run(r1.arb, [Exchanged(frames)], nack));
          if r2.failure.Some? || !local then r2 else Append(r2, SerialOff(r2.arb))
  }

  /** `write_IonPumpsConfig`: encode both channels, send them through
      `SendCommand` with '\n' between answers, then demand an ACK on every
      line (checked after local mode was restored). */
  function ConfigurePumps(a: Arbiter, env: Env, types: seq<string>, data: seq<string>, reply: Reply): Run
    requires |types| <= MaxTypes
  {
    match IonPumpsFrames(types, data)
    case Err(e) => Run(a, [], Some(e))
    case Ok(frames) =>
      var r := SendCommand(a, env, frames, reply, "\n", true);
      if r.failure.Some? || Acknowledged(frames, reply) then r
      else r.(failure := Some(NackReceived))
  }

  /** The corrections the mode attribute readers make. Each waits strictly
      longer than the cooldown, reads its flag with `lower() in ('true',
      'yes')`, and swallows any exception the `SetMode` call raises (what
      that call did before raising stays done). `modeRead` is the attribute
      value just read. */
  predicate WantsLocal(a: Arbiter, env: Env, modeRead: string)
  {
    env.now > a.last + SerialWait && Forced(Text(env.forceLocal)) && !Contains(modeRead, "LOCAL")
  }

  predicate WantsStep(a: Arbiter, env: Env, modeRead: string)
  {
    env.now > a.last + SerialWait && Forced(a.forceStep) && Contains(modeRead, "FIXED")
  }

  /** `self.HV1Status.lower()=='on'`: before the first status read the field
      is `None` and the call raises, which counts as "no". */
  predicate WantsProtect(a: Arbiter, env: Env, modeRead: string, hv1Status: Option<string>)
  {
    env.now > a.last + SerialWait && Forced(a.forceProtect) && Contains(modeRead, "START")
    && hv1Status.Some? && Lower(hv1Status.value) == "on"
  }

  function Swallow(r: Run): Run
  {
    r.(failure := None)
  }

  /** The `read_ModeLocal`, `read_ModeStep` and `read_ModeProtect` corrections. */
  function AutoLocal(a: Arbiter, env: Env, modeRead: string): Run
  {
    if WantsLocal(a, env, modeRead) then Swallow(SetMode(a, env, "local")) else Run(a, [], None)
  }

  function AutoStep(a: Arbiter, env: Env, modeRead: string): Run
  {
    if WantsStep(a, env, modeRead) then Swallow(SetMode(a, env, "step")) else Run(a, [], None)
  }

  function AutoProtect(a: Arbiter, env: Env, modeRead: string, hv1Status: Option<string>): Run
  {
    if WantsProtect(a, env, modeRead, hv1Status) then Swallow(SetMode(a, env, "protect")) else Run(a, [], None)
  }

  /** The commands of the device that go through the arbiter, and the
      corrections its attribute readers make. */
  datatype Command = SetModeCmd(arg: string) | OnCmd | OffCmd | OnHV1 | OnHV2 | OffHV1 | OffHV2
    | AutoLocalCmd(modeRead: string) | AutoStepCmd(modeRead: string)
    | AutoProtectCmd(modeRead: string, hv1Status: Option<string>)
    | SendCmd(frames: seq<string>, reply: Reply, separator: string)

  function Apply(a: Arbiter, env: Env, c: Command): Run
  {
    match c
    case SetModeCmd(arg) => SetMode(a, env, arg)
    case OnCmd => On(a, env)
    case OffCmd => Off(a, env)
    case OnHV1 => ChannelCommand(a, env, "HV1 On", "HV1Status")
    case OnHV2 => ChannelCommand(a, env, "HV2 On", "HV2Status")
    case OffHV1 => ChannelCommand(a, env, "HV1 Off", "HV1Status")
    case OffHV2 => ChannelCommand(a, env, "HV2 Off", "HV2Status")
    case AutoLocalCmd(m) => AutoLocal(a, env, m)
    case AutoStepCmd(m) => AutoStep(a, env, m)
    case AutoProtectCmd(m, hv1) => AutoProtect(a, env, m, hv1)
    case SendCmd(frames, reply, separator) => SendCommand(a, env, frames, reply, separator, true)
  }

  // ---------------------------------------------------------------------
  // Properties of single commands.

  /** 'Serial On' is written exactly when the cooldown has elapsed; inside it
      nothing changes at all. */
  lemma SerialCooldown(a: Arbiter, env: Env)
    ensures Write("Serial On") in SerialOn(a, env).events <==> env.now >= a.last + SerialWait
    ensures env.now < a.last + SerialWait ==> SerialOn(a, env) == Run(a, [], None)
    ensures env.now >= a.last + SerialWait ==> SerialOn(a, env).arb.last == env.now
  {
  }

  /** `SetMode('local')`, in any case, has no cooldown: it always writes
      'Serial Off' and resets the clock to 0. */
  lemma LocalHasNoCooldown(a: Arbiter, env: Env, argin: string)
    requires Lower(argin) == "local"
    ensures SetMode(a, env, argin) == Run(a.(last := 0.0), [Write("Serial Off")], None)
  {
  }

  /** An argument that is no mode name does nothing. */
  lemma UnknownArgumentDoesNothing(a: Arbiter, env: Env, argin: string)
    requires var m := Lower(argin); m != "serial" && m != "local" && !IsModeArgument(m)
    ensures SetMode(a, env, argin) == Run(a, [], None)
  {
  }

  /** A mode command after the cooldown: serial first, channel 1 then
      channel 2, then 'Serial Off' exactly when ForceLocal is non-empty;
      'fixed' and 'protect' clear their flag. */
  lemma ModeCommandAfterCooldown(a: Arbiter, env: Env, m: string)
    requires IsModeArgument(m) && env.now >= a.last + SerialWait && env.mode.Ok?
    ensures var r := ModeCommand(a, env, m);
      r.failure.None?
      && r.events == [Write("Serial On"), PollNext("ModeLocal")] + ModeWrites(m)
                     + (if env.forceLocal != "" then [Write("Serial Off")] else [])
      && r.arb.last == (if env.forceLocal != "" then 0.0 else env.now)
      && r.arb.forceStep == (if m == "fixed" then Cleared else a.forceStep)
      && r.arb.forceProtect == (if m == "protect" then Cleared else a.forceProtect)
  {
  }

  /** Inside the cooldown a mode command only writes the two channel frames:
      it neither goes serial nor restores local mode. */
  lemma ModeCommandInCooldown(a: Arbiter, env: Env, m: string)
    requires IsModeArgument(m) && env.now < a.last + SerialWait
    ensures ModeCommand(a, env, m).events == ModeWrites(m)
    ensures ModeCommand(a, env, m).arb.last == a.last
  {
  }

  /** ForceLocal is tested by truthiness here: even "NO" restores local
      mode after a mode command. */
  lemma ForceLocalIsTruthy(a: Arbiter, now: real)
    requires now >= a.last + SerialWait
    ensures var r := SetMode(a, Env(now, "NO", "", Ok("SERIAL")), "Fixed");
      r.events[|r.events| - 1] == Write("Serial Off")
  {
    assert Lower("Fixed") == "fixed";
  }

  /** A failed mode read after 'Serial On' aborts the command: the channel
      frames are not written, but the clock has moved. */
  lemma ModeReadFailureAborts(a: Arbiter, env: Env, m: string)
    requires IsModeArgument(m) && env.now >= a.last + SerialWait && env.mode.Err?
    ensures ModeCommand(a, env, m) == Run(a.(last := env.now), [Write("Serial On"), PollNext("ModeLocal")], Some(env.mode.error))
  {
  }

  /** The channels `On` switches, by DefaultStatus. */
  lemma OnChannelSelection()
    ensures OnSelection("") == "on,on" && OnWrites("on,on") == [Write("HV1 On"), PollNext("HV1Status"), Write("HV2 On"), PollNext("HV2Status")]
    ensures OnWrites("on,off") == [Write("HV1 On"), PollNext("HV1Status")]
    ensures OnWrites("off,on") == [Write("HV2 On"), PollNext("HV2Status")]
    ensures OnWrites("off,off") == []
  {
    assert Lower("On,On") == "on,on";
    StripUnpadded("on,on");
    assert "on,on"[..2] == "on" && "on,on"[3..] == "on";
    assert "on,off"[..2] == "on" && "on,off"[4..] != "on";
    assert "off,on"[..2] != "on" && "off,on"[4..] == "on";
    assert "off,off"[..2] != "on" && "off,off"[5..] != "on";
  }

  /** With the channel mode already SERIAL, a channel command just writes,
      and goes local afterwards when the entry decision says so. */
  lemma ChannelCommandInSerial(a: Arbiter, env: Env)
    requires env.mode == Ok("SERIAL")
    ensures var r := ChannelCommand(a, env, "HV1 On", "HV1Status");
      r.failure.None?
      && r.events == [Write("HV1 On")] + (if RestoreLocal(a, env) then [Write("Serial Off")] else []) + [PollNext("HV1Status")]
  {
    assert OccursAt("SERIAL", "SERIAL", 0);
  }

  /** Every write is one of the table's write commands and every frame polled
      next is a table read, so none of the lookups raises. */
  predicate KnownEvents(evs: seq<Event>)
  {
    forall k | 0 <= k < |evs| ::
      (evs[k].Write? ==> evs[k].name in WriteNames)
      && (evs[k].PollNext? ==> evs[k].name == "ModeLocal" || evs[k].name == "HV1Status" || evs[k].name == "HV2Status")
  }

  lemma KnownAppend(xs: seq<Event>, ys: seq<Event>)
    requires KnownEvents(xs) && KnownEvents(ys)
    ensures KnownEvents(xs + ys)
  {
    forall k | 0 <= k < |xs + ys| ensures (xs + ys)[k] == if k < |xs| then xs[k] else ys[k - |xs|] { }
  }

  lemma SerialKnown(a: Arbiter, env: Env)
    ensures KnownEvents(SerialOn(a, env).events) && KnownEvents(SerialOff(a).events)
  {
    WriteNamesListed();
  }

  lemma SwitchKnown(a: Arbiter, env: Env, writes: seq<Event>)
    requires KnownEvents(writes)
    ensures KnownEvents(Switch(a, env, writes).events)
  {
    SerialKnown(a, env);
    var r1 := SerialOn(a, env);
    KnownAppend(r1.events, writes);
    SerialKnown(r1.arb, env);
    KnownAppend(r1.events + writes, SerialOff(r1.arb).events);
  }

  lemma ModeCommandKnown(a: Arbiter, env: Env, m: string)
    requires IsModeArgument(m)
    ensures KnownEvents(ModeCommand(a, env, m).events)
  {
    WriteNamesListed();
    SerialKnown(a, env);
    var r1 := SerialOn(a, env);
    assert KnownEvents(ModeWrites(m));
    KnownAppend(r1.events, ModeWrites(m));
    var a2 := if m == "fixed" then r1.arb.(forceStep := Cleared)
              else if m == "protect" then r1.arb.(forceProtect := Cleared)
              else r1.arb;
    SerialKnown(a2, env);
    KnownAppend(r1.events + ModeWrites(m), SerialOff(a2).events);
  }

  lemma SendKnown(a: Arbiter, env: Env, frames: seq<string>, reply: Reply, separator: string)
    ensures KnownEvents(SendCommand(a, env, frames, reply, separator, true).events)
  {
    SerialKnown(a, env);
    if env.mode.Ok? {
      var r1 := if Contains(env.mode.value, "SERIAL") then Run(a, [], None) else SerialOn(a, env);
      KnownAppend(r1.events, [Exchanged(frames)]);
      SerialKnown(r1.arb, env);
      KnownAppend(r1.events + [Exchanged(frames)], SerialOff(r1.arb).events);
    }
  }

  lemma ChannelKnown(a: Arbiter, env: Env, name: string, status: string)
    requires name in WriteNames && (status == "HV1Status" || status == "HV2Status")
    ensures KnownEvents(ChannelCommand(a, env, name, status).events)
  {
    SerialKnown(a, env);
    assert Lower("serial") == "serial";
    var r := WriteCommand(a, env, name, true);
    if env.mode.Ok? {
      var r1 := if Contains(env.mode.value, "SERIAL") then Run(a, [], None) else SetMode(a, env, "serial");
      KnownAppend(r1.events, [Write(name)]);
      SerialKnown(r1.arb, env);
      KnownAppend(r1.events + [Write(name)], SerialOff(r1.arb).events);
    }
    KnownAppend(r.events, [PollNext(status)]);
  }

  lemma SetModeKnown(a: Arbiter, env: Env, arg: string)
    ensures KnownEvents(SetMode(a, env, arg).events)
  {
    SerialKnown(a, env);
    if IsModeArgument(Lower(arg)) { ModeCommandKnown(a, env, Lower(arg)); }
  }

  lemma KnownPair(name: string, status: string)
    requires name in WriteNames && (status == "HV1Status" || status == "HV2Status")
    ensures KnownEvents([Write(name), PollNext(status)])
  {
  }

  lemma OnWritesKnown(status: string)
    ensures KnownEvents(OnWrites(status))
  {
    WriteNamesListed();
    KnownPair("HV1 On", "HV1Status");
    KnownPair("HV2 On", "HV2Status");
    var w1 := if StartsWith(status, "on") then [Write("HV1 On"), PollNext("HV1Status")] else [];
    var w2 := if EndsWith(status, "on") then [Write("HV2 On"), PollNext("HV2Status")] else [];
    KnownAppend(w1, w2);
  }

  lemma SwitchesKnown(a: Arbiter, env: Env)
    ensures KnownEvents(On(a, env).events) && KnownEvents(Off(a, env).events)
  {
    OnWritesKnown(OnSelection(env.defaultStatus));
    SwitchKnown(a, env, OnWrites(OnSelection(env.defaultStatus)));
    WriteNamesListed();
    KnownPair("HV1 Off", "HV1Status");
    KnownPair("HV2 Off", "HV2Status");
    KnownAppend([Write("HV1 Off"), PollNext("HV1Status")], [Write("HV2 Off"), PollNext("HV2Status")]);
    SwitchKnown(a, env, OffWrites);
  }

  lemma CorrectionsKnown(a: Arbiter, env: Env, m: string, hv1Status: Option<string>)
    ensures KnownEvents(AutoLocal(a, env, m).events) && KnownEvents(AutoStep(a, env, m).events)
    ensures KnownEvents(AutoProtect(a, env, m, hv1Status).events)
  {
    SetModeKnown(a, env, "local");
    SetModeKnown(a, env, "step");
    SetModeKnown(a, env, "protect");
  }

  lemma ChannelsKnown(a: Arbiter, env: Env)
    ensures KnownEvents(ChannelCommand(a, env, "HV1 On", "HV1Status").events)
    ensures KnownEvents(ChannelCommand(a, env, "HV2 On", "HV2Status").events)
    ensures KnownEvents(ChannelCommand(a, env, "HV1 Off", "HV1Status").events)
    ensures KnownEvents(ChannelCommand(a, env, "HV2 Off", "HV2Status").events)
  {
    WriteNamesListed();
    ChannelKnown(a, env, "HV1 On", "HV1Status");
    ChannelKnown(a, env, "HV2 On", "HV2Status");
    ChannelKnown(a, env, "HV1 Off", "HV1Status");
    ChannelKnown(a, env, "HV2 Off", "HV2Status");
  }

  /** Every frame a command writes is one of the table's write commands, and
      every frame it polls next is a table read, so no lookup raises. */
  lemma CommandsUseTableNames(a: Arbiter, env: Env, c: Command)
    ensures KnownEvents(Apply(a, env, c).events)
  {
    match c
    case SetModeCmd(arg) => SetModeKnown(a, env, arg);
    case AutoLocalCmd(m) => CorrectionsKnown(a, env, m, None);
    case AutoStepCmd(m) => CorrectionsKnown(a, env, m, None);
    case AutoProtectCmd(m, h) => CorrectionsKnown(a, env, m, h);
    case SendCmd(frames, reply, separator) => SendKnown(a, env, frames, reply, separator);
    case OnCmd => SwitchesKnown(a, env);
    case OffCmd => SwitchesKnown(a, env);
    case _ => ChannelsKnown(a, env);
  }

  lemma WriteNamesListed()
    ensures "Serial On" in WriteNames && "Serial Off" in WriteNames
    ensures "HV1 On" in WriteNames && "HV1 Off" in WriteNames && "HV2 On" in WriteNames && "HV2 Off" in WriteNames
    ensures "HV1setFixed" in WriteNames && "HV2setFixed" in WriteNames && "HV1setStep" in WriteNames
    ensures "HV2setStep" in WriteNames && "HV1setStart" in WriteNames && "HV2setStart" in WriteNames
    ensures "HV1setProtect" in WriteNames && "HV2setProtect" in WriteNames
  {
    SwitchNamesListed();
    SetpointNamesListed();
  }

  lemma SwitchNamesListed()
    ensures "Serial On" in WriteNames && "Serial Off" in WriteNames
    ensures "HV1 On" in WriteNames && "HV1 Off" in WriteNames && "HV2 On" in WriteNames && "HV2 Off" in WriteNames
  {
    assert WriteCommands[0].name == "Serial On" && WriteCommands[1].name == "Serial Off";
    assert WriteCommands[2].name == "HV1 On" && WriteCommands[3].name == "HV1 Off";
    assert WriteCommands[4].name == "HV2 On" && WriteCommands[5].name == "HV2 Off";
  }

  lemma SetpointNamesListed()
    ensures "HV1setFixed" in WriteNames && "HV2setFixed" in WriteNames && "HV1setStep" in WriteNames
    ensures "HV2setStep" in WriteNames && "HV1setStart" in WriteNames && "HV2setStart" in WriteNames
    ensures "HV1setProtect" in WriteNames && "HV2setProtect" in WriteNames
  {
    assert WriteCommands[6].name == "HV1setFixed" && WriteCommands[7].name == "HV1setStep";
    assert WriteCommands[8].name == "HV1setStart" && WriteCommands[9].name == "HV1setProtect";
    assert WriteCommands[10].name == "HV2setFixed" && WriteCommands[11].name == "HV2setStep";
    assert WriteCommands[12].name == "HV2setStart" && WriteCommands[13].name == "HV2setProtect";
  }

  /** A correction fires exactly under its reader's condition; `read_ModeLocal`
      then writes 'Serial Off', and the other two run the mode command. */
  lemma AutoLocalIff(a: Arbiter, env: Env, modeRead: string)
    ensures AutoLocal(a, env, modeRead).events != [] <==>
      (env.now > a.last + SerialWait && (Lower(env.forceLocal) == "true" || Lower(env.forceLocal) == "yes")
       && !Contains(modeRead, "LOCAL"))
    ensures AutoLocal(a, env, modeRead).events != [] ==> AutoLocal(a, env, modeRead).events == [Write("Serial Off")]
  {
    assert Lower("local") == "local";
  }

  lemma AutoStepIff(a: Arbiter, env: Env, modeRead: string)
    ensures AutoStep(a, env, modeRead).events != [] <==> WantsStep(a, env, modeRead)
    ensures WantsStep(a, env, modeRead) && env.mode.Ok? ==>
      (|AutoStep(a, env, modeRead).events| >= 4
       && AutoStep(a, env, modeRead).events[..4]
          == [Write("Serial On"), PollNext("ModeLocal"), Write("HV1setStep"), Write("HV2setStep")])
    ensures WantsStep(a, env, modeRead) && env.mode.Err? ==>
      AutoStep(a, env, modeRead) == Run(a.(last := env.now), [Write("Serial On"), PollNext("ModeLocal")], None)
    ensures AutoStep(a, env, modeRead).failure.None?
  {
    assert Lower("step") == "step";
  }

  lemma AutoProtectIff(a: Arbiter, env: Env, modeRead: string, hv1Status: Option<string>)
    ensures AutoProtect(a, env, modeRead, hv1Status).events != [] <==> WantsProtect(a, env, modeRead, hv1Status)
    ensures WantsProtect(a, env, modeRead, hv1Status) ==>
      (AutoProtect(a, env, modeRead, hv1Status).arb.forceProtect == Cleared <==> env.mode.Ok?)
    ensures hv1Status.None? ==> AutoProtect(a, env, modeRead, hv1Status) == Run(a, [], None)
  {
    assert Lower("protect") == "protect";
  }

  /** The two clocks differ by one instant: exactly 60 seconds after the last
      change a command goes serial, but no correction fires yet; and the
      corrections read "NO" as "no" where the commands read it as "yes". */
  lemma CooldownBoundaries(a: Arbiter, fst: Flag)
    requires a.forceStep == Text("yes")
    ensures var env := Env(a.last + SerialWait, "yes", "", Ok("LOCAL"));
      Write("Serial On") in SerialOn(a, env).events
      && AutoLocal(a, env, "REMOTE") == Run(a, [], None)
      && AutoStep(a, env, "FIXED") == Run(a, [], None)
    ensures var env := Env(a.last + SerialWait + 1.0, "NO", "", Ok("LOCAL"));
      RestoreLocal(a, env) && AutoLocal(a, env, "REMOTE") == Run(a, [], None)
  {
    assert Lower("NO") == "no";
  }

  /** A NACK raises before local mode is restored: the controller is left
      in serial mode although the entry decision was to go back to local. */
  lemma NackSkipsLocalRestore(a: Arbiter, env: Env, frames: seq<string>, reply: Reply, separator: string)
    requires env.mode.Ok? && !Contains(env.mode.value, "SERIAL") && RestoreLocal(a, env)
    requires Exchange(frames, reply, separator).Some? && '!' in Exchange(frames, reply, separator).value
    ensures var r := SendCommand(a, env, frames, reply, separator, true);
      r.events == [Write("Serial On"), PollNext("ModeLocal"), Exchanged(frames)]
      && r.arb.last == env.now && r.failure.Some?
  {
    NackPassIff(Exchange(frames, reply, separator).value);
  }

  /** A device call that raises during the exchange ends the command with
      `SendCommandError`, also before local mode is restored. */
  lemma RaiseSkipsLocalRestore(a: Arbiter, env: Env, frames: seq<string>, reply: Reply, separator: string, k: nat)
    requires env.mode.Ok? && !Contains(env.mode.value, "SERIAL") && RestoreLocal(a, env)
    requires k < |frames| && reply(frames[k]).None?
    ensures var r := SendCommand(a, env, frames, reply, separator, true);
      r.events == [Write("Serial On"), PollNext("ModeLocal"), Exchanged(frames)]
      && r.arb.last == env.now && r.failure == Some(SendCommandError)
  {
    ExchangeRaisesIff(frames, reply, separator);
  }

  /** Without a NACK the exchange is wrapped as a command write is: serial
      first unless the hardware says SERIAL, 'Serial Off' afterwards when the
      entry decision says so. */
  lemma SendCommandWrap(a: Arbiter, env: Env, frames: seq<string>, reply: Reply, separator: string)
    requires env.mode.Ok? && Exchange(frames, reply, separator).Some? && '!' !in Exchange(frames, reply, separator).value
    ensures var r := SendCommand(a, env, frames, reply, separator, true);
      var on := if Contains(env.mode.value, "SERIAL") then [] else SerialOn(a, env).events;
      r.failure.None?
      && r.events == on + [Exchanged(frames)] + (if RestoreLocal(a, env) then [Write("Serial Off")] else [])
  {
    NackPassIff(Exchange(frames, reply, separator).value);
  }

  /** With the mode read succeeding, the pump configuration raises exactly
      when the transport-level write does, with the same exception. */
  lemma ConfigureAgrees(a: Arbiter, env: Env, types: seq<string>, data: seq<string>, reply: Reply)
    requires |types| <= MaxTypes && env.mode.Ok?
    ensures ConfigurePumps(a, env, types, data, reply).failure
      == match WriteIonPumpsConfig(types, data, reply) case Ok(_) => None case Err(e) => Some(e)
  {
    match IonPumpsFrames(types, data)
    case Err(_) =>
    case Ok(frames) => SendAgrees(a, env, frames, reply);
  }

  lemma SendAgrees(a: Arbiter, env: Env, frames: seq<string>, reply: Reply)
    requires env.mode.Ok?
    ensures var r := SendCommand(a, env, frames, reply, "\n", true);
      (if r.failure.Some? || Acknowledged(frames, reply) then r.failure else Some(NackReceived))
      == match Exchange(frames, reply, "\n")
         case None => Some(SendCommandError)
         case Some(result) =>
           match CheckNack(result)
           case Err(e) => Some(e)
           case Ok(got) => if AllAcknowledged(got) then None else Some(NackReceived)
  {
    if Exchange(frames, reply, "\n").Some? {
      NackPassIff(Exchange(frames, reply, "\n").value);
    }
  }

  /** The configuration's arbiter effects are those of one `SendCommand`. */
  lemma ConfigureIsASend(a: Arbiter, env: Env, types: seq<string>, data: seq<string>, reply: Reply)
    requires |types| <= MaxTypes
    ensures var r := ConfigurePumps(a, env, types, data, reply);
      match IonPumpsFrames(types, data)
      case Err(_) => r.events == [] && r.arb == a
      case Ok(frames) => r.events == Apply(a, env, SendCmd(frames, reply, "\n")).events
                         && r.arb == Apply(a, env, SendCmd(frames, reply, "\n")).arb
  {
    match IonPumpsFrames(types, data)
    case Err(_) =>
    case Ok(frames) => SendOverride(a, env, frames, reply);
  }

  /** The ACK check after the exchange only changes the failure. */
  lemma SendOverride(a: Arbiter, env: Env, frames: seq<string>, reply: Reply)
    ensures var r := SendCommand(a, env, frames, reply, "\n", true);
      var s := if r.failure.Some? || Acknowledged(frames, reply) then r
               else r.(failure := Some(NackReceived));
      s.events == Apply(a, env, SendCmd(frames, reply, "\n")).events
      && s.arb == Apply(a, env, SendCmd(frames, reply, "\n")).arb
  {
  }

  // ---------------------------------------------------------------------
  // The serial cooldown over whole runs.

  predicate IsSerialOn(e: Event) { e == Write("Serial On") }
  predicate IsSerialOff(e: Event) { e == Write("Serial Off") }

  /** `last_serial_change` after one event: 'Serial On' records the clock,
      'Serial Off' resets it, anything else leaves it. */
  function NextLast(last: real, now: real, e: Event): real
  {
    if IsSerialOn(e) then now else if IsSerialOff(e) then 0.0 else last
  }

  function Track(last: real, now: real, evs: seq<Event>): real
    decreases |evs|
  {
    if evs == [] then last else Track(NextLast(last, now, evs[0]), now, evs[1..])
  }

  /** Every 'Serial On' in `evs` is emitted with the cooldown elapsed. */
  predicate Allowed(last: real, now: real, evs: seq<Event>)
    decreases |evs|
  {
    evs == [] || ((IsSerialOn(evs[0]) ==> now >= last + SerialWait) && Allowed(NextLast(last, now, evs[0]), now, evs[1..]))
  }

  lemma {:induction false} TrackAppend(last: real, now: real, xs: seq<Event>, ys: seq<Event>)
    ensures Track(last, now, xs + ys) == Track(Track(last, now, xs), now, ys)
    ensures Allowed(last, now, xs + ys) == (Allowed(last, now, xs) && Allowed(Track(last, now, xs), now, ys))
    decreases |xs|
  {
    if xs == [] {
      assert xs + ys == ys;
    } else {
      assert (xs + ys)[0] == xs[0] && (xs + ys)[1..] == xs[1..] + ys;
      TrackAppend(NextLast(last, now, xs[0]), now, xs[1..], ys);
    }
  }

  predicate NoSerial(evs: seq<Event>)
  {
    forall k | 0 <= k < |evs| :: !IsSerialOn(evs[k]) && !IsSerialOff(evs[k])
  }

  lemma {:induction false} QuietEvents(last: real, now: real, evs: seq<Event>)
    requires NoSerial(evs)
    ensures Track(last, now, evs) == last && Allowed(last, now, evs)
  {
    if evs != [] {
      assert NoSerial(evs[1..]) by {
        forall k | 0 <= k < |evs[1..]| ensures !IsSerialOn(evs[1..][k]) && !IsSerialOff(evs[1..][k]) {
          assert evs[1..][k] == evs[k + 1];
        }
      }
      QuietEvents(last, now, evs[1..]);
    }
  }

  /** The cooldown discipline of one command: a run starting with clock
      `last` emits 'Serial On' only with the cooldown elapsed and ends with
      the clock its serial events leave. */
  predicate Disciplined(a: Arbiter, now: real, r: Run)
  {
    Allowed(a.last, now, r.events) && r.arb.last == Track(a.last, now, r.events)
  }

  lemma SerialOnDisciplined(a: Arbiter, env: Env)
    ensures Disciplined(a, env.now, SerialOn(a, env))
  {
    var e := [Write("Serial On"), PollNext("ModeLocal")];
    assert e[1..] == [PollNext("ModeLocal")] && e[1..][1..] == [];
  }

  lemma SerialOffDisciplined(a: Arbiter, now: real)
    ensures Disciplined(a, now, SerialOff(a))
  {
    var e := [Write("Serial Off")];
    assert e[1..] == [];
  }

  /** A disciplined run followed by quiet events and possibly 'Serial Off'
      is disciplined. */
  lemma ThenDisciplined(a: Arbiter, now: real, r1: Run, writes: seq<Event>, a2: Arbiter, local: bool)
    requires Disciplined(a, now, r1) && NoSerial(writes) && a2.last == r1.arb.last
    ensures var r2 := Run(a2, r1.events + writes, None);
      Disciplined(a, now, if local then Append(r2, SerialOff(a2)) else r2)
  {
    TrackAppend(a.last, now, r1.events, writes);
    QuietEvents(r1.arb.last, now, writes);
    var r2 := Run(a2, r1.events + writes, None);
    if local {
      SerialOffDisciplined(a2, now);
      TrackAppend(a.last, now, r2.events, [Write("Serial Off")]);
    }
  }

  lemma ModeWritesQuiet(m: string)
    requires IsModeArgument(m)
    ensures NoSerial(ModeWrites(m))
  {
  }

  /** Every command keeps the cooldown discipline. */
  lemma CommandDisciplined(a: Arbiter, env: Env, c: Command)
    ensures Disciplined(a, env.now, Apply(a, env, c))
  {
    match c
    case SetModeCmd(arg) => SetModeDisciplined(a, env, arg);
    case AutoLocalCmd(_) => SetModeDisciplined(a, env, "local");
    case AutoStepCmd(_) => SetModeDisciplined(a, env, "step");
    case AutoProtectCmd(_, _) => SetModeDisciplined(a, env, "protect");
    case SendCmd(frames, reply, separator) => SendDisciplined(a, env, frames, reply, separator);
    case OnCmd => SwitchDisciplined(a, env, true);
    case OffCmd => SwitchDisciplined(a, env, false);
    case OnHV1 => ChannelDisciplined(a, env, "HV1 On", "HV1Status");
    case OnHV2 => ChannelDisciplined(a, env, "HV2 On", "HV2Status");
    case OffHV1 => ChannelDisciplined(a, env, "HV1 Off", "HV1Status");
    case OffHV2 => ChannelDisciplined(a, env, "HV2 Off", "HV2Status");
  }

  lemma SwitchDisciplined(a: Arbiter, env: Env, on: bool)
    ensures Disciplined(a, env.now, Apply(a, env, if on then OnCmd else OffCmd))
  {
    if on {
      OnWritesQuiet(OnSelection(env.defaultStatus));
      WritesDisciplined(a, env, OnWrites(OnSelection(env.defaultStatus)));
    } else {
      OffWritesQuiet();
      WritesDisciplined(a, env, OffWrites);
    }
  }

  lemma OnWritesQuiet(status: string)
    ensures NoSerial(OnWrites(status))
  {
  }

  lemma OffWritesQuiet()
    ensures NoSerial(OffWrites)
  {
  }

  lemma WritesDisciplined(a: Arbiter, env: Env, writes: seq<Event>)
    requires NoSerial(writes)
    ensures Disciplined(a, env.now, Switch(a, env, writes))
  {
    SerialOnDisciplined(a, env);
    var r1 := SerialOn(a, env);
    if r1.failure.None? {
      ThenDisciplined(a, env.now, r1, writes, r1.arb, RestoreLocal(a, env));
    }
  }

  lemma SetModeDisciplined(a: Arbiter, env: Env, arg: string)
    ensures Disciplined(a, env.now, SetMode(a, env, arg))
  {
    SerialOnDisciplined(a, env);
    SerialOffDisciplined(a, env.now);
    var r1 := SerialOn(a, env);
    var m := Lower(arg);
    if IsModeArgument(m) && r1.failure.None? {
      ModeWritesQuiet(m);
      var a2 := if m == "fixed" then r1.arb.(forceStep := Cleared)
                else if m == "protect" then r1.arb.(forceProtect := Cleared)
                else r1.arb;
      ThenDisciplined(a, env.now, r1, ModeWrites(m), a2, RestoreLocal(a, env));
    }
  }

  lemma SendDisciplined(a: Arbiter, env: Env, frames: seq<string>, reply: Reply, separator: string)
    ensures Disciplined(a, env.now, SendCommand(a, env, frames, reply, separator, true))
  {
    if env.mode.Ok? {
      var r1 := if Contains(env.mode.value, "SERIAL") then Run(a, [], None) else SerialOn(a, env);
      SerialOnDisciplined(a, env);
      if r1.failure.None? {
        var nack := ExchangeFailure(Exchange(frames, reply, separator));
        ThenDisciplined(a, env.now, r1, [Exchanged(frames)], r1.arb, RestoreLocal(a, env) && nack.None?);
      }
    }
  }

  lemma ChannelDisciplined(a: Arbiter, env: Env, name: string, status: string)
    requires name != "Serial On" && name != "Serial Off"
    ensures Disciplined(a, env.now, ChannelCommand(a, env, name, status))
  {
    var now := env.now;
    if env.mode.Ok? {
      var r1 := if Contains(env.mode.value, "SERIAL") then Run(a, [], None) else SetMode(a, env, "serial");
      assert Lower("serial") == "serial";
      SerialOnDisciplined(a, env);
      if r1.failure.None? {
        ThenDisciplined(a, now, r1, [Write(name)], r1.arb, RestoreLocal(a, env));
        var r := WriteCommand(a, env, name, true);
        assert Disciplined(a, now, r);
        TrackAppend(a.last, now, r.events, [PollNext(status)]);
        QuietEvents(r.arb.last, now, [PollNext(status)]);
      }
    }
  }

  /** Events as they happen, with the instant of the command that emitted them. */
  type Stamped = (real, Event)

  function Stamp(now: real, evs: seq<Event>): (s: seq<Stamped>)
    ensures |s| == |evs| && forall k | 0 <= k < |evs| :: s[k] == (now, evs[k])
  {
    seq(|evs|, k requires 0 <= k < |evs| => (now, evs[k]))
  }

  /** Index of the most recent 'Serial On' or 'Serial Off'. */
  function LastSerial(t: seq<Stamped>): (r: Option<nat>)
    ensures r.Some? ==> r.value < |t| && (IsSerialOn(t[r.value].1) || IsSerialOff(t[r.value].1))
    ensures r.Some? ==> forall k | r.value < k < |t| :: !IsSerialOn(t[k].1) && !IsSerialOff(t[k].1)
    ensures r.None? ==> forall k | 0 <= k < |t| :: !IsSerialOn(t[k].1) && !IsSerialOff(t[k].1)
  {
    if t == [] then None
    else if IsSerialOn(t[|t| - 1].1) || IsSerialOff(t[|t| - 1].1) then Some(|t| - 1)
    else LastSerial(t[..|t| - 1])
  }

  /** `last_serial_change` holds the instant of the latest 'Serial On' when
      no 'Serial Off' came after it. */
  predicate ClockMatches(last: real, t: seq<Stamped>)
  {
    match LastSerial(t)
    case Some(l) => IsSerialOn(t[l].1) ==> last == t[l].0
    case None => true
  }

  /** Any two 'Serial On' writes with no 'Serial Off' between them are at
      least 60 seconds apart. */
  predicate Spaced(t: seq<Stamped>)
  {
    forall i, j | 0 <= i < j < |t| && IsSerialOn(t[i].1) && IsSerialOn(t[j].1)
      && (forall k | i < k < j :: !IsSerialOff(t[k].1)) :: t[j].0 >= t[i].0 + SerialWait
  }

  lemma ExtendOne(last: real, t: seq<Stamped>, now: real, e: Event)
    requires ClockMatches(last, t) && Spaced(t)
    requires IsSerialOn(e) ==> now >= last + SerialWait
    ensures ClockMatches(NextLast(last, now, e), t + [(now, e)])
    ensures Spaced(t + [(now, e)])
  {
    var u := t + [(now, e)];
    var n := |t|;
    assert forall k | 0 <= k < n :: u[k] == t[k];
    if !IsSerialOn(e) && !IsSerialOff(e) {
      assert u[..n] == t;
    }
    forall i, j | 0 <= i < j < |u| && IsSerialOn(u[i].1) && IsSerialOn(u[j].1)
      && (forall k | i < k < j :: !IsSerialOff(u[k].1))
      ensures u[j].0 >= u[i].0 + SerialWait
    {
      if j == n {
        assert u[i] == t[i];
        var l := LastSerial(t).value;
        assert l >= i;
        assert IsSerialOn(t[l].1) by {
          if l > i { assert !IsSerialOff(u[l].1); }
        }
        if l > i {
          assert forall k | i < k < l :: !IsSerialOff(t[k].1) by {
            forall k | i < k < l ensures !IsSerialOff(t[k].1) { assert u[k] == t[k]; }
          }
        }
      }
    }
  }

  lemma {:induction false} ExtendMany(last: real, t: seq<Stamped>, now: real, evs: seq<Event>)
    requires ClockMatches(last, t) && Spaced(t) && Allowed(last, now, evs)
    ensures ClockMatches(Track(last, now, evs), t + Stamp(now, evs))
    ensures Spaced(t + Stamp(now, evs))
    decreases |evs|
  {
    if evs == [] {
      assert t + Stamp(now, evs) == t;
    } else {
      ExtendOne(last, t, now, evs[0]);
      ExtendMany(NextLast(last, now, evs[0]), t + [(now, evs[0])], now, evs[1..]);
      assert t + [(now, evs[0])] + Stamp(now, evs[1..]) == t + Stamp(now, evs);
    }
  }

  /** A command at an instant, as the device receives them. */
  datatype Step = Step(env: Env, command: Command)

  /** The fields and the time-stamped events after a sequence of commands;
      a command that raises keeps what it did before raising, and the next
      command runs regardless. */
  function Replay(a: Arbiter, steps: seq<Step>): (Arbiter, seq<Stamped>)
  {
    if steps == [] then (a, [])
    else
      var (a1, t1) := Replay(a, steps[..|steps| - 1]);
      var s := steps[|steps| - 1];
      var r := Apply(a1, s.env, s.command);
      (r.arb, t1 + Stamp(s.env.now, r.events))
  }

  /** The serial cooldown holds over any run of commands, whatever the clock
      does between them: two 'Serial On' writes without a 'Serial Off'
      between them are at least 60 seconds apart. Only 'Serial Off' (from
      SetMode('local') or a restored local mode) lifts the cooldown. */
  lemma {:induction false} SerialOnSpacing(a: Arbiter, steps: seq<Step>)
    ensures Spaced(Replay(a, steps).1)
    ensures ClockMatches(Replay(a, steps).0.last, Replay(a, steps).1)
  {
    if steps != [] {
      var (a1, t1) := Replay(a, steps[..|steps| - 1]);
      SerialOnSpacing(a, steps[..|steps| - 1]);
      var s := steps[|steps| - 1];
      CommandDisciplined(a1, s.env, s.command);
      ExtendMany(a1.last, t1, s.env.now, Apply(a1, s.env, s.command).events);
    }
  }

  /** The cooldown really is lifted by 'Serial Off': going local and serial
      again at the same instant writes 'Serial On' twice within a second. */
  lemma LocalLiftsCooldown(now: real)
    requires now >= SerialWait
    ensures var a := Arbiter(now, Cleared, Cleared);
      var env := Env(now, "", "", Ok("LOCAL"));
      SerialOn(SetMode(a, env, "local").arb, env).events == [Write("Serial On"), PollNext("ModeLocal")]
  {
    assert Lower("local") == "local";
  }
}
