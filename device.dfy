/** The device object of VarianDUAL: the fields its methods update in place
    (`missreadings`, the voltage and current pairs, the channel statuses, the
    debounce queue and displayed state, the arbiter fields, the frames handed
    to the polling engine, the start sequence), with each method proved
    against the pure definitions of the other modules.

    The polling engine's cache is the parameter `cache`, which gives the
    answer the engine holds for a table command name. */
module Device {
  import opened Outcomes
  import opened Strings
  import opened MultiGauge
  import opened Reading
  import opened Commands
  import opened Health
  import opened Arbitration
  import opened Sequencer

  /** A high-voltage channel. */
  type Channel = c: int | c == 1 || c == 2 witness 1

  /** float() is not part of this model; integer reads never call it. */
  const NoFloat: string -> Option<real> := (s: string) => None

  /** `readCommand` for a flavour that yields int: its integer, or the
      exception. */
  function AsInt(r: Result<Value>): Result<int>
  {
    match r
    case Ok(IntValue(i)) => Ok(i)
    case Ok(_) => Err(ValueError)
    case Err(e) => Err(e)
  }

  function AsReal(r: Result<Value>): Result<real>
  {
    match r
    case Ok(FloatValue(x)) => Ok(x)
    case Ok(_) => Err(ValueError)
    case Err(e) => Err(e)
  }

  /** The value `readCommand(name, t)` returns or raises. */
  function ReadOf(cache: string -> CachedAnswer, name: string, t: ValueType, toFloat: string -> Option<real>): Result<Value>
  {
    ReadResult(Classify(cache(name), t, toFloat))
  }

  function ReadInt(cache: string -> CachedAnswer, name: string): Result<int>
  {
    AsInt(ReadOf(cache, name, IntType, NoFloat))
  }

  /** `readCommand(name, bool)`: the `[01]` pattern, then `int()`. */
  function ReadBool(cache: string -> CachedAnswer, name: string): Result<int>
  {
    AsInt(ReadOf(cache, name, BoolType, NoFloat))
  }

  /** What a read adds to the misreading history. */
  function HistoryAfter(history: seq<string>, cache: string -> CachedAnswer, name: string, t: ValueType,
                        toFloat: string -> Option<real>): seq<string>
  {
    RecordMissreading(history, MisreadPayload(Classify(cache(name), t, toFloat)))
  }

  function VoltageName(ch: Channel): string { if ch == 1 then "HV1 V" else "HV2 V" }
  function CurrentName(ch: Channel): string { if ch == 1 then "HV1 I" else "HV2 I" }
  function StatusCommand(ch: Channel): string { if ch == 1 then "HV1Status" else "HV2Status" }

  /** `read_HV1Status` / `read_HV2Status`: the name of the code read. */
  function StatusRead(cache: string -> CachedAnswer, ch: Channel): Result<string>
  {
    match ReadInt(cache, StatusCommand(ch))
    case Ok(st) => Ok(StatusName(st))
    case Err(e) => Err(e)
  }

  /** `getModeLocal`. */
  function ModeRead(cache: string -> CachedAnswer): Result<string>
  {
    match ReadInt(cache, "ModeLocal")
    case Ok(st) => Ok(ModeLocalName(st))
    case Err(e) => Err(e)
  }

  /** `read_ModeStep` / `read_ModeProtect`: the two channels' codes read in
      turn, then the mode string they make. */
  function FlagPair(cache: string -> CachedAnswer, n1: string, n2: string, names: seq<string>): Result<string>
  {
    var s1 := ReadBool(cache, n1);
    var s2 := ReadBool(cache, n2);
    if s1.Err? then Err(s1.error)
    else if s2.Err? then Err(s2.error)
    else ModeString(names, s1.value, s2.value)
  }

  /** The misreading history after those two reads; the second is not made
      when the first raises. */
  function FlagPairHistory(history: seq<string>, cache: string -> CachedAnswer, n1: string, n2: string): seq<string>
  {
    var h1 := HistoryAfter(history, cache, n1, BoolType, NoFloat);
    if ReadBool(cache, n1).Err? then h1 else HistoryAfter(h1, cache, n2, BoolType, NoFloat)
  }

  /** The mode flags are read as bool: a channel payload of one binary
      digit gives the mode string of the two digits and records nothing. */
  lemma FlagPairOfBits(cache: string -> CachedAnswer, n1: string, n2: string, names: seq<string>,
                       e1: string, e2: string, b1: int, b2: int, history: seq<string>)
    requires |e1| == 3 && |e2| == 3 && 0 <= b1 <= 1 && 0 <= b2 <= 1 && |history| <= MissreadingsCapacity
    requires cache(n1) == Cached(Some(e1 + [DigitChar(b1)])) && cache(n2) == Cached(Some(e2 + [DigitChar(b2)]))
    ensures FlagPair(cache, n1, n2, names) == ModeString(names, b1, b2)
    ensures FlagPairHistory(history, cache, n1, n2) == history
  {
    assert (e1 + [DigitChar(b1)])[3..] == [DigitChar(b1)];
    assert (e2 + [DigitChar(b2)])[3..] == [DigitChar(b2)];
    ParseDigit(DigitChar(b1));
    ParseDigit(DigitChar(b2));
  }

  /** A signed payload fails bool's `[01]` pattern: the first read records
      it as a misreading and raises, and the second read is not made. */
  lemma SignedFlagIsMisread(cache: string -> CachedAnswer, n1: string, n2: string, names: seq<string>,
                            e: string, digits: string, history: seq<string>)
    requires |e| == 3 && cache(n1) == Cached(Some(e + "-" + digits))
    ensures FlagPair(cache, n1, n2, names) == Err(ReadCommandError(CommFailed))
    ensures FlagPairHistory(history, cache, n1, n2) == RecordMissreading(history, Some("-" + digits))
  {
    assert (e + "-" + digits)[3..] == "-" + digits;
  }

  /** The three reads of the hook's readings branch, in order: the error
      description, then the two channel statuses. */
  function ChannelReads(cache: string -> CachedAnswer): Result<(string, string, string)>
  {
    match ReadInt(cache, "ErrorStatus")
    case Err(e) => Err(e)
    case Ok(st) =>
      match StatusRead(cache, 1)
      case Err(e) => Err(e)
      case Ok(h1) =>
        match StatusRead(cache, 2)
        case Err(e) => Err(e)
        case Ok(h2) => Ok((ErrorDescription(st), h1, h2))
  }

  /** The misreading history after those reads, which stop at the first
      one that raises. */
  function ChannelReadsHistory(history: seq<string>, cache: string -> CachedAnswer): seq<string>
  {
    var h1 := HistoryAfter(history, cache, "ErrorStatus", IntType, NoFloat);
    if ReadInt(cache, "ErrorStatus").Err? then h1
    else
      var h2 := HistoryAfter(h1, cache, "HV1Status", IntType, NoFloat);
      if StatusRead(cache, 1).Err? then h2
      else HistoryAfter(h2, cache, "HV2Status", IntType, NoFloat)
  }

  /** The state the hook computes, or `None` when a read raised (the hook's
      `try` then swallows the exception and does nothing more). */
  function TickDecision(link: Link, now: real, cache: string -> CachedAnswer, defaultStatus: string,
                        voltages: seq<(int, int)>, currents: seq<(real, real)>): Option<DevState>
  {
    if !link.initialised then Some(INIT)
    else if CommsLost(link, now) then Some(UNKNOWN)
    else match ChannelReads(cache)
      case Err(_) => None
      case Ok((desc, h1, h2)) => Some(DecideState(link, now, desc, h1, h2, defaultStatus, voltages, currents))
  }

  /** `statesQueue.pop()`, under this model's reading of the queue: its head
      is the state on display, and the head is dropped once it has been
      displayed for its dwell time and another state waits. The displayed
      state is the new head; `last_state_change` moves when it changes. */
  function Settle(q: seq<QueueEntry>, displayed: DevState, since: real, now: real): (r: (seq<QueueEntry>, DevState, real))
    requires |q| >= 1
    ensures |r.0| >= 1 && r.1 == r.0[0].state
    ensures r.0 == q || (|q| > 1 && now >= since + q[0].dwell as real && r.0 == q[1..])
    ensures r.2 == (if r.1 == displayed then since else now)
    ensures DistinctStates(q) ==> DistinctStates(r.0)
  {
    var q2 := if |q| > 1 && now >= since + q[0].dwell as real then q[1..] else q;
    assert DistinctStates(q) ==> DistinctStates(q2) by {
      if DistinctStates(q) && q2 != q {
        forall i, j | 0 <= i < j < |q2| ensures q2[i].state != q2[j].state {
          assert q2[i] == q[i + 1] && q2[j] == q[j + 1];
        }
      }
    }
    if q2[0].state != displayed then (q2, q2[0].state, now) else (q2, displayed, since)
  }

  /** While the displayed state's dwell time has not run out, a tick changes
      nothing on display, whatever state it computed; the new state at most
      waits in the queue. */
  lemma SettleWithinDwell(q: seq<QueueEntry>, since: real, now: real, s: DevState)
    requires |q| >= 1 && now < since + q[0].dwell as real
    ensures var p := Push(q, q[0].state, s);
      Settle(p, q[0].state, since, now) == (p, q[0].state, since)
  {
    PushSpec(q, q[0].state, s);
  }

  /** A state other than ON, once displayed, stays displayed for 20 seconds:
      its entry was queued with that dwell time. */
  lemma FaultsHoldTwentySeconds(q: seq<QueueEntry>, displayed: DevState, s: DevState, since: real, now: real)
    requires |q| >= 1 && displayed != s && !Queued(q, s) && s != ON
    ensures Push(q, displayed, s)[|q|].dwell == 20
    ensures |q| == 1 && now >= since + q[0].dwell as real ==>
      var r := Settle(Push(q, displayed, s), displayed, since, now);
      r.0 == [QueueEntry(s, 20)] && r.1 == s
  {
    PushDwell(q, displayed, s);
    var p := Push(q, displayed, s);
    assert p == q + [QueueEntry(s, 20)];
  }

  class VarianDual {
    // Device properties.
    const forceLocal: string
    const defaultStatus: string
    /** The pump type table `write_IonPumpsConfig` looks names up in. */
    const deviceTypes: seq<string>

    // last_serial_change, ForceStep, ForceProtect.
    var lastSerialChange: real
    var forceStep: Flag
    var forceProtect: Flag

    var missreadings: seq<string>
    /** (old, new) pairs per channel. */
    var voltages: seq<(int, int)>
    var currents: seq<(real, real)>
    var hv1Status: Option<string>
    var hv2Status: Option<string>

    var state: DevState
    var lastStateChange: real
    var statesQueue: seq<QueueEntry>

    /** The frames handed to the polling engine, in order. */
    var sent: seq<Event>
    var startSequence: seq<string>

    predicate Valid()
      reads this
    {
      |voltages| == 2 && |currents| == 2
      && |missreadings| <= MissreadingsCapacity && NoDuplicates(missreadings)
      && |statesQueue| >= 1 && DistinctStates(statesQueue) && statesQueue[0].state == state
      && |deviceTypes| <= MaxTypes
    }

    function Arb(): Arbiter
      reads this
    {
      Arbiter(lastSerialChange, forceStep, forceProtect)
    }

    function EnvAt(now: real, mode: Result<string>): Env
      reads this
    {
      Env(now, forceLocal, defaultStatus, mode)
    }

    /** `init_device` up to the start of the polling engine. */
    constructor (forceLocal: string, defaultStatus: string, forceStep: Flag, forceProtect: Flag, startSequence: seq<string>)
      ensures Valid()
      ensures this.forceLocal == forceLocal && this.defaultStatus == defaultStatus
      ensures this.forceStep == forceStep && this.forceProtect == forceProtect
      ensures this.startSequence == startSequence && deviceTypes == DeviceTypes
      ensures lastSerialChange == 0.0 && missreadings == [] && hv1Status == None && hv2Status == None
      ensures voltages == [(0, 0), (0, 0)] && currents == [(0.000000001, 0.000000001), (0.000000001, 0.000000001)]
      ensures state == UNKNOWN && statesQueue == [QueueEntry(UNKNOWN, 0)] && lastStateChange == 0.0 && sent == []
    {
      this.forceLocal := forceLocal;
      this.defaultStatus := defaultStatus;
      this.forceStep := forceStep;
      this.forceProtect := forceProtect;
      this.startSequence := startSequence;
      deviceTypes := DeviceTypes;
      lastSerialChange := 0.0;
      missreadings := [];
      hv1Status, hv2Status := None, None;
      voltages := [(0, 0), (0, 0)];
      currents := [(0.000000001, 0.000000001), (0.000000001, 0.000000001)];
      state := UNKNOWN;
      statesQueue := [QueueEntry(UNKNOWN, 0)];
      lastStateChange := 0.0;
      sent := [];
    }

    /** `read_Missreadings(value=v)`: append if absent, then trim to the
        newest 256 entries. */
    method RecordMisreading(value: Option<string>)
      requires Valid()
      modifies this`missreadings
      ensures Valid()
      ensures missreadings == RecordMissreading(old(missreadings), value)
    {
      RecordInvariants(missreadings, value);
      if value.Some? && value.value !in missreadings {
        missreadings := missreadings + [value.value];
      }
      if |missreadings| > MissreadingsCapacity {
        missreadings := missreadings[|missreadings| - MissreadingsCapacity..|missreadings| - 1] + [missreadings[|missreadings| - 1]];
      }
    }

    /** `readCommand(name, t)`: classify the cached answer and record a
        misreading. */
    method ReadCommand(name: string, t: ValueType, cache: string -> CachedAnswer, toFloat: string -> Option<real>)
      returns (r: Result<Value>)
      requires Valid()
      modifies this`missreadings
      ensures Valid()
      ensures r == ReadOf(cache, name, t, toFloat)
      ensures missreadings == HistoryAfter(old(missreadings), cache, name, t, toFloat)
    {
      var c := Classify(cache(name), t, toFloat);
      RecordMisreading(MisreadPayload(c));
      r := ReadResult(c);
    }

    /** `read_V1` / `read_V2`: read, then shift the channel's pair. */
    method ReadVoltage(ch: Channel, cache: string -> CachedAnswer) returns (r: Result<int>)
      requires Valid()
      modifies this`missreadings, this`voltages
      ensures Valid()
      ensures r == AsInt(ReadOf(cache, VoltageName(ch), LongType, NoFloat))
      ensures missreadings == HistoryAfter(old(missreadings), cache, VoltageName(ch), LongType, NoFloat)
      ensures voltages == if r.Ok? then old(voltages)[ch - 1 := (old(voltages)[ch - 1].1, r.value)] else old(voltages)
    {
      var v := ReadCommand(VoltageName(ch), LongType, cache, NoFloat);
      r := AsInt(v);
      if r.Ok? {
        voltages := voltages[ch - 1 := (voltages[ch - 1].1, r.value)];
      }
    }

    /** `read_I1` / `read_I2`. */
    method ReadCurrent(ch: Channel, cache: string -> CachedAnswer, toFloat: string -> Option<real>) returns (r: Result<real>)
      requires Valid()
      modifies this`missreadings, this`currents
      ensures Valid()
      ensures r == AsReal(ReadOf(cache, CurrentName(ch), FloatType, toFloat))
      ensures missreadings == HistoryAfter(old(missreadings), cache, CurrentName(ch), FloatType, toFloat)
      ensures currents == if r.Ok? then old(currents)[ch - 1 := (old(currents)[ch - 1].1, r.value)] else old(currents)
    {
      var v := ReadCommand(CurrentName(ch), FloatType, cache, toFloat);
      r := AsReal(v);
      if r.Ok? {
        currents := currents[ch - 1 := (currents[ch - 1].1, r.value)];
      }
    }

    /** `read_HV1Status` / `read_HV2Status`: look the code up and keep the
        name in the channel's field. */
    method ReadHVStatus(ch: Channel, cache: string -> CachedAnswer) returns (r: Result<string>)
      requires Valid()
      modifies this`missreadings, this`hv1Status, this`hv2Status
      ensures Valid()
      ensures r == StatusRead(cache, ch)
      ensures missreadings == HistoryAfter(old(missreadings), cache, StatusCommand(ch), IntType, NoFloat)
      ensures hv1Status == if r.Ok? && ch == 1 then Some(r.value) else old(hv1Status)
      ensures hv2Status == if r.Ok? && ch == 2 then Some(r.value) else old(hv2Status)
    {
      var v := ReadCommand(StatusCommand(ch), IntType, cache, NoFloat);
      match AsInt(v)
      case Err(e) =>
        r := Err(e);
      case Ok(st) =>
        var name := LookupStatusName(OnOffCoding, st);
        r := Ok(name);
        if ch == 1 {
          hv1Status := Some(name);
        } else {
          hv2Status := Some(name);
        }
    }

    /** `getModeLocal`. */
    method GetModeLocal(cache: string -> CachedAnswer) returns (r: Result<string>)
      requires Valid()
      modifies this`missreadings
      ensures Valid()
      ensures r == ModeRead(cache)
      ensures missreadings == HistoryAfter(old(missreadings), cache, "ModeLocal", IntType, NoFloat)
    {
      var v := ReadCommand("ModeLocal", IntType, cache, NoFloat);
      r := match AsInt(v) case Ok(st) => Ok(ModeLocalName(st)) case Err(e) => Err(e);
    }

    /** Take over the arbiter fields a run ends with, and hand its frames to
        the polling engine. */
    method Commit(r: Run)
      modifies this`lastSerialChange, this`forceStep, this`forceProtect, this`sent
      ensures Arb() == r.arb && sent == old(sent) + r.events
    {
      lastSerialChange, forceStep, forceProtect := r.arb.last, r.arb.forceStep, r.arb.forceProtect;
      sent := sent + r.events;
    }

    /** One arbiter command (`SetMode`, `On`, `Off`, `OnHV1` ... `SendCommand`):
        the fields and the frames sent move as the arbiter says, with this
        device's properties; `mode` is what the command's reads of the
        hardware mode give. */
    method Perform(c: Command, now: real, mode: Result<string>) returns (failure: Option<Error>)
      modifies this`lastSerialChange, this`forceStep, this`forceProtect, this`sent
      ensures var r := Apply(old(Arb()), EnvAt(now, mode), c);
        Arb() == r.arb && sent == old(sent) + r.events && failure == r.failure
    {
      var r := Apply(Arb(), EnvAt(now, mode), c);
      Commit(r);
      failure := r.failure;
    }

    /** `read_ModeLocal`: the mode name, then the ForceLocal correction. */
    method ReadModeLocal(cache: string -> CachedAnswer, now: real) returns (r: Result<string>)
      requires Valid()
      modifies this`missreadings, this`lastSerialChange, this`forceStep, this`forceProtect, this`sent
      ensures Valid()
      ensures r == ModeRead(cache)
      ensures missreadings == HistoryAfter(old(missreadings), cache, "ModeLocal", IntType, NoFloat)
      ensures var run := if r.Ok? then AutoLocal(old(Arb()), EnvAt(now, r), r.value) else Run(old(Arb()), [], None);
        Arb() == run.arb && sent == old(sent) + run.events
    {
      r := GetModeLocal(cache);
      if r.Ok? {
        Commit(AutoLocal(Arb(), EnvAt(now, r), r.value));
      }
    }

    /** The two channel reads of a mode flag and the mode string. */
    method ReadFlagPair(cache: string -> CachedAnswer, n1: string, n2: string, names: seq<string>)
      returns (r: Result<string>)
      requires Valid()
      modifies this`missreadings
      ensures Valid()
      ensures r == FlagPair(cache, n1, n2, names)
      ensures missreadings == FlagPairHistory(old(missreadings), cache, n1, n2)
    {
      var v1 := ReadCommand(n1, BoolType, cache, NoFloat);
      if AsInt(v1).Err? {
        return Err(AsInt(v1).error);
      }
      var v2 := ReadCommand(n2, BoolType, cache, NoFloat);
      if AsInt(v2).Err? {
        return Err(AsInt(v2).error);
      }
      r := ModeString(names, AsInt(v1).value, AsInt(v2).value);
    }

    /** `read_ModeStep`: the mode string, then the ForceStep correction. */
    method ReadModeStep(cache: string -> CachedAnswer, now: real, mode: Result<string>) returns (r: Result<string>)
      requires Valid()
      modifies this`missreadings, this`lastSerialChange, this`forceStep, this`forceProtect, this`sent
      ensures Valid()
      ensures r == FlagPair(cache, "HV1Step", "HV2Step", StepNames)
      ensures missreadings == FlagPairHistory(old(missreadings), cache, "HV1Step", "HV2Step")
      ensures var run := if r.Ok? then AutoStep(old(Arb()), EnvAt(now, mode), r.value) else Run(old(Arb()), [], None);
        Arb() == run.arb && sent == old(sent) + run.events
    {
      r := ReadFlagPair(cache, "HV1Step", "HV2Step", StepNames);
      if r.Ok? {
        Commit(AutoStep(Arb(), EnvAt(now, mode), r.value));
      }
    }

    /** `read_ModeProtect`: the mode string, then the ForceProtect correction. */
    method ReadModeProtect(cache: string -> CachedAnswer, now: real, mode: Result<string>) returns (r: Result<string>)
      requires Valid()
      modifies this`missreadings, this`lastSerialChange, this`forceStep, this`forceProtect, this`sent
      ensures Valid()
      ensures r == FlagPair(cache, "HV1Protect", "HV2Protect", ProtectNames)
      ensures missreadings == FlagPairHistory(old(missreadings), cache, "HV1Protect", "HV2Protect")
      ensures var run := if r.Ok? then AutoProtect(old(Arb()), EnvAt(now, mode), r.value, hv1Status) else Run(old(Arb()), [], None);
        Arb() == run.arb && sent == old(sent) + run.events
    {
      r := ReadFlagPair(cache, "HV1Protect", "HV2Protect", ProtectNames);
      if r.Ok? {
        Commit(AutoProtect(Arb(), EnvAt(now, mode), r.value, hv1Status));
      }
    }

    /** `write_IonPumpsConfig`: encode the two channels' pump types, send the
        frames with `SendCommand`, then insist on an ACK per frame. */
    method WriteIonPumpsConfig(data: seq<string>, reply: Reply, now: real, mode: Result<string>)
      returns (failure: Option<Error>)
      requires Valid()
      modifies this`lastSerialChange, this`forceStep, this`forceProtect, this`sent
      ensures var r := ConfigurePumps(old(Arb()), EnvAt(now, mode), deviceTypes, data, reply);
        Arb() == r.arb && sent == old(sent) + r.events && failure == r.failure
    {
      var frames := EncodeIonPumpsConfig(deviceTypes, data);
      match frames
      case Err(e) =>
        failure := Some(e);
      case Ok(fs) =>
        var r := SendCommand(Arb(), EnvAt(now, mode), fs, reply, "\n", true);
        Commit(r);
        failure := r.failure;
        if failure.None? && !Acknowledged(fs, reply) {
          failure := Some(NackReceived);
        }
    }

    /** The reads of the hook's readings branch; the first that raises ends it. */
    method ReadChannels(cache: string -> CachedAnswer) returns (r: Result<(string, string, string)>)
      requires Valid()
      modifies this`missreadings, this`hv1Status, this`hv2Status
      ensures Valid()
      ensures r == ChannelReads(cache)
      ensures missreadings == ChannelReadsHistory(old(missreadings), cache)
      ensures hv1Status == if StatusRead(cache, 1).Ok? && ReadInt(cache, "ErrorStatus").Ok? then Some(StatusRead(cache, 1).value) else old(hv1Status)
      ensures hv2Status == if r.Ok? then Some(r.value.2) else old(hv2Status)
    {
      var e := ReadCommand("ErrorStatus", IntType, cache, NoFloat);
      if AsInt(e).Err? {
        return Err(AsInt(e).error);
      }
      var h1 := ReadHVStatus(1, cache);
      if h1.Err? {
        return Err(h1.error);
      }
      var h2 := ReadHVStatus(2, cache);
      if h2.Err? {
        return Err(h2.error);
      }
      r := Ok((ErrorDescription(AsInt(e).value), h1.value, h2.value));
    }

    /** `always_executed_hook` with a serial line configured: compute the
        state, push it under the queue rule, then settle the queue. */
    method Tick(link: Link, now: real, cache: string -> CachedAnswer) returns (computed: Option<DevState>)
      requires Valid()
      modifies this`missreadings, this`hv1Status, this`hv2Status, this`state, this`statesQueue, this`lastStateChange
      ensures Valid()
      ensures computed == TickDecision(link, now, cache, defaultStatus, old(voltages), old(currents))
      ensures computed.None? ==> state == old(state) && statesQueue == old(statesQueue) && lastStateChange == old(lastStateChange)
      ensures computed.Some? ==>
        (statesQueue, state, lastStateChange) == Settle(Push(old(statesQueue), old(state), computed.value), old(state), old(lastStateChange), now)
      ensures link.initialised && !CommsLost(link, now) ==> missreadings == ChannelReadsHistory(old(missreadings), cache)
      ensures !(link.initialised && !CommsLost(link, now)) ==> missreadings == old(missreadings)
      ensures hv1Status == if link.initialised && !CommsLost(link, now) && ReadInt(cache, "ErrorStatus").Ok? && StatusRead(cache, 1).Ok?
        then Some(StatusRead(cache, 1).value) else old(hv1Status)
      ensures hv2Status == if link.initialised && !CommsLost(link, now) && ChannelReads(cache).Ok?
        then Some(ChannelReads(cache).value.2) else old(hv2Status)
    {
      computed := Compute(link, now, cache);
      if computed.Some? {
        Enqueue(computed.value, now);
      }
    }

    /** The state the hook computes: INIT before the line is set up, UNKNOWN
        with the communication lost, otherwise from the channel readings
        (nothing when one of them raises). */
    method Compute(link: Link, now: real, cache: string -> CachedAnswer) returns (computed: Option<DevState>)
      requires Valid()
      modifies this`missreadings, this`hv1Status, this`hv2Status
      ensures Valid()
      ensures computed == TickDecision(link, now, cache, defaultStatus, voltages, currents)
      ensures link.initialised && !CommsLost(link, now) ==> missreadings == ChannelReadsHistory(old(missreadings), cache)
      ensures !(link.initialised && !CommsLost(link, now)) ==> missreadings == old(missreadings)
      ensures hv1Status == if link.initialised && !CommsLost(link, now) && ReadInt(cache, "ErrorStatus").Ok? && StatusRead(cache, 1).Ok?
        then Some(StatusRead(cache, 1).value) else old(hv1Status)
      ensures hv2Status == if link.initialised && !CommsLost(link, now) && ChannelReads(cache).Ok?
        then Some(ChannelReads(cache).value.2) else old(hv2Status)
    {
      if !link.initialised {
        return Some(INIT);
      } else if CommsLost(link, now) {
        return Some(UNKNOWN);
      }
      var got := ReadChannels(cache);
      if got.Err? {
        return None;
      }
      var moving := DetectOscillation(voltages, currents);
      var (desc, h1, h2) := got.value;
      computed := Some(if moving then MOVING else ReadingsState(desc, h1, h2, defaultStatus));
    }

    /** The end of the hook: push the computed state, then settle the queue. */
    method Enqueue(s: DevState, now: real)
      requires Valid()
      modifies this`state, this`statesQueue, this`lastStateChange
      ensures Valid()
      ensures (statesQueue, state, lastStateChange) == Settle(Push(old(statesQueue), old(state), s), old(state), old(lastStateChange), now)
    {
      PushSpec(statesQueue, state, s);
      statesQueue := Push(statesQueue, state, s);
      if |statesQueue| > 1 && now >= lastStateChange + statesQueue[0].dwell as real {
        statesQueue := statesQueue[1..];
      }
      if statesQueue[0].state != state {
        state := statesQueue[0].state;
        lastStateChange := now;
      }
    }

    /** One token of a warm-up: its action, when it names one and its guard
        passes. */
    method RunToken(env: Env, eval: string -> Option<bool>, token: string) returns (failure: Option<Error>)
      modifies this`lastSerialChange, this`forceStep, this`forceProtect, this`sent
      ensures var s := TokenRun(old(Arb()), env, eval, token);
        Arb() == s.arb && sent == old(sent) + s.events && failure == s.failure
    {
      var s := TokenRun(Arb(), env, eval, token);
      Commit(s);
      failure := s.failure;
    }

    /** The warm-up loop: the tokens in order; an action that raises ends the
        loop with its exception. */
    method RunSequence(env: Env, eval: string -> Option<bool>, tokens: seq<string>) returns (failure: Option<Error>)
      modifies this`lastSerialChange, this`forceStep, this`forceProtect, this`sent
      ensures var run := Execute(old(Arb()), env, eval, tokens);
        Arb() == run.arb && sent == old(sent) + run.events && failure == run.failure
    {
      ghost var a0 := Arb();
      ghost var sent0 := sent;
      failure := None;
      var i := 0;
      while i < |tokens| && failure.None?
        invariant 0 <= i <= |tokens|
        invariant var run := Execute(a0, env, eval, tokens[..i]);
          Arb() == run.arb && sent == sent0 + run.events && failure == run.failure
      {
        ghost var before := Execute(a0, env, eval, tokens[..i]);
        ExecuteSnoc(a0, env, eval, tokens[..i], tokens[i]);
        assert tokens[..i + 1] == tokens[..i] + [tokens[i]];
        ghost var step := TokenRun(Arb(), env, eval, tokens[i]);
        AppendLog(sent0, before, step);
        failure := RunToken(env, eval, tokens[i]);
        i := i + 1;
      }
      if failure.Some? {
        FailureEndsSequence(a0, env, eval, tokens[..i], tokens[i..]);
        assert tokens[..i] + tokens[i..] == tokens;
      } else {
        assert tokens[..i] == tokens;
      }
    }

    /** `WarmUp`: store the cleaned sequence, run it, and return it as lines
        or raise the exception that ended it. */
    method WarmUp(now: real, mode: Result<string>, eval: string -> Option<bool>) returns (r: Result<string>)
      modifies this`startSequence, this`lastSerialChange, this`forceStep, this`forceProtect, this`sent
      ensures startSequence == Prepare(old(startSequence))
      ensures var run := Execute(old(Arb()), EnvAt(now, mode), eval, startSequence);
        Arb() == run.arb && sent == old(sent) + run.events
        && r == if run.failure.Some? then Err(run.failure.value) else Ok(Listing(startSequence))
    {
      startSequence := Prepare(startSequence);
      var failure := RunSequence(EnvAt(now, mode), eval, startSequence);
      r := if failure.Some? then Err(failure.value) else Ok(Listing(startSequence));
    }
  }
}
