/** The command side of the VarianDUAL device: the `HVComms` table of named
    frames built in `init_device`, the checksum helper, the NACK decoding done
    by `SendCommand`, and the pump-type encoding of `write_IonPumpsConfig`. */
module Commands {
  import opened Outcomes
  import opened Strings
  import opened MultiGauge

  /** One `addCommand(name, packMultiGauge(channel, code, payload), period)`;
      a period of 0 is the default, which registers the frame without
      polling it. */
  datatype CommandSpec = CommandSpec(name: string, channel: int, code: int, payload: string, period: real)

  /** The polled read commands, in registration order. */
  const ReadCommands: seq<CommandSpec> := [
    CommandSpec("HV1 V", 1, GeneralComms["V Meas"], READ, 1.0),
    CommandSpec("HV1 I", 1, GeneralComms["I Meas"], READ, 1.0),
    CommandSpec("HV1 P", 1, GeneralComms["P Meas"], READ, 1.0),
    CommandSpec("HV2 V", 2, GeneralComms["V Meas"], READ, 1.0),
    CommandSpec("HV2 I", 2, GeneralComms["I Meas"], READ, 1.0),
    CommandSpec("HV2 P", 2, GeneralComms["P Meas"], READ, 1.0),
    CommandSpec("ModeLocal", 0, GeneralComms["Local/Remote"], READ, 10.0),
    CommandSpec("Remote Error", 0, GeneralComms["Remote Error"], READ, 10.0),
    CommandSpec("Interlock", 0, GeneralComms["Interlock"], READ, 10.0),
    CommandSpec("ErrorStatus", 1, GeneralComms["Error Status"], READ, 10.0),
    CommandSpec("HV1Status", 1, GeneralComms["HV On/Off"], READ, 10.0),
    CommandSpec("HV2Status", 2, GeneralComms["HV On/Off"], READ, 10.0),
    CommandSpec("HV1Step", 1, HighVoltageCommands["fixed/step"], READ, 10.0),
    CommandSpec("HV1Protect", 1, HighVoltageCommands["start/protect"], READ, 10.0),
    CommandSpec("HV2Step", 2, HighVoltageCommands["fixed/step"], READ, 10.0),
    CommandSpec("HV2Protect", 2, HighVoltageCommands["start/protect"], READ, 10.0),
    CommandSpec("HV1 IProtect", 1, HighVoltageCommands["Iprotect"], READ, 10.0),
    CommandSpec("HV2 IProtect", 2, HighVoltageCommands["Iprotect"], READ, 10.0),
    CommandSpec("HV1 PSetPoint", 1, HighVoltageCommands["SetPt1"], READ, 10.0),
    CommandSpec("HV2 PSetPoint", 2, HighVoltageCommands["SetPt1"], READ, 10.0),
    CommandSpec("Firmware", 0, GeneralComms["Firmware"], READ, 60.0),
    CommandSpec("Pump1", 1, GeneralComms["Device Type"], READ, 60.0),
    CommandSpec("Pump2", 2, GeneralComms["Device Type"], READ, 60.0)
  ]

  /** The write commands, stored in the table but never polled. */
  const WriteCommands: seq<CommandSpec> := [
    CommandSpec("Serial On", 0, GeneralComms["Local/Remote"], "2", 0.0),
    CommandSpec("Serial Off", 0, GeneralComms["Local/Remote"], "0", 0.0),
    CommandSpec("HV1 On", 1, GeneralComms["HV On/Off"], "1", 0.0),
    CommandSpec("HV1 Off", 1, GeneralComms["HV On/Off"], "0", 0.0),
    CommandSpec("HV2 On", 2, GeneralComms["HV On/Off"], "1", 0.0),
    CommandSpec("HV2 Off", 2, GeneralComms["HV On/Off"], "0", 0.0),
    CommandSpec("HV1setFixed", 1, HighVoltageCommands["fixed/step"], "0", 0.0),
    CommandSpec("HV1setStep", 1, HighVoltageCommands["fixed/step"], "1", 0.0),
    CommandSpec("HV1setStart", 1, HighVoltageCommands["start/protect"], "0", 0.0),
    CommandSpec("HV1setProtect", 1, HighVoltageCommands["start/protect"], "1", 0.0),
    CommandSpec("HV2setFixed", 2, HighVoltageCommands["fixed/step"], "0", 0.0),
    CommandSpec("HV2setStep", 2, HighVoltageCommands["fixed/step"], "1", 0.0),
    CommandSpec("HV2setStart", 2, HighVoltageCommands["start/protect"], "0", 0.0),
    CommandSpec("HV2setProtect", 2, HighVoltageCommands["start/protect"], "1", 0.0)
  ]

  const CommandTable: seq<CommandSpec> := ReadCommands + WriteCommands

  function FrameOf(c: CommandSpec): string
  {
    Pack(c.channel, c.code, c.payload)
  }

  /** Which entry each name ends up with after the assignments in order: a
      later assignment to the same name replaces an earlier one. */
  function Assigned(t: seq<CommandSpec>): map<string, CommandSpec>
  {
    if t == [] then map[] else Assigned(t[..|t| - 1])[t[|t| - 1].name := t[|t| - 1]]
  }

  /** The dictionary of frames built from a table. */
  function BuildComms(t: seq<CommandSpec>): map<string, string>
  {
    var a := Assigned(t);
    map name | name in a :: FrameOf(a[name])
  }

  /** `self.HVComms` after `init_device`. */
  function HVComms(): map<string, string>
  {
    BuildComms(CommandTable)
  }

  /** The frames of the entries with a positive period, in order. */
  function Polled(t: seq<CommandSpec>, frame: CommandSpec -> string): seq<string>
  {
    if t == [] then []
    else Polled(t[..|t| - 1], frame) + (if t[|t| - 1].period > 0.0 then [frame(t[|t| - 1])] else [])
  }

  /** The frames handed to the polling engine, in registration order. */
  function PolledFrames(t: seq<CommandSpec>): seq<string>
  {
    Polled(t, FrameOf)
  }

  // ---------------------------------------------------------------------
  // Properties of the table.

  /** The index of the last entry named `name`. */
  function LastIndexOf(t: seq<CommandSpec>, name: string): (r: Option<nat>)
    ensures r.Some? ==> r.value < |t| && t[r.value].name == name
    ensures r.Some? ==> forall j | r.value < j < |t| :: t[j].name != name
    ensures r.None? ==> forall j | 0 <= j < |t| :: t[j].name != name
  {
    if t == [] then None
    else if t[|t| - 1].name == name then Some(|t| - 1)
    else LastIndexOf(t[..|t| - 1], name)
  }

  /** The keys are exactly the names assigned, and each name maps to the
      frame of its last assignment. */
  lemma BuildCommsSpec(t: seq<CommandSpec>, name: string)
    ensures name in BuildComms(t) <==> LastIndexOf(t, name).Some?
    ensures name in BuildComms(t) ==> BuildComms(t)[name] == FrameOf(t[LastIndexOf(t, name).value])
  {
    AssignedSpec(t, name);
  }

  lemma {:induction false} AssignedSpec(t: seq<CommandSpec>, name: string)
    ensures name in Assigned(t) <==> LastIndexOf(t, name).Some?
    ensures name in Assigned(t) ==> Assigned(t)[name] == t[LastIndexOf(t, name).value]
  {
    if t != [] {
      var n := |t| - 1;
      AssignedSpec(t[..n], name);
      if t[n].name != name {
        match LastIndexOf(t[..n], name)
        case Some(k) => assert t[k] == t[..n][k];
        case None =>
      }
    }
  }

  /** A name assigned at index i and never again maps to that entry's frame. */
  lemma LookupLast(t: seq<CommandSpec>, i: int)
    requires 0 <= i < |t|
    requires forall j | i < j < |t| :: t[j].name != t[i].name
    ensures t[i].name in BuildComms(t) && BuildComms(t)[t[i].name] == FrameOf(t[i])
  {
    BuildCommsSpec(t, t[i].name);
  }

  predicate WellFormedSpec(c: CommandSpec)
  {
    0 <= c.channel <= 2 && 0 <= c.code <= 99 && |c.payload| == 1
  }

  lemma TableWellFormed()
    ensures forall i | 0 <= i < |CommandTable| :: WellFormedSpec(CommandTable[i])
    ensures forall i | 0 <= i < |CommandTable| :: CommandTable[i].period > 0.0 <==> CommandTable[i].payload == READ
  {
    assert forall i | 0 <= i < |ReadCommands| ::
      WellFormedSpec(ReadCommands[i]) && ReadCommands[i].period > 0.0 && ReadCommands[i].payload == READ;
    assert forall i | 0 <= i < |WriteCommands| ::
      WellFormedSpec(WriteCommands[i]) && WriteCommands[i].period == 0.0 && WriteCommands[i].payload != READ;
    forall i | 0 <= i < |CommandTable|
      ensures WellFormedSpec(CommandTable[i])
      ensures CommandTable[i].period > 0.0 <==> CommandTable[i].payload == READ
    {
      if i < |ReadCommands| {
        assert CommandTable[i] == ReadCommands[i];
      } else {
        assert CommandTable[i] == WriteCommands[i - |ReadCommands|];
      }
    }
  }

  /** A frame of a well-formed entry is a 6-character request: ASK, the
      channel digit, two code digits, one payload character and TERM. */
  lemma FrameIsRequest(c: CommandSpec)
    requires WellFormedSpec(c)
    ensures var f := FrameOf(c); |f| == 6 && [f[0]] == ASK && [f[5]] == TERM && '0' <= f[1] <= '2'
  {
    PackLayout(c.channel, c.code, c.payload);
  }

  lemma {:induction false} BuiltFramesAreRequests(t: seq<CommandSpec>)
    requires forall i | 0 <= i < |t| :: WellFormedSpec(t[i])
    ensures forall name | name in BuildComms(t) ::
      var f := BuildComms(t)[name];
      |f| == 6 && [f[0]] == ASK && [f[5]] == TERM && '0' <= f[1] <= '2'
  {
    forall name | name in BuildComms(t)
      ensures var f := BuildComms(t)[name]; |f| == 6 && [f[0]] == ASK && [f[5]] == TERM && '0' <= f[1] <= '2'
    {
      BuildCommsSpec(t, name);
      FrameIsRequest(t[LastIndexOf(t, name).value]);
    }
  }

  /** Every frame in the table is a 6-character request: ASK, the channel
      digit, two code digits, one payload character and TERM. */
  lemma HVCommsFramesAreRequests()
    ensures forall name | name in HVComms() ::
      var f := HVComms()[name];
      |f| == 6 && [f[0]] == ASK && [f[5]] == TERM && '0' <= f[1] <= '2'
  {
    TableWellFormed();
    BuiltFramesAreRequests(CommandTable);
  }

  /** Every polled frame is the frame of an entry with a positive period. */
  lemma {:induction false} PolledFrom(t: seq<CommandSpec>, frame: CommandSpec -> string)
    ensures forall f | f in Polled(t, frame) :: exists i | 0 <= i < |t| :: t[i].period > 0.0 && f == frame(t[i])
  {
    if t != [] {
      var n := |t| - 1;
      var p := t[..n];
      PolledFrom(p, frame);
      forall f | f in Polled(t, frame) ensures exists i | 0 <= i < |t| :: t[i].period > 0.0 && f == frame(t[i]) {
        if f in Polled(p, frame) {
          var i :| 0 <= i < |p| && p[i].period > 0.0 && f == frame(p[i]);
          assert t[i] == p[i];
        } else {
          assert t[n].period > 0.0 && f == frame(t[n]);
        }
      }
    }
  }

  /** Only read requests are polled: every polled frame carries the READ
      payload, and the write frames never reach the polling engine. */
  lemma PolledFramesAreReads(t: seq<CommandSpec>)
    requires forall i | 0 <= i < |t| :: WellFormedSpec(t[i]) && (t[i].period > 0.0 <==> t[i].payload == READ)
    ensures forall f | f in PolledFrames(t) :: |f| == 6 && f[4..] == READ + TERM
    ensures forall i | 0 <= i < |t| && t[i].payload != READ :: FrameOf(t[i]) !in PolledFrames(t)
  {
    PolledFrom(t, FrameOf);
    forall f | f in PolledFrames(t) ensures |f| == 6 && f[4..] == READ + TERM {
      var i :| 0 <= i < |t| && t[i].period > 0.0 && f == FrameOf(t[i]);
      PackLayout(t[i].channel, t[i].code, t[i].payload);
    }
    forall i | 0 <= i < |t| && t[i].payload != READ
      ensures FrameOf(t[i]) !in PolledFrames(t)
    {
      PackLayout(t[i].channel, t[i].code, t[i].payload);
      var f := FrameOf(t[i]);
      assert [f[4]] == t[i].payload;
    }
  }

  /** With every period positive, every entry is polled, in order. */
  lemma {:induction false} PolledAll(t: seq<CommandSpec>, frame: CommandSpec -> string)
    requires forall i | 0 <= i < |t| :: t[i].period > 0.0
    ensures |Polled(t, frame)| == |t|
    ensures forall i | 0 <= i < |t| :: Polled(t, frame)[i] == frame(t[i])
  {
    if t != [] {
      var n := |t| - 1;
      var p := t[..n];
      assert forall i | 0 <= i < n :: t[i] == p[i];
      PolledAll(p, frame);
    }
  }

  /** Every entry with a positive period is polled, in order. */
  lemma PolledFramesAll(t: seq<CommandSpec>)
    requires forall i | 0 <= i < |t| :: t[i].period > 0.0
    ensures |PolledFrames(t)| == |t|
    ensures forall i | 0 <= i < |t| :: PolledFrames(t)[i] == FrameOf(t[i])
  {
    PolledAll(t, FrameOf);
  }

  /** Entries with period 0 add nothing to the polled list. */
  lemma {:induction false} PolledFramesAppend(t: seq<CommandSpec>, u: seq<CommandSpec>)
    requires forall i | 0 <= i < |u| :: u[i].period == 0.0
    ensures PolledFrames(t + u) == PolledFrames(t)
    decreases |u|
  {
    if u == [] {
      assert t + u == t;
    } else {
      var n := |u| - 1;
      assert (t + u)[..|t + u| - 1] == t + u[..n];
      assert (t + u)[|t + u| - 1] == u[n];
      PolledFramesAppend(t, u[..n]);
    }
  }

  /** The engine polls exactly the 23 read frames, in registration order. */
  lemma PolledTable()
    ensures PolledFrames(CommandTable) == PolledFrames(ReadCommands)
    ensures |PolledFrames(CommandTable)| == |ReadCommands| == 23
    ensures forall i | 0 <= i < |ReadCommands| :: PolledFrames(CommandTable)[i] == FrameOf(ReadCommands[i])
  {
    PolledFramesAppend(ReadCommands, WriteCommands);
    PolledFramesAll(ReadCommands);
  }

  /** Each write command's name maps to its own frame: no later assignment
      reuses a write name. */
  lemma WriteCommandFrames()
    ensures forall i | 0 <= i < |WriteCommands| ::
      WriteCommands[i].name in HVComms() && HVComms()[WriteCommands[i].name] == FrameOf(WriteCommands[i])
  {
    WriteNamesDistinct();
    TailLookups(ReadCommands, WriteCommands);
  }

  lemma WriteNamesDistinct()
    ensures forall i, j | 0 <= i < j < |WriteCommands| :: WriteCommands[i].name != WriteCommands[j].name
  {
  }

  /** Entries appended with distinct names each map to their own frame. */
  lemma TailLookups(t: seq<CommandSpec>, u: seq<CommandSpec>)
    requires forall i, j | 0 <= i < j < |u| :: u[i].name != u[j].name
    ensures forall i | 0 <= i < |u| :: u[i].name in BuildComms(t + u) && BuildComms(t + u)[u[i].name] == FrameOf(u[i])
  {
    var r := |t|;
    forall i | 0 <= i < |u|
      ensures u[i].name in BuildComms(t + u) && BuildComms(t + u)[u[i].name] == FrameOf(u[i])
    {
      assert (t + u)[r + i] == u[i];
      assert forall j | r + i < j < |t + u| :: (t + u)[j] == u[j - r];
      LookupLast(t + u, r + i);
    }
  }

  /** The frames written to switch the controller to serial and back, to
      switch channel 1 on and to put channel 2 in protect mode. */
  lemma WriteFrameExamples()
    ensures WriteCommands[0].name == "Serial On" && FrameOf(WriteCommands[0]) == "#0102\r"
    ensures WriteCommands[1].name == "Serial Off" && FrameOf(WriteCommands[1]) == "#0100\r"
    ensures WriteCommands[2].name == "HV1 On" && FrameOf(WriteCommands[2]) == "#1301\r"
    ensures WriteCommands[13].name == "HV2setProtect" && FrameOf(WriteCommands[13]) == "#2611\r"
  {
    assert GeneralComms["Local/Remote"] == 10 && GeneralComms["HV On/Off"] == 30;
    assert HighVoltageCommands["start/protect"] == 61;
    assert WriteCommands[0] == CommandSpec("Serial On", 0, 10, "2", 0.0);
    assert WriteCommands[1] == CommandSpec("Serial Off", 0, 10, "0", 0.0);
    assert WriteCommands[2] == CommandSpec("HV1 On", 1, 30, "1", 0.0);
    assert WriteCommands[13] == CommandSpec("HV2setProtect", 2, 61, "1", 0.0);
    FrameExample(0, 10, "2", "#0102\r");
    FrameExample(0, 10, "0", "#0100\r");
    FrameExample(1, 30, "1", "#1301\r");
    FrameExample(2, 61, "1", "#2611\r");
  }

  lemma FrameExample(chann: int, comm: int, data: string, frame: string)
    requires 0 <= chann <= 9 && 0 <= comm <= 99
    requires frame == ['#', DigitChar(chann), DigitChar(comm / 10), DigitChar(comm % 10)] + data + ['\r']
    ensures Pack(chann, comm, data) == frame
  {
    PackLayout(chann, comm, data);
  }

  /** The names the mode and high-voltage commands write. */
  const WriteNames: set<string> := set i | 0 <= i < |WriteCommands| :: WriteCommands[i].name

  /** Every write name is a key of the table, so `self.HVComms[name]` in the
      command methods never raises. */
  lemma WriteNamesAreKeys()
    ensures forall name | name in WriteNames :: name in HVComms()
  {
    forall name | name in WriteNames ensures name in HVComms() {
      var i :| 0 <= i < |WriteCommands| && WriteCommands[i].name == name;
      assert CommandTable[|ReadCommands| + i] == WriteCommands[i];
      BuildCommsSpec(CommandTable, name);
    }
  }

  // ---------------------------------------------------------------------
  // AsciiChecksum.

  function SumOrd(s: string): nat
  {
    if s == [] then 0 else SumOrd(s[..|s| - 1]) + s[|s| - 1] as nat
  }

  /** `'%04d' % sum(ord(i) for i in argin)`. */
  function AsciiChecksum(argin: string): string
  {
    FormatInt(SumOrd(argin), 4)
  }

  /** The checksum is a string of at least four digits whose value is the sum
      of the character codes; under 10000 it is exactly four digits. */
  lemma ChecksumDigits(argin: string)
    ensures |AsciiChecksum(argin)| >= 4 && AllDigits(AsciiChecksum(argin))
    ensures DigitsValue(AsciiChecksum(argin)) == SumOrd(argin)
    ensures SumOrd(argin) < 10000 ==> |AsciiChecksum(argin)| == 4
  {
    var n := SumOrd(argin);
    if |NatToString(n)| <= 4 {
      FormatIntFixedWidth(n, 4);
    } else {
      DigitsValueOfNatToString(n);
    }
    if n < 10000 {
      assert Pow10(4) == 10000;
      NatToStringLength(n, 4, Pow10(4));
    }
  }

  lemma ChecksumExample()
    ensures AsciiChecksum("#005?") == "0247"
  {
    assert SumOrd("#") == 35 by { assert "#"[..0] == []; }
    assert SumOrd("#0") == 83 by { assert "#0"[..1] == "#"; }
    assert SumOrd("#00") == 131 by { assert "#00"[..2] == "#0"; }
    assert SumOrd("#005") == 184 by { assert "#005"[..3] == "#00"; }
    assert SumOrd("#005?") == 247 by { assert "#005?"[..4] == "#005"; }
    assert NatToString(247) == "247";
  }

  // ---------------------------------------------------------------------
  // NACK decoding in SendCommand.

  /** After the exchange: the character following the first '!' is looked up
      in ProtocolErrors; an answer without '!' is returned unchanged. */
  function CheckNack(result: string): Result<string>
  {
    match IndexOf(result, NACK[0])
    case None => Ok(result)
    case Some(k) =>
      if k + 1 >= |result| then Err(IndexError)
      else if result[k + 1] !in ProtocolErrors then Err(KeyError)
      else Err(ProtocolError(result[k + 1], ProtocolErrors[result[k + 1]]))
  }

  /** An answer passes exactly when it holds no '!'. */
  lemma NackPassIff(result: string)
    ensures CheckNack(result).Ok? <==> '!' !in result
    ensures CheckNack(result).Ok? ==> CheckNack(result).value == result
  {
  }

  /** The first '!' decides: its following character names the error, or
      raises when it is missing or not a protocol code. */
  lemma NackFirstBangDecides(prefix: string, c: char, rest: string)
    requires '!' !in prefix
    ensures CheckNack(prefix + "!") == Err(IndexError)
    ensures CheckNack(prefix + "!" + [c] + rest)
         == if c in ProtocolErrors then Err(ProtocolError(c, ProtocolErrors[c])) else Err(KeyError)
  {
    var s := prefix + "!" + [c] + rest;
    assert s[|prefix|] == '!' && s[..|prefix|] == prefix;
    assert s[|prefix| + 1] == c;
    var t := prefix + "!";
    assert t[|prefix|] == '!' && t[..|prefix|] == prefix;
  }

  /** The device's answer to one frame through `serialComm`; `None` when the
      call raises. */
  type Reply = string -> Option<string>

  /** `result += serialComm(arg) + separator` over the frames sent; `None`
      when one of the calls raises, which abandons the loop. */
  function Exchange(frames: seq<string>, reply: Reply, separator: string): Option<string>
  {
    if frames == [] then Some("")
    else match Exchange(frames[..|frames| - 1], reply, separator)
      case None => None
      case Some(before) =>
        match reply(frames[|frames| - 1])
        case None => None
        case Some(answer) => Some(before + answer + separator)
  }

  /** The exchange raises exactly when the device call raises on some frame. */
  lemma {:induction false} ExchangeRaisesIff(frames: seq<string>, reply: Reply, separator: string)
    ensures Exchange(frames, reply, separator).None?
            <==> exists k | 0 <= k < |frames| :: reply(frames[k]).None?
  {
    if frames != [] {
      var init := frames[..|frames| - 1];
      ExchangeRaisesIff(init, reply, separator);
      assert forall k | 0 <= k < |init| :: init[k] == frames[k];
      if exists k | 0 <= k < |init| :: reply(init[k]).None? {
        var k :| 0 <= k < |init| && reply(init[k]).None?;
        assert reply(frames[k]).None?;
      }
    }
  }

  /** When no call raises, the answer is the answers in order, each followed
      by the separator. */
  lemma {:induction false} ExchangeAnswers(frames: seq<string>, reply: Reply, separator: string, answers: seq<string>)
    requires |answers| == |frames|
    requires forall k | 0 <= k < |frames| :: reply(frames[k]) == Some(answers[k])
    ensures Exchange(frames, reply, separator) == Some(JoinAfter(answers, separator))
  {
    if frames != [] {
      var n := |frames| - 1;
      assert forall k | 0 <= k < n :: frames[..n][k] == frames[k];
      ExchangeAnswers(frames[..n], reply, separator, answers[..n]);
      assert answers[..n] == answers[..|answers| - 1];
    }
  }

  /** Each answer followed by the separator, concatenated. */
  function JoinAfter(answers: seq<string>, separator: string): string
  {
    if answers == [] then "" else JoinAfter(answers[..|answers| - 1], separator) + answers[|answers| - 1] + separator
  }

  /** The exchange went through and every line of its answer is an ACK. */
  predicate Acknowledged(frames: seq<string>, reply: Reply)
  {
    Exchange(frames, reply, "\n").Some? && AllAcknowledged(Exchange(frames, reply, "\n").value)
  }

  // ---------------------------------------------------------------------
  // write_IonPumpsConfig.

  /** `s.lower().strip().replace(' ', '')`. */
  function NormalizeType(s: string): string
  {
    RemoveChar(Strip(Lower(s)), ' ')
  }

  /** `numbers[0]`: the first entry of `types`, from index `from` on, whose
      normalised name matches. */
  function TypeIndexFrom(types: seq<string>, name: string, from: nat): (r: Option<nat>)
    requires from <= |types|
    ensures r.Some? ==> from <= r.value < |types| && NormalizeType(types[r.value]) == NormalizeType(name)
    ensures r.Some? ==> forall j | from <= j < r.value :: NormalizeType(types[j]) != NormalizeType(name)
    ensures r.None? ==> forall j | from <= j < |types| :: NormalizeType(types[j]) != NormalizeType(name)
    decreases |types| - from
  {
    if from == |types| then None
    else if NormalizeType(types[from]) == NormalizeType(name) then Some(from)
    else TypeIndexFrom(types, name, from + 1)
  }

  /** `chr` accepts codes below 256 only. */
  const MaxTypes: nat := 256 - 0x30

  /** `packMultiGauge(chan, GeneralComms['Device Number'], chr(0x30 + index))`. */
  function DeviceNumberFrame(chan: int, index: nat): string
    requires index < MaxTypes
  {
    Pack(chan, GeneralComms["Device Number"], [(0x30 + index) as char])
  }

  /** The two frames written for the two channels' pump types, looked up in
      `types` (the device passes `DeviceTypes`). */
  function IonPumpsFrames(types: seq<string>, data: seq<string>): Result<seq<string>>
    requires |types| <= MaxTypes
  {
    if |data| != 2 then Err(WrongDataLength)
    else match (TypeIndexFrom(types, data[0], 0), TypeIndexFrom(types, data[1], 0))
      case (Some(i), Some(j)) => Ok([DeviceNumberFrame(1, i), DeviceNumberFrame(2, j)])
      case _ => Err(UnknownType)
  }

  /** The encoding loop of `write_IonPumpsConfig`, over the channels 1 and 2. */
  method EncodeIonPumpsConfig(types: seq<string>, data: seq<string>) returns (r: Result<seq<string>>)
    requires |types| <= MaxTypes
    ensures r == IonPumpsFrames(types, data)
  {
    if |data| != 2 {
      return Err(WrongDataLength);
    }
    var commands: seq<string> := [];
    var chan := 1;
    while chan <= 2
      invariant 1 <= chan <= 3
      invariant |commands| == chan - 1
      invariant chan > 1 ==> TypeIndexFrom(types, data[0], 0).Some?
                             && commands[0] == DeviceNumberFrame(1, TypeIndexFrom(types, data[0], 0).value)
      invariant chan > 2 ==> TypeIndexFrom(types, data[1], 0).Some?
                             && commands[1] == DeviceNumberFrame(2, TypeIndexFrom(types, data[1], 0).value)
    {
      var numbers := TypeIndexFrom(types, data[chan - 1], 0);
      if numbers.None? {
        return Err(UnknownType);
      }
      commands := commands + [DeviceNumberFrame(chan, numbers.value)];
      chan := chan + 1;
    }
    assert commands == [commands[0], commands[1]];
    return Ok(commands);
  }

  /** `any(a.strip() != ACK for a in answer.strip().split('\n'))` is false. */
  predicate AllAcknowledged(answer: string)
  {
    var lines := Split(Strip(answer), '\n');
    forall k | 0 <= k < |lines| :: Strip(lines[k]) == ACK
  }

  /** The whole write: encode, exchange through SendCommand with '\n' as
      separator, decode a NACK, then demand an ACK on every line. */
  function WriteIonPumpsConfig(types: seq<string>, data: seq<string>, reply: Reply): Result<seq<string>>
    requires |types| <= MaxTypes
  {
    match IonPumpsFrames(types, data)
    case Err(e) => Err(e)
    case Ok(frames) =>
      match Exchange(frames, reply, "\n")
      case None => Err(SendCommandError)
      case Some(result) =>
        match CheckNack(result)
        case Err(e) => Err(e)
        case Ok(answer) => if AllAcknowledged(answer) then Ok(frames) else Err(NackReceived)
  }

  /** A name with no whitespace normalises to its lower-case form. */
  lemma NormalizeUnspaced(s: string)
    requires s != [] && forall k | 0 <= k < |s| :: !IsSpace(s[k])
    ensures NormalizeType(s) == Lower(s)
  {
    var l := Lower(s);
    assert forall k | 0 <= k < |s| :: l[k] == LowerChar(s[k]);
    StripUnpadded(l);
    RemoveAbsentChar(l, ' ');
  }

  /** Lower-casing keeps the length and the first character of a digit. */
  lemma LowerDistinct(a: string, b: string)
    requires a != [] && b != [] && (|a| != |b| || LowerChar(a[0]) != LowerChar(b[0]))
    ensures Lower(a) != Lower(b)
  {
    if |a| == |b| {
      assert Lower(a)[0] == LowerChar(a[0]) && Lower(b)[0] == LowerChar(b[0]);
    }
  }

  /** The pump type names are unaffected by normalisation apart from case and
      are told apart by their length or first character. */
  lemma DeviceTypesShape()
    ensures forall i | 0 <= i < |DeviceTypes| ::
      DeviceTypes[i] != [] && forall k | 0 <= k < |DeviceTypes[i]| :: !IsSpace(DeviceTypes[i][k])
    ensures forall i, j | 0 <= i < j < |DeviceTypes| ::
      |DeviceTypes[i]| != |DeviceTypes[j]| || LowerChar(DeviceTypes[i][0]) != LowerChar(DeviceTypes[j][0])
  {
  }

  /** The normalised pump type names are distinct, so every listed name
      selects its own index. */
  lemma TypeIndexOfListed(i: nat)
    requires i < |DeviceTypes|
    ensures TypeIndexFrom(DeviceTypes, DeviceTypes[i], 0) == Some(i)
  {
    DeviceTypesShape();
    var types := DeviceTypes;
    forall j | 0 <= j < |types| ensures NormalizeType(types[j]) == Lower(types[j]) {
      NormalizeUnspaced(types[j]);
    }
    forall j | 0 <= j < |types| && j != i ensures NormalizeType(types[j]) != NormalizeType(types[i]) {
      if j < i { LowerDistinct(types[j], types[i]); } else { LowerDistinct(types[i], types[j]); }
    }
  }

  /** A device-number frame is `#`, the channel digit, the code 01, the
      type character and CR. */
  lemma DeviceNumberLayout(chan: int, index: nat)
    requires 0 <= chan <= 9 && index < MaxTypes
    ensures DeviceNumberFrame(chan, index) == ['#', DigitChar(chan), '0', '1', (0x30 + index) as char, '\r']
  {
    assert GeneralComms["Device Number"] == 1;
    PackLayout(chan, 1, [(0x30 + index) as char]);
  }

  /** The frames for two names found at indices `i` and `j`. */
  lemma FramesOfIndices(types: seq<string>, data: seq<string>, i: nat, j: nat)
    requires |types| <= MaxTypes && |data| == 2
    requires TypeIndexFrom(types, data[0], 0) == Some(i) && TypeIndexFrom(types, data[1], 0) == Some(j)
    ensures IonPumpsFrames(types, data) == Ok([DeviceNumberFrame(1, i), DeviceNumberFrame(2, j)])
  {
  }

  /** Each channel's frame carries the type index as the character '0' + i. */
  lemma IonPumpsFramesLayout(i: nat, j: nat)
    requires i < |DeviceTypes| && j < |DeviceTypes|
    ensures IonPumpsFrames(DeviceTypes, [DeviceTypes[i], DeviceTypes[j]]).Ok?
    ensures var fs := IonPumpsFrames(DeviceTypes, [DeviceTypes[i], DeviceTypes[j]]).value;
      fs == [['#', '1', '0', '1', (0x30 + i) as char, '\r'], ['#', '2', '0', '1', (0x30 + j) as char, '\r']]
  {
    var data := [DeviceTypes[i], DeviceTypes[j]];
    TypeIndexOfListed(i);
    TypeIndexOfListed(j);
    FramesOfIndices(DeviceTypes, data, i, j);
    DeviceNumberLayout(1, i);
    DeviceNumberLayout(2, j);
  }
}
