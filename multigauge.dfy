/** The MultiGauge ASCII protocol shared by Varian controllers: request frames
    `#` + channel digit + two-digit command code + payload + CR, answer frames
    with `>` in place of `#`, and the protocol's code and error tables. */
module MultiGauge {
  import opened Outcomes
  import opened Strings

  const ASK: string := "#"
  const ANSWER: string := ">"
  const READ: string := "?"
  const ACK: string := [6 as char]
  const NACK: string := "!"
  const TERM: string := "\r"

  /** `packMultiGauge(chann, comm, data)`: the channel is printed with '%1d'
      (never padded), the code with '%02d' (padded to two, widened beyond). */
  function Pack(chann: int, comm: int, data: string): string
  {
    ASK + IntToString(chann) + FormatInt(comm, 2) + data + TERM
  }

  /** The triple `unpackMultiGauge` returns with its default `_type=int`. */
  datatype Frame = Frame(channel: int, code: int, data: int)

  /** `unpackMultiGauge(result)`. `result[0]` is evaluated before the length
      test, so the empty string raises IndexError; an int() that fails raises
      ValueError; a string that is not an answer frame gives None. */
  function Unpack(result: string): Result<Option<Frame>>
  {
    if |result| == 0 then Err(IndexError)
    else if [result[0]] != ANSWER || [result[|result| - 1]] != TERM || |result| < 5 then Ok(None)
    else
      match (ParseInt(result[1..2]), ParseInt(result[2..4]), ParseInt(result[4..|result| - 1]))
      case (Some(c), Some(k), Some(d)) => Ok(Some(Frame(c, k, d)))
      case _ => Err(ValueError)
  }

  const GeneralComms: map<string, int> := map[
    "Local/Remote" := 10,
    "HV On/Off" := 30,
    "Unit" := 3,
    "Firmware" := 5,
    "V Meas" := 7,
    "I Meas" := 8,
    "P Meas" := 2,
    "Error Status" := 19,
    "Serial Reset" := 6,
    "Device Number" := 1,
    "Device Type" := 11,
    "Remote Error" := 12,
    "Interlock" := 13
  ]

  /** Pump types in the order whose index the controller uses as the device type. */
  const DeviceTypes: seq<string> := [
    "Spare", "500SC/Tr", "300SC/Tr", "150SC/Tr", "75-55-40SC/Tr", "20SC/Tr",
    "500Diode/ND", "300Diode/ND", "150Diode/ND", "75-55-40Diode/ND", "20-25Diode/ND"
  ]

  /** `OnOffCoding`, in the order the dict literal lists it. Two names share -7. */
  const OnOffCoding: seq<(string, int)> := [
    ("ON", 1),
    ("Off", 0),
    ("PanelInterlock", -3),
    ("RemoteInterlock", -4),
    ("CableInterlock", -5),
    ("HVTemperature", -8),
    ("RemoteFault", -7),
    ("HVProtect", -6),
    ("HVShortCircuit", -7)
  ]

  const HighVoltageCommands: map<string, int> := map[
    "fixed/step" := 60,
    "start/protect" := 61,
    "Vmax" := 63,
    "Iprotect" := 66,
    "SetPt1" := 71,
    "SetPt2" := 72
  ]

  /** `DualControllerErrorStatus`: error descriptions by subsystem ('HV',
      'MG', 'SW') and code string. */
  const HVErrors: map<string, string> := map[
      "1" := "31h High Voltage off due to front panel interlock activation Panel Interlock",
      "2" := "32h High Voltage off due to Remote I/O interlock activation Remote Interlock",
      "3" := "33h High Voltage off due to Cable HV interlock activation Cable Interlock",
      "4" := "34h Dual fault HV not found",
      "5" := "35h High Voltage off due to a general DSP determined fault HV Fault",
      "6" := "36h High Voltage off due to an HV module overtemperature determined by the DSP HV Overtemperature",
      "7" := "37h Remote I/O card not present or faulty R.I/O not found",
      "8" := "38h Remote I/O card present, but faulty R.I/O fault",
      "9" := "39h High Voltage off due to the protect function activation Protect",
      "10" := "31h30h High Voltage off due to shortcircuit protection activation Short Circuit",
      "11" := "31h31h High Voltage off due to an HV module overvoltage or overcurrent determined by the DSP Over Volt/Curr",
      "12" := "31h32h High Voltage off due to the zero measurement protection activation Zero Meas MiniGauge errors "
  ]

  const MGErrors: map<string, string> := map[
      "1" := "31h MiniGauge off due to front panel interlock activation Panel Interlock",
      "2" := "32h The selected Minigauge was not recognized Gauge not found",
      "3" := "33h The Minigauge is signaling a Fault condition Gauge fault",
      "4" := "34h The selected Minigauge was disconnected Gauge not connected System errors "
  ]

  const SWErrors: map<string, string> := map[
      "1" := "31h RAM failure: RAM diagnostics error Software Error",
      "2" := "32h config register: incorrect value in the uC 68HC11 configuration register Software Error",
      "3" := "33h test mode: invalid uC 68HC11 operating mode Software Error",
      "4" := "34h copyright: violation of the signature in the ROM or the ROM was corrupted Software Error",
      "5" := "35h eeprom fault: checksum or non-volatile memory write errors. Factory defaults are automatically loaded Software Error",
      "6" := "36h version number: incompatible uC and Dsp versions Software Error",
      "7" := "37h hv dsp not found: the Dsp does not respond during the uC initialization phase Software Error",
      "8" := "38h dsp fault: the Dsp does not respond during normal operation Software Error ",
      "9" := "39h invalid option: option card not configured correctly Software Error ",
      "10" := "31h30h unknow option: generic execution error Software Error"
  ]

  /** `ProtocolErrors`: the reason a NACK (`!` + one code character) gives. */
  const ProtocolErrors: map<char, string> := map[
    '1' := "Reserved (checksum error)",
    '2' := "Non existent command code",
    '3' := "Channel not valid for the selected command",
    '4' := "Write mode not allowed for the selected command",
    '5' := "Unvalid or non-congruent data transmitted",
    '6' := "Write value exceeding the allowed limits or step not allowed",
    '7' := "Data format not recognized on the protocols implemented",
    '8' := "Write not allowed to channel ON",
    '9' := "Write not allowed to channel OFF",
    ':' := "Write allowed in Serial Configuration Mode only"
  ]

  // ---------------------------------------------------------------------
  // Frame layout.

  lemma TwoDigitCode(comm: int)
    requires 0 <= comm <= 99
    ensures FormatInt(comm, 2) == [DigitChar(comm / 10), DigitChar(comm % 10)]
  {
    if comm >= 10 {
      assert NatToString(comm) == NatToString(comm / 10) + [DigitChar(comm % 10)];
    }
  }

  /** For a channel digit and a code below 100 a request is exactly
      `#`, the channel digit, two code digits, the payload and CR. */
  lemma PackLayout(chann: int, comm: int, data: string)
    requires 0 <= chann <= 9 && 0 <= comm <= 99
    ensures Pack(chann, comm, data)
         == ['#', DigitChar(chann), DigitChar(comm / 10), DigitChar(comm % 10)] + data + ['\r']
    ensures |Pack(chann, comm, data)| == 5 + |data|
  {
    TwoDigitCode(comm);
  }

  /** '%02d' does not reject a code of 100 or more: the field widens to all
      its digits and the frame grows beyond 5 + |data|. */
  lemma PackWidensLargeCodes(chann: int, comm: int, data: string)
    requires 0 <= chann <= 9 && comm >= 100
    ensures Pack(chann, comm, data) == "#" + [DigitChar(chann)] + NatToString(comm) + data + "\r"
    ensures |NatToString(comm)| >= 3 && |Pack(chann, comm, data)| > 5 + |data|
  {
    var s := NatToString(comm);
    assert s == NatToString(comm / 10) + [DigitChar(comm % 10)];
    assert NatToString(comm / 10) == NatToString(comm / 100) + [DigitChar((comm / 10) % 10)];
  }

  /** The request frames listed in the protocol class's documentation. */
  lemma PackDocumentedExamples()
    ensures Pack(0, 5, READ) == "#005?\r"
    ensures Pack(0, 12, READ) == "#012?\r"
    ensures Pack(0, 13, READ) == "#013?\r"
    ensures Pack(1, 2, READ) == "#102?\r"
    ensures Pack(1, 7, READ) == "#107?\r"
    ensures Pack(1, 8, READ) == "#108?\r"
    ensures Pack(1, 30, READ) == "#130?\r"
    ensures Pack(2, 2, READ) == "#202?\r"
    ensures Pack(2, 7, READ) == "#207?\r"
    ensures Pack(2, 8, READ) == "#208?\r"
    ensures Pack(2, 30, READ) == "#230?\r"
  {
    TwoDigitCode(5);
    TwoDigitCode(12);
    TwoDigitCode(13);
    TwoDigitCode(2);
    TwoDigitCode(7);
    TwoDigitCode(8);
    TwoDigitCode(30);
  }

  /** Within the protocol's ranges distinct requests are distinct frames. */
  lemma PackInjective(c1: int, k1: int, d1: string, c2: int, k2: int, d2: string)
    requires 0 <= c1 <= 9 && 0 <= k1 <= 99 && 0 <= c2 <= 9 && 0 <= k2 <= 99
    requires Pack(c1, k1, d1) == Pack(c2, k2, d2)
    ensures c1 == c2 && k1 == k2 && d1 == d2
  {
    PackLayout(c1, k1, d1);
    PackLayout(c2, k2, d2);
    var p := Pack(c1, k1, d1);
    assert p[1] == DigitChar(c1) && p[1] == DigitChar(c2);
    assert DigitValue(DigitChar(c1)) == c1 && DigitValue(DigitChar(c2)) == c2;
    assert p[2] == DigitChar(k1 / 10) && p[2] == DigitChar(k2 / 10);
    assert p[3] == DigitChar(k1 % 10) && p[3] == DigitChar(k2 % 10);
    assert DigitValue(DigitChar(k1 / 10)) == k1 / 10 && DigitValue(DigitChar(k2 / 10)) == k2 / 10;
    assert DigitValue(DigitChar(k1 % 10)) == k1 % 10 && DigitValue(DigitChar(k2 % 10)) == k2 % 10;
    assert d1 == p[4..|p| - 1] == d2;
  }

  // ---------------------------------------------------------------------
  // Parsing answers.

  /** `unpackMultiGauge('')` does not return None: `result[0]` raises first. */
  lemma UnpackEmptyRaises()
    ensures Unpack("") == Err(IndexError)
  {
  }

  /** None exactly for a non-empty string that is not an answer frame: wrong
      first character, wrong last character, or fewer than five characters. */
  lemma UnpackNoneIff(s: string)
    ensures Unpack(s) == Ok(None)
        <==> |s| >= 1 && (s[0] != '>' || s[|s| - 1] != '\r' || |s| < 5)
  {
    if |s| >= 1 {
      assert ([s[0]] != ANSWER) == (s[0] != '>');
      assert ([s[|s| - 1]] != TERM) == (s[|s| - 1] != '\r');
    }
  }

  /** Requests start with ASK, so a request never parses as an answer. */
  lemma UnpackRejectsRequests(chann: int, comm: int, data: string)
    ensures Unpack(Pack(chann, comm, data)) == Ok(None)
  {
    var p := Pack(chann, comm, data);
    assert p[0] == '#';
  }

  lemma ParseDigit(c: char)
    requires IsDigit(c)
    ensures ParseInt([c]) == Some(DigitValue(c))
  {
    StripUnpadded([c]);
    assert [c][..0] == [];
    assert DigitsValue([c]) == DigitValue(c);
  }

  lemma ParseTwoDigits(s: string)
    requires |s| == 2 && AllDigits(s)
    ensures ParseInt(s) == Some(DigitsValue(s))
  {
    StripUnpadded(s);
  }

  /** An answer frame whose three fields parse unpacks to them. */
  lemma UnpackFields(s: string, c: int, k: int, d: int)
    requires |s| >= 5 && [s[0]] == ANSWER && [s[|s| - 1]] == TERM
    requires ParseInt(s[1..2]) == Some(c) && ParseInt(s[2..4]) == Some(k) && ParseInt(s[4..|s| - 1]) == Some(d)
    ensures Unpack(s) == Ok(Some(Frame(c, k, d)))
  {
  }

  /** The fields of an answer frame sit where `unpackMultiGauge` slices. */
  lemma AnswerSlices(ch: char, code: string, payload: string)
    requires |code| == 2
    ensures var s := ANSWER + [ch] + code + payload + TERM;
      |s| == 5 + |payload| && [s[0]] == ANSWER && [s[|s| - 1]] == TERM
      && s[1..2] == [ch] && s[2..4] == code && s[4..|s| - 1] == payload
  {
    var s := ANSWER + [ch] + code + payload + TERM;
    var t := ['>', ch, code[0], code[1]] + payload + ['\r'];
    assert code == [code[0], code[1]];
    assert s == t;
    assert t[1..2] == [ch];
    assert t[2..4] == [code[0], code[1]];
    assert t[4..|t| - 1] == payload;
  }

  /** Any answer frame made of a channel digit, two code digits and a payload
      that `int()` accepts unpacks to exactly those three values. */
  lemma UnpackWellFormed(ch: char, code: string, payload: string)
    requires IsDigit(ch) && |code| == 2 && AllDigits(code) && ParseInt(payload).Some?
    ensures Unpack(ANSWER + [ch] + code + payload + TERM)
         == Ok(Some(Frame(DigitValue(ch), DigitsValue(code), ParseInt(payload).value)))
  {
    var s := ANSWER + [ch] + code + payload + TERM;
    AnswerSlices(ch, code, payload);
    ParseDigit(ch);
    ParseTwoDigits(code);
    UnpackFields(s, DigitValue(ch), DigitsValue(code), ParseInt(payload).value);
  }

  /** Round trip: the answer that mirrors a request (ASK replaced by ANSWER)
      with a decimal payload unpacks to the channel, the code and the number. */
  lemma RoundTrip(chann: int, comm: int, p: int)
    requires 0 <= chann <= 9 && 0 <= comm <= 99
    ensures Unpack(ANSWER + Pack(chann, comm, IntToString(p))[1..]) == Ok(Some(Frame(chann, comm, p)))
  {
    var d := IntToString(p);
    var code := [DigitChar(comm / 10), DigitChar(comm % 10)];
    PackLayout(chann, comm, d);
    MirroredRequest(DigitChar(chann), DigitChar(comm / 10), DigitChar(comm % 10), d);
    CodeDigits(comm);
    ParseIntOfIntToString(p, "");
    assert d + "" == d;
    UnpackWellFormed(DigitChar(chann), code, d);
  }

  /** The answer that mirrors a request: ANSWER, then the request's fields. */
  lemma MirroredRequest(a: char, b: char, c: char, d: string)
    ensures ANSWER + (['#', a, b, c] + d + ['\r'])[1..] == ANSWER + [a] + [b, c] + d + TERM
  {
    var rest := [a, b, c] + d + ['\r'];
    assert ['#', a, b, c] + d + ['\r'] == ['#'] + rest;
    assert (['#'] + rest)[1..] == rest;
  }

  /** The two digits of a code below 100 read back as the code. */
  lemma CodeDigits(comm: int)
    requires 0 <= comm <= 99
    ensures var code := [DigitChar(comm / 10), DigitChar(comm % 10)];
      AllDigits(code) && DigitsValue(code) == comm
  {
    var hi, lo := DigitChar(comm / 10), DigitChar(comm % 10);
    var code := [hi, lo];
    assert code[..1] == [hi] && [hi][..0] == [];
    assert DigitsValue([hi]) == DigitValue(hi);
    assert DigitsValue(code) == DigitValue(hi) * 10 + DigitValue(lo);
  }

  /** The worked example: `>130000\r` is channel 1, code 30, payload 0. */
  lemma UnpackExample()
    ensures Unpack(">130000\r") == Ok(Some(Frame(1, 30, 0)))
  {
    var s := ">130000\r";
    ParseDigit('1');
    assert s[1..2] == "1";
    assert s[2..4] == "30";
    ParseTwoDigits("30");
    assert "30"[..1] == "3";
    assert s[4..|s| - 1] == "000";
    StripUnpadded("000");
    assert "000"[..2] == "00" && "00"[..1] == "0";
  }

  // ---------------------------------------------------------------------
  // Tables.

  /** Every command code of both tables fits the two-digit field. */
  lemma CommandCodesInRange()
    ensures forall name | name in GeneralComms :: 0 <= GeneralComms[name] <= 99
    ensures forall name | name in HighVoltageCommands :: 0 <= HighVoltageCommands[name] <= 99
  {
  }

  /** Hence every frame built from a table code has the fixed layout length. */
  lemma TableFramesHaveFixedLength(chann: int, data: string)
    requires 0 <= chann <= 9
    ensures forall name | name in GeneralComms :: |Pack(chann, GeneralComms[name], data)| == 5 + |data|
    ensures forall name | name in HighVoltageCommands :: |Pack(chann, HighVoltageCommands[name], data)| == 5 + |data|
  {
    CommandCodesInRange();
    forall comm | 0 <= comm <= 99
      ensures |Pack(chann, comm, data)| == 5 + |data|
    {
      PackLayout(chann, comm, data);
    }
  }

  /** OnOffCoding is not injective: RemoteFault and HVShortCircuit share -7. */
  lemma OnOffCodingNotInjective()
    ensures exists i, j | 0 <= i < j < |OnOffCoding| ::
      OnOffCoding[i].1 == OnOffCoding[j].1 && OnOffCoding[i].0 != OnOffCoding[j].0
    ensures OnOffCoding[6] == ("RemoteFault", -7) && OnOffCoding[8] == ("HVShortCircuit", -7)
  {
    assert OnOffCoding[6].1 == OnOffCoding[8].1 && OnOffCoding[6].0 != OnOffCoding[8].0;
  }

  /** The NACK code characters are the ten consecutive characters after '0'. */
  lemma ProtocolErrorCodes()
    ensures forall c :: c in ProtocolErrors <==> '1' <= c <= ':'
  {
  }
}
