# VarianDUAL ion pump controller: a Dafny model

This project models the core of the Tango device server for the Varian
Dual ion pump controller. It has two parts.

- **The MultiGauge protocol codec.** Request frames are `#`, a channel
  digit, a two-digit command code, a payload and a carriage return.
  Answer frames start with `>` and are parsed back into
  (channel, code, payload). The protocol's constant tables are included:
  command codes, on/off codes, error descriptions, NACK reasons and pump
  types.
- **The decision logic of the `VarianDUAL` device.** This covers:
  - how a cached answer becomes a value, a "not updated" error or a
    misreading, and the bounded history of misreadings;
  - how the device state (INIT, UNKNOWN, FAULT, ALARM, DISABLE, OFF, ON,
    MOVING) is chosen from the link counters, the channel statuses and the
    oscillation of voltages and currents;
  - the push rule of the state queue;
  - the LOCAL/SERIAL arbiter behind `SetMode`, `writeCommand`,
    `SendCommand`, `On`, `Off`, `OnHV1`/`OnHV2`/`OffHV1`/`OffHV2` and the
    automatic corrections of the mode readers;
  - the warm-up sequencer `WarmUp`;
  - the `HVComms` frame table;
  - the pump-type encoding of `write_IonPumpsConfig`.

The modules follow the program:

| Module | File | Models |
|---|---|---|
| `Outcomes` | `outcomes.dfy` | `Option`, `Result` and the exceptions the code raises |
| `Strings` | `strings.dfy` | the Python 2 `str`/`int` behaviour the code relies on: `int()`, `long()`, `'%0Nd'`, `strip`, `split`, `lower`, `index`, `replace` |
| `MultiGauge` | `multigauge.dfy` | `packMultiGauge`, `unpackMultiGauge` and the tables |
| `Reading` | `reading.dfy` | `readCommand` with `REGEXPS`, `read_Missreadings`, status names, `getModeLocal`, the mode strings, the `HV` error table |
| `Commands` | `commands.dfy` | the `HVComms` table, `AsciiChecksum`, NACK decoding, the pump-type encoding |
| `Health` | `health.dfy` | the state decision of `always_executed_hook`, oscillation, the queue push rule, the status text and its cut |
| `Arbitration` | `arbitration.dfy` | the arbiter as pure step functions over `last_serial_change`, `ForceStep` and `ForceProtect`, emitting an ordered list of events |
| `Sequencer` | `sequencer.dfy` | token cleaning, guards and the ordered run of `WarmUp` |
| `Device` | `device.dfy` | the class `VarianDual`, whose methods update its fields in place and are proved against the functions above |

**Inputs instead of effects.** Outside effects are parameters:
- The clock `now` is fixed for the whole of one command.
- The polling engine's cached answers are `cache`.
- A serial exchange's answers are `reply`. A `None` answer stands for a
  device call that raises.
- The mode string the hardware reports is `mode`.
- The guard evaluator is `eval`, and float parsing is `toFloat`.

Writes to the controller are recorded, in order, as events: a table
write, a poll-next request, or an exchange of frames.

**Where the code is sharper than a prose description, the model follows the
code:**
- `unpackMultiGauge("")` raises, because `result[0]` is read first; it does not return None.
- `'%02d'` widens codes of 100 or more instead of rejecting them.
- `SetMode('local')` has no cooldown.
- The current-ratio band is open.
- A failing warm-up action ends the warm-up.
- `ForceLocal` is tested in two ways:
  - in the commands, by truthiness, so even "NO" counts;
  - in `read_ModeLocal`, by `lower() in ('true', 'yes')`.
- The mode readers wait strictly more than 60 s. `SetMode` waits 60 s or more.
- Only code 1 reads as "ON".
- The shared code -7 takes the later name in literal order, and the device
  state does not depend on that order.
- The comma rewrite of `WarmUp` applies only to the list `[","]`, which
  then cleans to the empty list.

## Model

| member | source | states |
|---|---|---|
| Strings.FormatIntFixedWidth | MultiGauge.py:75 | `'%0wd'` of a number below 10^w is exactly w digits whose value is the number |
| Strings.PaddedDigits | MultiGauge.py:75 | zero-padding a digit string to a width it fits in keeps its value |
| Strings.ParseIntOfIntToString | MultiGauge.py:80-82 | `int()` reads back the decimal text of any integer, with trailing whitespace ignored |
| Strings.IntToStringInjective | VarianDUAL.py:858 | `str` on integers is injective, so the error-table key of a code is unique |
| Strings.StripIdempotent | VarianDUAL.py:149 | stripping twice is stripping once, and stripping only keeps characters of the input |
| Strings.IndexOf | VarianDUAL.py:940 | `s.index(c)` finds the first occurrence exactly; None exactly when `c` is absent |
| MultiGauge.TwoDigitCode | MultiGauge.py:75 | `'%02d'` of a code below 100 is its tens digit then its units digit |
| MultiGauge.Pack | MultiGauge.py:59-75 | `packMultiGauge`: the request frame of a channel, a code and a payload; its layout, injectivity and the documented examples are `PackLayout`, `PackInjective` and `PackDocumentedExamples` |
| MultiGauge.Unpack | MultiGauge.py:77-82 | `unpackMultiGauge` with the default `int` type: IndexError on the empty answer, None on a bad frame, otherwise the three fields; `UnpackNoneIff`, `UnpackFields` and `RoundTrip` are its partners |
| MultiGauge.PackLayout | MultiGauge.py:59-75 | a request is `#`, the channel digit, two code digits, the payload and CR; its length is 5 plus the payload's |
| MultiGauge.PackWidensLargeCodes | MultiGauge.py:75 | codes of 100 or more are not rejected: the code field widens and the frame grows |
| MultiGauge.PackDocumentedExamples | MultiGauge.py:37-50 | the eleven request frames listed in the protocol class documentation are exact outputs |
| MultiGauge.PackInjective | MultiGauge.py:59-75 | within the protocol's ranges, distinct (channel, code, payload) give distinct frames |
| MultiGauge.UnpackEmptyRaises | MultiGauge.py:77-78 | the empty answer raises IndexError rather than returning None |
| MultiGauge.UnpackNoneIff | MultiGauge.py:78 | None exactly for a non-empty string with the wrong header, the wrong terminator or fewer than 5 characters |
| MultiGauge.UnpackRejectsRequests | MultiGauge.py:75-78 | a packed request never parses as an answer, since it starts with ASK |
| MultiGauge.AnswerSlices | MultiGauge.py:79-82 | the channel, code and payload of an answer frame sit at the slices `[1]`, `[2:4]` and `[4:-1]` |
| MultiGauge.UnpackFields | MultiGauge.py:77-82 | an answer frame whose three fields parse unpacks to exactly those values |
| MultiGauge.UnpackWellFormed | MultiGauge.py:77-82 | an answer made of a channel digit, two code digits and a numeral unpacks to their values |
| MultiGauge.RoundTrip | MultiGauge.py:75-82 | the answer that mirrors a request with a numeric payload unpacks to the request's channel, code and payload |
| MultiGauge.UnpackExample | MultiGauge.py:77-82 | `>130000\r` unpacks to channel 1, code 30, payload 0 |
| MultiGauge.CommandCodesInRange | MultiGauge.py:84-169 | every code of `GeneralComms` and `HighVoltageCommands` lies in 0..99 |
| MultiGauge.TableFramesHaveFixedLength | MultiGauge.py:84-169 | every frame built from a table code has length 5 plus the payload's |
| MultiGauge.OnOffCodingNotInjective | MultiGauge.py:116-136 | two different names of `OnOffCoding`, RemoteFault and HVShortCircuit, share -7 |
| MultiGauge.ProtocolErrorCodes | MultiGauge.py:208-224 | the NACK table's keys are exactly the ten characters `'1'` to `':'` |
| Reading.NotUpdatedIff | VarianDUAL.py:223-239 | "not updated" exactly when there is no cached answer or nothing follows the 3-character echo |
| Reading.Classify | VarianDUAL.py:210-245 | `readCommand` on one cached answer: not updated, misread or a value of the requested type; `NotUpdatedIff` and `MisreadIff` state each outcome both ways |
| Reading.MisreadIff | VarianDUAL.py:229-237 | a misreading exactly when the payload is non-empty and fails its type's pattern; the payload recorded is the answer without its echo |
| Reading.StringsNeverMisread | VarianDUAL.py:202-208 | with the `.*` pattern a non-empty string payload is always returned as it is |
| Reading.PatternsAreAnchoredAtStartOnly | VarianDUAL.py:202-233 | `re.match` checks only a prefix: trailing junk passes the pattern and fails the conversion, and a bool answer "10" is returned as the int 10 |
| Reading.IntAnswerReadsBack | VarianDUAL.py:223-233 | the cached answer to a request with an integer payload reads back as that integer |
| Reading.RecordKeepsNewest | VarianDUAL.py:868-869 | the trim keeps exactly the newest 256 entries of the history |
| Reading.RecordMissreading | VarianDUAL.py:866-871 | the bounded misreading history after one misreading; `RecordInvariants`, `RecordKeepsNewest`, `RecordNewestLast` and `RecordIdempotent` say what it keeps |
| Reading.RecordInvariants | VarianDUAL.py:866-869 | after a record the history has at most 256 entries, gains no duplicates, and holds only old entries or the new value |
| Reading.RecordNewestLast | VarianDUAL.py:868-869 | a new value ends up last; a value already present leaves a history of at most 256 entries unchanged |
| Reading.RecordIdempotent | VarianDUAL.py:868-869 | recording the same value twice is the same as recording it once |
| Reading.LookupStatusName | VarianDUAL.py:817-821 | the `iteritems` loop yields the name of the last matching entry, or "Unknown" |
| Reading.StatusName | VarianDUAL.py:813-821 | the status name of a code in `OnOffCoding`; the `LookupStatusName` loop computes it, and `LastMatchSpec`, `StatusNameCodes` and `SharedCodeTakesLastName` describe it |
| Reading.LastMatchSpec | VarianDUAL.py:819-820 | no match exactly when no entry carries the code; otherwise the name is that of the last entry carrying it |
| Reading.UniqueCodeName | VarianDUAL.py:819-820 | a code carried by exactly one entry is named by that entry |
| Reading.StatusNameCodes | VarianDUAL.py:817-820 | each interlock code maps to its name; 1 is "ON", and every code above 1 is "Unknown" because matching is exact |
| Reading.SharedCodeTakesLastName | VarianDUAL.py:819-820 | in literal order, -7 is named HVShortCircuit, the later of its two names |
| Reading.HVTable | MultiGauge.py:174-187 | the `HV` error table has the keys "1" to "12", each with a non-empty description |
| Reading.HVKeyOf | VarianDUAL.py:858 | `str(st)` is one of those keys exactly for the codes 1 to 12 |
| Reading.ErrorDescription | VarianDUAL.py:858 | the `HV` table description of a code, empty for a code that is not a key; `ErrorDescriptionIff` states when it is non-empty |
| Reading.ErrorDescriptionIff | VarianDUAL.py:858 | the error description is non-empty exactly for the codes 1 to 12 |
| Reading.ModeLocalNameTests | VarianDUAL.py:174-179 | the mode name contains "SERIAL" exactly for code 2 and "LOCAL" exactly for code 0 |
| Reading.ModeString | VarianDUAL.py:769-773 | the mode string of the two channel codes, or IndexError; `ModeStringShape`, `FixedShownIff` and `StartShownIff` describe it |
| Reading.ModeStringShape | VarianDUAL.py:769-773 | channel 1's name, then `;` and channel 2's name only when the codes differ; an out-of-range code raises IndexError |
| Reading.FixedShownIff | VarianDUAL.py:771-778 | the step mode string contains "FIXED" exactly when some channel is in fixed mode |
| Reading.StartShownIff | VarianDUAL.py:795-802 | the protect mode string contains "START" exactly when some channel is in start mode |
| Commands.LastIndexOf | VarianDUAL.py:314-315 | the index found carries the name and no later entry does; None exactly when no entry does |
| Commands.BuildComms | VarianDUAL.py:313-363 | the frame table built from the assignments in order; `BuildCommsSpec` and `LookupLast` say which frame each name gets |
| Commands.BuildCommsSpec | VarianDUAL.py:313-363 | a name is a key of the frame table exactly when it was assigned, and it maps to the frame of its last assignment |
| Commands.LookupLast | VarianDUAL.py:313-363 | an entry never reassigned later keeps its frame in the table |
| Commands.TableWellFormed | VarianDUAL.py:322-363 | every entry uses a channel 0..2 and a code below 100, and it is polled exactly when its payload is READ |
| Commands.FrameIsRequest | VarianDUAL.py:322-363 | every table frame is a 6-character request: ASK, a channel digit 0..2, two code digits, a payload character, CR |
| Commands.HVCommsFramesAreRequests | VarianDUAL.py:313-363 | every frame in `HVComms` has that request shape |
| Commands.PolledFrom | VarianDUAL.py:316-318 | every polled frame is the frame of an entry with a positive period |
| Commands.PolledFramesAreReads | VarianDUAL.py:314-319 | only read requests are polled; a write frame is never handed to the polling list |
| Commands.PolledFramesAppend | VarianDUAL.py:348-363 | the write assignments add nothing to the polled list |
| Commands.PolledTable | VarianDUAL.py:322-346 | the engine polls exactly the 23 read frames, in registration order |
| Commands.WriteCommandFrames | VarianDUAL.py:350-363 | every write command's name maps to its own frame |
| Commands.TailLookups | VarianDUAL.py:350-363 | entries assigned last with distinct names each keep their own frame |
| Commands.WriteFrameExamples | VarianDUAL.py:350-363 | 'Serial On' is `#0102\r`, 'Serial Off' `#0100\r`, 'HV1 On' `#1301\r`, 'HV2setProtect' `#2611\r` |
| Commands.WriteNamesAreKeys | VarianDUAL.py:350-363 | every name the commands write is a key of `HVComms`, so no lookup raises |
| Commands.ChecksumDigits | VarianDUAL.py:181-182 | the checksum is at least four digits whose value is the sum of the character codes; exactly four when the sum is below 10000 |
| Commands.ChecksumExample | VarianDUAL.py:181-182 | the checksum of `#005?` is `0247` |
| Commands.AsciiChecksum | VarianDUAL.py:181-182 | the `%04d` checksum of a frame; `ChecksumDigits` and `ChecksumExample` state its digits and value |
| Commands.NackPassIff | VarianDUAL.py:939-943 | an answer passes exactly when it holds no `!`, and then it is returned unchanged |
| Commands.NackFirstBangDecides | VarianDUAL.py:939-943 | the character after the first `!` names the protocol error; an unlisted one raises KeyError, and a trailing `!` raises IndexError |
| Commands.CheckNack | VarianDUAL.py:939-943 | the NACK decoding of an answer; `NackPassIff` and `NackFirstBangDecides` state its outcomes |
| Commands.Exchange | VarianDUAL.py:930-937 | the exchange loop of `SendCommand`: the answers in order, each followed by the separator, or `None` when a device call raises |
| Commands.ExchangeRaisesIff | VarianDUAL.py:930-937 | the exchange raises exactly when the device call raises on some frame |
| Commands.ExchangeAnswers | VarianDUAL.py:930-934 | when no call raises, the exchange returns the answers in frame order, each followed by the separator |
| Commands.TypeIndexFrom | VarianDUAL.py:602-604 | the index found is the first whose normalised name matches; None exactly when none matches |
| Commands.EncodeIonPumpsConfig | VarianDUAL.py:597-607 | the loop over channels 1 and 2 yields the pure encoding: a length error for a list that is not 2 long, an unknown-type error, or the two device-number frames |
| Commands.NormalizeUnspaced | VarianDUAL.py:603 | a name without whitespace normalises to its lower-case form |
| Commands.DeviceTypesShape | MultiGauge.py:100-112 | the pump type names are non-empty, hold no whitespace, and differ pairwise in length or in their first character |
| Commands.TypeIndexOfListed | VarianDUAL.py:602-604 | every listed pump type is found at its own index |
| Commands.DeviceNumberLayout | VarianDUAL.py:607 | a device-number frame is `#`, the channel digit, `01`, the character `'0'` plus the index, CR |
| Commands.FramesOfIndices | VarianDUAL.py:600-607 | two names found at indices i and j give the frames for channel 1 with i and channel 2 with j |
| Commands.IonPumpsFramesLayout | VarianDUAL.py:600-607 | any two listed pump types encode to the two exact 6-character frames |
| Commands.WriteIonPumpsConfig | VarianDUAL.py:592-611 | the transport view of `write_IonPumpsConfig`: a length or unknown-type error, `SendCommandError`, a protocol error, NackReceived, or the frames sent; `ConfigureAgrees` ties it to the arbiter view |
| Health.DetectOscillation | VarianDUAL.py:435-445 | the two `for ... break` loops report MOVING exactly when some voltage pair or current pair oscillates |
| Health.CommunicationsFirst | VarianDUAL.py:406-445 | INIT exactly when nothing was read; UNKNOWN exactly when communication is lost; MOVING only inside the readings branch |
| Health.ReadingsStateRange | VarianDUAL.py:424-433 | the readings alone never give INIT, UNKNOWN or MOVING |
| Health.ReadingsState | VarianDUAL.py:424-433 | the state chosen from the readings; `OffReasonPriority`, `OnOffAlarm` and `ReadingsStateRange` state its cases |
| Health.DecideState | VarianDUAL.py:406-445 | the hook's state decision; `CommunicationsFirst` and `StateIndependentOfDictOrder` state its priorities and its independence of dict order |
| Health.OffReasonPriority | VarianDUAL.py:424-428 | channel 1's off-reason wins, then channel 2's; then an error description gives FAULT |
| Health.OnOffAlarm | VarianDUAL.py:429-433 | without off-reasons or errors: OFF exactly when no channel is on, ALARM exactly when some is on and the statuses differ from DefaultStatus, otherwise ON |
| Health.OffReasonExamples | VarianDUAL.py:396-404 | a panel interlock on channel 1 gives DISABLE, and both -7 names give FAULT |
| Health.OscillationThresholds | VarianDUAL.py:436-444 | a 100 V step oscillates and a 99 V one does not; the ratio band is open; a zero reading never oscillates |
| Health.InitialReadingsAreQuiet | VarianDUAL.py:276-277 | the voltages and currents set up at initialisation do not oscillate |
| Health.SameCodeSameVerdict | VarianDUAL.py:396-404 | two names sharing a code are the same name or both give FAULT |
| Health.NameOfCode | VarianDUAL.py:819-820 | in any order, the name found is "Unknown" with no entry carrying the code, or the name of some entry carrying it |
| Health.ReadingsStateRespectsAgree | VarianDUAL.py:424-433 | names that agree for the decision give the same state |
| Health.NamesAgree | VarianDUAL.py:819-820 | in any order of the dict's entries, the name found agrees with the one found in literal order |
| Health.StateIndependentOfDictOrder | VarianDUAL.py:819-835 | the device state does not depend on the order in which the dict is iterated |
| Health.PushSpec | VarianDUAL.py:447-449 | pushing appends at most one entry, only a state other than the displayed one, and keeps queued states distinct |
| Health.Push | VarianDUAL.py:447-449 | the queue after one push; `PushSpec`, `PushDwell` and `QueueBounded` state the rule and its bound |
| Health.PushDwell | VarianDUAL.py:447-449 | a pushed ON dwells 1 second, any other state 20 seconds |
| Health.QueueBounded | VarianDUAL.py:447-449 | a queue without repeated states holds at most 8 entries, one per state |
| Health.DisplayedStatusSpec | VarianDUAL.py:466 | the displayed status is a prefix of at most 200 characters, and equals the text exactly when that has at most 200 |
| Health.StatusTextOfChannelOnly | VarianDUAL.py:457 | with the other parts empty the status is the channel text alone |
| Arbitration.SerialCooldown | VarianDUAL.py:958-973 | 'Serial On' is written exactly when 60 s have elapsed; inside the cooldown nothing changes; otherwise the clock is recorded |
| Arbitration.SerialOn | VarianDUAL.py:958-973 | `SetMode('serial')`; `SerialCooldown` states both sides of the cooldown and `SerialOnDisciplined` the discipline it keeps |
| Arbitration.SetMode | VarianDUAL.py:954-995 | `SetMode` of any argument; `LocalHasNoCooldown`, `UnknownArgumentDoesNothing`, `ModeCommandAfterCooldown` and `ModeCommandInCooldown` state its cases |
| Arbitration.WriteCommand | VarianDUAL.py:184-199 | `writeCommand` with its serial wrap; `ChannelCommandInSerial` and `ChannelDisciplined` describe it |
| Arbitration.LocalHasNoCooldown | VarianDUAL.py:974-976 | `SetMode('local')`, in any case, always writes 'Serial Off' and resets the clock to 0 |
| Arbitration.UnknownArgumentDoesNothing | VarianDUAL.py:954-995 | an argument that names no mode does nothing |
| Arbitration.ModeCommandAfterCooldown | VarianDUAL.py:977-994 | after the cooldown: 'Serial On', the mode poll, channel 1's then channel 2's frame, then 'Serial Off' when ForceLocal is truthy; fixed clears ForceStep and protect clears ForceProtect |
| Arbitration.ModeCommandInCooldown | VarianDUAL.py:977-994 | inside the cooldown only the two channel frames are written and the clock is unchanged |
| Arbitration.ForceLocalIsTruthy | VarianDUAL.py:978 | ForceLocal "NO" still restores local mode after a mode command |
| Arbitration.ModeReadFailureAborts | VarianDUAL.py:961-968 | a failing mode read after 'Serial On' raises before any channel frame is written |
| Arbitration.OnChannelSelection | VarianDUAL.py:1006-1014 | DefaultStatus selects the channels `On` switches: empty means both, "on,off" channel 1, "off,on" channel 2, "off,off" none |
| Arbitration.Switch | VarianDUAL.py:1003-1034 | the shared serial wrap of `On` and `Off` around their channel writes; `SwitchDisciplined` states the discipline it keeps |
| Arbitration.On | VarianDUAL.py:1003-1016 | `On`: the channels DefaultStatus selects are switched on; `OnChannelSelection` states which |
| Arbitration.Off | VarianDUAL.py:1024-1034 | `Off`: both channels are switched off inside `Switch`; `CommandsUseTableNames` and `CommandDisciplined` cover it |
| Arbitration.ChannelCommandInSerial | VarianDUAL.py:184-199 | already in SERIAL, a channel command writes its frame, restores local if decided at entry, then polls the status |
| Arbitration.CommandsUseTableNames | VarianDUAL.py:954-1086 | every frame a command writes is a write command of the table, and every frame it polls next is a read command |
| Arbitration.WriteNamesListed | VarianDUAL.py:350-363 | the fourteen write names the commands use are those the table defines |
| Arbitration.AutoLocalIff | VarianDUAL.py:751-758 | `read_ModeLocal` writes 'Serial Off' exactly when more than 60 s have passed, ForceLocal is "true" or "yes", and the mode is not LOCAL |
| Arbitration.AutoStepIff | VarianDUAL.py:775-782 | `read_ModeStep` acts exactly under its condition, writing the step frames after 'Serial On'; its exceptions are swallowed |
| Arbitration.AutoProtectIff | VarianDUAL.py:799-807 | `read_ModeProtect` acts exactly under its condition and then clears ForceProtect unless the mode read fails; with no HV1 status read yet it does nothing |
| Arbitration.AutoLocal | VarianDUAL.py:745-758 | the ForceLocal correction of `read_ModeLocal`; `AutoLocalIff` states when it writes |
| Arbitration.AutoStep | VarianDUAL.py:764-782 | the ForceStep correction of `read_ModeStep`; `AutoStepIff` states when it acts |
| Arbitration.AutoProtect | VarianDUAL.py:788-807 | the ForceProtect correction of `read_ModeProtect`; `AutoProtectIff` states when it acts |
| Arbitration.CooldownBoundaries | VarianDUAL.py:752-778 | exactly 60 s after the last change, `SetMode` may go serial but the mode readers do not yet correct |
| Arbitration.NackSkipsLocalRestore | VarianDUAL.py:939-944 | a NACK raises before local mode is restored, leaving the controller in serial mode |
| Arbitration.RaiseSkipsLocalRestore | VarianDUAL.py:930-945 | a device call that raises during the exchange ends the command with SendCommandError before local mode is restored |
| Arbitration.SendCommand | VarianDUAL.py:920-945 | `SendCommand`: the serial wrap, the exchange, then the raise or the local restore; `SendCommandWrap`, `NackSkipsLocalRestore`, `RaiseSkipsLocalRestore` and `SendDisciplined` describe it |
| Arbitration.SendCommandWrap | VarianDUAL.py:920-945 | without a NACK the exchange is wrapped like a command write: serial first unless already, then 'Serial Off' if decided at entry |
| Arbitration.ConfigureAgrees | VarianDUAL.py:597-611 | the pump configuration raises exactly when the pure encoding, exchange and ACK check fails |
| Arbitration.SendAgrees | VarianDUAL.py:930-945 | after the exchange, the failure the arbiter view reports is the one the transport view raises: SendCommandError, the protocol error, NackReceived or none |
| Arbitration.ConfigurePumps | VarianDUAL.py:592-611 | `write_IonPumpsConfig` over the arbiter; `ConfigureAgrees` and `ConfigureIsASend` are its partners |
| Arbitration.ConfigureIsASend | VarianDUAL.py:609-611 | the configuration's effects on the arbiter are exactly those of one `SendCommand` of the encoded frames |
| Arbitration.CommandDisciplined | VarianDUAL.py:954-1086 | every command writes 'Serial On' only with the cooldown elapsed, and leaves the clock at the last serial change |
| Arbitration.SetModeDisciplined | VarianDUAL.py:954-995 | `SetMode` keeps that discipline |
| Arbitration.SendDisciplined | VarianDUAL.py:920-945 | `SendCommand` keeps that discipline |
| Arbitration.ChannelDisciplined | VarianDUAL.py:184-199 | a channel command through `writeCommand` keeps that discipline |
| Arbitration.SerialOnSpacing | VarianDUAL.py:957-976 | over any run of commands, two 'Serial On' writes with no 'Serial Off' between them are at least 60 s apart, and the clock field records the latest |
| Arbitration.LocalLiftsCooldown | VarianDUAL.py:974-976 | going local lifts the cooldown: serial mode is reachable again at once |
| Sequencer.BeforeHash | VarianDUAL.py:149 | `split('#', 1)[0]` holds no `#`, and is the whole line when it had none |
| Sequencer.CleanTokensAreTidy | VarianDUAL.py:149 | every cleaned token is non-empty, has no comment and no surrounding whitespace |
| Sequencer.CleanAppend | VarianDUAL.py:149 | cleaning keeps the order of the lines |
| Sequencer.CleanIdempotent | VarianDUAL.py:149 | a second warm-up finds the stored sequence already clean |
| Sequencer.CommentsAreDropped | VarianDUAL.py:149 | a comment line disappears and a trailing comment is cut off |
| Sequencer.RewriteOnlyForLoneComma | VarianDUAL.py:147-148 | the comma rewrite changes only the list `[","]` |
| Sequencer.LoneCommaVanishes | VarianDUAL.py:147-149 | the list `[","]` cleans to the empty sequence |
| Sequencer.Prepare | VarianDUAL.py:147-149 | the stored warm-up sequence: the lone-comma rewrite, then the cleaning; `CleanTokensAreTidy`, `CleanIdempotent` and `LoneCommaVanishes` describe it |
| Sequencer.CommaListIsOneToken | VarianDUAL.py:147-159 | a comma-separated list in one entry is not split, and is then an unknown token |
| Sequencer.SplitGuardRestores | VarianDUAL.py:155 | the name holds no `:`; name and guard put back together give the token |
| Sequencer.SplitGuardOf | VarianDUAL.py:155 | `name:guard` splits at the first `:` when the name holds none |
| Sequencer.TokenRunSpec | VarianDUAL.py:155-161 | a token runs its action exactly when its name is one of the ten keys and its guard is empty or evaluates to true |
| Sequencer.GuardExamples | VarianDUAL.py:156-161 | a true guard runs OnHV1; a guard whose evaluation raises skips the token |
| Sequencer.RunTokensAppend | VarianDUAL.py:153-163 | tokens run strictly in order: a sequence is its first part, then the rest from the arbiter that part left, unless it raised |
| Sequencer.ExecuteAppend | VarianDUAL.py:153-163 | the same for the warm-up loop |
| Sequencer.Execute | VarianDUAL.py:153-163 | the warm-up loop over the tokens; `ExecuteAppend`, `FailureEndsSequence` and `ExecuteDisciplined` describe it |
| Sequencer.FailureEndsSequence | VarianDUAL.py:153-163 | an action that raises ends the warm-up: nothing after it runs |
| Sequencer.UnknownTokensDoNothing | VarianDUAL.py:159-163 | tokens with unknown names do nothing, whatever their guard |
| Sequencer.ExecuteDisciplined | VarianDUAL.py:153-163 | a warm-up keeps the serial cooldown discipline |
| Device.Settle | VarianDUAL.py:452-465 | the head of the queue is displayed; it is dropped only when its dwell has run out and another state waits; the change time moves only when the displayed state changes |
| Device.SettleWithinDwell | VarianDUAL.py:447-452 | within the displayed state's dwell a tick changes nothing on display |
| Device.FaultsHoldTwentySeconds | VarianDUAL.py:447-452 | a state other than ON is queued with 20 s; when the queue held only the displayed state, it takes over the display once that state's dwell has run out |
| Device.VarianDual.constructor | VarianDUAL.py:267-364 | the initial fields: statuses unset, readings `[[0,0],[0,0]]` and `[[1e-9,1e-9],[1e-9,1e-9]]`, clocks 0, queue `[UNKNOWN]`, no misreadings |
| Device.VarianDual.RecordMisreading | VarianDUAL.py:866-871 | the history field becomes the recorded history, keeping its invariants |
| Device.VarianDual.ReadCommand | VarianDUAL.py:210-245 | returns the classified read and records its misreading, if any |
| Device.VarianDual.ReadVoltage | VarianDUAL.py:493-513 | reads the channel's voltage and shifts the channel's (old, new) pair only when the read succeeds |
| Device.VarianDual.ReadCurrent | VarianDUAL.py:520-541 | reads the channel's current and shifts its pair only when the read succeeds |
| Device.VarianDual.ReadHVStatus | VarianDUAL.py:813-838 | reads the channel's code, stores its name in that channel's status field only, and leaves it when the read raises |
| Device.VarianDual.GetModeLocal | VarianDUAL.py:174-179 | returns the mode name of the code read |
| Device.VarianDual.Perform | VarianDUAL.py:954-1086 | the fields and the log move exactly as the arbiter says for the command |
| Device.VarianDual.ReadModeLocal | VarianDUAL.py:745-758 | returns the mode name, then applies the ForceLocal correction to the fields and the log |
| Device.VarianDual.ReadFlagPair | VarianDUAL.py:769-797 | the two channel reads as bools, stopping at the first that raises, and the mode string |
| Device.FlagPairOfBits | VarianDUAL.py:769-773 | two cached `0`/`1` answers read as bools give the mode string of those bits, and nothing is recorded as misread |
| Device.SignedFlagIsMisread | VarianDUAL.py:203-237 | a signed answer to a bool read fails the `[01]` pattern: CommFailed is raised and the payload is recorded as a misreading |
| Device.VarianDual.ReadModeStep | VarianDUAL.py:764-782 | returns the step mode string, then applies the ForceStep correction |
| Device.VarianDual.ReadModeProtect | VarianDUAL.py:788-807 | returns the protect mode string, then applies the ForceProtect correction |
| Device.VarianDual.WriteIonPumpsConfig | VarianDUAL.py:592-611 | encodes, sends through `SendCommand` and checks the ACKs, with the fields, log and failure of the pure configuration |
| Device.VarianDual.ReadChannels | VarianDUAL.py:415-417 | the error status, then HV1 and HV2 status reads, stopping at the first that raises, with their effect on the status fields |
| Device.VarianDual.Compute | VarianDUAL.py:406-445 | computes the hook's state decision, or nothing when a read raises; the status fields take the values read until the first read that raises, and are unchanged on the INIT and UNKNOWN paths |
| Device.VarianDual.Enqueue | VarianDUAL.py:447-465 | pushes the state under the queue rule, then settles the queue, keeping the queue free of repeats |
| Device.VarianDual.Tick | VarianDUAL.py:392-466 | one hook: the computed state, the status fields read, and the queue and displayed state after push and settle; nothing moves when a read raises |
| Device.VarianDual.RunToken | VarianDUAL.py:155-161 | one token's effect on the fields and the log |
| Device.VarianDual.RunSequence | VarianDUAL.py:153-163 | the loop's effect is that of the pure warm-up, including stopping at the first failure |
| Device.VarianDual.WarmUp | VarianDUAL.py:134-164 | stores the cleaned sequence, runs it, and returns it joined by newlines or raises the exception that ended it |

## Left out

- Tango plumbing is not modelled: attribute values, `set_state`, the
  `is_*_allowed` hooks, the class tables and the server entry point. It is
  framework glue.
- The serial polling engine `SerialVacuumDevice` is not part of this model.
  Its cached answers are the `cache` parameter and its exchanges the
  `reply` parameter. Its counters are the `Link` record.
  `stop`/`start`, `getReport` and the black box are not modelled.
- `TimedQueue` is not part of this model. The model assumes:
  - the head is the state on display;
  - the queue starts as `[UNKNOWN]` with dwell 0;
  - the head is dropped once its dwell has run out and another state waits.
- The guard evaluator `TangoEval` is the oracle `eval`. A `None` answer
  stands for an exception.
- `float()` is the oracle `toFloat`. Real parsing of exponential payloads
  is not modelled.
- The one-second confirmation loop of `SetMode('serial')`, the
  `threading.Event` wait and the `self_locked` decorator are time and
  concurrency. A command sees one instant and one hardware mode answer.
- Logging, prints, `time.ctime` texts and the oscillation message are left
  out. These are I/O and text for people.
- `read_IonPumpsConfig`, `read_Interlock`, `read_Firmware`, `read_P1`/`read_P2`,
  the set-point and IProtect attributes, `SaveBlackBox` and `read_Protocol`
  are not modelled. They are outside the named core, and the set points
  involve float formatting.
- The `HV1Code`/`HV2Code` flavours of `read_ErrorStatus` are not modelled.
  Only the hook's call, which returns the description, is.
- `SetStartSequence` is not modelled: it writes a database property.
- The device with no serial line configured is not modelled, in either
  `init_device` or the hook. The model starts with a serial line. The
  polling engine's start and the final `WarmUp` call of `init_device`
  are left to the caller; `WarmUp` is its own method.
- The `exception`, `init_error`, `comms_report` and `channelstatus` text
  fields are not tracked. The status text lemmas take them as inputs.
- Reads of the hardware mode inside a command are not modelled. They are
  the `mode` input, so misreadings they would record are not appended there.
- `addComm` raising inside `writeCommand` is not modelled. The engine is
  not visible.
- The `MG` and `SW` error tables are defined (`MultiGauge.MGErrors`,
  `MultiGauge.SWErrors`), but no operation of the device reads them.
  `InterlockStatus` is not modelled, because the core never reads it.
- MultiGauge.Unpack: only the default `_type=int` is modelled. The other
  `_type` arguments are not, and the device never calls `unpackMultiGauge`.
- The engine's `stop`/`start` around the exchange of `SendCommand` are not
  modelled. When a device call raises, `SendCommand` leaves the engine
  stopped; the model records only the attempted `Exchanged` event and
  `SendCommandError`.
- Device.VarianDual.WarmUp: every action of one warm-up sees the same
  instant and the same hardware mode answer, whereas the device reads the
  clock and the mode again in every action.
- Device.VarianDual.Tick: the status text shown with the state is not part
  of its contract. Health.DisplayedStatusSpec and
  Health.StatusTextOfChannelOnly state the cut and the text separately.
- Health.CurrentOscillates: the ratio test is over exact reals. It does not
  model floating-point rounding.
