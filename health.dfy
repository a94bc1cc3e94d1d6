/** The device-state decision of `always_executed_hook`: communication
    checks first, then the channel off-reasons, the error description, the
    on/off and default-status comparison, and the oscillation override; the
    rule that pushes a new state into the debounce queue; and the status cut. */
module Health {
  import opened Outcomes
  import opened Strings
  import opened MultiGauge
  import opened Reading

  /** The Tango states the device can take. */
  datatype DevState = ON | OFF | INIT | UNKNOWN | MOVING | ALARM | FAULT | DISABLE

  /** `wrongstates`: the channel status names that decide the state outright. */
  function WrongState(name: string): Option<DevState>
  {
    if name == "PanelInterlock" then Some(DISABLE)
    else if name == "RemoteInterlock" then Some(ALARM)
    else if name == "CableInterlock" then Some(FAULT)
    else if name == "HVTemperature" then Some(FAULT)
    else if name == "RemoteFault" then Some(FAULT)
    else if name == "HVProtect" then Some(ALARM)
    else if name == "HVShortCircuit" then Some(FAULT)
    else None
  }

  predicate IsOn(name: string)
  {
    Lower(name) == "on"
  }

  /** `any(s.lower() != ss.lower() for s, ss in zip(observed, expected))`:
      zip stops at the shorter list. */
  predicate DiffersFromDefault(observed: seq<string>, expected: seq<string>)
  {
    exists i | 0 <= i < |observed| && i < |expected| :: Lower(observed[i]) != Lower(expected[i])
  }

  /** The state chosen from the channel readings, before the oscillation
      check: channel 1's off-reason, then channel 2's, then the error
      description, then "no channel on", then the DefaultStatus comparison. */
  function ReadingsState(errorDesc: string, hv1: string, hv2: string, defaultStatus: string): DevState
  {
    if WrongState(hv1).Some? then WrongState(hv1).value
    else if WrongState(hv2).Some? then WrongState(hv2).value
    else if errorDesc != "" then FAULT
    else if !IsOn(hv1) && !IsOn(hv2) then OFF
    else if defaultStatus != "" && DiffersFromDefault([hv1, hv2], Split(defaultStatus, ',')) then ALARM
    else ON
  }

  /** The polling engine's counters: `init`, `errors`, `len(readList)` and
      `lasttime`. */
  datatype Link = Link(initialised: bool, errors: int, polledCount: int, lastTime: real)

  /** No answer for two minutes, or as many errors as polled commands. */
  predicate CommsLost(link: Link, now: real)
  {
    link.errors >= link.polledCount || link.lastTime < now - 120.0
  }

  /** `old and new and abs(old - new) >= 100`. */
  predicate VoltageOscillates(p: (int, int))
  {
    p.0 != 0 && p.1 != 0 && (if p.0 - p.1 >= 0 then p.0 - p.1 else p.1 - p.0) >= 100
  }

  /** `old and new and not (.5 < old/new < 1.5)`, over the reals. */
  predicate CurrentOscillates(p: (real, real))
  {
    p.0 != 0.0 && p.1 != 0.0 && !(0.5 < p.0 / p.1 < 1.5)
  }

  predicate Oscillating(voltages: seq<(int, int)>, currents: seq<(real, real)>)
  {
    (exists i | 0 <= i < |voltages| :: VoltageOscillates(voltages[i]))
    || (exists i | 0 <= i < |currents| :: CurrentOscillates(currents[i]))
  }

  /** The state the hook computes before it consults the queue. */
  function DecideState(link: Link, now: real, errorDesc: string, hv1: string, hv2: string, defaultStatus: string,
                       voltages: seq<(int, int)>, currents: seq<(real, real)>): DevState
  {
    if !link.initialised then INIT
    else if CommsLost(link, now) then UNKNOWN
    else if Oscillating(voltages, currents) then MOVING
    else ReadingsState(errorDesc, hv1, hv2, defaultStatus)
  }

  /** The two `for ... break` loops of the oscillation check. */
  method DetectOscillation(voltages: seq<(int, int)>, currents: seq<(real, real)>) returns (moving: bool)
    ensures moving == Oscillating(voltages, currents)
  {
    moving := false;
    var i := 0;
    while i < |voltages|
      invariant 0 <= i <= |voltages|
      invariant forall k | 0 <= k < i :: !VoltageOscillates(voltages[k])
    {
      if VoltageOscillates(voltages[i]) {
        moving := true;
        break;
      }
      i := i + 1;
    }
    var j := 0;
    while j < |currents|
      invariant 0 <= j <= |currents|
      invariant forall k | 0 <= k < j :: !CurrentOscillates(currents[k])
    {
      if CurrentOscillates(currents[j]) {
        moving := true;
        break;
      }
      j := j + 1;
    }
  }

  // ---------------------------------------------------------------------
  // The priority of the decision.

  /** INIT exactly when the engine has not read anything yet; UNKNOWN exactly
      when it has but the link is lost. Neither is ever overridden by
      MOVING. */
  lemma CommunicationsFirst(link: Link, now: real, errorDesc: string, hv1: string, hv2: string, defaultStatus: string,
                            voltages: seq<(int, int)>, currents: seq<(real, real)>)
    ensures DecideState(link, now, errorDesc, hv1, hv2, defaultStatus, voltages, currents) == INIT
        <==> !link.initialised
    ensures DecideState(link, now, errorDesc, hv1, hv2, defaultStatus, voltages, currents) == UNKNOWN
        <==> link.initialised && CommsLost(link, now)
    ensures DecideState(link, now, errorDesc, hv1, hv2, defaultStatus, voltages, currents) == MOVING
        <==> link.initialised && !CommsLost(link, now) && Oscillating(voltages, currents)
  {
    ReadingsStateRange(errorDesc, hv1, hv2, defaultStatus);
  }

  /** The readings alone never give INIT, UNKNOWN or MOVING. */
  lemma ReadingsStateRange(errorDesc: string, hv1: string, hv2: string, defaultStatus: string)
    ensures ReadingsState(errorDesc, hv1, hv2, defaultStatus) !in {INIT, UNKNOWN, MOVING}
  {
  }

  /** Channel 1's off-reason wins over channel 2's and over the error
      description; channel 2's wins over the error description. */
  lemma OffReasonPriority(errorDesc: string, hv1: string, hv2: string, defaultStatus: string)
    ensures WrongState(hv1).Some? ==> ReadingsState(errorDesc, hv1, hv2, defaultStatus) == WrongState(hv1).value
    ensures WrongState(hv1).None? && WrongState(hv2).Some? ==>
      ReadingsState(errorDesc, hv1, hv2, defaultStatus) == WrongState(hv2).value
    ensures WrongState(hv1).None? && WrongState(hv2).None? && errorDesc != "" ==>
      ReadingsState(errorDesc, hv1, hv2, defaultStatus) == FAULT
  {
  }

  /** Without off-reasons or errors: OFF exactly when no channel reads "on"
      in any case, and ON exactly when one does and the readings agree with
      DefaultStatus (or there is none); ALARM otherwise. */
  lemma OnOffAlarm(hv1: string, hv2: string, defaultStatus: string)
    requires WrongState(hv1).None? && WrongState(hv2).None?
    ensures ReadingsState("", hv1, hv2, defaultStatus) == OFF <==> !IsOn(hv1) && !IsOn(hv2)
    ensures ReadingsState("", hv1, hv2, defaultStatus) == ON
        <==> (IsOn(hv1) || IsOn(hv2)) && (defaultStatus == "" || !DiffersFromDefault([hv1, hv2], Split(defaultStatus, ',')))
    ensures ReadingsState("", hv1, hv2, defaultStatus) == ALARM
        <==> (IsOn(hv1) || IsOn(hv2)) && defaultStatus != "" && DiffersFromDefault([hv1, hv2], Split(defaultStatus, ','))
  {
  }

  /** Status names of the codes: an interlock panel stop on channel 1 makes
      the device DISABLE whatever channel 2 says, and both names of -7 are
      FAULT. */
  lemma OffReasonExamples(hv2: string)
    ensures ReadingsState("", StatusName(-3), hv2, "") == DISABLE
    ensures WrongState("RemoteFault") == WrongState("HVShortCircuit") == Some(FAULT)
  {
    StatusNameCodes(0);
  }

  /** The oscillation thresholds: a 150 V step is an oscillation, a 99 V one
      is not; the current band is open, so a ratio of exactly 0.5 or 1.5
      already counts; a zero reading never counts. */
  lemma OscillationThresholds()
    ensures VoltageOscillates((3000, 3150)) && !VoltageOscillates((3000, 3099)) && VoltageOscillates((3100, 3000))
    ensures !VoltageOscillates((0, 5000))
    ensures CurrentOscillates((1.0, 2.0)) && CurrentOscillates((3.0, 2.0)) && !CurrentOscillates((1.0, 1.25))
    ensures !CurrentOscillates((0.0, 1.0))
  {
  }

  /** The readings set up by `init_device` do not oscillate. */
  lemma InitialReadingsAreQuiet()
    ensures !Oscillating([(0, 0), (0, 0)], [(0.000000001, 0.000000001), (0.000000001, 0.000000001)])
  {
    var v: seq<(int, int)> := [(0, 0), (0, 0)];
    var c: seq<(real, real)> := [(0.000000001, 0.000000001), (0.000000001, 0.000000001)];
    assert forall i | 0 <= i < |c| :: c[i].0 / c[i].1 == 1.0;
  }

  // ---------------------------------------------------------------------
  // Independence from the order of OnOffCoding.

  /** Two entries of OnOffCoding with the same code either carry the same
      name or are both FAULT off-reasons. */
  lemma SameCodeSameVerdict(e1: (string, int), e2: (string, int))
    requires e1 in OnOffCoding && e2 in OnOffCoding && e1.1 == e2.1
    ensures e1.0 == e2.0 || (WrongState(e1.0) == Some(FAULT) && WrongState(e2.0) == Some(FAULT))
  {
  }

  /** The name found for a code, in any order: "Unknown" when no entry has
      the code, otherwise the name of one that does. */
  lemma NameOfCode(order: seq<(string, int)>, st: int)
    ensures (StatusNameIn(order, st) == "Unknown" && forall i | 0 <= i < |order| :: order[i].1 != st)
      || (exists i | 0 <= i < |order| :: order[i].1 == st && StatusNameIn(order, st) == order[i].0)
  {
    LastMatchSpec(order, st);
  }

  /** Two names that agree as far as the decision is concerned. */
  predicate Agree(a: string, b: string)
  {
    a == b || (WrongState(a).Some? && WrongState(a) == WrongState(b))
  }

  lemma ReadingsStateRespectsAgree(errorDesc: string, a1: string, a2: string, b1: string, b2: string, defaultStatus: string)
    requires Agree(a1, b1) && Agree(a2, b2)
    ensures ReadingsState(errorDesc, a1, a2, defaultStatus) == ReadingsState(errorDesc, b1, b2, defaultStatus)
  {
  }

  lemma NamesAgree(order: seq<(string, int)>, st: int)
    requires forall e :: e in order <==> e in OnOffCoding
    ensures Agree(StatusNameIn(order, st), StatusName(st))
  {
    NameOfCode(order, st);
    NameOfCode(OnOffCoding, st);
    assert WrongState("Unknown").None?;
    if exists i | 0 <= i < |order| :: order[i].1 == st {
      var i :| 0 <= i < |order| && order[i].1 == st && StatusNameIn(order, st) == order[i].0;
      assert order[i] in OnOffCoding;
      var j :| 0 <= j < |OnOffCoding| && OnOffCoding[j].1 == st && StatusName(st) == OnOffCoding[j].0;
      SameCodeSameVerdict(order[i], OnOffCoding[j]);
    } else {
      forall j | 0 <= j < |OnOffCoding| ensures OnOffCoding[j].1 != st {
        assert OnOffCoding[j] in order;
      }
    }
  }

  /** Python 2 iterates the OnOffCoding dict in hash order, not in literal
      order; whichever order it uses, the device state is the same. */
  lemma StateIndependentOfDictOrder(order: seq<(string, int)>, errorDesc: string, st1: int, st2: int, defaultStatus: string)
    requires forall e :: e in order <==> e in OnOffCoding
    ensures ReadingsState(errorDesc, StatusNameIn(order, st1), StatusNameIn(order, st2), defaultStatus)
         == ReadingsState(errorDesc, StatusName(st1), StatusName(st2), defaultStatus)
  {
    NamesAgree(order, st1);
    NamesAgree(order, st2);
    ReadingsStateRespectsAgree(errorDesc, StatusNameIn(order, st1), StatusNameIn(order, st2),
      StatusName(st1), StatusName(st2), defaultStatus);
  }

  // ---------------------------------------------------------------------
  // The debounce queue.

  /** A queued state with its minimum dwell time in seconds. */
  datatype QueueEntry = QueueEntry(state: DevState, dwell: nat)

  /** `1 if state == DevState.ON else 20`. */
  function Dwell(s: DevState): nat
  {
    if s == ON then 1 else 20
  }

  predicate Queued(q: seq<QueueEntry>, s: DevState)
  {
    exists i | 0 <= i < |q| :: q[i].state == s
  }

  /** `if prev != state and statesQueue.index(state) is None: append`. */
  function Push(q: seq<QueueEntry>, displayed: DevState, s: DevState): seq<QueueEntry>
  {
    if displayed != s && !Queued(q, s) then q + [QueueEntry(s, Dwell(s))] else q
  }

  predicate DistinctStates(q: seq<QueueEntry>)
  {
    forall i, j | 0 <= i < j < |q| :: q[i].state != q[j].state
  }

  /** Pushing keeps the queue free of repeated states, appends at most one
      entry at the end, and afterwards the new state is queued unless it is
      the displayed one. */
  lemma PushSpec(q: seq<QueueEntry>, displayed: DevState, s: DevState)
    ensures DistinctStates(q) ==> DistinctStates(Push(q, displayed, s))
    ensures Push(q, displayed, s) == q || Push(q, displayed, s) == q + [QueueEntry(s, Dwell(s))]
    ensures s != displayed ==> Queued(Push(q, displayed, s), s)
    ensures s == displayed ==> Push(q, displayed, s) == q
  {
    var r := Push(q, displayed, s);
    if r != q {
      assert r[|q|].state == s;
    }
  }

  /** A pushed ON dwells one second, any other state twenty. */
  lemma PushDwell(q: seq<QueueEntry>, displayed: DevState, s: DevState)
    requires displayed != s && !Queued(q, s)
    ensures Push(q, displayed, s)[|q|] == QueueEntry(s, if s == ON then 1 else 20)
  {
  }

  function StatesOf(q: seq<QueueEntry>): set<DevState>
  {
    if q == [] then {} else StatesOf(q[..|q| - 1]) + {q[|q| - 1].state}
  }

  lemma {:induction false} StatesOfMembers(q: seq<QueueEntry>)
    ensures forall s :: s in StatesOf(q) <==> Queued(q, s)
  {
    if q != [] {
      var n := |q| - 1;
      var p := q[..n];
      StatesOfMembers(p);
      forall s ensures s in StatesOf(q) <==> Queued(q, s) {
        if Queued(p, s) {
          var i :| 0 <= i < |p| && p[i].state == s;
          assert q[i] == p[i];
        }
        if Queued(q, s) && s != q[n].state {
          var i :| 0 <= i < |q| && q[i].state == s;
          assert p[i] == q[i];
        }
      }
    }
  }

  lemma {:induction false} StatesOfSize(q: seq<QueueEntry>)
    requires DistinctStates(q)
    ensures |StatesOf(q)| == |q|
    ensures forall s :: s in StatesOf(q) <==> Queued(q, s)
  {
    StatesOfMembers(q);
    if q != [] {
      var n := |q| - 1;
      var p := q[..n];
      assert DistinctStates(p) by {
        forall i, j | 0 <= i < j < |p| ensures p[i].state != p[j].state {
          assert p[i] == q[i] && p[j] == q[j];
        }
      }
      StatesOfSize(p);
      assert !Queued(p, q[n].state) by {
        forall i | 0 <= i < |p| ensures p[i].state != q[n].state {
          assert p[i] == q[i];
        }
      }
      assert StatesOf(q) == StatesOf(p) + {q[n].state};
    }
  }

  const AllStates: set<DevState> := {ON, OFF, INIT, UNKNOWN, MOVING, ALARM, FAULT, DISABLE}

  /** A queue without repeated states holds at most one entry per state:
      pushing alone can never grow it past eight entries. */
  lemma QueueBounded(q: seq<QueueEntry>)
    requires DistinctStates(q)
    ensures |q| <= 8
  {
    StatesOfSize(q);
    forall s | s in StatesOf(q) ensures s in AllStates {
      match s
      case ON => case OFF => case INIT => case UNKNOWN =>
      case MOVING => case ALARM => case FAULT => case DISABLE =>
    }
    AllStatesCount();
    SubsetCardinality(StatesOf(q), AllStates);
  }

  lemma AllStatesCount()
    ensures |AllStates| == 8
  {
    var s1: set<DevState> := {ON};
    var s2 := s1 + {OFF};
    var s3 := s2 + {INIT};
    var s4 := s3 + {UNKNOWN};
    var s5 := s4 + {MOVING};
    var s6 := s5 + {ALARM};
    var s7 := s6 + {FAULT};
    var s8 := s7 + {DISABLE};
    assert |s2| == 2;
    assert |s3| == 3;
    assert |s4| == 4;
    assert |s5| == 5;
    assert |s6| == 6;
    assert |s7| == 7;
    assert |s8| == 8;
    assert s8 == AllStates;
  }

  lemma SubsetCardinality<T>(a: set<T>, b: set<T>)
    requires a <= b
    ensures |a| <= |b|
  {
    assert b == a + (b - a);
  }

  // ---------------------------------------------------------------------
  // The status text.

  const StatusLimit: nat := 200

  /** The parts that are not empty, in order. */
  function NonEmpty(parts: seq<string>): (r: seq<string>)
    ensures forall k | 0 <= k < |r| :: r[k] != ""
    ensures |r| <= |parts|
  {
    if parts == [] then []
    else (if parts[0] != "" then [parts[0]] else []) + NonEmpty(parts[1..])
  }

  /** `'\n'.join(s for s in [channelstatus, Description, init_error,
      comms_report, '', exception.replace('\n', '')] if s)`. */
  function StatusText(channelStatus: string, description: string, initError: string, commsReport: string,
                      exception: string): string
  {
    Join(NonEmpty([channelStatus, description, initError, commsReport, "", RemoveChar(exception, '\n')]), "\n")
  }

  /** `status[:200]`. */
  function DisplayedStatus(status: string): (r: string)
  {
    if |status| <= StatusLimit then status else status[..StatusLimit]
  }

  /** The displayed status is the first 200 characters of the full text, and
      all of it when it is short enough. */
  lemma DisplayedStatusSpec(status: string)
    ensures |DisplayedStatus(status)| <= StatusLimit
    ensures StartsWith(status, DisplayedStatus(status))
    ensures |status| <= StatusLimit <==> DisplayedStatus(status) == status
  {
  }

  /** With the other parts empty the status is the channel text alone: the
      empty parts add no line breaks. */
  lemma StatusTextOfChannelOnly(channelStatus: string)
    requires channelStatus != ""
    ensures StatusText(channelStatus, "", "", "", "") == channelStatus
  {
    assert RemoveChar("", '\n') == "";
    var parts := [channelStatus, "", "", "", "", ""];
    assert NonEmpty(parts[5..]) == [] by { assert parts[5..][1..] == []; }
    assert NonEmpty(parts[4..]) == [] by { assert parts[4..][1..] == parts[5..]; }
    assert NonEmpty(parts[3..]) == [] by { assert parts[3..][1..] == parts[4..]; }
    assert NonEmpty(parts[2..]) == [] by { assert parts[2..][1..] == parts[3..]; }
    assert NonEmpty(parts[1..]) == [] by { assert parts[1..][1..] == parts[2..]; }
    assert NonEmpty(parts) == [channelStatus];
  }
}
