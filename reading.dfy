/** The read path of the VarianDUAL device: how a cached answer becomes a
    value, a "not updated" failure or a misreading (`readCommand` with
    `REGEXPS`), the bounded misreading history (`read_Missreadings`), and the
    small decodings applied to values read: status names (`read_HV1Status`),
    error descriptions (`read_ErrorStatus`), the mode strings
    (`getModeLocal`, `read_ModeStep`, `read_ModeProtect`). */
module Reading {
  import opened Outcomes
  import opened Strings
  import opened MultiGauge

  /** The `_type` argument of `readCommand`. */
  datatype ValueType = BoolType | IntType | LongType | FloatType | StrType

  /** bool answers are coerced with int(), long answers are unbounded ints. */
  datatype Value = IntValue(i: int) | FloatValue(r: real) | StrValue(s: string)

  /** What the polling engine's `getComm(frame)` gives: the last cached answer
      (None before the first one) with the initial ANSWER sigil already
      removed, or an exception. */
  datatype CachedAnswer = Cached(answer: Option<string>) | EngineRaised

  /** The `REGEXPS` pattern of a type, applied with `re.match`: anchored at
      the start only, so any text may follow the matched prefix. */
  predicate MatchesPattern(t: ValueType, s: string)
  {
    match t
    case BoolType => |s| >= 1 && (s[0] == '0' || s[0] == '1')
    case IntType => (|s| >= 1 && IsDigit(s[0])) || (|s| >= 2 && s[0] == '-' && IsDigit(s[1]))
    case LongType => |s| >= 4 && AllDigits(s[..4])
    case FloatType =>
      |s| >= 7 && IsDigit(s[0]) && s[1] == '.' && IsDigit(s[2]) && s[3] == 'E'
      && (s[4] == '+' || s[4] == '-') && IsDigit(s[5]) && IsDigit(s[6])
    case StrType => true
  }

  /** `_type(result)`, bool going through int. Python's float() is not part of
      this model: it is the parameter `toFloat`. */
  function Coerce(t: ValueType, s: string, toFloat: string -> Option<real>): Option<Value>
  {
    match t
    case BoolType | IntType => (match ParseInt(s) case Some(i) => Some(IntValue(i)) case None => None)
    case LongType => (match ParseLong(s) case Some(i) => Some(IntValue(i)) case None => None)
    case FloatType => (match toFloat(s) case Some(r) => Some(FloatValue(r)) case None => None)
    case StrType => Some(StrValue(s))
  }

  /** The four ways a read ends. */
  datatype Classification =
    | Parsed(value: Value)       // pattern matched and the conversion succeeded
    | NotUpdated                 // no answer yet, or nothing after the echo
    | Misread(payload: string)   // the payload fails its pattern
    | CoercionFailed             // pattern matched a prefix but _type() raised
    | EngineFailed               // getComm itself raised

  /** `readCommand` after the frame lookup: drop the 3-character echo of
      channel and code, then classify what is left. */
  function Classify(a: CachedAnswer, t: ValueType, toFloat: string -> Option<real>): Classification
  {
    match a
    case EngineRaised => EngineFailed
    case Cached(None) => NotUpdated
    case Cached(Some(s)) =>
      var payload := if |s| >= 3 then s[3..] else "";
      if payload == "" then NotUpdated
      else if !MatchesPattern(t, payload) then Misread(payload)
      else match Coerce(t, payload, toFloat)
        case Some(v) => Parsed(v)
        case None => CoercionFailed
  }

  /** Every failure leaves `readCommand` as one re-raised exception that
      carries its cause. */
  function ReadResult(c: Classification): Result<Value>
  {
    match c
    case Parsed(v) => Ok(v)
    case NotUpdated => Err(ReadCommandError(ValueNotUpdated))
    case Misread(_) => Err(ReadCommandError(CommFailed))
    case CoercionFailed => Err(ReadCommandError(ValueError))
    case EngineFailed => Err(ReadCommandError(EngineFailure))
  }

  /** The payload that a read records in the misreading history, if any. */
  function MisreadPayload(c: Classification): Option<string>
  {
    if c.Misread? then Some(c.payload) else None
  }

  // ---------------------------------------------------------------------
  // Classifier properties.

  /** "Not updated" exactly when there is no answer or nothing after the echo. */
  lemma NotUpdatedIff(a: CachedAnswer, t: ValueType, toFloat: string -> Option<real>)
    ensures Classify(a, t, toFloat) == NotUpdated
        <==> a == Cached(None) || (a.Cached? && a.answer.Some? && |a.answer.value| <= 3)
  {
  }

  /** A misreading exactly when a payload exists and fails its pattern; what
      is recorded is the payload itself. */
  lemma MisreadIff(s: string, t: ValueType, toFloat: string -> Option<real>)
    ensures Classify(Cached(Some(s)), t, toFloat).Misread?
        <==> |s| > 3 && !MatchesPattern(t, s[3..])
    ensures Classify(Cached(Some(s)), t, toFloat).Misread? ==> Classify(Cached(Some(s)), t, toFloat).payload == s[3..]
  {
  }

  /** Strings never misread: their pattern is `.*`. */
  lemma StringsNeverMisread(s: string, toFloat: string -> Option<real>)
    requires |s| > 3
    ensures Classify(Cached(Some(s)), StrType, toFloat) == Parsed(StrValue(s[3..]))
  {
  }

  /** The patterns are anchored only at the start: trailing text passes the
      pattern and is then rejected by int() itself, which is a conversion
      failure, not a misreading; and a bool answer "10" is the integer 10. */
  lemma PatternsAreAnchoredAtStartOnly(toFloat: string -> Option<real>)
    ensures Classify(Cached(Some("13057x")), IntType, toFloat) == CoercionFailed
    ensures Classify(Cached(Some("16010")), BoolType, toFloat) == Parsed(IntValue(10))
    ensures Classify(Cached(Some("130x7")), IntType, toFloat) == Misread("x7")
  {
    var p := "13057x"[3..];
    assert p == "57x";
    assert Strip(p) == p;
    assert !AllDigits(p) by { assert !IsDigit(p[2]); }
    var q := "16010"[3..];
    assert q == "10";
    StripUnpadded(q);
    assert q[..1] == "1" && q[..1][..0] == [];
    assert DigitsValue(q) == 10;
    assert ParseInt(q) == Some(10);
    assert Coerce(BoolType, q, toFloat) == Some(IntValue(10));
    assert "130x7"[3..] == "x7";
  }

  /** Round trip with the codec: the cached answer to a request, with a
      decimal payload, reads back as that integer (the CR terminator is
      whitespace to int()). */
  lemma IntAnswerReadsBack(chann: int, comm: int, n: int, toFloat: string -> Option<real>)
    requires 0 <= chann <= 9 && 0 <= comm <= 99
    ensures Classify(Cached(Some(Pack(chann, comm, IntToString(n))[1..])), IntType, toFloat)
         == Parsed(IntValue(n))
  {
    var d := IntToString(n);
    PackLayout(chann, comm, d);
    var s := Pack(chann, comm, d)[1..];
    assert s[3..] == d + "\r";
    ParseIntOfIntToString(n, "\r");
    assert MatchesPattern(IntType, d + "\r") by {
      if n < 0 { assert (d + "\r")[1] == NatToString(-n)[0]; }
      else { assert (d + "\r")[0] == NatToString(n)[0]; }
    }
  }

  // ---------------------------------------------------------------------
  // The misreading history.

  const MissreadingsCapacity: nat := 256

  /** `read_Missreadings(value=v)`: append v if absent, then keep the last
      256 entries (written in the source as `[-256:-1] + [last]`). */
  function RecordMissreading(history: seq<string>, value: Option<string>): seq<string>
  {
    var h := if value.Some? && value.value !in history then history + [value.value] else history;
    if |h| > MissreadingsCapacity then h[|h| - MissreadingsCapacity..|h| - 1] + [h[|h| - 1]] else h
  }

  predicate NoDuplicates(h: seq<string>)
  {
    forall i, j | 0 <= i < j < |h| :: h[i] != h[j]
  }

  /** The trim keeps exactly the newest 256 entries. */
  lemma RecordKeepsNewest(history: seq<string>, value: Option<string>)
    ensures var h := if value.Some? && value.value !in history then history + [value.value] else history;
      RecordMissreading(history, value)
      == if |h| > MissreadingsCapacity then h[|h| - MissreadingsCapacity..] else h
  {
  }

  lemma SuffixKeeps(h: seq<string>, n: nat)
    requires n <= |h|
    ensures forall x | x in h[n..] :: x in h
    ensures NoDuplicates(h) ==> NoDuplicates(h[n..])
  {
    var r := h[n..];
    forall x | x in r ensures x in h {
      var k :| 0 <= k < |r| && r[k] == x;
      assert h[n + k] == x;
    }
    if NoDuplicates(h) {
      forall i, j | 0 <= i < j < |r| ensures r[i] != r[j] {
        assert r[i] == h[n + i] && r[j] == h[n + j];
      }
    }
  }

  lemma AppendFresh(h: seq<string>, v: string)
    requires NoDuplicates(h) && v !in h
    ensures NoDuplicates(h + [v])
  {
    var r := h + [v];
    forall i, j | 0 <= i < j < |r| ensures r[i] != r[j] {
      if j == |h| {
        assert r[i] == h[i];
      } else {
        assert r[i] == h[i] && r[j] == h[j];
      }
    }
  }

  /** After any call the history holds at most 256 entries, holds no
      duplicates if it held none before, and contains only old entries and
      the new value. */
  lemma RecordInvariants(history: seq<string>, value: Option<string>)
    ensures |RecordMissreading(history, value)| <= MissreadingsCapacity
    ensures NoDuplicates(history) ==> NoDuplicates(RecordMissreading(history, value))
    ensures forall x | x in RecordMissreading(history, value) :: x in history || Some(x) == value
  {
    RecordKeepsNewest(history, value);
    var h := if value.Some? && value.value !in history then history + [value.value] else history;
    if NoDuplicates(history) && value.Some? && value.value !in history {
      AppendFresh(history, value.value);
    }
    if |h| > MissreadingsCapacity {
      SuffixKeeps(h, |h| - MissreadingsCapacity);
    }
  }

  /** A new value ends up last; a value already present stays where it is
      (it is not moved to the end). */
  lemma RecordNewestLast(history: seq<string>, v: string)
    ensures v !in history ==> var r := RecordMissreading(history, Some(v)); |r| > 0 && r[|r| - 1] == v
    ensures v in history && |history| <= MissreadingsCapacity ==> RecordMissreading(history, Some(v)) == history
  {
  }

  /** Recording the same value twice is the same as recording it once. */
  lemma RecordIdempotent(history: seq<string>, v: string)
    requires |history| <= MissreadingsCapacity
    ensures RecordMissreading(RecordMissreading(history, Some(v)), Some(v)) == RecordMissreading(history, Some(v))
  {
    if v !in history {
      RecordNewestLast(history, v);
    }
    RecordInvariants(history, Some(v));
  }

  // ---------------------------------------------------------------------
  // Status names: the loop over OnOffCoding in read_HV1Status/read_HV2Status.

  /** The name of the last entry whose code is `st`, scanning in order. */
  function LastMatch(entries: seq<(string, int)>, st: int): Option<string>
  {
    if entries == [] then None
    else if entries[|entries| - 1].1 == st then Some(entries[|entries| - 1].0)
    else LastMatch(entries[..|entries| - 1], st)
  }

  function StatusNameIn(entries: seq<(string, int)>, st: int): string
  {
    match LastMatch(entries, st)
    case Some(k) => k
    case None => "Unknown"
  }

  /** Name of a channel status code, with the dict scanned in literal order. */
  function StatusName(st: int): string
  {
    StatusNameIn(OnOffCoding, st)
  }

  /** `for k,v in OnOffCoding.iteritems(): if v==st: name = k`. */
  method LookupStatusName(entries: seq<(string, int)>, st: int) returns (name: string)
    ensures name == StatusNameIn(entries, st)
  {
    name := "Unknown";
    for i := 0 to |entries|
      invariant name == StatusNameIn(entries[..i], st)
    {
      assert entries[..i + 1][..i] == entries[..i];
      if entries[i].1 == st {
        name := entries[i].0;
      }
    }
    assert entries[..|entries|] == entries;
  }

  /** The name found is the last entry carrying the code; "Unknown" only when
      no entry carries it. */
  lemma {:induction false} LastMatchSpec(entries: seq<(string, int)>, st: int)
    ensures LastMatch(entries, st).None? <==> forall i | 0 <= i < |entries| :: entries[i].1 != st
    ensures LastMatch(entries, st).Some? ==>
      exists i | 0 <= i < |entries| :: entries[i].1 == st && entries[i].0 == LastMatch(entries, st).value
        && forall j | i < j < |entries| :: entries[j].1 != st
  {
    if entries != [] {
      var n := |entries| - 1;
      LastMatchSpec(entries[..n], st);
      if entries[n].1 != st {
        if LastMatch(entries[..n], st).Some? {
          var i :| 0 <= i < n && entries[..n][i].1 == st && entries[..n][i].0 == LastMatch(entries[..n], st).value
            && forall j | i < j < n :: entries[..n][j].1 != st;
          assert entries[i] == entries[..n][i];
        }
        assert forall i | 0 <= i < n :: entries[i] == entries[..n][i];
      }
    }
  }

  /** A code carried by exactly one entry is named by that entry. */
  lemma UniqueCodeName(st: int, i: int)
    requires 0 <= i < |OnOffCoding| && OnOffCoding[i].1 == st
    requires forall j | 0 <= j < |OnOffCoding| && j != i :: OnOffCoding[j].1 != st
    ensures StatusName(st) == OnOffCoding[i].0
  {
    LastMatchSpec(OnOffCoding, st);
  }

  /** Matching is exact: despite the comment that any positive code means ON,
      only 1 is "ON", and codes above 1 are "Unknown". */
  lemma StatusNameCodes(st: int)
    ensures StatusName(1) == "ON" && StatusName(0) == "Off"
    ensures StatusName(-3) == "PanelInterlock" && StatusName(-4) == "RemoteInterlock"
    ensures StatusName(-5) == "CableInterlock" && StatusName(-8) == "HVTemperature"
    ensures StatusName(-6) == "HVProtect"
    ensures st > 1 ==> StatusName(st) == "Unknown"
  {
    UniqueCodeName(1, 0);
    UniqueCodeName(0, 1);
    UniqueCodeName(-3, 2);
    UniqueCodeName(-4, 3);
    UniqueCodeName(-5, 4);
    UniqueCodeName(-8, 5);
    UniqueCodeName(-6, 7);
    LastMatchSpec(OnOffCoding, st);
  }

  /** With the literal order the later of the two -7 names wins. */
  lemma SharedCodeTakesLastName()
    ensures StatusName(-7) == "HVShortCircuit"
  {
  }

  // ---------------------------------------------------------------------
  // Error descriptions: read_ErrorStatus without an attribute.

  /** `DualControllerErrorStatus['HV'].get(str(st), '')`: the `HV` table. */
  function ErrorDescription(st: int): string
  {
    var hv := HVErrors;
    if IntToString(st) in hv then hv[IntToString(st)] else ""
  }

  /** The HV table has the keys "1" to "12", each with a description. */
  lemma HVTable()
    ensures HVErrors.Keys == {"1", "2", "3", "4", "5", "6", "7", "8", "9", "10", "11", "12"}
    ensures forall k | k in HVErrors :: HVErrors[k] != ""
  {
    HVKeys();
    HVValues();
  }

  lemma HVKeys()
    ensures HVErrors.Keys == {"1", "2", "3", "4", "5", "6", "7", "8", "9", "10", "11", "12"}
  {
  }

  lemma HVValues()
    ensures forall k | k in HVErrors :: HVErrors[k] != ""
  {
  }

  /** `str(st)` is one of those keys exactly for the codes 1 to 12. */
  lemma HVKeyOf(st: int)
    ensures IntToString(st) in {"1", "2", "3", "4", "5", "6", "7", "8", "9", "10", "11", "12"} <==> 1 <= st <= 12
  {
    var key := IntToString(st);
    ParseSignedOfIntToString(st);
    if key in {"1", "2", "3", "4", "5", "6", "7", "8", "9", "10", "11", "12"} {
      KeyValues(key);
    }
    if 1 <= st <= 12 {
      if st < 10 {
        assert key == [DigitChar(st)];
      } else {
        assert key == NatToString(1) + [DigitChar(st - 10)];
        assert key == "10" || key == "11" || key == "12";
      }
    }
  }

  /** A description exists exactly for the HV error codes 1 to 12. */
  lemma ErrorDescriptionIff(st: int)
    ensures ErrorDescription(st) != "" <==> 1 <= st <= 12
  {
    HVTable();
    HVKeyOf(st);
  }

  lemma KeyValues(key: string)
    requires key in {"1", "2", "3", "4", "5", "6", "7", "8", "9", "10", "11", "12"}
    ensures ParseSigned(key).Some? && 1 <= ParseSigned(key).value <= 12
  {
    if |key| == 2 {
      assert key[..1] == "1";
    } else {
      assert key[..0] == [];
    }
  }

  // ---------------------------------------------------------------------
  // Mode strings.

  const ModeNames: seq<string> := ["LOCAL", "REMOTE", "SERIAL"]

  /** `getModeLocal` once the ModeLocal code has been read. */
  function ModeLocalName(st: int): string
  {
    if 0 <= st < 3 then ModeNames[st] else "Unknown"
  }

  /** The arbiter tests the mode string with `in`: it contains "SERIAL"
      exactly for code 2 and "LOCAL" exactly for code 0. */
  lemma ModeLocalNameTests(st: int)
    ensures Contains(ModeLocalName(st), "SERIAL") <==> st == 2
    ensures Contains(ModeLocalName(st), "LOCAL") <==> st == 0
  {
    var m := ModeLocalName(st);
    if st == 2 { assert OccursAt(m, "SERIAL", 0); AbsentFirstChar(m, "LOCAL"); }
    else if st == 0 { assert OccursAt(m, "LOCAL", 0); AbsentFirstChar(m, "SERIAL"); }
    else {
      assert m == "REMOTE" || m == "Unknown";
      AbsentFirstChar(m, "SERIAL");
      AbsentFirstChar(m, "LOCAL");
    }
  }

  /** Python list indexing, negative indices counting from the end. */
  function PyIndex<T>(xs: seq<T>, i: int): Option<T>
  {
    if 0 <= i < |xs| then Some(xs[i])
    else if -|xs| <= i < 0 then Some(xs[|xs| + i])
    else None
  }

  const StepNames: seq<string> := ["FIXED", "STEP"]
  const ProtectNames: seq<string> := ["START", "PROTECT"]

  /** `read_ModeStep` / `read_ModeProtect`: the first channel's name, and
      `;` plus the second's when the two codes differ. */
  function ModeString(names: seq<string>, st1: int, st2: int): Result<string>
  {
    match PyIndex(names, st1)
    case None => Err(IndexError)
    case Some(m1) =>
      if st2 == st1 then Ok(m1)
      else match PyIndex(names, st2)
        case None => Err(IndexError)
        case Some(m2) => Ok(m1 + ";" + m2)
  }

  /** For binary codes the mode string names channel 1, then channel 2 only
      when it differs; a bool read of "10" gives 10 and raises IndexError. */
  lemma ModeStringShape(names: seq<string>, st1: int, st2: int)
    requires |names| == 2 && 0 <= st1 <= 1 && 0 <= st2 <= 1
    ensures ModeString(names, st1, st2)
         == Ok(if st1 == st2 then names[st1] else names[st1] + ";" + names[st2])
    ensures ModeString(names, 10, st2) == Err(IndexError)
  {
  }

  /** The auto-correction in `read_ModeStep` fires on "FIXED" in the mode
      string, that is when either channel is in fixed mode. */
  lemma FixedShownIff(st1: int, st2: int)
    requires 0 <= st1 <= 1 && 0 <= st2 <= 1
    ensures Contains(ModeString(StepNames, st1, st2).value, "FIXED") <==> st1 == 0 || st2 == 0
  {
    var m := ModeString(StepNames, st1, st2).value;
    if st1 == 0 { assert OccursAt(m, "FIXED", 0); }
    else if st2 == 0 { assert m == "STEP;FIXED" && OccursAt(m, "FIXED", 5); }
    else {
      assert m == "STEP";
      AbsentFirstChar(m, "FIXED");
    }
  }

  /** Likewise `read_ModeProtect` reacts to "START" when either channel is in
      start mode. */
  lemma StartShownIff(st1: int, st2: int)
    requires 0 <= st1 <= 1 && 0 <= st2 <= 1
    ensures Contains(ModeString(ProtectNames, st1, st2).value, "START") <==> st1 == 0 || st2 == 0
  {
    var m := ModeString(ProtectNames, st1, st2).value;
    if st1 == 0 { assert OccursAt(m, "START", 0); }
    else if st2 == 0 { assert m == "PROTECT;START" && OccursAt(m, "START", 8); }
    else {
      assert m == "PROTECT";
      AbsentFirstChar(m, "START");
    }
  }
}
