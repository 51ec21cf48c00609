/** What the driver's operations promise, stated about the functional
    session model: the commands each one writes, the fields it changes on
    each path, and the decoding of state and measurement replies. */
module SessionProperties {
  import opened Bytes
  import opened Protocol
  import opened SessionModel

  /** The bytes written between two states of a session. */
  function Written(s: Session, t: Session): seq<Byte>
    requires |s.link.port.sent| <= |t.link.port.sent|
  {
    t.link.port.sent[|s.link.port.sent|..]
  }

  /** `t` wrote whole commands after `s`, among them the sleep/wake toggle. */
  predicate WroteToggle(s: Session, t: Session)
  {
    |s.link.port.sent| <= |t.link.port.sent| && |Written(s, t)| % 3 == 0 &&
    SleepToggle in Opcodes(Written(s, t))
  }

  /** `t` wrote exactly the commands with these opcodes after `s`. */
  predicate Sent(s: Session, t: Session, opcodes: seq<Byte>)
  {
    t.link.port.sent == s.link.port.sent + Frames(s.address, opcodes)
  }

  // ---------------------------------------------------------------------------
  // State decoding

  /** With a valid checksum the state byte is taken as it is and each flag is
      its bit; both reports are built from those flags alone. */
  lemma StatusOfValidReply(state: Byte)
    ensures var st := StatusOf(false, state);
      st.stateCode == state && st.flags == Bits(state, 8) &&
      st.allStateStrings == AllLabels(st.flags) && st.activeStateStrings == ActiveLabels(st.flags)
  {
  }

  /** After a failed checksum the code is 0xFF, every flag is set and both
      reports open with the checksum line, whatever the byte was. */
  lemma StatusAfterFailedChecksum(state: Byte)
    ensures var st := StatusOf(true, state);
      st.stateCode == 0xFF && (forall i :: 0 <= i < 8 ==> st.flags[i]) &&
      st.allStateStrings == [ChecksumInvalid] + AllLabels(st.flags) &&
      st.activeStateStrings == [ChecksumInvalid] + ActiveLabels(st.flags)
  {
    ChecksumFailureSetsAllFlags();
  }

  /** The full report holds one line per flag (after the checksum line, if
      any), and the short one the labels of the set flags in the same order. */
  lemma ReportsShape(checksumError: bool, state: Byte)
    ensures var st := StatusOf(checksumError, state);
      var k := if checksumError then 1 else 0;
      |st.allStateStrings| == 8 + k &&
      (forall i :: 0 <= i < 8 ==> st.allStateStrings[k + i] == Label(i, st.flags[i])) &&
      st.activeStateStrings[k..] == ActiveLabels(st.flags)
  {
    var st := StatusOf(checksumError, state);
    var k := if checksumError then 1 else 0;
    assert st.activeStateStrings[k..] == ActiveLabels(st.flags);
  }

  /** The full report text, as `getAllStateStrings` returns it, is the
      checksum line (after a failed checksum) followed by one line per flag. */
  lemma FullReportText(checksumError: bool, state: Byte)
    ensures var st := StatusOf(checksumError, state);
      Render(st.allStateStrings) ==
        (if checksumError then Text(ChecksumInvalid) + "\n" else "") + Render(AllLabels(st.flags))
  {
    var st := StatusOf(checksumError, state);
    var body := AllLabels(st.flags);
    if checksumError {
      RenderAppend([ChecksumInvalid], body);
      RenderOne(ChecksumInvalid);
    } else {
      assert st.allStateStrings == body;
    }
  }

  /** The full report text identifies the state: two texts that agree come
      from the same checksum verdict and the same decoded status, and, when
      the checksum passed, from the same state byte. */
  lemma FullReportIdentifiesState(e1: bool, c1: Byte, e2: bool, c2: Byte)
    requires Render(StatusOf(e1, c1).allStateStrings) == Render(StatusOf(e2, c2).allStateStrings)
    ensures e1 == e2 && StatusOf(e1, c1) == StatusOf(e2, c2)
    ensures !e1 ==> c1 == c2
  {
    RenderInjective(StatusOf(e1, c1).allStateStrings, StatusOf(e2, c2).allStateStrings);
    FullReportDeterminesStatus(e1, c1, e2, c2);
  }

  /** Equal full reports come from the same verdict and status. */
  lemma FullReportDeterminesStatus(e1: bool, c1: Byte, e2: bool, c2: Byte)
    requires StatusOf(e1, c1).allStateStrings == StatusOf(e2, c2).allStateStrings
    ensures e1 == e2 && StatusOf(e1, c1) == StatusOf(e2, c2)
    ensures !e1 ==> c1 == c2
  {
    var st1, st2 := StatusOf(e1, c1), StatusOf(e2, c2);
    var head: seq<Line> := if e1 then [ChecksumInvalid] else [];
    assert |st1.allStateStrings| == |head| + 8 && |st2.allStateStrings| == (if e2 then 9 else 8);
    assert e1 == e2;
    SameHeadSameTail(head, AllLabels(st1.flags), AllLabels(st2.flags));
    AllLabelsInjective(st1.flags, st2.flags);
    FlagsDetermineCode(st1.stateCode, st2.flags);
    FlagsDetermineCode(st2.stateCode, st2.flags);
  }

  /** One request-reply exchange writes one command frame. */
  lemma ExchangeFacts(s: Session, opcode: Byte)
    requires Wf(s)
    ensures var t := Exchange(s, opcode);
      t.address == s.address && t.status == s.status && t.data == s.data &&
      Sent(s, t, [opcode])
  {
  }

  /** A refresh writes one state query, leaves the link as that exchange
      left it and does not touch the address or the measurements. */
  lemma RefreshFrame(s: Session)
    requires Wf(s)
    ensures var t := Refresh(s);
      t.address == s.address && t.data == s.data && Sent(s, t, [StateQuery]) &&
      t.link == Exchange(s, StateQuery).link
  {
  }

  /** If the state reply fails the checksum the state becomes the sentinel,
      otherwise byte 2 of the buffer is decoded. */
  lemma RefreshOutcome(s: Session)
    requires Wf(s)
    ensures var q := Exchange(s, StateQuery);
      var t := Refresh(s);
      t.address == s.address && t.data == s.data && Sent(s, t, [StateQuery]) &&
      t.link == q.link &&
      (q.link.checksumError ==> t.status.stateCode == 0xFF && (forall i :: 0 <= i < 8 ==> t.status.flags[i])) &&
      (!q.link.checksumError ==>
        t.status.stateCode == q.link.response[2] && t.status.flags == Bits(q.link.response[2], 8))
  {
    var q := Exchange(s, StateQuery);
    RefreshFrame(s);
    if q.link.checksumError {
      StatusAfterFailedChecksum(q.link.response[2]);
    } else {
      StatusOfValidReply(q.link.response[2]);
    }
  }

  /** An empty reply passes the checksum: with no byte available the state
      query returns the stale byte 2 left in the buffer by an earlier read. */
  lemma EmptyReplyIsAccepted(s: Session)
    requires Wf(s) && Arrivals(s.link.port) == []
    ensures var (t, state) := GetSensorState(s);
      !t.link.checksumError && t.link.responseLength == 0 && state == s.link.response[2]
  {
    var t := Exchange(s, StateQuery);
    assert t.link.response[..0] == [];
  }

  // ---------------------------------------------------------------------------
  // Commands written

  /** Every byte the driver writes belongs to a whole command for the
      session's address whose three bytes sum to 0 modulo 256. */
  lemma CommandsStayFramed(s: Session, t: Session, opcodes: seq<Byte>)
    requires IsCommandLog(s.link.port.sent, s.address) && Sent(s, t, opcodes)
    ensures IsCommandLog(t.link.port.sent, s.address)
    ensures Opcodes(Written(s, t)) == opcodes
  {
    FramesRoundTrip(s.address, opcodes);
    CommandLogAppend(s.link.port.sent, Frames(s.address, opcodes), s.address);
    assert Written(s, t) == Frames(s.address, opcodes);
  }

  lemma SentTwice(s: Session, u: Session, t: Session, xs: seq<Byte>, ys: seq<Byte>)
    requires Sent(s, u, xs) && Sent(u, t, ys) && u.address == s.address
    ensures Sent(s, t, xs + ys)
  {
    FramesAppend(s.address, xs, ys);
    ConcatAssoc(s.link.port.sent, Frames(s.address, xs), Frames(s.address, ys));
  }

  lemma SentThrice(s: Session, u: Session, v: Session, t: Session, x: Byte, y: Byte, z: Byte)
    requires Sent(s, u, [x]) && Sent(u, v, [y]) && Sent(v, t, [z])
    requires u.address == s.address && v.address == s.address
    ensures Sent(s, t, [x, y, z])
  {
    SentTwice(s, u, v, [x], [y]);
    SentTwice(s, v, t, [x, y], [z]);
    assert [x, y] + [z] == [x, y, z];
  }

  /** A sleep request to a sensor that already reports sleeping writes only
      the state query. */
  lemma SleepSkippedWhenAsleep(s: Session)
    requires Wf(s) && Refresh(s).status.flags[SleepFlag]
    ensures DoSleep(s) == Refresh(s) && Sent(s, DoSleep(s), [StateQuery])
  {
    RefreshFrame(s);
  }

  /** Otherwise it writes the toggle, and a toggle reply that passes its
      checksum is decoded as the new state from its byte 2. Measurements are
      not touched. */
  lemma SleepDecodesToggleReply(s: Session)
    requires Wf(s) && !Refresh(s).status.flags[SleepFlag]
    requires !Exchange(Refresh(s), SleepToggle).link.checksumError
    ensures var r := Exchange(Refresh(s), SleepToggle).link.response;
      var t := DoSleep(s);
      t.data == s.data && t.address == s.address && Sent(s, t, [StateQuery, SleepToggle]) &&
      t.status.stateCode == r[2] && t.status.flags == Bits(r[2], 8)
  {
    var s1 := Refresh(s);
    RefreshFrame(s);
    var s2 := Exchange(s1, SleepToggle);
    ExchangeFacts(s1, SleepToggle);
    var t := UpdateSensorState(s2, s2.link.response[2]);
    assert DoSleep(s) == t;
    SentTwice(s, s1, s2, [StateQuery], [SleepToggle]);
    StatusOfValidReply(s2.link.response[2]);
  }

  /** A toggle reply that fails its checksum is followed by a fresh state
      query. Measurements are not touched. */
  lemma SleepRequeriesAfterBadToggleReply(s: Session)
    requires Wf(s) && !Refresh(s).status.flags[SleepFlag]
    requires Exchange(Refresh(s), SleepToggle).link.checksumError
    ensures var t := DoSleep(s);
      t == Refresh(Exchange(Refresh(s), SleepToggle)) &&
      t.data == s.data && t.address == s.address &&
      Sent(s, t, [StateQuery, SleepToggle, StateQuery])
  {
    var s1 := Refresh(s);
    RefreshFrame(s);
    var s2 := Exchange(s1, SleepToggle);
    ExchangeFacts(s1, SleepToggle);
    var t := Refresh(s2);
    assert DoSleep(s) == t;
    RefreshFrame(s2);
    SentThrice(s, s1, s2, t, StateQuery, SleepToggle, StateQuery);
  }

  /** A wake request to a sensor that reports being awake writes only the
      state query. */
  lemma WakeSkippedWhenAwake(s: Session)
    requires Wf(s) && !Refresh(s).status.flags[SleepFlag]
    ensures DoWake(s) == Refresh(s) && Sent(s, DoWake(s), [StateQuery])
  {
    RefreshFrame(s);
  }

  /** A wake request to a sleeping sensor writes the toggle and then always
      queries the state afresh; the toggle's own reply is never checked.
      Measurements are not touched. */
  lemma WakeTogglesAndRequeries(s: Session)
    requires Wf(s) && Refresh(s).status.flags[SleepFlag]
    ensures var t := DoWake(s);
      t == Refresh(SendToggle(Refresh(s))) &&
      t.data == s.data && t.address == s.address &&
      Sent(s, t, [StateQuery, SleepToggle, StateQuery])
  {
    var s1 := Refresh(s);
    RefreshFrame(s);
    var s2 := SendToggle(s1);
    assert Sent(s1, s2, [SleepToggle]);
    var t := Refresh(s2);
    assert DoWake(s) == t;
    RefreshFrame(s2);
    SentThrice(s, s1, s2, t, StateQuery, SleepToggle, StateQuery);
  }

  /** The sleep request writes whole commands and toggles exactly when the
      refreshed state says the sensor is awake. */
  lemma SleepToggleRule(s: Session)
    requires Wf(s)
    ensures var sleep := DoSleep(s);
      |s.link.port.sent| <= |sleep.link.port.sent| && |Written(s, sleep)| % 3 == 0 &&
      (SleepToggle in Opcodes(Written(s, sleep)) <==> !Refresh(s).status.flags[SleepFlag])
  {
    var ops;
    if Refresh(s).status.flags[SleepFlag] {
      SleepSkippedWhenAsleep(s);
      ops := [StateQuery];
    } else if Exchange(Refresh(s), SleepToggle).link.checksumError {
      SleepRequeriesAfterBadToggleReply(s);
      ops := [StateQuery, SleepToggle, StateQuery];
    } else {
      SleepDecodesToggleReply(s);
      ops := [StateQuery, SleepToggle];
    }
    assert Written(s, DoSleep(s)) == Frames(s.address, ops);
    FramesRoundTrip(s.address, ops);
  }

  /** The wake request writes whole commands and toggles exactly when the
      refreshed state says the sensor sleeps. */
  lemma WakeToggleRule(s: Session)
    requires Wf(s)
    ensures var wake := DoWake(s);
      |s.link.port.sent| <= |wake.link.port.sent| && |Written(s, wake)| % 3 == 0 &&
      (SleepToggle in Opcodes(Written(s, wake)) <==> Refresh(s).status.flags[SleepFlag])
  {
    var ops;
    if Refresh(s).status.flags[SleepFlag] {
      WakeTogglesAndRequeries(s);
      ops := [StateQuery, SleepToggle, StateQuery];
    } else {
      WakeSkippedWhenAwake(s);
      ops := [StateQuery];
    }
    assert Written(s, DoWake(s)) == Frames(s.address, ops);
    FramesRoundTrip(s.address, ops);
  }

  /** After a state reply that fails its checksum (all flags forced on) the
      wake request toggles and the sleep request does not. */
  lemma ToggleAfterBadStateReply(s: Session)
    requires Wf(s) && Exchange(s, StateQuery).link.checksumError
    ensures !WroteToggle(s, DoSleep(s)) && WroteToggle(s, DoWake(s))
  {
    RefreshOutcome(s);
    SleepToggleRule(s);
    WakeToggleRule(s);
  }

  // ---------------------------------------------------------------------------
  // Particulate request

  /** No mode command is written when the refreshed state is not-ready,
      asleep or laser-faulty, and the measurements stay as they were. */
  lemma ParticulateSkippedWhenBlocked(s: Session, mode: MeasurementMode)
    requires Wf(s) && ParticulateBlocked(Refresh(s))
    ensures var t := UpdateParticulateData(s, mode);
      t.data == s.data && Sent(s, t, [StateQuery])
  {
    RefreshFrame(s);
  }

  /** A mode reply that fails its checksum leaves every measurement, the
      availability flag and the mode as they were. */
  lemma ParticulateKeptOnBadReply(s: Session, mode: MeasurementMode)
    requires Wf(s) && !ParticulateBlocked(Refresh(s))
    requires Exchange(Refresh(s), mode.modeCode).link.checksumError
    ensures var t := UpdateParticulateData(s, mode);
      t.data == s.data && Sent(s, t, [StateQuery, mode.modeCode])
  {
    var s1 := Refresh(s);
    RefreshFrame(s);
    ExchangeFacts(s1, mode.modeCode);
    SentTwice(s, s1, Exchange(s1, mode.modeCode), [StateQuery], [mode.modeCode]);
  }

  /** A valid mode reply carrying the busy code marks the measurements
      unavailable, keeps their values and the mode, and queries the state
      again. */
  lemma ParticulateBusy(s: Session, mode: MeasurementMode)
    requires Wf(s) && !ParticulateBlocked(Refresh(s))
    requires var q := Exchange(Refresh(s), mode.modeCode).link;
      !q.checksumError && q.response[2] == BusyCode
    ensures var t := UpdateParticulateData(s, mode);
      t.data == s.data.(noMeasurementAvailable := true) &&
      Sent(s, t, [StateQuery, mode.modeCode, StateQuery])
  {
    var s1 := Refresh(s);
    RefreshFrame(s);
    var s2 := Exchange(s1, mode.modeCode);
    ExchangeFacts(s1, mode.modeCode);
    var s3 := UpdateSensorState(s2, s2.link.response[2]);
    var s4 := s3.(data := s3.data.(noMeasurementAvailable := true));
    var t := Refresh(s4);
    assert UpdateParticulateData(s, mode) == t;
    RefreshFrame(s4);
    SentThrice(s, s1, s4, t, StateQuery, mode.modeCode, StateQuery);
  }

  /** Any other valid mode reply is decoded: the state from its byte 2, the
      three channels from bytes 3-6, 7-10 and 11-14; the measurement becomes
      available and the mode is recorded. Temperature and humidity stay. */
  lemma ParticulateDecoded(s: Session, mode: MeasurementMode)
    requires Wf(s) && !ParticulateBlocked(Refresh(s))
    requires var q := Exchange(Refresh(s), mode.modeCode).link;
      !q.checksumError && q.response[2] != BusyCode
    ensures var r := Exchange(Refresh(s), mode.modeCode).link.response;
      var t := UpdateParticulateData(s, mode);
      !t.data.noMeasurementAvailable && t.data.currentMode == mode &&
      t.data.pm1 == DecodeReading(r[3], r[4], r[5], r[6]) &&
      t.data.pm2_5 == DecodeReading(r[7], r[8], r[9], r[10]) &&
      t.data.pm10 == DecodeReading(r[11], r[12], r[13], r[14]) &&
      t.data.rawTemperature == s.data.rawTemperature && t.data.rawHumidity == s.data.rawHumidity &&
      t.status.stateCode == r[2] && t.status.flags == Bits(r[2], 8) &&
      Sent(s, t, [StateQuery, mode.modeCode])
  {
    var s1 := Refresh(s);
    RefreshOutcome(s);
    var s2 := Exchange(s1, mode.modeCode);
    ExchangeFacts(s1, mode.modeCode);
    var s3 := UpdateSensorState(s2, s2.link.response[2]);
    var t := s3.(data := DecodeParticulates(s3.data, s3.link.response, mode));
    assert UpdateParticulateData(s, mode) == t;
    StatusOfValidReply(s2.link.response[2]);
    SentTwice(s, s1, s2, [StateQuery], [mode.modeCode]);
  }

  /** A reply of at most 16 bytes that is the next thing the sensor sends,
      with nothing left over from before, is captured whole by the next
      exchange and judged by its own checksum. */
  lemma ExchangeCaptures(s: Session, opcode: Byte, reply: seq<Byte>, later: seq<seq<Byte>>)
    requires Wf(s) && s.link.port.rx == [] && s.link.port.replies == [reply] + later
    requires |reply| <= ResponseCapacity
    ensures var q := Exchange(s, opcode).link;
      q.responseLength == |reply| && q.response[..|reply|] == reply &&
      q.port.rx == [] && q.port.replies == later &&
      (q.checksumError <==> !ChecksumValid(reply))
  {
    assert Arrivals(s.link.port) == reply;
    assert ([reply] + later)[1..] == later;
  }

  /** A sensor that answers the state query with a valid reply whose state
      byte sets none of the blocking flags, then answers the mode command with
      a valid reply of 15 or 16 bytes whose state byte is not the busy code, yields the
      three channels of that reply, and the measurement is valid. */
  lemma ParticulateEndToEnd(s: Session, mode: MeasurementMode, stateReply: seq<Byte>, reply: seq<Byte>)
    requires Wf(s) && s.link.port.rx == [] && s.link.port.replies == [stateReply, reply]
    requires 3 <= |stateReply| <= 16 && ChecksumValid(stateReply)
    requires var fs := FlagsOf(stateReply[2]); !fs[NotReadyFlag] && !fs[SleepFlag] && !fs[LaserFlag]
    requires 15 <= |reply| <= ResponseCapacity && ChecksumValid(reply) && reply[2] != BusyCode
    ensures var t := UpdateParticulateData(s, mode);
      !t.data.noMeasurementAvailable &&
      t.data.pm1 == DecodeReading(reply[3], reply[4], reply[5], reply[6]) &&
      t.data.pm2_5 == DecodeReading(reply[7], reply[8], reply[9], reply[10]) &&
      t.data.pm10 == DecodeReading(reply[11], reply[12], reply[13], reply[14])
  {
    assert [stateReply, reply] == [stateReply] + [reply];
    RefreshCaptures(s, stateReply, [reply]);
    MeasurementReplyCaptured(Refresh(s), mode.modeCode, reply);
    ParticulateDecoded(s, mode);
  }

  /** A valid reply of 15 or 16 bytes that is the only thing the sensor
      still sends passes the checksum, and its first 15 bytes (the state
      byte and the three particulate windows) land in the buffer. */
  lemma MeasurementReplyCaptured(s: Session, opcode: Byte, reply: seq<Byte>)
    requires Wf(s) && s.link.port.rx == [] && s.link.port.replies == [reply]
    requires 15 <= |reply| <= ResponseCapacity && ChecksumValid(reply)
    ensures var q := Exchange(s, opcode).link;
      !q.checksumError && forall k :: 0 <= k < 15 ==> q.response[k] == reply[k]
  {
    assert [reply] == [reply] + [];
    ExchangeCaptures(s, opcode, reply, []);
    var q := Exchange(s, opcode).link;
    forall k | 0 <= k < 15
      ensures q.response[k] == reply[k]
    {
      assert q.response[k] == q.response[..|reply|][k];
    }
  }

  /** A valid state reply that is the next thing the sensor sends sets the
      flags of its state byte, and the refresh consumes exactly that reply. */
  lemma RefreshCaptures(s: Session, stateReply: seq<Byte>, later: seq<seq<Byte>>)
    requires Wf(s) && s.link.port.rx == [] && s.link.port.replies == [stateReply] + later
    requires 3 <= |stateReply| <= 16 && ChecksumValid(stateReply)
    ensures var s1 := Refresh(s);
      s1.status.flags == FlagsOf(stateReply[2]) &&
      s1.link.port.rx == [] && s1.link.port.replies == later
  {
    ExchangeCaptures(s, StateQuery, stateReply, later);
    var q := Exchange(s, StateQuery);
    assert q.link.response[2] == stateReply[2];
    RefreshFrame(s);
  }

  // ---------------------------------------------------------------------------
  // Temperature/humidity request

  /** No temperature/humidity query is written when the refreshed state is
      not-ready or temp/humidity-faulty. */
  lemma TempHumiditySkippedWhenBlocked(s: Session)
    requires Wf(s) && TempHumidityBlocked(Refresh(s))
    ensures var t := UpdateTemperatureHumidityData(s);
      t.data == s.data && Sent(s, t, [StateQuery])
  {
    RefreshFrame(s);
  }

  /** A reply that fails its checksum changes nothing further. */
  lemma TempHumidityKeptOnBadReply(s: Session)
    requires Wf(s) && !TempHumidityBlocked(Refresh(s))
    requires Exchange(Refresh(s), TempHumidityQuery).link.checksumError
    ensures var t := UpdateTemperatureHumidityData(s);
      t == Exchange(Refresh(s), TempHumidityQuery) &&
      t.data == s.data && Sent(s, t, [StateQuery, TempHumidityQuery])
  {
    var s1 := Refresh(s);
    RefreshFrame(s);
    ExchangeFacts(s1, TempHumidityQuery);
    SentTwice(s, s1, Exchange(s1, TempHumidityQuery), [StateQuery], [TempHumidityQuery]);
  }

  /** A valid reply carrying the busy code marks the measurement unavailable
      and, unlike the particulate request, does not query the state again:
      the busy code itself stays decoded as the state, not-ready among its
      flags. */
  lemma TempHumidityBusy(s: Session)
    requires Wf(s) && !TempHumidityBlocked(Refresh(s))
    requires var q := Exchange(Refresh(s), TempHumidityQuery).link;
      !q.checksumError && q.response[2] == BusyCode
    ensures var t := UpdateTemperatureHumidityData(s);
      t.data == s.data.(noMeasurementAvailable := true) &&
      t.status.stateCode == BusyCode && t.status.flags[NotReadyFlag] &&
      Sent(s, t, [StateQuery, TempHumidityQuery])
  {
    var s1 := Refresh(s);
    RefreshFrame(s);
    BusyRequest(s1);
    assert UpdateTemperatureHumidityData(s) == RequestTempHumidity(s1);
    SentTwice(s, s1, RequestTempHumidity(s1), [StateQuery], [TempHumidityQuery]);
  }

  /** A busy temperature/humidity reply records the state byte and marks
      that no measurement is available. */
  lemma BusyRequest(s: Session)
    requires Wf(s)
    requires var q := Exchange(s, TempHumidityQuery).link;
      !q.checksumError && q.response[2] == BusyCode
    ensures var t := RequestTempHumidity(s);
      t.address == s.address && t.data == s.data.(noMeasurementAvailable := true) &&
      t.status.stateCode == BusyCode && t.status.flags[NotReadyFlag] &&
      Sent(s, t, [TempHumidityQuery])
  {
    ExchangeFacts(s, TempHumidityQuery);
    BusyCodeFlags();
  }

  /** The busy code 0x16, decoded as a state byte, sets the degraded,
      not-ready and temperature/humidity error flags and no other. */
  lemma BusyCodeFlags()
    ensures var st := StatusOf(false, BusyCode);
      st.stateCode == BusyCode && st.flags == [false, true, true, false, true, false, false, false]
  {
    assert Bits(BusyCode, 8) == [false, true, true, false, true, false, false, false];
  }

  /** Any other valid reply yields the raw big-endian words at bytes 3-4
      (temperature) and 5-6 (humidity); the particulate channels stay. */
  lemma TempHumidityDecoded(s: Session)
    requires Wf(s) && !TempHumidityBlocked(Refresh(s))
    requires var q := Exchange(Refresh(s), TempHumidityQuery).link;
      !q.checksumError && q.response[2] != BusyCode
    ensures var r := Exchange(Refresh(s), TempHumidityQuery).link.response;
      var t := UpdateTemperatureHumidityData(s);
      !t.data.noMeasurementAvailable &&
      t.data.rawTemperature == r[3] as int * 256 + r[4] &&
      t.data.rawHumidity == r[5] as int * 256 + r[6] &&
      t.data.pm1 == s.data.pm1 && t.data.pm2_5 == s.data.pm2_5 && t.data.pm10 == s.data.pm10 &&
      t.data.currentMode == s.data.currentMode &&
      Sent(s, t, [StateQuery, TempHumidityQuery])
  {
    var s1 := Refresh(s);
    RefreshFrame(s);
    var s2 := Exchange(s1, TempHumidityQuery);
    ExchangeFacts(s1, TempHumidityQuery);
    SentTwice(s, s1, s2, [StateQuery], [TempHumidityQuery]);
  }

  // ---------------------------------------------------------------------------
  // Queries

  /** The readiness query answers the negation of the refreshed not-ready
      flag, so a refresh that fails its checksum answers "not ready"; the
      state-code query answers 0xFF after such a refresh and the reply's
      byte 2 otherwise. */
  lemma QueriesAfterRefresh(s: Session)
    requires Wf(s)
    ensures var q := Exchange(s, StateQuery);
      (ReadyToMeasure(s).1 <==> !Refresh(s).status.flags[NotReadyFlag]) &&
      (q.link.checksumError ==> !ReadyToMeasure(s).1 && GetStateCode(s).1 == 0xFF) &&
      (!q.link.checksumError ==> GetStateCode(s).1 == q.link.response[2])
  {
    RefreshOutcome(s);
  }

  /** Initialisation reports success exactly when the first state reply
      passes its checksum, and selects the OFF mode. */
  lemma InitOutcome(s: Session)
    requires Wf(s)
    ensures var (t, ok) := Init(s);
      var s0 := s.(data := s.data.(currentMode := OFF));
      (ok <==> !Exchange(s0, StateQuery).link.checksumError) &&
      t.data.currentMode == OFF && Sent(s, t, [StateQuery])
  {
    RefreshOutcome(s.(data := s.data.(currentMode := OFF)));
  }

  // ---------------------------------------------------------------------------
  // The stored checksum verdict

  /** The stored verdict is that of the bytes now in the buffer. */
  predicate Settled(s: Session)
    requires Wf(s)
  {
    s.link.checksumError <==> !ChecksumValid(s.link.response[..s.link.responseLength])
  }

  lemma ExchangeSettles(s: Session, opcode: Byte)
    requires Wf(s)
    ensures Settled(Exchange(s, opcode))
  {
  }

  /** Every public operation ends with its last reply judged, so the verdict
      `previousChecksumError` reports afterwards is that of the bytes the
      buffer holds: the queries, which end with the refresh ... */
  lemma QueriesSettle(s: Session)
    requires Wf(s)
    ensures Settled(Init(s).0) && Settled(ReadyToMeasure(s).0) && Settled(GetStateCode(s).0)
    ensures Settled(GetAllStateStrings(s).0) && Settled(GetActiveStateStrings(s).0)
  {
    RefreshSettles(s);
    RefreshSettles(s.(data := s.data.(currentMode := OFF)));
  }

  /** ... sleep and wake, on each of their paths ... */
  lemma SleepWakeSettle(s: Session)
    requires Wf(s)
    ensures Settled(DoSleep(s)) && Settled(DoWake(s))
  {
    RefreshSettles(s);
    var s1 := Refresh(s);
    RefreshSettles(SendToggle(s1));
    ExchangeSettles(s1, SleepToggle);
    RefreshSettles(Exchange(s1, SleepToggle));
  }

  /** ... the particulate request ... */
  lemma ParticulateSettles(s: Session, mode: MeasurementMode)
    requires Wf(s)
    ensures Settled(UpdateParticulateData(s, mode))
  {
    RefreshSettles(s);
    ParticulateRequestSettles(Refresh(s), mode);
  }

  /** ... and the temperature/humidity request. */
  lemma TempHumiditySettles(s: Session)
    requires Wf(s)
    ensures Settled(UpdateTemperatureHumidityData(s))
  {
    RefreshSettles(s);
    TempHumidityRequestSettles(Refresh(s));
  }

  lemma RefreshSettles(s: Session)
    requires Wf(s)
    ensures Settled(Refresh(s))
  {
    RefreshFrame(s);
    ExchangeSettles(s, StateQuery);
  }

  lemma ParticulateRequestSettles(s: Session, mode: MeasurementMode)
    requires Wf(s)
    ensures Settled(RequestParticulates(s, mode))
  {
    var s2 := Exchange(s, mode.modeCode);
    ExchangeSettles(s, mode.modeCode);
    RefreshSettles(UpdateSensorState(s2, s2.link.response[2]).(data := s2.data.(noMeasurementAvailable := true)));
  }

  lemma TempHumidityRequestSettles(s: Session)
    requires Wf(s)
    ensures Settled(RequestTempHumidity(s))
  {
    ExchangeSettles(s, TempHumidityQuery);
  }
}
