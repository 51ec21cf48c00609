/** The NextPM driver object as the source writes it: a class whose methods
    update its fields in place, owning eight state flags, three particulate
    measurements, a three-byte command array and a 16-byte response array,
    and talking to a serial port. Every method is proved to leave the object
    in the state the matching function of SessionModel describes. */
module Driver {
  import opened Bytes
  import opened Protocol
  import M = SessionModel

  /** One bit of the state byte, its two labels and its last decoded value. */
  class StateFlag {
    const stateBitmask: Byte
    const enabledLabel: Line
    const disabledLabel: Line
    var stateEnabled: bool

    constructor (stateBitmask: Byte, enabledLabel: Line, disabledLabel: Line, stateEnabled: bool)
      ensures this.stateBitmask == stateBitmask
      ensures this.enabledLabel == enabledLabel && this.disabledLabel == disabledLabel
      ensures this.stateEnabled == stateEnabled
    {
      this.stateBitmask := stateBitmask;
      this.enabledLabel := enabledLabel;
      this.disabledLabel := disabledLabel;
      this.stateEnabled := stateEnabled;
    }

    /** Tests the flag's bit in a state code, remembers and returns the result. */
    method CheckIfPresent(stateCodeByte: Byte) returns (present: bool)
      modifies this
      ensures stateEnabled == FlagSet(stateBitmask, stateCodeByte)
      ensures present == stateEnabled
    {
      stateEnabled := BitAnd(stateBitmask, stateCodeByte) != 0;
      present := stateEnabled;
    }

    /** The value stored by the last test, not recomputed. */
    function IsTrue(): (enabled: bool)
      reads this
      ensures enabled == stateEnabled
    {
      stateEnabled
    }

    /** The label that matches the stored value. */
    function GetString(): (text: Line)
      reads this
      ensures text == enabledLabel || text == disabledLabel
      ensures enabledLabel != disabledLabel ==> (text == enabledLabel <==> stateEnabled)
    {
      if stateEnabled then enabledLabel else disabledLabel
    }
  }

  /** One particulate channel. */
  class Measurement {
    var pcsPerLitre: int
    var density: int

    constructor ()
      ensures pcsPerLitre == 0 && density == 0
    {
      pcsPerLitre, density := 0, 0;
    }

    function Value(): Reading
      reads this
    {
      Reading(pcsPerLitre, density)
    }

    /** Decodes a four-byte window: big-endian count, big-endian density
        word divided by 10 (integer division). */
    method CalculateValues(pcsByte1: Byte, pcsByte2: Byte, densityByte1: Byte, densityByte2: Byte)
      modifies this
      ensures Value() == DecodeReading(pcsByte1, pcsByte2, densityByte1, densityByte2)
    {
      pcsPerLitre := BigEndian16(pcsByte1, pcsByte2);
      density := BigEndian16(densityByte1, densityByte2) / 10;
    }
  }

  /** The serial link the driver writes commands to and reads replies from. */
  class SerialPort {
    /** Bytes received and not yet read. */
    var rx: seq<Byte>
    /** What the sensor will have sent by each later read, one entry per read. */
    var replies: seq<seq<Byte>>
    /** Every byte written, in order. */
    var sent: seq<Byte>

    constructor (replies: seq<seq<Byte>>)
      ensures Value() == M.Port([], replies, [])
    {
      this.rx, this.replies, this.sent := [], replies, [];
    }

    function Value(): M.Port
      reads this
    {
      M.Port(rx, replies, sent)
    }

    /** The number of bytes waiting to be read. */
    function Available(): nat
      reads this
    {
      |rx|
    }

    method Write(b: Byte)
      modifies this
      ensures Value() == old(Value()).(sent := old(sent) + [b])
    {
      sent := sent + [b];
    }

    method Read() returns (b: Byte)
      requires Available() > 0
      modifies this
      ensures b == old(rx[0]) && Value() == old(Value()).(rx := old(rx[1..]))
    {
      b := rx[0];
      rx := rx[1..];
    }

    /** The sensor's next reply lands in the receive buffer; this stands for
        the settle delay that precedes every read. */
    method Receive()
      modifies this
      ensures rx == M.Arrivals(old(Value())) && sent == old(sent)
      ensures replies == if old(replies) == [] then [] else old(replies[1..])
    {
      if replies != [] {
        rx, replies := rx + replies[0], replies[1..];
      }
    }
  }

  /** The decoded status in terms of the code that is decoded and the lines
      that head both reports. */
  lemma StatusOfParts(checksumError: bool, state: Byte, code: Byte, head: seq<Line>)
    requires code == (if checksumError then ChecksumFailureCode else state)
    requires head == (if checksumError then [ChecksumInvalid] else [])
    ensures M.StatusOf(checksumError, state) ==
      M.Status(code, FlagsOf(code), head + AllLabels(FlagsOf(code)), head + ActiveLabels(FlagsOf(code)))
  {
  }

  /** Reports grow by one line per decoded flag. */
  lemma ReportsGrow(allHead: seq<Line>, activeHead: seq<Line>, done: seq<bool>, present: bool)
    requires |done| < 8
    ensures allHead + AllLabels(done + [present]) == (allHead + AllLabels(done)) + [Label(|done|, present)]
    ensures activeHead + ActiveLabels(done + [present]) ==
      (activeHead + ActiveLabels(done)) + (if present then [Label(|done|, true)] else [])
  {
    LabelsSnoc(done, present);
    ConcatAssoc(allHead, AllLabels(done), [Label(|done|, present)]);
    ConcatAssoc(activeHead, ActiveLabels(done), if present then [Label(|done|, true)] else []);
  }

  /** `done` holds the first |done| flags of `code`, decoded in report order. */
  ghost predicate Decoded(done: seq<bool>, code: Byte)
    decreases |done|
  {
    |done| <= 8 &&
    (done == [] ||
     (Decoded(done[..|done| - 1], code) && done[|done| - 1] == FlagSet(FlagMasks[|done| - 1], code)))
  }

  /** Decoding one more flag extends the decoded prefix. */
  lemma DecodedGrow(done: seq<bool>, code: Byte, present: bool)
    requires Decoded(done, code) && |done| < 8
    requires present == FlagSet(FlagMasks[|done|], code)
    ensures Decoded(done + [present], code)
  {
    assert (done + [present])[..|done|] == done;
  }

  /** Entry `k` of a decoded prefix is flag k's bit. */
  lemma {:induction false} DecodedAt(done: seq<bool>, code: Byte, k: nat)
    requires Decoded(done, code) && k < |done|
    ensures done[k] == FlagSet(FlagMasks[k], code)
    decreases |done|
  {
    if k < |done| - 1 {
      var front := done[..|done| - 1];
      DecodedAt(front, code, k);
      assert done[k] == front[k];
    }
  }

  /** Flags decoded one by one from a code are the code's flags. */
  lemma DecodedFlags(done: seq<bool>, code: Byte)
    requires |done| == 8 && Decoded(done, code)
    ensures done == FlagsOf(code)
  {
    forall k | 0 <= k < 8
      ensures done[k] == FlagsOf(code)[k]
    {
      DecodedAt(done, code, k);
    }
  }

  /** Flags and reports built one flag at a time make up the decoded status. */
  lemma StatusFromDecoded(checksumError: bool, state: Byte, code: Byte, head: seq<Line>,
                          done: seq<bool>, all: seq<Line>, active: seq<Line>)
    requires code == (if checksumError then ChecksumFailureCode else state)
    requires head == (if checksumError then [ChecksumInvalid] else [])
    requires |done| == 8 && Decoded(done, code)
    requires all == head + AllLabels(done) && active == head + ActiveLabels(done)
    ensures M.Status(code, done, all, active) == M.StatusOf(checksumError, state)
  {
    DecodedFlags(done, code);
    StatusOfParts(checksumError, state, code, head);
  }

  /** A flag object carries the mask and labels of flag `i`. */
  ghost predicate FlagTable(flag: StateFlag, i: nat)
  {
    i < 8 && flag.stateBitmask == FlagMasks[i] &&
    flag.enabledLabel == EnabledLabels[i] && flag.disabledLabel == DisabledLabels[i]
  }

  /** Storing the next arriving byte extends the captured prefix by one. */
  lemma CaptureStep(bytes: seq<Byte>, initial: seq<Byte>, n: nat)
    requires n < |bytes| && n < |initial|
    ensures (bytes[..n] + initial[n..])[n := bytes[n]] == bytes[..n + 1] + initial[n + 1..]
  {
  }

  /** What the capture loop of ReadResponse leaves behind is the modelled
      read: a prefix of the arrivals, cut at the buffer size. */
  lemma CaptureIsReadResponse(l: M.Link, n: nat, response: seq<Byte>, rx: seq<Byte>, replies: seq<seq<Byte>>)
    requires |l.response| == M.ResponseCapacity && |response| == M.ResponseCapacity
    requires n <= |M.Arrivals(l.port)| && n <= M.ResponseCapacity
    requires rx == M.Arrivals(l.port)[n..] && (rx == [] || n == M.ResponseCapacity)
    requires response == M.Arrivals(l.port)[..n] + l.response[n..]
    requires replies == if l.port.replies == [] then [] else l.port.replies[1..]
    ensures M.ReadResponse(l) ==
      l.(response := response, responseLength := n, port := l.port.(rx := rx, replies := replies))
  {
  }

  /** How many bytes of the response buffer the last read filled. */
  type ResponseLength = n: nat | n <= M.ResponseCapacity

  /** The driver object. */
  class NextPM {
    const address: Byte
    const serial: SerialPort
    const storedCommand: array<Byte>
    const sensorResponse: array<Byte>
    var responseLength: ResponseLength
    var checksumError: bool
    var stateCode: Byte
    var allStateStrings: seq<Line>
    var activeStateStrings: seq<Line>
    /** The eight flag members in report order: sleepEnabled, degradedError,
        notReady, highHumidityError, tempHumidityError, fanError, memoryError
        and laserError, at the positions SleepFlag .. LaserFlag. */
    const allStates: seq<StateFlag>
    var currentMode: MeasurementMode
    var noMeasurementAvailable: bool
    const pm1: Measurement
    const pm2_5: Measurement
    const pm10: Measurement
    var rawTemperature: int
    var rawHumidity: int

    /** The eight state flags with their masks and labels, all clear. */
    static method NewStateFlags() returns (flags: seq<StateFlag>)
      ensures |flags| == 8
      ensures forall i :: 0 <= i < 8 ==> fresh(flags[i]) && !flags[i].stateEnabled
      ensures forall i, j :: 0 <= i < j < 8 ==> flags[i] != flags[j]
      ensures forall i :: 0 <= i < 8 ==> FlagTable(flags[i], i)
    {
      flags := [];
      for i := 0 to 8
        invariant |flags| == i
        invariant forall k :: 0 <= k < i ==> fresh(flags[k]) && !flags[k].stateEnabled
        invariant forall k, l :: 0 <= k < l < i ==> flags[k] != flags[l]
        invariant forall k :: 0 <= k < i ==> FlagTable(flags[k], k)
      {
        var flag := new StateFlag(FlagMasks[i], EnabledLabels[i], DisabledLabels[i], false);
        flags := flags + [flag];
      }
    }

    /** A fresh byte array holding `contents`. */
    static method NewBuffer(contents: seq<Byte>) returns (a: array<Byte>)
      ensures fresh(a) && a[..] == contents
    {
      a := new Byte[|contents|](i requires 0 <= i < |contents| => contents[i]);
    }

    /** A driver for the sensor at the given address on the given port.
        The response buffer's initial contents are whatever memory held, so
        they are a parameter; the stored command starts as {0x81, 0, 0}
        whatever the address, because its initialiser runs before the
        constructor body assigns the address. The current mode is unset until
        Init, modelled as OFF. */
    constructor (sensorAddress: Byte, serial: SerialPort, initialResponse: seq<Byte>)
      requires |initialResponse| == M.ResponseCapacity
      ensures Valid() && this.serial == serial
      ensures fresh(storedCommand) && fresh(sensorResponse) && fresh(pm1) && fresh(pm2_5) && fresh(pm10)
      ensures address == sensorAddress
      ensures LinkValue() == M.Link([DefaultAddress, 0, 0], initialResponse, 0, false, serial.Value())
      ensures StatusValue() == M.Status(0, [false, false, false, false, false, false, false, false], [], [])
      ensures DataValue() == M.Data(OFF, true, Reading(0, 0), Reading(0, 0), Reading(0, 0), 0, 0)
    {
      var flags := NewStateFlags();
      var m1 := new Measurement();
      var m2 := new Measurement();
      var m3 := new Measurement();
      var command := NewBuffer([DefaultAddress, 0, 0]);
      var response := NewBuffer(initialResponse);
      address := sensorAddress;
      this.serial := serial;
      storedCommand, sensorResponse := command, response;
      responseLength := 0;
      checksumError := false;
      stateCode := 0;
      allStateStrings, activeStateStrings := [], [];
      allStates := flags;
      currentMode := OFF;
      noMeasurementAvailable := true;
      pm1, pm2_5, pm10 := m1, m2, m3;
      rawTemperature, rawHumidity := 0, 0;
      new;
      InitialValues(initialResponse);
    }

    /** The fields as the constructor leaves them, seen as a session value. */
    lemma InitialValues(initialResponse: seq<Byte>)
      requires storedCommand[..] == [DefaultAddress, 0, 0] && sensorResponse[..] == initialResponse
      requires responseLength == 0 && !checksumError && stateCode == 0
      requires allStateStrings == [] && activeStateStrings == []
      requires |allStates| == 8 && forall k :: 0 <= k < 8 ==> !allStates[k].stateEnabled
      requires currentMode == OFF && noMeasurementAvailable && rawTemperature == 0 && rawHumidity == 0
      requires pm1.Value() == pm2_5.Value() == pm10.Value() == Reading(0, 0)
      ensures LinkValue() == M.Link([DefaultAddress, 0, 0], initialResponse, 0, false, serial.Value())
      ensures StatusValue() == M.Status(0, [false, false, false, false, false, false, false, false], [], [])
      ensures DataValue() == M.Data(OFF, true, Reading(0, 0), Reading(0, 0), Reading(0, 0), 0, 0)
    {
      assert Flags() == [false, false, false, false, false, false, false, false];
    }

    // -------------------------------------------------------------------------
    // One request

    /** Stores the checksum that makes the three command bytes sum to a
        multiple of 256, computed with C's truncating remainder and a
        uint8_t store. */
    method SetCommandChecksum()
      requires Valid()
      modifies storedCommand
      ensures storedCommand[..] ==
        old(storedCommand[..])[2 := CommandChecksum(old(storedCommand[0]), old(storedCommand[1]))]
      ensures (storedCommand[0] as int + storedCommand[1] as int + storedCommand[2] as int) % 256 == 0
    {
      storedCommand[2] := ToUint8(CRem256(0x100 - storedCommand[1] as int - storedCommand[0] as int));
    }

    /** Stamps the address and checksum into the stored command and writes
        its three bytes in order. */
    method SendStoredCommand()
      requires Valid()
      modifies storedCommand, serial
      ensures Valid()
      ensures LinkValue() == M.SendStoredCommand(address, old(LinkValue()))
    {
      ghost var opcode := storedCommand[1];
      storedCommand[0] := address;
      SetCommandChecksum();
      assert storedCommand[..] == CommandFrame(address, opcode);
      for i := 0 to 3
        invariant storedCommand[..] == CommandFrame(address, opcode)
        invariant serial.Value() == old(serial.Value()).(sent := old(serial.sent) + storedCommand[..i])
      {
        serial.Write(storedCommand[i]);
        assert storedCommand[..i + 1] == storedCommand[..i] + [storedCommand[i]];
      }
      assert storedCommand[..3] == storedCommand[..];
      ghost var l := old(LinkValue());
      assert l.command[1] == opcode;
      assert Frames(address, [opcode]) == CommandFrame(address, opcode);
      assert serial.Value() == l.port.(sent := l.port.sent + Frames(address, [opcode]));
    }

    /** Waits for the reply, then moves available bytes into the response
        buffer, stopping once it is full. */
    method ReadResponse()
      requires Valid()
      modifies this`responseLength, sensorResponse, serial
      ensures Valid()
      ensures LinkValue() == M.ReadResponse(old(LinkValue()))
    {
      ghost var l := LinkValue();
      serial.Receive();
      ghost var bytes := serial.rx;
      ghost var replies := serial.replies;
      responseLength := 0;
      while serial.Available() > 0
        invariant responseLength < M.ResponseCapacity && responseLength <= |bytes|
        invariant serial.rx == bytes[responseLength..]
        invariant serial.replies == replies && serial.sent == l.port.sent
        invariant sensorResponse[..] == bytes[..responseLength] + l.response[responseLength..]
        decreases serial.Available()
      {
        CaptureStep(bytes, l.response, responseLength);
        CaptureByte();
        if responseLength >= M.ResponseCapacity {
          break;
        }
      }
      CaptureIsReadResponse(l, responseLength, sensorResponse[..], serial.rx, serial.replies);
    }

    /** One turn of the capture loop: the next byte is read from the port
        into the buffer at the current length, and the length grows by one. */
    method CaptureByte()
      requires Valid() && serial.Available() > 0 && responseLength < M.ResponseCapacity
      modifies this`responseLength, sensorResponse, serial
      ensures responseLength == old(responseLength) + 1
      ensures sensorResponse[..] == old(sensorResponse[..])[old(responseLength) := old(serial.rx[0])]
      ensures serial.Value() == old(serial.Value()).(rx := old(serial.rx[1..]))
    {
      var b := serial.Read();
      sensorResponse[responseLength] := b;
      responseLength := responseLength + 1;
    }

    /** Sums the captured bytes and records whether the sum is not a
        multiple of 256. */
    method CheckResponseChecksum() returns (error: bool)
      requires Valid()
      modifies this`checksumError
      ensures Valid()
      ensures LinkValue() == M.CheckResponseChecksum(old(LinkValue()))
      ensures error == checksumError
      ensures error <==> !ChecksumValid(sensorResponse[..responseLength])
    {
      var calculatedChecksum: int := 0;
      for i := 0 to responseLength
        invariant calculatedChecksum == Sum(sensorResponse[..i])
      {
        calculatedChecksum := calculatedChecksum + sensorResponse[i] as int;
        assert sensorResponse[..i + 1][..i] == sensorResponse[..i];
      }
      checksumError := calculatedChecksum % 0x100 != 0;
      error := checksumError;
    }

    // -------------------------------------------------------------------------
    // The state byte

    /** Decodes a state byte into the eight flags and both reports; after a
        failed checksum the byte is replaced by 0xFF and the reports start
        with the checksum line. Each report holds one line per label. */
    method UpdateSensorState(state: Byte)
      requires Valid()
      modifies this`stateCode, this`allStateStrings, this`activeStateStrings, allStates
      ensures Abstract() == M.UpdateSensorState(old(Abstract()), state)
    {
      StartReports(state);
      ghost var head := allStateStrings;
      ghost var done := DecodeFlags();
      OnlyStatusChanged();
      DecodedStatus(state, head, done);
    }

    /** The start of a decoding: both reports emptied, the code stored, and
        after a failed checksum the code replaced by 0xFF and the checksum
        line put at the head of both reports. */
    method StartReports(state: Byte)
      modifies this`stateCode, this`allStateStrings, this`activeStateStrings
      ensures stateCode == if checksumError then ChecksumFailureCode else state
      ensures allStateStrings == (if checksumError then [ChecksumInvalid] else [])
      ensures activeStateStrings == allStateStrings
    {
      allStateStrings := [];
      activeStateStrings := [];
      stateCode := state;
      if checksumError {
        allStateStrings := allStateStrings + [ChecksumInvalid];
        activeStateStrings := activeStateStrings + [ChecksumInvalid];
        stateCode := ChecksumFailureCode;
      }
    }

    /** The decoding loop: each flag in report order tests its bit of the
        stored code and appends its line to the reports. */
    method DecodeFlags() returns (ghost done: seq<bool>)
      requires Valid()
      modifies this`allStateStrings, this`activeStateStrings, allStates
      ensures |done| == 8 && Flags() == done
      ensures Decoded(done, stateCode)
      ensures allStateStrings == old(allStateStrings) + AllLabels(done)
      ensures activeStateStrings == old(activeStateStrings) + ActiveLabels(done)
    {
      ghost var allHead, activeHead := allStateStrings, activeStateStrings;
      done := [];
      for i := 0 to 8
        invariant |done| == i
        invariant DecodedPrefix(done)
        invariant allStateStrings == allHead + AllLabels(done)
        invariant activeStateStrings == activeHead + ActiveLabels(done)
      {
        var present := DecodeStep(i, done, allHead, activeHead);
        done := done + [present];
      }
      FlagsAfterDecoding(done);
    }

    /** The flags of the first |done| positions hold `done`, the decoding of
        the stored code so far. */
    ghost predicate DecodedPrefix(done: seq<bool>)
      requires |allStates| == 8
      reads this, allStates
    {
      |done| <= 8 && Decoded(done, stateCode) &&
      forall k :: 0 <= k < |done| ==> allStates[k].stateEnabled == done[k]
    }

    /** One turn of the decoding loop, stated against the decoded prefix. */
    method DecodeStep(i: nat, ghost done: seq<bool>, ghost allHead: seq<Line>, ghost activeHead: seq<Line>)
      returns (present: bool)
      requires Valid() && i == |done| < 8 && DecodedPrefix(done)
      requires allStateStrings == allHead + AllLabels(done)
      requires activeStateStrings == activeHead + ActiveLabels(done)
      modifies allStates[i], this`allStateStrings, this`activeStateStrings
      ensures DecodedPrefix(done + [present])
      ensures allStateStrings == allHead + AllLabels(done + [present])
      ensures activeStateStrings == activeHead + ActiveLabels(done + [present])
    {
      FlagAt(i);
      present := ReportFlag(i);
      ReportsGrow(allHead, activeHead, done, present);
      DecodedGrow(done, stateCode, present);
      assert forall k :: 0 <= k < |done| ==> allStates[k].stateEnabled == done[k];
    }

    /** One turn of the decoding loop: flag `i` tests its bit of the state
        code, its label goes to the full report, and to the active report
        when the bit is set. */
    method ReportFlag(i: nat) returns (present: bool)
      requires Valid() && i < 8 && FlagTable(allStates[i], i)
      modifies allStates[i], this`allStateStrings, this`activeStateStrings
      ensures present == allStates[i].stateEnabled == FlagSet(FlagMasks[i], stateCode)
      ensures forall k :: 0 <= k < 8 && k != i ==> allStates[k].stateEnabled == old(allStates[k].stateEnabled)
      ensures allStateStrings == old(allStateStrings) + [Label(i, present)]
      ensures activeStateStrings == old(activeStateStrings) + (if present then [Label(i, true)] else [])
    {
      present := allStates[i].CheckIfPresent(stateCode);
      var text := allStates[i].GetString();
      if present {
        activeStateStrings := activeStateStrings + [text];
      }
      allStateStrings := allStateStrings + [text];
    }

    /** One request: stores the opcode, writes the command, then reads the
        reply and checks its checksum. */
    method Request(opcode: Byte)
      requires Valid()
      modifies this`responseLength, this`checksumError, storedCommand, sensorResponse, serial
      ensures LinkValue() == M.Transact(address, old(LinkValue()), opcode)
    {
      storedCommand[1] := opcode;
      SendStoredCommand();
      ReadResponse();
      var _ := CheckResponseChecksum();
    }

    /** A request seen on the whole object: only the link changes. */
    method Exchange(opcode: Byte)
      requires Valid()
      modifies this`responseLength, this`checksumError, storedCommand, sensorResponse, serial
      ensures Abstract() == M.Exchange(old(Abstract()), opcode)
    {
      Request(opcode);
      OnlyLinkChanged();
    }

    /** Sends the state query, reads and checks the reply, and returns byte 2
        of the buffer whatever the checksum said. */
    method GetSensorState() returns (state: Byte)
      requires Valid()
      modifies this`responseLength, this`checksumError, storedCommand, sensorResponse, serial
      ensures (Abstract(), state) == M.GetSensorState(old(Abstract()))
    {
      Exchange(StateQuery);
      state := sensorResponse[2];
    }

    /** Writes the sleep/wake toggle without reading its reply; the reply
        stays on the link for the state query that follows. */
    method SendToggle()
      requires Valid()
      modifies storedCommand, serial
      ensures Abstract() == M.SendToggle(old(Abstract()))
    {
      storedCommand[1] := SleepToggle;
      SendStoredCommand();
      OnlyLinkChanged();
    }

    /** The refresh every public operation starts with: the state query,
        then the decoding of byte 2 of its reply. */
    method Refresh()
      requires Valid()
      modifies this`responseLength, this`checksumError, storedCommand, sensorResponse, serial
      modifies this`stateCode, this`allStateStrings, this`activeStateStrings, allStates
      ensures Abstract() == M.Refresh(old(Abstract()))
    {
      var state := GetSensorState();
      UpdateSensorState(state);
    }

    // -------------------------------------------------------------------------
    // Public operations

    /** Selects the OFF mode, then refreshes the state; succeeds when the
        state reply passes its checksum. */
    method Init() returns (ok: bool)
      requires Valid()
      modifies this, storedCommand, sensorResponse, serial, allStates
      ensures (Abstract(), ok) == M.Init(old(Abstract()))
    {
      SelectMode(OFF);
      Refresh();
      ok := !checksumError;
    }

    /** Stores the measurement mode. */
    method SelectMode(mode: MeasurementMode)
      requires Valid()
      modifies this`currentMode
      ensures Abstract() == old(Abstract()).(data := old(DataValue()).(currentMode := mode))
    {
      currentMode := mode;
      OnlyDataChanged();
    }

    /** Puts the sensor to sleep unless the refreshed state says it sleeps. */
    method DoSleep()
      requires Valid()
      modifies this, storedCommand, sensorResponse, serial, allStates
      ensures Abstract() == M.DoSleep(old(Abstract()))
    {
      Refresh();
      var asleep := IsSet(SleepFlag);
      if !asleep {
        Exchange(SleepToggle);
        if checksumError {
          Refresh();
        } else {
          UpdateSensorState(sensorResponse[2]);
        }
      }
    }

    /** Wakes the sensor if the refreshed state says it sleeps. */
    method DoWake()
      requires Valid()
      modifies this, storedCommand, sensorResponse, serial, allStates
      ensures Abstract() == M.DoWake(old(Abstract()))
    {
      Refresh();
      var asleep := IsSet(SleepFlag);
      if asleep {
        SendToggle();
        Refresh();
      }
    }

    /** Requests the particulate channels of a mode, unless the refreshed
        flags say the sensor is not ready, asleep or its laser failed. */
    method UpdateParticulateData(mode: MeasurementMode)
      requires Valid()
      modifies this, storedCommand, sensorResponse, serial, allStates, pm1, pm2_5, pm10
      ensures Abstract() == M.UpdateParticulateData(old(Abstract()), mode)
    {
      Refresh();
      var blocked := ParticulateBlocked();
      if blocked {
        return;
      }
      RequestParticulates(mode);
    }

    /** Whether the stored flags forbid a particulate request. */
    method ParticulateBlocked() returns (blocked: bool)
      requires Valid()
      ensures blocked == M.ParticulateBlocked(Abstract())
    {
      blocked := allStates[NotReadyFlag].IsTrue() || allStates[SleepFlag].IsTrue() || allStates[LaserFlag].IsTrue();
    }

    /** Sends the particulate request; after a failed checksum nothing more
        happens, a busy reply marks the measurement missing and refreshes
        the state, any other reply is decoded. */
    method RequestParticulates(mode: MeasurementMode)
      requires Valid()
      modifies this, storedCommand, sensorResponse, serial, allStates, pm1, pm2_5, pm10
      ensures Abstract() == M.RequestParticulates(old(Abstract()), mode)
    {
      Exchange(mode.modeCode);
      if checksumError {
        return;
      }
      UpdateSensorState(sensorResponse[2]);
      if sensorResponse[2] == BusyCode {
        MarkNoMeasurement();
        Refresh();
        return;
      }
      DecodeParticulates(mode);
    }

    /** Stores the three channels decoded from the response buffer. */
    method DecodeParticulates(mode: MeasurementMode)
      requires Valid()
      modifies this`noMeasurementAvailable, this`currentMode, pm1, pm2_5, pm10
      ensures Abstract() == old(Abstract()).(data := M.DecodeParticulates(old(DataValue()), sensorResponse[..], mode))
    {
      noMeasurementAvailable := false;
      currentMode := mode;
      StoreChannels();
      OnlyDataChanged();
    }

    /** Decodes the three particulate channels of the response buffer. */
    method StoreChannels()
      requires Valid()
      modifies pm1, pm2_5, pm10
      ensures var r := sensorResponse[..];
        pm1.Value() == DecodeReading(r[3], r[4], r[5], r[6]) &&
        pm2_5.Value() == DecodeReading(r[7], r[8], r[9], r[10]) &&
        pm10.Value() == DecodeReading(r[11], r[12], r[13], r[14])
    {
      pm1.CalculateValues(sensorResponse[3], sensorResponse[4], sensorResponse[5], sensorResponse[6]);
      pm2_5.CalculateValues(sensorResponse[7], sensorResponse[8], sensorResponse[9], sensorResponse[10]);
      pm10.CalculateValues(sensorResponse[11], sensorResponse[12], sensorResponse[13], sensorResponse[14]);
    }

    /** Requests temperature and humidity, unless the refreshed flags say the
        sensor is not ready or its temperature/humidity sensor failed. */
    method UpdateTemperatureHumidityData()
      requires Valid()
      modifies this, storedCommand, sensorResponse, serial, allStates
      ensures Abstract() == M.UpdateTemperatureHumidityData(old(Abstract()))
    {
      Refresh();
      var blocked := TempHumidityBlocked();
      if blocked {
        return;
      }
      RequestTempHumidity();
    }

    /** Whether the stored flags forbid a temperature/humidity request. */
    method TempHumidityBlocked() returns (blocked: bool)
      requires Valid()
      ensures blocked == M.TempHumidityBlocked(Abstract())
    {
      blocked := allStates[NotReadyFlag].IsTrue() || allStates[TempHumidityFlag].IsTrue();
    }

    /** The stored value of flag `i`, as the source reads it without a new
        query. */
    method IsSet(i: nat) returns (enabled: bool)
      requires Valid() && i < 8
      ensures enabled == Abstract().status.flags[i]
    {
      enabled := allStates[i].IsTrue();
    }

    /** Sends the temperature/humidity request; after a failed checksum
        nothing more happens, a busy reply marks the measurement missing
        (without a new state query), any other reply is decoded. */
    method RequestTempHumidity()
      requires Valid()
      modifies this, storedCommand, sensorResponse, serial, allStates
      ensures Abstract() == M.RequestTempHumidity(old(Abstract()))
    {
      Exchange(TempHumidityQuery);
      if checksumError {
        return;
      }
      UpdateSensorState(sensorResponse[2]);
      if sensorResponse[2] == BusyCode {
        MarkNoMeasurement();
        return;
      }
      DecodeTempHumidity();
    }

    /** Records that the last request produced no measurement. */
    method MarkNoMeasurement()
      requires Valid()
      modifies this`noMeasurementAvailable
      ensures Abstract() == old(Abstract()).(data := old(DataValue()).(noMeasurementAvailable := true))
    {
      noMeasurementAvailable := true;
      OnlyDataChanged();
    }

    /** Stores the raw temperature and humidity words of the response
        buffer. */
    method DecodeTempHumidity()
      requires Valid()
      modifies this`noMeasurementAvailable, this`rawTemperature, this`rawHumidity
      ensures Abstract() == old(Abstract()).(data := M.DecodeTempHumidity(old(DataValue()), sensorResponse[..]))
    {
      noMeasurementAvailable := false;
      rawTemperature := BigEndian16(sensorResponse[3], sensorResponse[4]);
      rawHumidity := BigEndian16(sensorResponse[5], sensorResponse[6]);
      OnlyDataChanged();
    }

    /** Refreshes the state and answers whether the sensor is ready. */
    method ReadyToMeasure() returns (ready: bool)
      requires Valid()
      modifies this, storedCommand, sensorResponse, serial, allStates
      ensures (Abstract(), ready) == M.ReadyToMeasure(old(Abstract()))
    {
      Refresh();
      var notReady := IsSet(NotReadyFlag);
      ready := !notReady;
    }

    /** Refreshes the state and returns the full report. */
    method GetAllStateStrings() returns (text: string)
      requires Valid()
      modifies this, storedCommand, sensorResponse, serial, allStates
      ensures (Abstract(), text) == M.GetAllStateStrings(old(Abstract()))
    {
      Refresh();
      text := Render(allStateStrings);
    }

    /** Refreshes the state and returns the report of the set flags. */
    method GetActiveStateStrings() returns (text: string)
      requires Valid()
      modifies this, storedCommand, sensorResponse, serial, allStates
      ensures (Abstract(), text) == M.GetActiveStateStrings(old(Abstract()))
    {
      Refresh();
      text := Render(activeStateStrings);
    }

    /** The checksum verdict of the last reply, without a new request. */
    method PreviousChecksumError() returns (error: bool)
      ensures error == checksumError
    {
      error := checksumError;
    }

    /** Whether the last measurement request decoded values, without a new
        request. */
    method MeasurementIsValid() returns (valid: bool)
      ensures valid == !noMeasurementAvailable
    {
      valid := !noMeasurementAvailable;
    }

    /** Refreshes the state and returns the state code. */
    method GetStateCode() returns (code: Byte)
      requires Valid()
      modifies this, storedCommand, sensorResponse, serial, allStates
      ensures (Abstract(), code) == M.GetStateCode(old(Abstract()))
    {
      Refresh();
      code := stateCode;
    }

    /** The driver's fixed structure: buffer sizes, distinct objects and the
        flag table. It speaks only of constants, so no update can break it. */
    ghost predicate Valid()
    {
      storedCommand.Length == 3 && sensorResponse.Length == M.ResponseCapacity &&
      storedCommand != sensorResponse && pm1 != pm2_5 && pm1 != pm10 && pm2_5 != pm10 &&
      |allStates| == 8 &&
      (forall i, j :: 0 <= i < j < 8 ==> allStates[i] != allStates[j]) &&
      (forall i {:trigger FlagTable(allStates[i], i)} :: 0 <= i < 8 ==> FlagTable(allStates[i], i))
    }

    /** Flag `i` of the report carries the i-th mask and labels. */
    lemma FlagAt(i: nat)
      requires Valid() && i < 8
      ensures FlagTable(allStates[i], i)
    {
    }

    /** The eight flag values in report order. */
    function Flags(): (fs: seq<bool>)
      requires |allStates| == 8
      reads allStates
      ensures |fs| == 8
    {
      [allStates[0].stateEnabled, allStates[1].stateEnabled, allStates[2].stateEnabled,
       allStates[3].stateEnabled, allStates[4].stateEnabled, allStates[5].stateEnabled,
       allStates[6].stateEnabled, allStates[7].stateEnabled]
    }

    /** After the decoding loop the named flags hold the decoded values. */
    lemma FlagsAfterDecoding(done: seq<bool>)
      requires Valid() && |done| == 8
      requires forall k :: 0 <= k < 8 ==> allStates[k].stateEnabled == done[k]
      ensures Flags() == done
    {
    }

    /** What the decoding loop leaves behind is the decoded status. */
    lemma DecodedStatus(state: Byte, head: seq<Line>, done: seq<bool>)
      requires Valid() && |done| == 8
      requires stateCode == if checksumError then ChecksumFailureCode else state
      requires head == if checksumError then [ChecksumInvalid] else []
      requires Flags() == done && Decoded(done, stateCode)
      requires allStateStrings == head + AllLabels(done)
      requires activeStateStrings == head + ActiveLabels(done)
      ensures StatusValue() == M.StatusOf(checksumError, state)
    {
      StatusFromDecoded(checksumError, state, stateCode, head, done, allStateStrings, activeStateStrings);
    }

    /** A change to the link alone changes only the link part of the
        session. */
    twostate lemma OnlyLinkChanged()
      requires Valid()
      requires unchanged(allStates, pm1, pm2_5, pm10)
      requires unchanged(this`stateCode, this`allStateStrings, this`activeStateStrings)
      requires unchanged(this`currentMode, this`noMeasurementAvailable, this`rawTemperature, this`rawHumidity)
      ensures Abstract() == old(Abstract()).(link := LinkValue())
    {
    }

    /** A change to the decoded state alone changes only the status part
        of the session. */
    twostate lemma OnlyStatusChanged()
      requires Valid()
      requires unchanged(storedCommand, sensorResponse, serial, pm1, pm2_5, pm10)
      requires unchanged(this`responseLength, this`checksumError)
      requires unchanged(this`currentMode, this`noMeasurementAvailable, this`rawTemperature, this`rawHumidity)
      ensures Abstract() == old(Abstract()).(status := StatusValue())
    {
    }

    /** A change to the measurement fields alone changes only the data part
        of the session. */
    twostate lemma OnlyDataChanged()
      requires Valid()
      requires unchanged(storedCommand, sensorResponse, serial, allStates)
      requires unchanged(this`responseLength, this`checksumError, this`stateCode, this`allStateStrings, this`activeStateStrings)
      ensures Abstract() == old(Abstract()).(data := DataValue())
    {
    }

    ghost function LinkValue(): M.Link
      reads this`responseLength, this`checksumError, storedCommand, sensorResponse, serial
    {
      M.Link(storedCommand[..], sensorResponse[..], responseLength, checksumError, serial.Value())
    }

    ghost function StatusValue(): M.Status
      requires |allStates| == 8
      reads this`stateCode, this`allStateStrings, this`activeStateStrings, allStates
    {
      M.Status(stateCode, Flags(), allStateStrings, activeStateStrings)
    }

    ghost function DataValue(): M.Data
      reads this`currentMode, this`noMeasurementAvailable, this`rawTemperature, this`rawHumidity
      reads pm1, pm2_5, pm10
    {
      M.Data(currentMode, noMeasurementAvailable, pm1.Value(), pm2_5.Value(), pm10.Value(),
             rawTemperature, rawHumidity)
    }

    /** The whole object as a value of the session model. */
    ghost function Abstract(): (s: M.Session)
      requires Valid()
      reads this, storedCommand, sensorResponse, serial, allStates, pm1, pm2_5, pm10
      ensures M.Wf(s)
    {
      M.Session(address, LinkValue(), StatusValue(), DataValue())
    }
  }
}
