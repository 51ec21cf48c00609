/** A functional description of one NextPM session: the state the driver
    keeps, the serial link, and one function per driver operation giving the
    state after it. The imperative driver is proved to follow these functions
    step for step, and the lemmas of SessionProperties state what each
    operation writes to the link and which fields it changes on each path. */
module SessionModel {
  import opened Bytes
  import opened Protocol

  /** Size of the response buffer. */
  const ResponseCapacity: nat := 16

  /** The serial link: bytes received and not yet read, the bytes the sensor
      will have sent by each later read (one entry per read), and every byte
      written so far. */
  datatype Port = Port(rx: seq<Byte>, replies: seq<seq<Byte>>, sent: seq<Byte>)

  /** The request-reply machinery: the stored command, the response buffer
      with its length, the last checksum verdict, and the link. */
  datatype Link = Link(
    command: seq<Byte>,
    response: seq<Byte>,
    responseLength: nat,
    checksumError: bool,
    port: Port)

  /** The decoded state: the state code, the eight flags and both reports. */
  datatype Status = Status(
    stateCode: Byte,
    flags: seq<bool>,
    allStateStrings: seq<Line>,
    activeStateStrings: seq<Line>)

  /** The measurements and what the driver records about them. */
  datatype Data = Data(
    currentMode: MeasurementMode,
    noMeasurementAvailable: bool,
    pm1: Reading,
    pm2_5: Reading,
    pm10: Reading,
    rawTemperature: int,
    rawHumidity: int)

  /** Everything the driver object holds. */
  datatype Session = Session(address: Byte, link: Link, status: Status, data: Data)

  /** Shapes of the fixed-size parts: a three-byte command, the 16-byte
      buffer with its length, eight flags. */
  predicate Wf(s: Session)
  {
    |s.link.command| == 3 && |s.link.response| == ResponseCapacity &&
    s.link.responseLength <= ResponseCapacity && |s.status.flags| == 8
  }

  // ---------------------------------------------------------------------------
  // Steps of one request

  /** Writes the stored command after setting its address and checksum. */
  function SendStoredCommand(address: Byte, l: Link): (r: Link)
    requires |l.command| == 3
    ensures r.command == CommandFrame(address, l.command[1])
    ensures r.port.sent == l.port.sent + Frames(address, [l.command[1]])
    ensures r == l.(command := r.command, port := l.port.(sent := r.port.sent))
  {
    var cmd := [address, l.command[1], CommandChecksum(address, l.command[1])];
    assert Frames(address, [l.command[1]]) == cmd;
    l.(command := cmd, port := l.port.(sent := l.port.sent + cmd))
  }

  /** The bytes available when a read starts: those left over plus the
      sensor's next reply. */
  function Arrivals(p: Port): seq<Byte>
  {
    if p.replies == [] then p.rx else p.rx + p.replies[0]
  }

  /** Drains the available bytes into the response buffer, at most 16 of
      them; bytes of the buffer past the new length keep their old values. */
  function ReadResponse(l: Link): (r: Link)
    requires |l.response| == ResponseCapacity
    ensures |r.response| == ResponseCapacity && r.command == l.command
    ensures var bytes := Arrivals(l.port);
      r.responseLength == (if |bytes| < ResponseCapacity then |bytes| else ResponseCapacity) &&
      r.response[..r.responseLength] == bytes[..r.responseLength] &&
      r.response[r.responseLength..] == l.response[r.responseLength..] &&
      r.port.rx == bytes[r.responseLength..] && r.port.sent == l.port.sent
    ensures r.checksumError == l.checksumError
    ensures r.port.replies == if l.port.replies == [] then [] else l.port.replies[1..]
  {
    var bytes := Arrivals(l.port);
    var n := if |bytes| < ResponseCapacity then |bytes| else ResponseCapacity;
    var replies := if l.port.replies == [] then [] else l.port.replies[1..];
    l.(response := bytes[..n] + l.response[n..], responseLength := n,
       port := l.port.(rx := bytes[n..], replies := replies))
  }

  /** Records whether the captured bytes fail the checksum. */
  function CheckResponseChecksum(l: Link): (r: Link)
    requires l.responseLength <= |l.response|
    ensures r.checksumError <==> !ChecksumValid(l.response[..l.responseLength])
    ensures r == l.(checksumError := r.checksumError)
  {
    l.(checksumError := Sum(l.response[..l.responseLength]) % 0x100 != 0)
  }

  /** Sends a command with the given opcode, then reads and checks the reply. */
  function Transact(address: Byte, l: Link, opcode: Byte): (r: Link)
    requires |l.command| == 3 && |l.response| == ResponseCapacity
    ensures |r.command| == 3 && |r.response| == ResponseCapacity
    ensures r.responseLength <= ResponseCapacity
    ensures r.port.sent == l.port.sent + Frames(address, [opcode])
  {
    CheckResponseChecksum(ReadResponse(SendStoredCommand(address, l.(command := l.command[1 := opcode]))))
  }

  /** The decoded state for a state byte: a failed checksum replaces the byte
      by 0xFF and heads both reports with the checksum line. */
  function StatusOf(checksumError: bool, state: Byte): (st: Status)
    ensures |st.flags| == 8
  {
    var code := if checksumError then ChecksumFailureCode else state;
    var head := if checksumError then [ChecksumInvalid] else [];
    var fs := FlagsOf(code);
    Status(code, fs, head + AllLabels(fs), head + ActiveLabels(fs))
  }

  /** Decodes a state byte under the last checksum verdict. */
  function UpdateSensorState(s: Session, state: Byte): (t: Session)
    requires Wf(s)
    ensures Wf(t)
  {
    s.(status := StatusOf(s.link.checksumError, state))
  }

  /** One exchange with the given opcode. */
  function Exchange(s: Session, opcode: Byte): (t: Session)
    requires Wf(s)
    ensures Wf(t)
  {
    s.(link := Transact(s.address, s.link, opcode))
  }

  /** Sends the state query and returns the session and byte 2 of the reply
      buffer, whatever the checksum said. */
  function GetSensorState(s: Session): (r: (Session, Byte))
    requires Wf(s)
    ensures Wf(r.0)
  {
    var t := Exchange(s, StateQuery);
    (t, t.link.response[2])
  }

  /** The refresh every public operation starts with. */
  function Refresh(s: Session): (t: Session)
    requires Wf(s)
    ensures Wf(t)
  {
    var (t, state) := GetSensorState(s);
    UpdateSensorState(t, state)
  }

  // ---------------------------------------------------------------------------
  // Public operations

  function Init(s: Session): (r: (Session, bool))
    requires Wf(s)
    ensures Wf(r.0)
  {
    var t := Refresh(s.(data := s.data.(currentMode := OFF)));
    (t, !t.link.checksumError)
  }

  function DoSleep(s: Session): (t: Session)
    requires Wf(s)
    ensures Wf(t)
  {
    var s1 := Refresh(s);
    if s1.status.flags[SleepFlag] then s1
    else
      var s2 := Exchange(s1, SleepToggle);
      if s2.link.checksumError then Refresh(s2) else UpdateSensorState(s2, s2.link.response[2])
  }

  /** Only writes the toggle: its reply is left for the state query after it. */
  function SendToggle(s: Session): (t: Session)
    requires Wf(s)
    ensures Wf(t)
  {
    s.(link := SendStoredCommand(s.address, s.link.(command := s.link.command[1 := SleepToggle])))
  }

  function DoWake(s: Session): (t: Session)
    requires Wf(s)
    ensures Wf(t)
  {
    var s1 := Refresh(s);
    if s1.status.flags[SleepFlag] then Refresh(SendToggle(s1)) else s1
  }

  /** The three particulate channels decoded from bytes 3-6, 7-10 and 11-14
      of a response buffer. */
  function DecodeParticulates(d: Data, r: seq<Byte>, mode: MeasurementMode): (e: Data)
    requires |r| == ResponseCapacity
    ensures !e.noMeasurementAvailable && e.currentMode == mode
    ensures e.pm1.count == r[3] as int * 256 + r[4] && e.pm1.density == (r[5] as int * 256 + r[6]) / 10
    ensures e.pm2_5.count == r[7] as int * 256 + r[8] && e.pm2_5.density == (r[9] as int * 256 + r[10]) / 10
    ensures e.pm10.count == r[11] as int * 256 + r[12] && e.pm10.density == (r[13] as int * 256 + r[14]) / 10
    ensures e.rawTemperature == d.rawTemperature && e.rawHumidity == d.rawHumidity
  {
    d.(noMeasurementAvailable := false, currentMode := mode,
       pm1 := DecodeReading(r[3], r[4], r[5], r[6]),
       pm2_5 := DecodeReading(r[7], r[8], r[9], r[10]),
       pm10 := DecodeReading(r[11], r[12], r[13], r[14]))
  }

  /** Whether the refreshed flags forbid a particulate request. */
  predicate ParticulateBlocked(s: Session)
    requires Wf(s)
  {
    s.status.flags[NotReadyFlag] || s.status.flags[SleepFlag] || s.status.flags[LaserFlag]
  }

  function UpdateParticulateData(s: Session, mode: MeasurementMode): (t: Session)
    requires Wf(s)
    ensures Wf(t)
  {
    var s1 := Refresh(s);
    if ParticulateBlocked(s1) then s1 else RequestParticulates(s1, mode)
  }

  /** The particulate request proper, once the flags allow it. */
  function RequestParticulates(s: Session, mode: MeasurementMode): (t: Session)
    requires Wf(s)
    ensures Wf(t)
  {
    var s2 := Exchange(s, mode.modeCode);
    if s2.link.checksumError then s2
    else
      var s3 := UpdateSensorState(s2, s2.link.response[2]);
      if s2.link.response[2] == BusyCode then
        Refresh(s3.(data := s3.data.(noMeasurementAvailable := true)))
      else
        s3.(data := DecodeParticulates(s3.data, s3.link.response, mode))
  }

  /** Whether the refreshed flags forbid a temperature/humidity request. */
  predicate TempHumidityBlocked(s: Session)
    requires Wf(s)
  {
    s.status.flags[NotReadyFlag] || s.status.flags[TempHumidityFlag]
  }

  /** The raw temperature and humidity words at bytes 3-4 and 5-6. */
  function DecodeTempHumidity(d: Data, r: seq<Byte>): (e: Data)
    requires |r| == ResponseCapacity
    ensures !e.noMeasurementAvailable
    ensures e.rawTemperature == r[3] as int * 256 + r[4] && e.rawHumidity == r[5] as int * 256 + r[6]
    ensures e == d.(noMeasurementAvailable := false, rawTemperature := e.rawTemperature, rawHumidity := e.rawHumidity)
  {
    d.(noMeasurementAvailable := false,
       rawTemperature := BigEndian16(r[3], r[4]), rawHumidity := BigEndian16(r[5], r[6]))
  }

  function UpdateTemperatureHumidityData(s: Session): (t: Session)
    requires Wf(s)
    ensures Wf(t)
  {
    var s1 := Refresh(s);
    if TempHumidityBlocked(s1) then s1 else RequestTempHumidity(s1)
  }

  /** The temperature/humidity request proper, once the flags allow it. */
  function RequestTempHumidity(s: Session): (t: Session)
    requires Wf(s)
    ensures Wf(t)
  {
    var s2 := Exchange(s, TempHumidityQuery);
    if s2.link.checksumError then s2
    else
      var s3 := UpdateSensorState(s2, s2.link.response[2]);
      if s2.link.response[2] == BusyCode then s3.(data := s3.data.(noMeasurementAvailable := true))
      else s3.(data := DecodeTempHumidity(s3.data, s3.link.response))
  }

  function ReadyToMeasure(s: Session): (r: (Session, bool))
    requires Wf(s)
    ensures Wf(r.0)
  {
    var t := Refresh(s);
    (t, !t.status.flags[NotReadyFlag])
  }

  function GetStateCode(s: Session): (r: (Session, Byte))
    requires Wf(s)
    ensures Wf(r.0)
  {
    var t := Refresh(s);
    (t, t.status.stateCode)
  }

  function GetAllStateStrings(s: Session): (r: (Session, string))
    requires Wf(s)
    ensures Wf(r.0)
  {
    var t := Refresh(s);
    (t, Render(t.status.allStateStrings))
  }

  function GetActiveStateStrings(s: Session): (r: (Session, string))
    requires Wf(s)
    ensures Wf(r.0)
  {
    var t := Refresh(s);
    (t, Render(t.status.activeStateStrings))
  }
}
