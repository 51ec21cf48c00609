# NextPM driver model

A Dafny model of the Arduino NextPM driver: the `NextPM` class that talks to
a NextPM particulate and temperature/humidity sensor over a serial link.
The driver sends three-byte commands (address, opcode, checksum), reads
replies of up to 16 bytes into a response buffer, validates the reply's
modulo-256 checksum, decodes the state byte into eight named flags and two
text reports, and decodes the particulate and temperature/humidity words
of measurement replies.

The project has six modules:

- `Bytes` (bytes.dfy): `uint8_t`, C++'s truncating `%`, the wrap of a store
  into `uint8_t`, the byte sum behind both checksums, and `&`, `|` and
  `<< 8` on bytes promoted to int.
- `Protocol` (protocol.dfy): opcodes, the four measurement modes, command
  frames and their checksum, reply checksum validation, the eight flag
  masks and their report lines, the rendering of a report as newline
  separated text, and the decoding of one particulate channel.
- `SessionModel` (session_model.dfy): the driver's whole state as a value
  (`Session`: address, link, decoded status, measurement data) and one
  function per driver operation giving the state after it.
- `SessionProperties` (session_properties.dfy): what each operation writes
  to the link, which fields it changes on each branch, and what the
  reports say.
- `Driver` (driver.dfy): the driver as the source writes it. `NextPM` is a
  class whose methods update its fields, arrays and flag objects in place.
  `StateFlag` and `Measurement` are the source's structs, and `SerialPort`
  stands for the serial link. Every `NextPM` method is proved to leave the
  object in the state the matching `SessionModel` function gives
  (`Abstract()`).
- `CaptureLoop` (capture_loop.dfy): the capture loop of `readResponse`
  with its bound test exactly as written (see Findings).

The serial link is a value `Port(rx, replies, sent)`:

- `rx` holds the bytes received and not yet read.
- `replies` holds what the sensor will have sent by each later read, one
  entry per read.
- `sent` holds every byte written.

The settle delay before each read is the moment the next reply lands in
`rx` (`SerialPort.Receive`). Bytes a read leaves unread stay in `rx` for
the next read.

## Model

| member | source | states |
|---|---|---|
| Bytes.CRem256 | Arduino_NextPM/src/Arduino_NextPM.cpp:53 | C++'s `% 0x100` keeps the dividend's residue and its sign: in 0..255 for a non-negative dividend, in -255..0 for a negative one |
| Bytes.ToUint8 | Arduino_NextPM/src/Arduino_NextPM.cpp:53 | storing an int into `uint8_t` keeps it modulo 256 |
| Bytes.Sum | Arduino_NextPM/src/Arduino_NextPM.cpp:41-45 | the checksum accumulator is at most 255 per byte, so it never goes negative |
| Bytes.BitAnd | Arduino_NextPM/src/Arduino_NextPM.h:27 | the bitwise AND of two values is no larger than either |
| Bytes.BitOr | Arduino_NextPM/src/Arduino_NextPM.h:59 | the bitwise OR is at least each operand and at most their sum |
| Bytes.BitOrDisjoint | Arduino_NextPM/src/Arduino_NextPM.h:59 | OR of a value shifted left by k with a value below 2^k is their sum |
| Bytes.BigEndian16 | Arduino_NextPM/src/Arduino_NextPM.h:59 | shifting `hi` left by 8 and OR-ing in `lo` gives a 16-bit word whose high byte is `hi` and whose low byte is `lo` |
| Protocol.ModeCodesDistinct | Arduino_NextPM/src/Arduino_NextPM.h:173-176 | the OFF, FAST, MEDIUM and SLOW opcodes are pairwise distinct, and none is the state, toggle or temperature/humidity opcode |
| Protocol.CommandChecksum | Arduino_NextPM/src/Arduino_NextPM.cpp:52-54 | the checksum makes address + opcode + checksum a multiple of 256 for every address and opcode, including when `0x100 - opcode - address` is negative |
| Protocol.CommandFrame | Arduino_NextPM/src/Arduino_NextPM.cpp:19-26 | a command is three bytes, address first and opcode second, summing to 0 modulo 256 |
| Protocol.Frames | Arduino_NextPM/src/Arduino_NextPM.cpp:19-26 | a series of commands writes three bytes per command |
| Protocol.FramesRoundTrip | Arduino_NextPM/src/Arduino_NextPM.cpp:19-26 | the bytes written for any opcode series parse back as whole commands for the address, and reading their opcodes recovers the series |
| Protocol.FramesAppend | Arduino_NextPM/src/Arduino_NextPM.cpp:19-26 | writing two opcode series one after the other writes the frames of their concatenation |
| Protocol.CommandLogAppend | Arduino_NextPM/src/Arduino_NextPM.cpp:19-26 | two logs of whole commands joined are a log of whole commands |
| Protocol.Render | Arduino_NextPM/src/Arduino_NextPM.cpp:80-87 | a report's text is empty exactly when the report has no line, and otherwise ends with a newline |
| Protocol.RecogniseText | Arduino_NextPM/src/Arduino_NextPM.h:88-95 | every report line is recognised from its text, so different lines have different texts |
| Protocol.Text | Arduino_NextPM/src/Arduino_NextPM.h:88-95 | each line's descriptor text is 6 to 42 characters long |
| Protocol.TextIsOneLine | Arduino_NextPM/src/Arduino_NextPM.h:88-95 | no descriptor text holds a newline |
| Protocol.RenderOne | Arduino_NextPM/src/Arduino_NextPM.cpp:64 | a one-line report is the line's text followed by a newline |
| Protocol.RenderAppend | Arduino_NextPM/src/Arduino_NextPM.cpp:80-87 | the text of two reports appended is the text of the joined report |
| Protocol.RenderInjective | Arduino_NextPM/src/Arduino_NextPM.cpp:80-87 | two reports with the same text have the same lines |
| Protocol.FlagsOf | Arduino_NextPM/src/Arduino_NextPM.h:88-95 | the flags decoded from a code by testing it against the eight masks are the code's eight binary digits, least significant first |
| Protocol.BitsRoundTrip | Arduino_NextPM/src/Arduino_NextPM.h:88-95 | reading a byte's eight binary digits and recombining them gives the byte back |
| Protocol.FromBitsRoundTrip | Arduino_NextPM/src/Arduino_NextPM.h:88-95 | recombining binary digits and reading them again gives the same digits |
| Protocol.SingleBitMask | Arduino_NextPM/src/Arduino_NextPM.h:88-95 | testing a code against the single-bit mask 2^i reads its binary digit i |
| Protocol.MasksArePowers | Arduino_NextPM/src/Arduino_NextPM.h:88-95 | the eight masks are 2^0 .. 2^7 in report order |
| Protocol.MaskSumIsFromBits | Arduino_NextPM/src/Arduino_NextPM.h:88-95 | the sum of the masks of the set flags is the number those flags spell in binary |
| Protocol.FlagsDetermineCode | Arduino_NextPM/src/Arduino_NextPM.h:88-95 | the state code is the sum of the masks of its set flags, and a flag combination is decoded from a code exactly when the code is that combination's mask sum |
| Protocol.ChecksumFailureSetsAllFlags | Arduino_NextPM/src/Arduino_NextPM.cpp:63-67 | the substituted code 0xFF sets all eight flags |
| Protocol.Label | Arduino_NextPM/src/Arduino_NextPM.h:35-37 | a flag's line is one of the enabled labels exactly when the flag is set, and one of the disabled labels exactly when it is clear |
| Protocol.AllLabels | Arduino_NextPM/src/Arduino_NextPM.cpp:85-86 | the full report has one line per flag, and line i is flag i's enabled or disabled label according to the flag |
| Protocol.LabelTellsFlag | Arduino_NextPM/src/Arduino_NextPM.h:88-95 | a flag's two labels differ, so its line tells its value |
| Protocol.AllLabelsInjective | Arduino_NextPM/src/Arduino_NextPM.cpp:85-86 | equal full reports come from equal flags |
| Protocol.LabelsSnoc | Arduino_NextPM/src/Arduino_NextPM.cpp:80-87 | each decoding step adds its flag's label to the full report, and adds the enabled label to the short report exactly when the flag is set |
| Protocol.ActiveLabels | Arduino_NextPM/src/Arduino_NextPM.cpp:81-84 | the short report has at most one line per flag, and every line in it is an enabled label |
| Protocol.SetPositionsExact | Arduino_NextPM/src/Arduino_NextPM.cpp:81-84 | the positions of the set flags are increasing and list every set flag and no other |
| Protocol.ActiveIsSubsequence | Arduino_NextPM/src/Arduino_NextPM.cpp:80-87 | the short report is the full report restricted to the positions of the set flags, in order |
| Protocol.DecodeReading | Arduino_NextPM/src/Arduino_NextPM.h:58-61 | the count is the big-endian word of the first two bytes, in 0..65535; the density is the word of the last two divided by 10 with the fraction dropped, in 0..6553 |
| Protocol.DecodeReadingExample | Arduino_NextPM/src/Arduino_NextPM.h:58-61 | the window [0x01, 0x2C, 0x00, 0x64] gives count 300 and density 10 |
| Protocol.ChecksumValid | Arduino_NextPM/src/Arduino_NextPM.cpp:40-50 | the empty reply is accepted, and a non-empty reply exactly when its last byte is the checksum (256 minus the sum of the others, modulo 256) of the bytes before it |
| SessionModel.SendStoredCommand | Arduino_NextPM/src/Arduino_NextPM.cpp:19-26 | sending writes the frame of the stored opcode for the driver's address, and changes only the stored command and the sent log |
| SessionModel.ReadResponse | Arduino_NextPM/src/Arduino_NextPM.cpp:28-38 | a read captures the first min(available, 16) arriving bytes in order; the rest of the buffer keeps its old bytes and the rest of the arrivals stay unread; one reply is consumed; nothing is written and the checksum verdict is untouched |
| SessionModel.CheckResponseChecksum | Arduino_NextPM/src/Arduino_NextPM.cpp:40-50 | the error flag is set exactly when the captured bytes do not sum to 0 modulo 256, and nothing else changes |
| SessionModel.Transact | Arduino_NextPM/src/Arduino_NextPM.cpp:91-97 | one request writes exactly the frame of its opcode and keeps the buffer shapes |
| SessionModel.StatusOf | Arduino_NextPM/src/Arduino_NextPM.cpp:56-88 | the decoded status has eight flags; StatusOfValidReply, StatusAfterFailedChecksum, ReportsShape and FullReportIdentifiesState state its code, flags and reports |
| SessionModel.UpdateSensorState | Arduino_NextPM/src/Arduino_NextPM.cpp:56-88 | keeps the buffer shapes and replaces only the status, by the decoding of the byte under the last checksum verdict |
| SessionModel.Exchange | Arduino_NextPM/src/Arduino_NextPM.cpp:91-97 | keeps the buffer shapes; ExchangeFacts and ExchangeCaptures state that only the link changes, exactly the command is written and a short reply is captured whole |
| SessionModel.GetSensorState | Arduino_NextPM/src/Arduino_NextPM.cpp:90-100 | keeps the buffer shapes and returns byte 2 of the buffer after the state query; EmptyReplyIsAccepted states the stale byte returned for an empty reply |
| SessionModel.Refresh | Arduino_NextPM/src/Arduino_NextPM.cpp:104 | keeps the buffer shapes; RefreshFrame, RefreshOutcome and RefreshCaptures state the query written and the status decoded |
| SessionModel.Init | Arduino_NextPM/src/Arduino_NextPM.cpp:10-17 | keeps the buffer shapes; InitOutcome states the OFF mode, the one query and the success result |
| SessionModel.DoSleep | Arduino_NextPM/src/Arduino_NextPM.cpp:102-124 | keeps the buffer shapes; SleepSkippedWhenAsleep, SleepDecodesToggleReply, SleepRequeriesAfterBadToggleReply and SleepToggleRule state its branches |
| SessionModel.SendToggle | Arduino_NextPM/src/Arduino_NextPM.cpp:132-133 | keeps the buffer shapes while writing the toggle command without reading its reply |
| SessionModel.DoWake | Arduino_NextPM/src/Arduino_NextPM.cpp:126-140 | keeps the buffer shapes; WakeSkippedWhenAwake, WakeTogglesAndRequeries and WakeToggleRule state its branches |
| SessionModel.DecodeParticulates | Arduino_NextPM/src/Arduino_NextPM.cpp:169-176 | clears the missing mark, records the mode, sets each channel's count to the big-endian word of its first two bytes and its density to the word of its last two divided by 10, and keeps temperature and humidity |
| SessionModel.UpdateParticulateData | Arduino_NextPM/src/Arduino_NextPM.cpp:142-177 | keeps the buffer shapes; ParticulateSkippedWhenBlocked, ParticulateKeptOnBadReply, ParticulateBusy and ParticulateDecoded state its branches |
| SessionModel.RequestParticulates | Arduino_NextPM/src/Arduino_NextPM.cpp:150-176 | keeps the buffer shapes; ParticulateRequestSettles states the checksum flag it leaves |
| SessionModel.DecodeTempHumidity | Arduino_NextPM/src/Arduino_NextPM.cpp:206-210 | clears the missing mark and stores the big-endian words of bytes 3-4 and 5-6; nothing else changes |
| SessionModel.UpdateTemperatureHumidityData | Arduino_NextPM/src/Arduino_NextPM.cpp:179-214 | keeps the buffer shapes; TempHumiditySkippedWhenBlocked, TempHumidityKeptOnBadReply, TempHumidityBusy and TempHumidityDecoded state its branches |
| SessionModel.RequestTempHumidity | Arduino_NextPM/src/Arduino_NextPM.cpp:187-210 | keeps the buffer shapes; TempHumidityRequestSettles states the checksum flag it leaves |
| SessionModel.ReadyToMeasure | Arduino_NextPM/src/Arduino_NextPM.cpp:216-221 | keeps the buffer shapes; QueriesAfterRefresh states the result is the negated refreshed not-ready flag |
| SessionModel.GetStateCode | Arduino_NextPM/src/Arduino_NextPM.cpp:245-248 | keeps the buffer shapes; QueriesAfterRefresh states the code is 0xFF after a failed state checksum and byte 2 of the reply otherwise |
| SessionModel.GetAllStateStrings | Arduino_NextPM/src/Arduino_NextPM.cpp:223-228 | keeps the buffer shapes; FullReportText and FullReportIdentifiesState state what the returned text holds |
| SessionModel.GetActiveStateStrings | Arduino_NextPM/src/Arduino_NextPM.cpp:230-235 | keeps the buffer shapes; ActiveIsSubsequence states the returned report is the full report restricted to the set flags |
| SessionProperties.StatusOfValidReply | Arduino_NextPM/src/Arduino_NextPM.cpp:56-88 | with no checksum error the code is the state byte, flag i is its binary digit i, and the reports are the labels of those flags |
| SessionProperties.StatusAfterFailedChecksum | Arduino_NextPM/src/Arduino_NextPM.cpp:63-67 | after a checksum error the code is 0xFF, all flags are set whatever the byte, and both reports start with the checksum line |
| SessionProperties.ReportsShape | Arduino_NextPM/src/Arduino_NextPM.cpp:80-87 | the full report holds exactly eight label lines in flag order after an optional checksum line, and the short report holds the enabled labels |
| SessionProperties.FullReportText | Arduino_NextPM/src/Arduino_NextPM.cpp:58-87 | the full report's text is the checksum line's text (after a checksum error) followed by the rendered labels |
| SessionProperties.FullReportIdentifiesState | Arduino_NextPM/src/Arduino_NextPM.cpp:58-87 | the full report's text determines the checksum verdict and the whole decoded status, and without a checksum error it determines the state byte |
| SessionProperties.FullReportDeterminesStatus | Arduino_NextPM/src/Arduino_NextPM.cpp:58-87 | the full report's lines determine the checksum verdict and the decoded status |
| SessionProperties.ExchangeFacts | Arduino_NextPM/src/Arduino_NextPM.cpp:90-97 | a request writes exactly its command and changes neither the status nor the measurement data |
| SessionProperties.RefreshFrame | Arduino_NextPM/src/Arduino_NextPM.cpp:104 | the refresh writes exactly one state query and leaves the measurement data alone |
| SessionProperties.RefreshOutcome | Arduino_NextPM/src/Arduino_NextPM.cpp:90-100 | after a refresh the code is 0xFF with all flags set when the state reply failed its checksum, and otherwise byte 2 of the reply with its binary digits as flags |
| SessionProperties.EmptyReplyIsAccepted | Arduino_NextPM/src/Arduino_NextPM.cpp:40-50 | an empty reply passes the checksum, and the state read is the stale byte 2 of the buffer |
| SessionProperties.CommandsStayFramed | Arduino_NextPM/src/Arduino_NextPM.cpp:19-26 | a log of whole commands stays one after any operation, and the new bytes read back as the opcodes sent |
| SessionProperties.SentTwice | Arduino_NextPM/src/Arduino_NextPM.cpp:19-26 | the commands of two steps in a row are the concatenation of each step's commands |
| SessionProperties.SentThrice | Arduino_NextPM/src/Arduino_NextPM.cpp:19-26 | three single-command steps in a row write those three commands in order |
| SessionProperties.SleepSkippedWhenAsleep | Arduino_NextPM/src/Arduino_NextPM.cpp:102-107 | when the refreshed sleep flag is set, sleeping is just the refresh, and only the state query is written |
| SessionProperties.SleepDecodesToggleReply | Arduino_NextPM/src/Arduino_NextPM.cpp:107-120 | when awake and the toggle reply is valid, the state is decoded from byte 2 of the toggle reply, with query and toggle written and the data unchanged |
| SessionProperties.SleepRequeriesAfterBadToggleReply | Arduino_NextPM/src/Arduino_NextPM.cpp:107-118 | when awake and the toggle reply fails its checksum, the state is queried again: query, toggle, query |
| SessionProperties.WakeSkippedWhenAwake | Arduino_NextPM/src/Arduino_NextPM.cpp:126-131 | when the refreshed sleep flag is clear, waking is just the refresh |
| SessionProperties.WakeTogglesAndRequeries | Arduino_NextPM/src/Arduino_NextPM.cpp:131-138 | when asleep, waking writes the toggle without reading its reply and then refreshes: query, toggle, query |
| SessionProperties.SleepToggleRule | Arduino_NextPM/src/Arduino_NextPM.cpp:102-124 | sleeping writes the toggle exactly when the refreshed sleep flag is clear |
| SessionProperties.WakeToggleRule | Arduino_NextPM/src/Arduino_NextPM.cpp:126-140 | waking writes the toggle exactly when the refreshed sleep flag is set |
| SessionProperties.ToggleAfterBadStateReply | Arduino_NextPM/src/Arduino_NextPM.cpp:126-140 | after a failed state checksum (all flags forced on) waking sends a toggle and sleeping does not |
| SessionProperties.ParticulateSkippedWhenBlocked | Arduino_NextPM/src/Arduino_NextPM.cpp:144-148 | when not-ready, sleep or laser error is set, no mode command is written and the data is unchanged |
| SessionProperties.ParticulateKeptOnBadReply | Arduino_NextPM/src/Arduino_NextPM.cpp:159-160 | a mode reply that fails its checksum leaves the data unchanged |
| SessionProperties.ParticulateBusy | Arduino_NextPM/src/Arduino_NextPM.cpp:165-168 | a busy mode reply marks the measurement missing, keeps the measurements and queries the state again |
| SessionProperties.ParticulateDecoded | Arduino_NextPM/src/Arduino_NextPM.cpp:169-176 | any other valid mode reply clears the missing mark, records the mode and decodes the three channels from bytes 3-6, 7-10 and 11-14, leaving temperature and humidity alone |
| SessionProperties.ExchangeCaptures | Arduino_NextPM/src/Arduino_NextPM.cpp:28-50 | a reply of at most 16 bytes arriving on an empty line is captured whole, and its checksum verdict is the reply's |
| SessionProperties.ParticulateEndToEnd | Arduino_NextPM/src/Arduino_NextPM.cpp:142-177 | given a valid state reply allowing measurement and a valid non-busy mode reply of 15 or 16 bytes, the three channels are that reply's windows |
| SessionProperties.MeasurementReplyCaptured | Arduino_NextPM/src/Arduino_NextPM.cpp:28-50 | a valid reply of 15 or 16 bytes, alone on the link, passes the checksum and its first 15 bytes land in the buffer |
| SessionProperties.RefreshCaptures | Arduino_NextPM/src/Arduino_NextPM.cpp:90-100 | a valid state reply on an empty line sets the flags of its byte 2 and consumes exactly that reply |
| SessionProperties.TempHumiditySkippedWhenBlocked | Arduino_NextPM/src/Arduino_NextPM.cpp:181-185 | when not-ready or temperature/humidity error is set, nothing beyond the state query is written and the data is unchanged |
| SessionProperties.TempHumidityKeptOnBadReply | Arduino_NextPM/src/Arduino_NextPM.cpp:196-197 | a reply that fails its checksum leaves the data unchanged |
| SessionProperties.TempHumidityBusy | Arduino_NextPM/src/Arduino_NextPM.cpp:199-204 | a busy reply marks the measurement missing without a new state query, and the decoded busy code sets the not-ready flag |
| SessionProperties.BusyRequest | Arduino_NextPM/src/Arduino_NextPM.cpp:196-204 | after a valid busy reply to the temperature/humidity query the request keeps the address, writes only that query, records state 0x16 with the not-ready flag and marks the measurement missing, leaving every other measurement |
| SessionProperties.BusyCodeFlags | Arduino_NextPM/src/Arduino_NextPM.cpp:199 | the busy code 0x16, decoded as a state byte, sets exactly the degraded, not-ready and temperature/humidity error flags |
| SessionProperties.TempHumidityDecoded | Arduino_NextPM/src/Arduino_NextPM.cpp:205-210 | any other valid reply clears the missing mark and stores the raw words of bytes 3-4 and 5-6, leaving the particulate channels and the mode alone |
| SessionProperties.QueriesAfterRefresh | Arduino_NextPM/src/Arduino_NextPM.cpp:216-221 | ready is the negated refreshed not-ready flag; after a failed state checksum the sensor is not ready and the code is 0xFF, and otherwise the code is byte 2 of the reply |
| SessionProperties.InitOutcome | Arduino_NextPM/src/Arduino_NextPM.cpp:10-17 | initialisation selects OFF, writes one state query, and succeeds exactly when that reply passes its checksum |
| SessionProperties.ExchangeSettles | Arduino_NextPM/src/Arduino_NextPM.cpp:40-50 | after a request the checksum flag describes the bytes in the buffer |
| SessionProperties.RefreshSettles | Arduino_NextPM/src/Arduino_NextPM.cpp:90-100 | after a refresh the checksum flag describes the bytes in the buffer |
| SessionProperties.ParticulateRequestSettles | Arduino_NextPM/src/Arduino_NextPM.cpp:150-176 | after a particulate request the checksum flag describes the bytes in the buffer |
| SessionProperties.TempHumidityRequestSettles | Arduino_NextPM/src/Arduino_NextPM.cpp:187-210 | after a temperature/humidity request the checksum flag describes the bytes in the buffer |
| SessionProperties.QueriesSettle | Arduino_NextPM/src/Arduino_NextPM.cpp:216-248 | after each query operation the value `previousChecksumError` returns is the verdict on the buffer |
| SessionProperties.SleepWakeSettle | Arduino_NextPM/src/Arduino_NextPM.cpp:102-140 | after sleeping or waking the checksum flag describes the bytes in the buffer |
| SessionProperties.ParticulateSettles | Arduino_NextPM/src/Arduino_NextPM.cpp:142-177 | after a particulate update the checksum flag describes the bytes in the buffer |
| SessionProperties.TempHumiditySettles | Arduino_NextPM/src/Arduino_NextPM.cpp:179-214 | after a temperature/humidity update the checksum flag describes the bytes in the buffer |
| Driver.StateFlag.constructor | Arduino_NextPM/src/Arduino_NextPM.h:15-20 | a flag holds the given mask, labels and value |
| Driver.StateFlag.CheckIfPresent | Arduino_NextPM/src/Arduino_NextPM.h:26-29 | the flag becomes `(mask & code) != 0` and that same value is returned |
| Driver.StateFlag.IsTrue | Arduino_NextPM/src/Arduino_NextPM.h:31-33 | the stored value is returned, not recomputed |
| Driver.StateFlag.GetString | Arduino_NextPM/src/Arduino_NextPM.h:35-37 | the result is one of the two labels, and the enabled one exactly when the flag is set |
| Driver.Measurement.constructor | Arduino_NextPM/src/Arduino_NextPM.h:54-56 | a channel starts with count 0 and density 0 |
| Driver.Measurement.CalculateValues | Arduino_NextPM/src/Arduino_NextPM.h:58-61 | the channel becomes the decoding of its four-byte window |
| Driver.SerialPort.Write | Arduino_NextPM/src/Arduino_NextPM.cpp:23 | a write appends the byte to the sent log and changes nothing else |
| Driver.SerialPort.Read | Arduino_NextPM/src/Arduino_NextPM.cpp:32 | a read returns the oldest unread byte and removes it |
| Driver.SerialPort.Receive | Arduino_NextPM/src/Arduino_NextPM.cpp:94 | after the settle delay the next reply has arrived behind the unread bytes |
| Driver.DecodedFlags | Arduino_NextPM/src/Arduino_NextPM.cpp:80-81 | flags decoded one at a time in report order are the flags of the code |
| Driver.CaptureIsReadResponse | Arduino_NextPM/src/Arduino_NextPM.cpp:28-38 | what the capture loop leaves behind is the modelled read |
| Driver.NextPM.NewStateFlags | Arduino_NextPM/src/Arduino_NextPM.h:88-95 | eight distinct fresh flags, all clear, carry the masks 0x01 .. 0x80 and their labels in report order |
| Driver.NextPM.constructor | Arduino_NextPM/src/Arduino_NextPM.cpp:6-8 | a new driver has the given address, the stored command {0x81, 0, 0}, no checksum error, code 0, all flags clear, empty reports, no measurement, and zero channels |
| Driver.NextPM.InitialValues | Arduino_NextPM/src/Arduino_NextPM.h:97-126 | the field defaults make up the initial session value |
| Driver.NextPM.SetCommandChecksum | Arduino_NextPM/src/Arduino_NextPM.cpp:52-54 | only byte 2 of the command changes, and afterwards the three bytes sum to 0 modulo 256 |
| Driver.NextPM.SendStoredCommand | Arduino_NextPM/src/Arduino_NextPM.cpp:19-26 | the address and checksum are stamped in and the three bytes are written in order |
| Driver.NextPM.ReadResponse | Arduino_NextPM/src/Arduino_NextPM.cpp:28-38 | the capture loop stores at most 16 arriving bytes in order, as SessionModel.ReadResponse gives |
| Driver.NextPM.CaptureByte | Arduino_NextPM/src/Arduino_NextPM.cpp:32-33 | the next byte goes to the buffer at the current length, and the length grows by one |
| Driver.NextPM.CheckResponseChecksum | Arduino_NextPM/src/Arduino_NextPM.cpp:40-50 | the loop's sum sets and returns the error exactly when the captured bytes do not sum to 0 modulo 256 |
| Driver.NextPM.UpdateSensorState | Arduino_NextPM/src/Arduino_NextPM.cpp:56-88 | flags, code and reports become the decoded status of the byte under the last checksum verdict |
| Driver.NextPM.StartReports | Arduino_NextPM/src/Arduino_NextPM.cpp:58-67 | the reports are emptied and the code stored; after a checksum error the code is 0xFF and both reports start with the checksum line |
| Driver.NextPM.DecodeFlags | Arduino_NextPM/src/Arduino_NextPM.cpp:80-87 | the loop sets each flag to its bit of the code and appends the labels to both reports |
| Driver.NextPM.DecodeStep | Arduino_NextPM/src/Arduino_NextPM.cpp:80-87 | one iteration extends the decoded prefix of flags and both reports by one flag |
| Driver.NextPM.ReportFlag | Arduino_NextPM/src/Arduino_NextPM.cpp:81-86 | flag i tests its bit, no other flag changes, its label goes to the full report, and to the short report exactly when set |
| Driver.NextPM.Request | Arduino_NextPM/src/Arduino_NextPM.cpp:91-97 | storing the opcode, sending, reading and checking is one modelled transaction |
| Driver.NextPM.Exchange | Arduino_NextPM/src/Arduino_NextPM.cpp:91-97 | a request changes only the link part of the driver |
| Driver.NextPM.GetSensorState | Arduino_NextPM/src/Arduino_NextPM.cpp:90-100 | the state query returns byte 2 of the buffer whatever the checksum verdict |
| Driver.NextPM.SendToggle | Arduino_NextPM/src/Arduino_NextPM.cpp:132-133 | the toggle is written and its reply is not read |
| Driver.NextPM.Refresh | Arduino_NextPM/src/Arduino_NextPM.cpp:104 | the state is queried and its byte decoded |
| Driver.NextPM.Init | Arduino_NextPM/src/Arduino_NextPM.cpp:10-17 | the mode becomes OFF, the state is refreshed, and success is the reply's checksum verdict |
| Driver.NextPM.SelectMode | Arduino_NextPM/src/Arduino_NextPM.cpp:11 | only the current mode changes |
| Driver.NextPM.DoSleep | Arduino_NextPM/src/Arduino_NextPM.cpp:102-124 | the object follows SessionModel.DoSleep, whose branches are the sleep lemmas above |
| Driver.NextPM.DoWake | Arduino_NextPM/src/Arduino_NextPM.cpp:126-140 | the object follows SessionModel.DoWake, whose branches are the wake lemmas above |
| Driver.NextPM.UpdateParticulateData | Arduino_NextPM/src/Arduino_NextPM.cpp:142-177 | the object follows SessionModel.UpdateParticulateData, whose branches are the particulate lemmas above |
| Driver.NextPM.ParticulateBlocked | Arduino_NextPM/src/Arduino_NextPM.cpp:146 | the stored not-ready, sleep and laser flags forbid the request |
| Driver.NextPM.RequestParticulates | Arduino_NextPM/src/Arduino_NextPM.cpp:150-176 | the mode request branches on the checksum and on the busy code as SessionModel.RequestParticulates |
| Driver.NextPM.DecodeParticulates | Arduino_NextPM/src/Arduino_NextPM.cpp:169-176 | only the data changes: the missing mark clears, the mode is recorded and the channels are decoded |
| Driver.NextPM.StoreChannels | Arduino_NextPM/src/Arduino_NextPM.cpp:173-175 | the three channels are the decodings of bytes 3-6, 7-10 and 11-14 |
| Driver.NextPM.UpdateTemperatureHumidityData | Arduino_NextPM/src/Arduino_NextPM.cpp:179-214 | the object follows SessionModel.UpdateTemperatureHumidityData, whose branches are the temperature/humidity lemmas above |
| Driver.NextPM.TempHumidityBlocked | Arduino_NextPM/src/Arduino_NextPM.cpp:183 | the stored not-ready and temperature/humidity error flags forbid the request |
| Driver.NextPM.IsSet | Arduino_NextPM/src/Arduino_NextPM.cpp:107 | a flag read is the stored flag, without a new query |
| Driver.NextPM.RequestTempHumidity | Arduino_NextPM/src/Arduino_NextPM.cpp:187-210 | the request branches on the checksum and on the busy code as SessionModel.RequestTempHumidity |
| Driver.NextPM.MarkNoMeasurement | Arduino_NextPM/src/Arduino_NextPM.cpp:166 | only the missing mark changes, to true |
| Driver.NextPM.DecodeTempHumidity | Arduino_NextPM/src/Arduino_NextPM.cpp:206-210 | only the data changes: the missing mark clears and the raw words of bytes 3-4 and 5-6 are stored |
| Driver.NextPM.ReadyToMeasure | Arduino_NextPM/src/Arduino_NextPM.cpp:216-221 | the state is refreshed and the negated not-ready flag returned |
| Driver.NextPM.GetAllStateStrings | Arduino_NextPM/src/Arduino_NextPM.cpp:223-228 | the state is refreshed and the text of the full report returned |
| Driver.NextPM.GetActiveStateStrings | Arduino_NextPM/src/Arduino_NextPM.cpp:230-235 | the state is refreshed and the text of the short report returned |
| Driver.NextPM.PreviousChecksumError | Arduino_NextPM/src/Arduino_NextPM.cpp:237-239 | the last checksum verdict is returned without a new request |
| Driver.NextPM.MeasurementIsValid | Arduino_NextPM/src/Arduino_NextPM.cpp:241-243 | the negated missing mark is returned without a new request |
| Driver.NextPM.GetStateCode | Arduino_NextPM/src/Arduino_NextPM.cpp:245-248 | the state is refreshed and the code returned |
| Driver.NextPM.FlagsAfterDecoding | Arduino_NextPM/src/Arduino_NextPM.cpp:69-78 | the eight flag objects, read in report order, hold the decoded values |
| Driver.NextPM.DecodedStatus | Arduino_NextPM/src/Arduino_NextPM.cpp:56-88 | what the decoding loop leaves is the decoded status of the byte |
| CaptureLoop.StoreIndicesAsWritten | Arduino_NextPM/src/Arduino_NextPM.cpp:28-38 | the loop as written stores to indices 0 .. n-1 for n <= 16 available bytes, but with more than 16 it stores 17 bytes and index 16 is among them |

## Left out

- The serial hardware calls `available`, `read` and `write` are modelled
  by `SerialPort`. `begin` (the baud rate, frame format and pins of
  `init`) is not modelled, and `init` takes its port in the constructor.
- Driver.NextPM.constructor: the address is a required parameter; the
  source's default argument 0x81 is not modelled (`DefaultAddress` holds
  the value).
- Driver.NextPM.NewStateFlags: builds the eight flags in a loop over the
  mask and label tables, where the source declares eight member
  initialisers; the flags, masks and labels are the same.
- `delay` is not modelled apart from the settle delay before each read,
  when the next reply arrives (`SerialPort.Receive`). Timing is not modelled.
- `Arduino String` reports are sequences of `Line` values. `Render` turns
  one into the newline-terminated text the source builds, and
  `RenderInjective` shows that no information is lost. Byte encodings of
  the text are not modelled.
- The eight named flag members are the sequence `allStates` in report
  order. The source's local array of their addresses is that sequence.
- `currentMode` holds the address of a mode in the source. The model
  stores the mode value instead. `updateParticulateData` stores the
  address of its by-value parameter, which is dead once the call returns.
  The model records the mode passed in; the dead address is not modelled.
- The floating-point temperature and humidity (the division by 100.0 and
  the linear corrections) are not modelled, nor are `getTemperature` and
  `getHumidity`.
- Driver.NextPM.DecodeTempHumidity: stores the integer words that the
  source divides by 100.0. The floating-point value is not modelled.
- Measurement `density` is a `float` field assigned an integer quotient.
  The model keeps it as the integer.
- The accessors `PM_1_Density` .. `PM_10_Count` only return fields. They
  are not separate members; `DataValue()` exposes those fields.
- `initialised`, `isReady` and `firmwareVersion` are never used by the
  driver's code. They are not modelled.
- The response buffer's initial bytes are uninitialised memory in the
  source, so they are a constructor parameter.
- Driver.NextPM.ReadResponse: stops after 16 bytes rather than after 17,
  as the buffer size calls for. The loop as written is
  CaptureLoop.StoreIndicesAsWritten (see Findings).
- SessionModel.ReadResponse: captures at most 16 bytes, where the loop as
  written stores a 17th one past the end of the buffer (see Findings);
  what the source does after that store is not modelled.
- Bytes beyond the 16 captured stay unread on the link. The next read
  sees them ahead of its own reply.
- Several source functions are split into helpers so that each proof stays
  small. Each helper is one stretch of the source function:
  - `getSensorState`: `Request`, `Exchange`;
  - the refresh that opens every public function: `Refresh`;
  - the toggle of `doWake`: `SendToggle`;
  - the part of `updateParticulateData` after the flag test:
    `RequestParticulates`, `DecodeParticulates`, `StoreChannels`;
  - the same part of `updateTemperatureHumidityData`:
    `RequestTempHumidity`, `DecodeTempHumidity`, `MarkNoMeasurement`;
  - the flag tests: `IsSet`, `ParticulateBlocked`, `TempHumidityBlocked`;
  - the mode assignment: `SelectMode`;
  - one turn of the `readResponse` loop: `CaptureByte`;
  - the `updateSensorState` loop and its opening: `DecodeStep`,
    `ReportFlag`, `StartReports`.

## Behaviour of the source the model keeps

- The stored command starts as {0x81, 0, 0} whatever the address.
  Members are initialised before the constructor body assigns `ADDR`.
  Every send stamps the address first, so no wrong byte is ever written.
- An empty reply passes the checksum. The state read from it is the
  stale byte 2 of the buffer.
- A busy reply to the temperature/humidity request does not query the
  state again. A busy reply to the particulate request does.
- A measurement reply's byte 2 is decoded as a state byte. The busy code
  0x16 therefore sets the degraded and not-ready flags and the
  temperature/humidity error flag (`SessionProperties.BusyCodeFlags`).
- The reply to the wake toggle is never read. It stays on the link for
  the state query that follows.

## Findings

| source | as written | input that shows it | evidently intended | confidence | as-written member | corrected member |
|---|---|---|---|---|---|---|
| Arduino_NextPM/src/Arduino_NextPM.cpp:28-38 | the loop stores a byte, increments the length and stops only once the length exceeds 16, so a 17th byte is stored at index 16, one past the end of the 16-byte buffer (undefined behaviour) | 17 or more bytes available when the read starts | stop once 16 bytes are stored | not executed | CaptureLoop.StoreIndicesAsWritten | Driver.NextPM.ReadResponse |
