/** The NextPM wire protocol and the pure decoding rules of the driver:
    opcodes and measurement modes, three-byte command frames and their
    checksum, response checksum validation, the eight state flags packed into
    the state byte with their report labels, and the decoding of one
    particulate channel. */
module Protocol {
  import opened Bytes

  /** Address the sensor answers to unless another is given. */
  const DefaultAddress: Byte := 0x81

  /** Opcode that asks for the state byte. */
  const StateQuery: Byte := 0x16
  /** Opcode that toggles between sleep and wake. */
  const SleepToggle: Byte := 0x15
  /** Opcode that asks for temperature and humidity. */
  const TempHumidityQuery: Byte := 0x14
  /** State byte of a measurement reply whose averages are not ready yet. */
  const BusyCode: Byte := 0x16
  /** State code the driver substitutes when a state reply fails its checksum. */
  const ChecksumFailureCode: Byte := 0xFF

  /** A sampling mode: its name, its opcode and its descriptive periods. */
  datatype MeasurementMode = MeasurementMode(
    modeName: string,
    modeCode: Byte,
    avgPeriodSeconds: int,
    transmitPeriodSeconds: int)

  const OFF := MeasurementMode("NOT SAMPLING", 0x00, 0, 0)
  const FAST := MeasurementMode("SECOND", 0x11, 10, 1)
  const MEDIUM := MeasurementMode("TEN SECONDS", 0x12, 60, 10)
  const SLOW := MeasurementMode("SIXTY SECONDS", 0x13, 900, 60)

  /** The four mode opcodes are pairwise distinct and none of them is one of
      the other three request opcodes. */
  lemma ModeCodesDistinct()
    ensures var codes := [OFF.modeCode, FAST.modeCode, MEDIUM.modeCode, SLOW.modeCode];
      (forall i, j :: 0 <= i < j < 4 ==> codes[i] != codes[j]) &&
      (forall i :: 0 <= i < 4 ==>
        codes[i] != StateQuery && codes[i] != SleepToggle && codes[i] != TempHumidityQuery)
  {
  }

  // ---------------------------------------------------------------------------
  // Command frames

  /** Third byte of a command, `(0x100 - opcode - address) % 0x100` stored
      into a `uint8_t`: the C++ remainder of a negative difference is
      negative, and the store wraps it back into 0..255. */
  function CommandChecksum(address: Byte, opcode: Byte): (c: Byte)
    ensures (address + opcode + c) % 256 == 0
  {
    ToUint8(CRem256(0x100 - opcode - address))
  }

  /** The three bytes written for one command, in the order they are sent. */
  function CommandFrame(address: Byte, opcode: Byte): (f: seq<Byte>)
    ensures |f| == 3 && f[0] == address && f[1] == opcode
    ensures Sum(f) % 256 == 0
  {
    var f := [address, opcode, CommandChecksum(address, opcode)];
    assert f[..2] == [address, opcode] && f[..2][..1] == [address] && [address][..0] == [];
    assert Sum([address]) == address;
    assert Sum([address, opcode]) == address + opcode;
    f
  }

  /** The bytes written for a series of commands sent one after another. */
  function Frames(address: Byte, opcodes: seq<Byte>): (log: seq<Byte>)
    ensures |log| == 3 * |opcodes|
  {
    if opcodes == [] then [] else CommandFrame(address, opcodes[0]) + Frames(address, opcodes[1..])
  }

  /** A log of written bytes made only of whole commands for `address`, each
      summing to 0 modulo 256. */
  predicate IsCommandLog(log: seq<Byte>, address: Byte)
    decreases |log|
  {
    log == [] ||
    (|log| >= 3 && log[0] == address && Sum(log[..3]) % 256 == 0 && IsCommandLog(log[3..], address))
  }

  /** The opcodes of a log of whole commands. */
  function Opcodes(log: seq<Byte>): (ops: seq<Byte>)
    requires |log| % 3 == 0
    ensures |ops| == |log| / 3
    decreases |log|
  {
    if log == [] then [] else [log[1]] + Opcodes(log[3..])
  }

  lemma {:induction false} FramesRoundTrip(address: Byte, opcodes: seq<Byte>)
    ensures IsCommandLog(Frames(address, opcodes), address)
    ensures Opcodes(Frames(address, opcodes)) == opcodes
  {
    if opcodes != [] {
      var f := CommandFrame(address, opcodes[0]);
      var rest := Frames(address, opcodes[1..]);
      FramesRoundTrip(address, opcodes[1..]);
      assert (f + rest)[..3] == f && (f + rest)[3..] == rest;
    }
  }

  lemma {:induction false} FramesAppend(address: Byte, xs: seq<Byte>, ys: seq<Byte>)
    ensures Frames(address, xs + ys) == Frames(address, xs) + Frames(address, ys)
  {
    if xs == [] {
      assert xs + ys == ys;
    } else {
      assert (xs + ys)[0] == xs[0] && (xs + ys)[1..] == xs[1..] + ys;
      FramesAppend(address, xs[1..], ys);
    }
  }

  lemma {:induction false} CommandLogAppend(log: seq<Byte>, more: seq<Byte>, address: Byte)
    requires IsCommandLog(log, address) && IsCommandLog(more, address)
    ensures IsCommandLog(log + more, address)
    decreases |log|
  {
    if log == [] {
      assert log + more == more;
    } else {
      assert (log + more)[..3] == log[..3];
      assert (log + more)[3..] == log[3..] + more;
      CommandLogAppend(log[3..], more, address);
    }
  }

  // ---------------------------------------------------------------------------
  // Response checksum

  /** A reply is accepted when its bytes sum to 0 modulo 256: the empty
      reply is accepted, and a non-empty one exactly when its last byte is
      the checksum of the bytes before it. */
  function ChecksumValid(reply: seq<Byte>): (ok: bool)
    ensures reply == [] ==> ok
    ensures reply != [] ==>
      (ok <==> reply[|reply| - 1] == (256 - Sum(reply[..|reply| - 1]) % 256) % 256)
  {
    Sum(reply) % 256 == 0
  }

  // ---------------------------------------------------------------------------
  // State flags

  /** Positions of the eight flags, in the order the driver reports them. */
  const SleepFlag: nat := 0
  const DegradedFlag: nat := 1
  const NotReadyFlag: nat := 2
  const HighHumidityFlag: nat := 3
  const TempHumidityFlag: nat := 4
  const FanFlag: nat := 5
  const MemoryFlag: nat := 6
  const LaserFlag: nat := 7

  /** The bit each flag occupies in the state byte. */
  const FlagMasks: seq<Byte> := [0x01, 0x02, 0x04, 0x08, 0x10, 0x20, 0x40, 0x80]

  /** The lines a state report can hold, one per descriptor of the source;
      `Text` gives the characters of each. */
  datatype Line =
    | ChecksumInvalid
    | SleepEnabled | SleepDisabled
    | SensorDegraded | SensorOk
    | SensorNotReady | SensorReady
    | HumidityExceedsLimits | HumidityOk
    | TempHumiditySensorError | TempHumiditySensorOk
    | FanError | FanOk
    | InternalMemoryError | InternalMemoryOk
    | LaserError | LaserOk

  /** The descriptor text of a line: between 6 and 42 characters. */
  function Text(line: Line): (t: string)
    ensures 6 <= |t| <= 42
  {
    match line
    case ChecksumInvalid => "CHECKSUM INVALID - CHECK WIRING AND SENSOR"
    case SleepEnabled => "SLEEP ENABLED"
    case SleepDisabled => "SLEEP DISABLED"
    case SensorDegraded => "SENSOR DEGRADED"
    case SensorOk => "SENSOR OK"
    case SensorNotReady => "SENSOR NOT READY"
    case SensorReady => "SENSOR READY"
    case HumidityExceedsLimits => "HUMIDITY EXCEEDS LIMITS"
    case HumidityOk => "HUMIDITY OK"
    case TempHumiditySensorError => "TEMP/HUMIDITY SENSOR ERROR"
    case TempHumiditySensorOk => "TEMP/HUMIDITY SENSOR OK"
    case FanError => "FAN ERROR"
    case FanOk => "FAN OK"
    case InternalMemoryError => "INTERNAL MEMORY ERROR"
    case InternalMemoryOk => "INTERNAL MEMORY OK"
    case LaserError => "LASER ERROR"
    case LaserOk => "LASER OK"
  }

  /** A report as the source's String holds it: each line's text followed
      by a newline. */
  function Render(lines: seq<Line>): (text: string)
    ensures lines == [] <==> text == ""
    ensures lines != [] ==> text[|text| - 1] == '\n'
  {
    if lines == [] then "" else Render(lines[..|lines| - 1]) + Text(lines[|lines| - 1]) + "\n"
  }

  /** The line a descriptor text belongs to, told apart by the text's
      length and, where two texts share a length, by its first character. */
  function Recognise(text: string): Line
  {
    match |text|
    case 6 => FanOk
    case 8 => LaserOk
    case 9 => if text[0] == 'S' then SensorOk else FanError
    case 11 => if text[0] == 'H' then HumidityOk else LaserError
    case 12 => SensorReady
    case 13 => SleepEnabled
    case 14 => SleepDisabled
    case 15 => SensorDegraded
    case 16 => SensorNotReady
    case 18 => InternalMemoryOk
    case 21 => InternalMemoryError
    case 23 => if text[0] == 'H' then HumidityExceedsLimits else TempHumiditySensorOk
    case 26 => TempHumiditySensorError
    case _ => ChecksumInvalid
  }

  /** Every descriptor text is recognised as its own line, so different
      lines have different texts. */
  lemma RecogniseText(line: Line)
    ensures Recognise(Text(line)) == line
  {
  }

  /** No descriptor text holds a newline. */
  lemma TextIsOneLine(line: Line)
    ensures '\n' !in Text(line)
  {
    match line {
      case SleepEnabled => assert '\n' !in Text(SleepEnabled);
      case SleepDisabled => assert '\n' !in Text(SleepDisabled);
      case SensorDegraded => assert '\n' !in Text(SensorDegraded);
      case SensorOk => assert '\n' !in Text(SensorOk);
      case SensorNotReady => assert '\n' !in Text(SensorNotReady);
      case SensorReady => assert '\n' !in Text(SensorReady);
      case HumidityOk => assert '\n' !in Text(HumidityOk);
      case FanError => assert '\n' !in Text(FanError);
      case FanOk => assert '\n' !in Text(FanOk);
      case LaserError => assert '\n' !in Text(LaserError);
      case LaserOk => assert '\n' !in Text(LaserOk);
      case ChecksumInvalid => ChecksumTextIsOneLine();
      case _ => LongTextIsOneLine(line);
    }
  }

  /** The checksum line's text holds no newline. */
  lemma ChecksumTextIsOneLine()
    ensures '\n' !in Text(ChecksumInvalid)
  {
    var t := "CHECKSUM INVALID - CHECK WIRING AND SENSOR";
    assert '\n' !in t;
    assert Text(ChecksumInvalid) == t;
  }

  /** The five longest sensor descriptor texts hold no newline. */
  lemma LongTextIsOneLine(line: Line)
    requires line.HumidityExceedsLimits? || line.TempHumiditySensorError? ||
             line.TempHumiditySensorOk? || line.InternalMemoryError? || line.InternalMemoryOk?
    ensures '\n' !in Text(line)
  {
    match line {
      case HumidityExceedsLimits => assert '\n' !in Text(HumidityExceedsLimits);
      case TempHumiditySensorError => assert '\n' !in Text(TempHumiditySensorError);
      case TempHumiditySensorOk => assert '\n' !in Text(TempHumiditySensorOk);
      case InternalMemoryError => assert '\n' !in Text(InternalMemoryError);
      case InternalMemoryOk => assert '\n' !in Text(InternalMemoryOk);
    }
  }

  /** One more line adds its text and a newline at the end. */
  lemma RenderSnoc(lines: seq<Line>, line: Line)
    ensures Render(lines + [line]) == (Render(lines) + Text(line)) + "\n"
  {
    assert (lines + [line])[..|lines|] == lines;
  }

  /** A one-line report is that line's text and a newline. */
  lemma RenderOne(line: Line)
    ensures Render([line]) == Text(line) + "\n"
  {
    RenderSnoc([], line);
    assert [] + [line] == [line];
  }

  /** Rendering two reports one after the other renders their concatenation. */
  lemma {:induction false} RenderAppend(a: seq<Line>, b: seq<Line>)
    ensures Render(a + b) == Render(a) + Render(b)
    decreases |b|
  {
    if b == [] {
      assert a + b == a;
    } else {
      var front, line := b[..|b| - 1], b[|b| - 1];
      var x := Text(line);
      assert b == front + [line];
      assert a + b == (a + front) + [line];
      RenderSnoc(a + front, line);
      RenderSnoc(front, line);
      RenderAppend(a, front);
      ConcatAssoc(Render(a), Render(front), x);
      ConcatAssoc(Render(a), Render(front) + x, "\n");
    }
  }

  /** A rendered report determines its lines: reading it back line by line
      recovers the report. */
  lemma {:induction false} RenderInjective(a: seq<Line>, b: seq<Line>)
    requires Render(a) == Render(b)
    ensures a == b
    decreases |a|
  {
    EmptyRender(a, b);
    if a != [] && b != [] {
      LastLineAgrees(a, b);
      RenderInjective(a[..|a| - 1], b[..|b| - 1]);
      SameFrontSameLast(a, b);
    }
  }

  /** Two non-empty sequences that agree before their last elements and on
      their last elements are equal. */
  lemma SameFrontSameLast<T>(a: seq<T>, b: seq<T>)
    requires a != [] && b != [] && a[..|a| - 1] == b[..|b| - 1] && a[|a| - 1] == b[|b| - 1]
    ensures a == b
  {
    assert a == a[..|a| - 1] + [a[|a| - 1]];
    assert b == b[..|b| - 1] + [b[|b| - 1]];
  }

  /** Only the empty report renders to the empty text. */
  lemma EmptyRender(a: seq<Line>, b: seq<Line>)
    requires Render(a) == Render(b)
    ensures a == [] <==> b == []
  {
  }

  /** Two reports with the same rendering have the same last line, and
      the lines before it render alike. */
  lemma LastLineAgrees(a: seq<Line>, b: seq<Line>)
    requires a != [] && b != [] && Render(a) == Render(b)
    ensures a[|a| - 1] == b[|b| - 1] && Render(a[..|a| - 1]) == Render(b[..|b| - 1])
  {
    var a0, b0 := a[..|a| - 1], b[..|b| - 1];
    var x, y := a[|a| - 1], b[|b| - 1];
    TextIsOneLine(x);
    TextIsOneLine(y);
    SameLastLine(Render(a0), Text(x), Render(b0), Text(y));
    RecogniseText(x);
    RecogniseText(y);
  }

  /** Two texts that end with the same kind of line, each after a prefix that
      is empty or ends with a newline, end with the same line after the
      same prefix. */
  lemma SameLastLine(p: string, t: string, q: string, u: string)
    requires (p + t) + "\n" == (q + u) + "\n"
    requires '\n' !in t && '\n' !in u
    requires p == [] || p[|p| - 1] == '\n'
    requires q == [] || q[|q| - 1] == '\n'
    ensures p == q && t == u
  {
    var n := |(p + t) + "\n"| - 1;
    assert p + t == ((p + t) + "\n")[..n] == ((q + u) + "\n")[..n] == q + u;
    if |p| < |q| {
      NewlineInside(p, t, q, u);
    } else if |q| < |p| {
      NewlineInside(q, u, p, t);
    }
    assert p == (p + t)[..|p|] == (q + u)[..|q|] == q;
    assert t == (p + t)[|p|..] == (q + u)[|q|..] == u;
  }

  /** If `p + t == q + u` with `p` shorter than `q` and `q` ending with a
      newline, that newline falls inside `t`. */
  lemma NewlineInside(p: string, t: string, q: string, u: string)
    requires p + t == q + u && |p| < |q| && q[|q| - 1] == '\n'
    ensures '\n' in t
  {
    assert t[|q| - 1 - |p|] == (p + t)[|q| - 1] == (q + u)[|q| - 1];
  }

  /** The line of each flag when its bit is set, in report order. */
  const EnabledLabels: seq<Line> := [
    SleepEnabled, SensorDegraded, SensorNotReady, HumidityExceedsLimits,
    TempHumiditySensorError, FanError, InternalMemoryError, LaserError]

  /** The line of each flag when its bit is clear, in report order. */
  const DisabledLabels: seq<Line> := [
    SleepDisabled, SensorOk, SensorReady, HumidityOk,
    TempHumiditySensorOk, FanOk, InternalMemoryOk, LaserOk]

  /** The flag test `(mask & code) != 0`. */
  predicate FlagSet(mask: Byte, code: Byte)
  {
    BitAnd(mask, code) != 0
  }

  /** The eight flags a state code decodes to, in report order: flag `i`
      tests the code against its mask, which reads binary digit `i`. */
  function FlagsOf(code: Byte): (fs: seq<bool>)
    ensures fs == Bits(code, 8)
  {
    var flags := seq(8, i requires 0 <= i < 8 => FlagSet(FlagMasks[i], code));
    assert flags == Bits(code, 8) by {
      MasksArePowers();
      forall i | 0 <= i < 8
        ensures flags[i] == Bits(code, 8)[i]
      {
        SingleBitMask(code, i, 8);
      }
    }
    flags
  }

  /** Reference reading of a number: its `n` lowest binary digits, least
      significant first. */
  function Bits(c: nat, n: nat): (bs: seq<bool>)
    ensures |bs| == n
  {
    if n == 0 then [] else [c % 2 == 1] + Bits(c / 2, n - 1)
  }

  /** The number whose binary digits, least significant first, are `bs`. */
  function FromBits(bs: seq<bool>): (c: nat)
    ensures c < Pow2(|bs|)
  {
    if bs == [] then 0 else (if bs[0] then 1 else 0) + 2 * FromBits(bs[1..])
  }

  /** Sum of the masks of the flags set in `fs`. */
  function MaskSum(fs: seq<bool>): (m: nat)
    requires |fs| <= 8
  {
    if fs == [] then 0
    else MaskSum(fs[..|fs| - 1]) + (if fs[|fs| - 1] then FlagMasks[|fs| - 1] else 0)
  }

  lemma {:induction false} BitsRoundTrip(c: nat, n: nat)
    requires c < Pow2(n)
    ensures FromBits(Bits(c, n)) == c
  {
    if n > 0 {
      BitsRoundTrip(c / 2, n - 1);
      assert Bits(c, n)[1..] == Bits(c / 2, n - 1);
    }
  }

  lemma {:induction false} FromBitsRoundTrip(bs: seq<bool>)
    ensures Bits(FromBits(bs), |bs|) == bs
  {
    if bs != [] {
      var c := FromBits(bs);
      assert c % 2 == 1 <==> bs[0];
      assert c / 2 == FromBits(bs[1..]);
      FromBitsRoundTrip(bs[1..]);
      assert Bits(c, |bs|) == [bs[0]] + bs[1..];
    }
  }

  /** Testing `c` against the single-bit mask `2^i` reads binary digit `i`. */
  lemma {:induction false} SingleBitMask(c: nat, i: nat, n: nat)
    requires i < n
    ensures (BitAnd(Pow2(i), c) != 0) == Bits(c, n)[i]
    decreases i
  {
    if i > 0 {
      var p := Pow2(i - 1);
      assert Pow2(i) / 2 == p && Pow2(i) % 2 == 0;
      SingleBitMask(c / 2, i - 1, n - 1);
      assert Bits(c, n)[i] == Bits(c / 2, n - 1)[i - 1];
    }
  }

  lemma MasksArePowers()
    ensures forall i :: 0 <= i < 8 ==> FlagMasks[i] == Pow2(i)
  {
    assert Pow2(0) == 1 && Pow2(1) == 2 && Pow2(2) == 4 && Pow2(3) == 8;
    assert Pow2(4) == 16 && Pow2(5) == 32 && Pow2(6) == 64 && Pow2(7) == 128;
  }

  lemma {:induction false} FromBitsSnoc(bs: seq<bool>, b: bool)
    ensures FromBits(bs + [b]) == FromBits(bs) + (if b then Pow2(|bs|) else 0)
  {
    if bs != [] {
      assert (bs + [b])[1..] == bs[1..] + [b];
      FromBitsSnoc(bs[1..], b);
    }
  }

  lemma {:induction false} MaskSumIsFromBits(fs: seq<bool>)
    requires |fs| <= 8
    ensures MaskSum(fs) == FromBits(fs)
  {
    if fs != [] {
      var n := |fs| - 1;
      MaskSumIsFromBits(fs[..n]);
      assert fs == fs[..n] + [fs[n]];
      FromBitsSnoc(fs[..n], fs[n]);
      MasksArePowers();
    }
  }

  /** The state code is the sum of the masks of the flags it sets, and every
      combination of the eight flags is decoded from exactly one code. */
  lemma FlagsDetermineCode(code: Byte, fs: seq<bool>)
    requires |fs| == 8
    ensures MaskSum(FlagsOf(code)) == code
    ensures FlagsOf(code) == fs <==> code == MaskSum(fs)
  {
    assert Pow2(8) == 256;
    MaskSumIsFromBits(FlagsOf(code));
    BitsRoundTrip(code, 8);
    MaskSumIsFromBits(fs);
    FromBitsRoundTrip(fs);
  }

  /** A failed checksum substitutes 0xFF, which sets every flag. */
  lemma ChecksumFailureSetsAllFlags()
    ensures FlagsOf(ChecksumFailureCode) == [true, true, true, true, true, true, true, true]
  {
  }

  // ---------------------------------------------------------------------------
  // Reports

  /** The report line of flag `i` when it is `on`. */
  function Label(i: nat, on: bool): (line: Line)
    requires i < 8
    ensures line in EnabledLabels <==> on
    ensures line in DisabledLabels <==> !on
  {
    if on then EnabledLabels[i] else DisabledLabels[i]
  }

  /** The report with one line per flag: its enabled or its disabled label. */
  function AllLabels(fs: seq<bool>): (r: seq<Line>)
    requires |fs| <= 8
    ensures |r| == |fs|
    ensures forall i :: 0 <= i < |fs| ==> r[i] == Label(i, fs[i])
  {
    if fs == [] then [] else AllLabels(fs[..|fs| - 1]) + [Label(|fs| - 1, fs[|fs| - 1])]
  }

  /** The report with a line for each flag that is set, in flag order. */
  function ActiveLabels(fs: seq<bool>): (r: seq<Line>)
    requires |fs| <= 8
    ensures |r| <= |fs|
    ensures forall k :: 0 <= k < |r| ==> r[k] in EnabledLabels
  {
    if fs == [] then []
    else ActiveLabels(fs[..|fs| - 1]) + (if fs[|fs| - 1] then [EnabledLabels[|fs| - 1]] else [])
  }

  /** The two labels of a flag differ, so a line of the full report tells
      whether its flag was set. */
  lemma LabelTellsFlag(i: nat, a: bool, b: bool)
    requires i < 8 && Label(i, a) == Label(i, b)
    ensures a == b
  {
  }

  /** Two equal full reports come from equal flags. */
  lemma AllLabelsInjective(fs: seq<bool>, gs: seq<bool>)
    requires |fs| == |gs| <= 8 && AllLabels(fs) == AllLabels(gs)
    ensures fs == gs
  {
    forall i | 0 <= i < |fs|
      ensures fs[i] == gs[i]
    {
      LabelTellsFlag(i, fs[i], gs[i]);
    }
  }

  /** Both reports grow by the line of one more flag. */
  lemma LabelsSnoc(done: seq<bool>, present: bool)
    requires |done| < 8
    ensures AllLabels(done + [present]) == AllLabels(done) + [Label(|done|, present)]
    ensures ActiveLabels(done + [present]) == ActiveLabels(done) + (if present then [Label(|done|, true)] else [])
  {
    var fs := done + [present];
    assert fs[..|fs| - 1] == done;
  }

  /** Positions of the flags that are set, in increasing order. */
  function SetPositions(fs: seq<bool>): (pos: seq<nat>)
  {
    if fs == [] then []
    else SetPositions(fs[..|fs| - 1]) + (if fs[|fs| - 1] then [|fs| - 1] else [])
  }

  /** The positions listed are increasing, each names a set flag, and every
      set flag is listed. */
  lemma {:induction false} SetPositionsExact(fs: seq<bool>)
    ensures forall j, k :: 0 <= j < k < |SetPositions(fs)| ==> SetPositions(fs)[j] < SetPositions(fs)[k]
    ensures forall j :: 0 <= j < |SetPositions(fs)| ==> SetPositions(fs)[j] < |fs| && fs[SetPositions(fs)[j]]
    ensures forall i :: 0 <= i < |fs| && fs[i] ==> i in SetPositions(fs)
  {
    if fs != [] {
      var n := |fs| - 1;
      var init := fs[..n];
      SetPositionsExact(init);
      var pos0 := SetPositions(init);
      var pos := SetPositions(fs);
      assert pos == pos0 + (if fs[n] then [n] else []);
      forall j | 0 <= j < |pos0|
        ensures pos[j] == pos0[j] && pos0[j] < n && fs[pos0[j]]
      {
        assert init[pos0[j]] == fs[pos0[j]];
      }
      forall i | 0 <= i < n && fs[i]
        ensures i in pos
      {
        assert init[i] == fs[i];
        assert i in pos0;
      }
    }
  }

  /** The short report is the full report restricted to the positions of
      the set flags, in their original order. */
  lemma {:induction false} ActiveIsSubsequence(fs: seq<bool>)
    requires |fs| <= 8
    ensures |SetPositions(fs)| == |ActiveLabels(fs)|
    ensures forall j :: 0 <= j < |SetPositions(fs)| ==>
      SetPositions(fs)[j] < |fs| && ActiveLabels(fs)[j] == AllLabels(fs)[SetPositions(fs)[j]]
  {
    if fs != [] {
      var n := |fs| - 1;
      var init := fs[..n];
      ActiveIsSubsequence(init);
      SetPositionsExact(fs);
      assert fs == init + [fs[n]];
      LabelsSnoc(init, fs[n]);
      var pos0 := SetPositions(init);
      var pos := SetPositions(fs);
      assert pos == pos0 + (if fs[n] then [n] else []);
      forall j | 0 <= j < |pos|
        ensures ActiveLabels(fs)[j] == AllLabels(fs)[pos[j]]
      {
        if j < |pos0| {
          assert ActiveLabels(fs)[j] == ActiveLabels(init)[j];
        }
      }
    }
  }

  // ---------------------------------------------------------------------------
  // Particulate channels

  /** One particulate channel: particles per litre and density. */
  datatype Reading = Reading(count: int, density: int)

  /** Decoding of a four-byte window `[c1, c2, d1, d2]`: the count is the
      big-endian word `c1 c2`, the density the big-endian word `d1 d2`
      divided by 10 with the fraction dropped. */
  function DecodeReading(c1: Byte, c2: Byte, d1: Byte, d2: Byte): (r: Reading)
    ensures 0 <= r.count < 0x1_0000 && r.count / 256 == c1 && r.count % 256 == c2
    ensures 0 <= r.density <= 6553
    ensures r.density * 10 <= d1 * 256 + d2 < r.density * 10 + 10
  {
    Reading(BigEndian16(c1, c2), BigEndian16(d1, d2) / 10)
  }

  lemma DecodeReadingExample()
    ensures DecodeReading(0x01, 0x2C, 0x00, 0x64) == Reading(300, 10)
  {
  }
}
