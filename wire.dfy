/** The serial wire protocol shared by the firmware and the host tool: the
    command, mode, port and reply codes, and the byte layout of every command
    and reply frame. Host builds pack the frame structs to byte alignment and
    both ends are little-endian, so a frame is its fields' bytes in
    declaration order with multi-byte fields least significant byte first. */
module Wire {
  import opened Bytes
  import opened Optional

  // Frame start marker.
  const CMD_BEGIN: byte := 0xFF

  // Command types.
  const CMD_TYPE_GET_MODE: byte := 0x00
  const CMD_TYPE_SET_MODE: byte := 0x01
  const CMD_TYPE_READ_PORT: byte := 0x10
  const CMD_TYPE_WRITE_PORT: byte := 0x11
  const CMD_TYPE_GET_INPUT_SPEED: byte := 0x20
  const CMD_TYPE_GET_INPUT_PWM: byte := 0x21
  const CMD_TYPE_SET_OUTPUT_SPEED: byte := 0x30
  const CMD_TYPE_SET_OUTPUT_PWM: byte := 0x31
  const CMD_TYPE_READ_CONFIG: byte := 0x40
  const CMD_TYPE_WRITE_CONFIG: byte := 0x41
  const CMD_TYPE_READ_CLOCK: byte := 0x50

  const COMMAND_TYPES: set<byte> := {
    CMD_TYPE_GET_MODE, CMD_TYPE_SET_MODE, CMD_TYPE_READ_PORT, CMD_TYPE_WRITE_PORT,
    CMD_TYPE_GET_INPUT_SPEED, CMD_TYPE_GET_INPUT_PWM, CMD_TYPE_SET_OUTPUT_SPEED,
    CMD_TYPE_SET_OUTPUT_PWM, CMD_TYPE_READ_CONFIG, CMD_TYPE_WRITE_CONFIG,
    CMD_TYPE_READ_CLOCK
  }

  // Firmware modes.
  const FIRMWARE_MODE_NORMAL: byte := 0x00
  const FIRMWARE_MODE_MANUAL: byte := 0x01
  const FIRMWARE_MODE_TEST: byte := 0x02

  // Port identifiers: readable ports and writable ports are numbered separately.
  const PORT_READ_PWM_INPUT: byte := 0x00
  const PORT_READ_SPEED_INPUT: byte := 0x01
  const PORT_WRITE_SPEED_OUTPUT: byte := 0x00
  const PORT_WRITE_PWM_OUTPUT: byte := 0x01

  // Reply types.
  const REPLY_TYPE_FAILED: byte := 0x00
  const REPLY_TYPE_SUCCESS: byte := 0x01

  /** Number of stages in each map of the firmware configuration (10% a stage). */
  const CONFIG_STAGES: nat := 10
  /** Packed size of a firmware configuration: 10 duty bytes and 10 pairs of 16-bit speeds. */
  const FIRMWARE_CONFIG_SIZE: nat := 50

  datatype FirmwareMode = Normal | Manual | Test
  datatype ReadablePort = PwmInput | SpeedInput
  datatype WritablePort = SpeedOutput | PwmOutput

  /** One stage of the speed map: a source speed and the speed it maps to, in Hz. */
  datatype SpeedPair = SpeedPair(source: uint16, dest: uint16)

  datatype FirmwareConfig = FirmwareConfig(pwmMap: seq<byte>, speedMap: seq<SpeedPair>)
  {
    predicate Valid()
    {
      |pwmMap| == CONFIG_STAGES && |speedMap| == CONFIG_STAGES
    }
  }

  /** A command as the host tool builds it. */
  datatype Command =
    | GetMode
    | SetMode(mode: FirmwareMode)
    | ReadPort(readPort: ReadablePort)
    | WritePort(writePort: WritablePort, value: byte)
    | GetInputSpeed
    | GetInputPwm
    | SetOutputSpeed(speed: uint16)
    | SetOutputPwm(dutyCycle: byte)
    | ReadConfig
    | WriteConfig(config: FirmwareConfig)
    | ReadClock
  {
    predicate Valid()
    {
      WriteConfig? ==> config.Valid()
    }
  }

  /** A reply: `Failed` carries no payload; each success carries its command's payload. */
  datatype Reply =
    | Failed
    | GetModeOk(mode: byte)
    | SetModeOk
    | ReadPortOk(value: byte)
    | WritePortOk
    | GetInputSpeedOk(speed: uint16)
    | GetInputPwmOk(dutyCycle: byte)
    | SetOutputSpeedOk
    | SetOutputPwmOk
    | ReadConfigOk(config: FirmwareConfig)
    | WriteConfigOk
    | ReadClockOk(bootTime: uint32)
  {
    predicate Valid()
    {
      ReadConfigOk? ==> config.Valid()
    }
  }

  // ---------------------------------------------------------------------------
  // Enumerations and their codes

  function ModeCode(m: FirmwareMode): (b: byte)
    ensures b != CMD_BEGIN
    ensures m == Normal <==> b == FIRMWARE_MODE_NORMAL
    ensures m == Manual <==> b == FIRMWARE_MODE_MANUAL
    ensures m == Test <==> b == FIRMWARE_MODE_TEST
  {
    match m
    case Normal => FIRMWARE_MODE_NORMAL
    case Manual => FIRMWARE_MODE_MANUAL
    case Test => FIRMWARE_MODE_TEST
  }

  /** The mode a byte names, if any; the inverse of `ModeCode`. */
  function ModeOf(b: byte): (r: Option<FirmwareMode>)
    ensures r.Some? <==> b <= FIRMWARE_MODE_TEST
    ensures r.Some? ==> ModeCode(r.value) == b
  {
    if b == FIRMWARE_MODE_NORMAL then Some(Normal)
    else if b == FIRMWARE_MODE_MANUAL then Some(Manual)
    else if b == FIRMWARE_MODE_TEST then Some(Test)
    else None
  }

  function ReadablePortCode(p: ReadablePort): (b: byte)
    ensures b != CMD_BEGIN
    ensures p == PwmInput <==> b == PORT_READ_PWM_INPUT
    ensures p == SpeedInput <==> b == PORT_READ_SPEED_INPUT
  {
    match p
    case PwmInput => PORT_READ_PWM_INPUT
    case SpeedInput => PORT_READ_SPEED_INPUT
  }

  function ReadablePortOf(b: byte): (r: Option<ReadablePort>)
    ensures r.Some? <==> b <= PORT_READ_SPEED_INPUT
    ensures r.Some? ==> ReadablePortCode(r.value) == b
  {
    if b == PORT_READ_PWM_INPUT then Some(PwmInput)
    else if b == PORT_READ_SPEED_INPUT then Some(SpeedInput)
    else None
  }

  function WritablePortCode(p: WritablePort): (b: byte)
    ensures b != CMD_BEGIN
    ensures p == SpeedOutput <==> b == PORT_WRITE_SPEED_OUTPUT
    ensures p == PwmOutput <==> b == PORT_WRITE_PWM_OUTPUT
  {
    match p
    case SpeedOutput => PORT_WRITE_SPEED_OUTPUT
    case PwmOutput => PORT_WRITE_PWM_OUTPUT
  }

  function WritablePortOf(b: byte): (r: Option<WritablePort>)
    ensures r.Some? <==> b <= PORT_WRITE_PWM_OUTPUT
    ensures r.Some? ==> WritablePortCode(r.value) == b
  {
    if b == PORT_WRITE_SPEED_OUTPUT then Some(SpeedOutput)
    else if b == PORT_WRITE_PWM_OUTPUT then Some(PwmOutput)
    else None
  }

  /** Decoding a code gives back the enumerator it encodes, for all three enumerations. */
  lemma EnumCodesRoundTrip(m: FirmwareMode, rp: ReadablePort, wp: WritablePort)
    ensures ModeOf(ModeCode(m)) == Some(m)
    ensures ReadablePortOf(ReadablePortCode(rp)) == Some(rp)
    ensures WritablePortOf(WritablePortCode(wp)) == Some(wp)
  {
  }

  // ---------------------------------------------------------------------------
  // Firmware configuration

  function EncodeSpeedMap(s: seq<SpeedPair>): (b: seq<byte>)
    ensures |b| == 4 * |s|
  {
    if s == [] then []
    else LE16(s[0].source) + LE16(s[0].dest) + EncodeSpeedMap(s[1..])
  }

  function DecodeSpeedMap(b: seq<byte>): (s: seq<SpeedPair>)
    requires |b| % 4 == 0
    ensures 4 * |s| == |b|
    decreases |b|
  {
    if b == [] then []
    else [SpeedPair(FromLE16(b[..2]), FromLE16(b[2..4]))] + DecodeSpeedMap(b[4..])
  }

  lemma {:induction false} SpeedMapRoundTrip(s: seq<SpeedPair>)
    ensures DecodeSpeedMap(EncodeSpeedMap(s)) == s
    decreases |s|
  {
    if s != [] {
      var b := EncodeSpeedMap(s);
      assert b[..2] == LE16(s[0].source);
      assert b[2..4] == LE16(s[0].dest);
      assert b[4..] == EncodeSpeedMap(s[1..]);
      LE16RoundTrip(s[0].source);
      LE16RoundTrip(s[0].dest);
      SpeedMapRoundTrip(s[1..]);
    }
  }

  lemma {:induction false} SpeedMapBytesRoundTrip(b: seq<byte>)
    requires |b| % 4 == 0
    ensures EncodeSpeedMap(DecodeSpeedMap(b)) == b
    decreases |b|
  {
    if b != [] {
      var s := DecodeSpeedMap(b);
      assert s[1..] == DecodeSpeedMap(b[4..]);
      FromLE16RoundTrip(b[..2]);
      FromLE16RoundTrip(b[2..4]);
      SpeedMapBytesRoundTrip(b[4..]);
      assert b == b[..2] + b[2..4] + b[4..];
    }
  }

  /** The packed image of a configuration: the duty map, then each speed pair. */
  function EncodeConfig(c: FirmwareConfig): (b: seq<byte>)
    requires c.Valid()
    ensures |b| == FIRMWARE_CONFIG_SIZE
    ensures b[..CONFIG_STAGES] == c.pwmMap
  {
    c.pwmMap + EncodeSpeedMap(c.speedMap)
  }

  function DecodeConfig(b: seq<byte>): (c: FirmwareConfig)
    requires |b| == FIRMWARE_CONFIG_SIZE
    ensures c.Valid()
    ensures c.pwmMap == b[..CONFIG_STAGES]
  {
    FirmwareConfig(b[..CONFIG_STAGES], DecodeSpeedMap(b[CONFIG_STAGES..]))
  }

  lemma ConfigRoundTrip(c: FirmwareConfig)
    requires c.Valid()
    ensures DecodeConfig(EncodeConfig(c)) == c
  {
    var b := EncodeConfig(c);
    assert b[CONFIG_STAGES..] == EncodeSpeedMap(c.speedMap);
    SpeedMapRoundTrip(c.speedMap);
  }

  lemma ConfigBytesRoundTrip(b: seq<byte>)
    requires |b| == FIRMWARE_CONFIG_SIZE
    ensures EncodeConfig(DecodeConfig(b)) == b
  {
    SpeedMapBytesRoundTrip(b[CONFIG_STAGES..]);
    assert b == b[..CONFIG_STAGES] + b[CONFIG_STAGES..];
  }

  // ---------------------------------------------------------------------------
  // Command frames

  /** The command-type byte of a command. */
  function TypeCode(c: Command): (t: byte)
    ensures t in COMMAND_TYPES
    ensures t != CMD_BEGIN
  {
    match c
    case GetMode => CMD_TYPE_GET_MODE
    case SetMode(_) => CMD_TYPE_SET_MODE
    case ReadPort(_) => CMD_TYPE_READ_PORT
    case WritePort(_, _) => CMD_TYPE_WRITE_PORT
    case GetInputSpeed => CMD_TYPE_GET_INPUT_SPEED
    case GetInputPwm => CMD_TYPE_GET_INPUT_PWM
    case SetOutputSpeed(_) => CMD_TYPE_SET_OUTPUT_SPEED
    case SetOutputPwm(_) => CMD_TYPE_SET_OUTPUT_PWM
    case ReadConfig => CMD_TYPE_READ_CONFIG
    case WriteConfig(_) => CMD_TYPE_WRITE_CONFIG
    case ReadClock => CMD_TYPE_READ_CLOCK
  }

  /** Packed width, in bytes, of the fields that follow the header of a command
      of type `t`, read off the frame struct declarations. */
  function ArgsWidth(t: byte): nat
    requires t in COMMAND_TYPES
  {
    if t == CMD_TYPE_SET_MODE || t == CMD_TYPE_READ_PORT || t == CMD_TYPE_SET_OUTPUT_PWM then 1
    else if t == CMD_TYPE_WRITE_PORT then 1 + 1
    else if t == CMD_TYPE_SET_OUTPUT_SPEED then 2
    else if t == CMD_TYPE_WRITE_CONFIG then FIRMWARE_CONFIG_SIZE
    else 0
  }

  /** The argument bytes of a command. */
  function Args(c: Command): (a: seq<byte>)
    requires c.Valid()
    ensures |a| == ArgsWidth(TypeCode(c))
  {
    match c
    case SetMode(m) => [ModeCode(m)]
    case ReadPort(p) => [ReadablePortCode(p)]
    case WritePort(p, v) => [WritablePortCode(p), v]
    case SetOutputSpeed(s) => LE16(s)
    case SetOutputPwm(d) => [d]
    case WriteConfig(cfg) => EncodeConfig(cfg)
    case _ => []
  }

  /** The frame the host sends for a command: begin marker, type, arguments. */
  function Encode(c: Command): (f: seq<byte>)
    requires c.Valid()
    ensures |f| == 2 + ArgsWidth(TypeCode(c))
    ensures f[0] == CMD_BEGIN && f[1] == TypeCode(c)
    ensures f[2..] == Args(c)
  {
    [CMD_BEGIN, TypeCode(c)] + Args(c)
  }

  /** Parses one whole command frame; `None` for a wrong marker, an unknown type,
      a wrong length or an argument byte that names no enumerator. */
  function Decode(f: seq<byte>): (r: Option<Command>)
    ensures r.Some? ==> r.value.Valid() && |f| == 2 + ArgsWidth(TypeCode(r.value))
  {
    if |f| < 2 || f[0] != CMD_BEGIN || f[1] !in COMMAND_TYPES || |f| != 2 + ArgsWidth(f[1]) then None
    else
      var t, a := f[1], f[2..];
      if t == CMD_TYPE_GET_MODE then Some(GetMode)
      else if t == CMD_TYPE_SET_MODE then
        (match ModeOf(a[0]) case Some(m) => Some(SetMode(m)) case None => None)
      else if t == CMD_TYPE_READ_PORT then
        (match ReadablePortOf(a[0]) case Some(p) => Some(ReadPort(p)) case None => None)
      else if t == CMD_TYPE_WRITE_PORT then
        (match WritablePortOf(a[0]) case Some(p) => Some(WritePort(p, a[1])) case None => None)
      else if t == CMD_TYPE_GET_INPUT_SPEED then Some(GetInputSpeed)
      else if t == CMD_TYPE_GET_INPUT_PWM then Some(GetInputPwm)
      else if t == CMD_TYPE_SET_OUTPUT_SPEED then Some(SetOutputSpeed(FromLE16(a)))
      else if t == CMD_TYPE_SET_OUTPUT_PWM then Some(SetOutputPwm(a[0]))
      else if t == CMD_TYPE_READ_CONFIG then Some(ReadConfig)
      else if t == CMD_TYPE_WRITE_CONFIG then Some(WriteConfig(DecodeConfig(a)))
      else Some(ReadClock)
  }

  /** Every command survives the trip through its frame. */
  lemma CommandRoundTrip(c: Command)
    requires c.Valid()
    ensures Decode(Encode(c)) == Some(c)
  {
    var f := Encode(c);
    assert f[2..] == Args(c);
    match c
    case SetOutputSpeed(s) =>
      LE16RoundTrip(s);
    case WriteConfig(cfg) =>
      ConfigRoundTrip(cfg);
    case _ =>
      EnumCodesRoundTrip(Normal, PwmInput, SpeedOutput);
      EnumCodesRoundTrip(Manual, SpeedInput, PwmOutput);
      EnumCodesRoundTrip(Test, PwmInput, SpeedOutput);
  }

  /** A frame that parses is exactly the encoding of what it parses to. */
  lemma FrameRoundTrip(f: seq<byte>)
    requires Decode(f).Some?
    ensures Encode(Decode(f).value) == f
  {
    var c := Decode(f).value;
    var a := f[2..];
    assert f == [f[0], f[1]] + a;
    match c
    case SetOutputSpeed(s) =>
      FromLE16RoundTrip(a);
    case WriteConfig(cfg) =>
      ConfigBytesRoundTrip(a);
    case WritePort(p, v) =>
      assert a == [a[0], a[1]];
    case _ =>
  }

  // ---------------------------------------------------------------------------
  // Reply frames

  /** Whether `r` is a reply the firmware may give to a command of type `t`:
      `Failed` answers anything, a success answers only its own command type. */
  predicate Answers(r: Reply, t: byte)
  {
    match r
    case Failed => true
    case GetModeOk(_) => t == CMD_TYPE_GET_MODE
    case SetModeOk => t == CMD_TYPE_SET_MODE
    case ReadPortOk(_) => t == CMD_TYPE_READ_PORT
    case WritePortOk => t == CMD_TYPE_WRITE_PORT
    case GetInputSpeedOk(_) => t == CMD_TYPE_GET_INPUT_SPEED
    case GetInputPwmOk(_) => t == CMD_TYPE_GET_INPUT_PWM
    case SetOutputSpeedOk => t == CMD_TYPE_SET_OUTPUT_SPEED
    case SetOutputPwmOk => t == CMD_TYPE_SET_OUTPUT_PWM
    case ReadConfigOk(_) => t == CMD_TYPE_READ_CONFIG
    case WriteConfigOk => t == CMD_TYPE_WRITE_CONFIG
    case ReadClockOk(_) => t == CMD_TYPE_READ_CLOCK
  }

  /** Packed width of the payload of a successful reply to a command of type `t`. */
  function PayloadWidth(t: byte): nat
    requires t in COMMAND_TYPES
  {
    if t == CMD_TYPE_GET_MODE || t == CMD_TYPE_READ_PORT || t == CMD_TYPE_GET_INPUT_PWM then 1
    else if t == CMD_TYPE_GET_INPUT_SPEED then 2
    else if t == CMD_TYPE_READ_CONFIG then FIRMWARE_CONFIG_SIZE
    else if t == CMD_TYPE_READ_CLOCK then 4
    else 0
  }

  /** The bytes the firmware sends for a reply: the reply type, then the payload. */
  function EncodeReply(r: Reply): (f: seq<byte>)
    requires r.Valid()
    ensures r.Failed? <==> f == [REPLY_TYPE_FAILED]
    ensures |f| >= 1
    ensures !r.Failed? ==> f[0] == REPLY_TYPE_SUCCESS
  {
    match r
    case Failed => [REPLY_TYPE_FAILED]
    case GetModeOk(m) => [REPLY_TYPE_SUCCESS, m]
    case ReadPortOk(v) => [REPLY_TYPE_SUCCESS, v]
    case GetInputSpeedOk(s) => [REPLY_TYPE_SUCCESS] + LE16(s)
    case GetInputPwmOk(d) => [REPLY_TYPE_SUCCESS, d]
    case ReadConfigOk(c) => [REPLY_TYPE_SUCCESS] + EncodeConfig(c)
    case ReadClockOk(t) => [REPLY_TYPE_SUCCESS] + LE32(t)
    case _ => [REPLY_TYPE_SUCCESS]
  }

  /** A successful reply is its type byte plus exactly the packed payload of
      the command it answers. */
  lemma ReplySize(r: Reply, t: byte)
    requires r.Valid() && t in COMMAND_TYPES && !r.Failed? && Answers(r, t)
    ensures |EncodeReply(r)| == 1 + PayloadWidth(t)
  {
  }

  /** How the host reads the reply to a command of type `t`. */
  function DecodeReply(t: byte, f: seq<byte>): (r: Option<Reply>)
    requires t in COMMAND_TYPES
    ensures r.Some? ==> r.value.Valid() && Answers(r.value, t)
  {
    if f == [REPLY_TYPE_FAILED] then Some(Failed)
    else if |f| != 1 + PayloadWidth(t) || f[0] != REPLY_TYPE_SUCCESS then None
    else
      var p := f[1..];
      if t == CMD_TYPE_GET_MODE then Some(GetModeOk(p[0]))
      else if t == CMD_TYPE_SET_MODE then Some(SetModeOk)
      else if t == CMD_TYPE_READ_PORT then Some(ReadPortOk(p[0]))
      else if t == CMD_TYPE_WRITE_PORT then Some(WritePortOk)
      else if t == CMD_TYPE_GET_INPUT_SPEED then Some(GetInputSpeedOk(FromLE16(p)))
      else if t == CMD_TYPE_GET_INPUT_PWM then Some(GetInputPwmOk(p[0]))
      else if t == CMD_TYPE_SET_OUTPUT_SPEED then Some(SetOutputSpeedOk)
      else if t == CMD_TYPE_SET_OUTPUT_PWM then Some(SetOutputPwmOk)
      else if t == CMD_TYPE_READ_CONFIG then Some(ReadConfigOk(DecodeConfig(p)))
      else if t == CMD_TYPE_WRITE_CONFIG then Some(WriteConfigOk)
      else Some(ReadClockOk(FromLE32(p)))
  }

  /** A reply the firmware may give is read back by the host as that reply. */
  lemma ReplyRoundTrip(r: Reply, t: byte)
    requires r.Valid() && t in COMMAND_TYPES && Answers(r, t)
    ensures DecodeReply(t, EncodeReply(r)) == Some(r)
  {
    var f := EncodeReply(r);
    match r
    case GetInputSpeedOk(s) =>
      assert f[1..] == LE16(s);
      LE16RoundTrip(s);
    case ReadConfigOk(c) =>
      assert f[1..] == EncodeConfig(c);
      ConfigRoundTrip(c);
    case ReadClockOk(x) =>
      assert f[1..] == LE32(x);
      LE32RoundTrip(x);
    case _ =>
  }

  /** Every reply the host accepts is the encoding of what it reads. */
  lemma ReplyBytesRoundTrip(t: byte, f: seq<byte>)
    requires t in COMMAND_TYPES && DecodeReply(t, f).Some?
    ensures EncodeReply(DecodeReply(t, f).value) == f
  {
    var r := DecodeReply(t, f).value;
    if !r.Failed? {
      var p := f[1..];
      assert f == [f[0]] + p;
      match r
      case GetInputSpeedOk(_) =>
        FromLE16RoundTrip(p);
      case ReadConfigOk(_) =>
        ConfigBytesRoundTrip(p);
      case ReadClockOk(_) =>
        FromLE32RoundTrip(p);
      case _ =>
    }
  }
}
