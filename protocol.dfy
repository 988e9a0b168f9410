/** What the firmware's command handler does, as functions: the board state a
    command can touch, the receive timeout, and the begin-marker-resynchronising
    parser written as a finite-state machine over the outcomes of successive
    byte reads (`None` is a read that timed out). */
module Protocol {
  import opened Bytes
  import opened Optional
  import opened Wire

  /** Microseconds a byte read waits before giving up. */
  const READ_TIMEOUT: nat := 100000

  // ---------------------------------------------------------------------------
  // Receiving one byte

  /** One look at the receiver: the byte that has arrived, if any, and the boot
      counter as read when none had. */
  datatype Poll = Poll(received: Option<byte>, now: uint32)

  /** Whether `polls` reaches a verdict: some look finds a byte or a reading
      more than the timeout after `begin`. */
  predicate Decisive(begin: uint32, polls: seq<Poll>)
    decreases |polls|
  {
    |polls| > 0 &&
    (polls[0].received.Some? || Sub32(polls[0].now, begin) > READ_TIMEOUT ||
     Decisive(begin, polls[1..]))
  }

  /** The outcome of a byte read that started at boot time `begin`. */
  function WaitFor(begin: uint32, polls: seq<Poll>): (r: Option<byte>)
    requires Decisive(begin, polls)
    ensures r.Some? ==> exists i :: 0 <= i < |polls| && polls[i].received == r
    decreases |polls|
  {
    if polls[0].received.Some? then polls[0].received
    else if Sub32(polls[0].now, begin) > READ_TIMEOUT then None
    else WaitFor(begin, polls[1..])
  }

  /** The read is decided by the first look that sees a byte or a reading past
      the timeout: a byte seen there is returned, a late reading gives up. */
  lemma {:induction false} WaitForFirstVerdict(begin: uint32, polls: seq<Poll>, k: nat)
    requires k < |polls|
    requires forall j :: 0 <= j < k ==>
      polls[j].received.None? && Sub32(polls[j].now, begin) <= READ_TIMEOUT
    requires polls[k].received.Some? || Sub32(polls[k].now, begin) > READ_TIMEOUT
    ensures Decisive(begin, polls)
    ensures WaitFor(begin, polls) == polls[k].received
  {
    if k > 0 {
      WaitForFirstVerdict(begin, polls[1..], k - 1);
    }
  }

  // ---------------------------------------------------------------------------
  // Board state and the replies of the individual commands

  /** What a command can change: the mode, the two output pins and the bytes
      sent so far. */
  datatype Board = Board(mode: byte, speedOutput: bool, pwmOutput: bool, sent: seq<byte>)

  /** What a command can read but not change: the input pins and the boot counter. */
  datatype Env = Env(pwmInput: bool, speedInput: bool, bootTime: uint32)

  function Emit(s: Board, r: Reply): Board
    requires r.Valid()
  {
    s.(sent := s.sent + EncodeReply(r))
  }

  function Fail(s: Board): Board
  {
    Emit(s, Failed)
  }

  function Bit(b: bool): byte
  {
    if b then 1 else 0
  }

  function GetModeReply(s: Board): Board
  {
    Emit(s, GetModeOk(s.mode))
  }

  function SetModeReply(s: Board, m: byte): Board
  {
    Emit(s.(mode := m), SetModeOk)
  }

  /** Reads a port; refused outside Test mode. The firmware leaves the reply value
      unset for an unknown port, so only the two known ports are accepted here. */
  function ReadPortReply(s: Board, port: byte, env: Env): Board
    requires port <= PORT_READ_SPEED_INPUT
  {
    if s.mode != FIRMWARE_MODE_TEST then Fail(s)
    else if port == PORT_READ_PWM_INPUT then Emit(s, ReadPortOk(Bit(env.pwmInput)))
    else Emit(s, ReadPortOk(Bit(env.speedInput)))
  }

  /** Drives an output pin high for a nonzero value; refused outside Test mode.
      An unknown port changes no pin but still succeeds. */
  function WritePortReply(s: Board, port: byte, value: byte): Board
  {
    if s.mode != FIRMWARE_MODE_TEST then Fail(s)
    else if port == PORT_WRITE_SPEED_OUTPUT then Emit(s.(speedOutput := value != 0), WritePortOk)
    else if port == PORT_WRITE_PWM_OUTPUT then Emit(s.(pwmOutput := value != 0), WritePortOk)
    else Emit(s, WritePortOk)
  }

  function ReadClockReply(s: Board, env: Env): Board
  {
    Emit(s, ReadClockOk(env.bootTime))
  }

  // ---------------------------------------------------------------------------
  // The parser

  /** Where the parser is: waiting for the begin marker, the command type, the
      SetMode or ReadPort argument, or the WritePort port and value. */
  datatype Phase = AwaitBegin | AwaitType | AwaitMode | AwaitReadPort | AwaitWritePort
                 | AwaitValue(port: byte)

  /** One read outcome in one phase: the new board and the next phase, or
      `None` when the command is over. */
  function Step(ph: Phase, b: Option<byte>, s: Board, env: Env): (r: (Board, Option<Phase>))
    ensures b.None? ==> r == (Fail(s), None)
    ensures r.1 != Some(AwaitBegin)
  {
    match b
    case None => (Fail(s), None)
    case Some(x) =>
      if ph == AwaitBegin then
        if x == CMD_BEGIN then (s, Some(AwaitType)) else (Fail(s), None)
      else if x == CMD_BEGIN then (Fail(s), Some(AwaitType))
      else
        match ph
        case AwaitType =>
          if x == CMD_TYPE_GET_MODE then (GetModeReply(s), None)
          else if x == CMD_TYPE_SET_MODE then (s, Some(AwaitMode))
          else if x == CMD_TYPE_READ_PORT then (s, Some(AwaitReadPort))
          else if x == CMD_TYPE_WRITE_PORT then (s, Some(AwaitWritePort))
          else if x == CMD_TYPE_READ_CLOCK then (ReadClockReply(s, env), None)
          else (Fail(s), None)
        case AwaitMode =>
          if x <= FIRMWARE_MODE_TEST then (SetModeReply(s, x), None) else (Fail(s), None)
        case AwaitReadPort =>
          if x <= PORT_READ_SPEED_INPUT then (ReadPortReply(s, x, env), None) else (Fail(s), None)
        case AwaitWritePort =>
          if x <= PORT_WRITE_PWM_OUTPUT then (s, Some(AwaitValue(x))) else (Fail(s), None)
        case AwaitValue(p) =>
          if x <= 1 then (WritePortReply(s, p, x), None) else (Fail(s), None)
        case AwaitBegin => (s, None)
  }

  /** Runs the parser from phase `ph` over the read outcomes `input`; the
      board at the end and the outcomes not consumed. An exhausted input is a
      read that timed out. */
  function Run(ph: Phase, input: seq<Option<byte>>, s: Board, env: Env): (r: (Board, seq<Option<byte>>))
    ensures |r.1| <= |input| && (input != [] ==> |r.1| < |input|)
    decreases |input|
  {
    if input == [] then (Fail(s), [])
    else
      match Step(ph, input[0], s, env)
      case (s', None) => (s', input[1..])
      case (s', Some(ph')) => Run(ph', input[1..], s', env)
  }

  /** One call of the command handler. */
  function OnCommand(input: seq<Option<byte>>, s: Board, env: Env): (r: (Board, seq<Option<byte>>))
    ensures |r.1| <= |input| && (input != [] ==> |r.1| < |input|)
  {
    Run(AwaitBegin, input, s, env)
  }

  // ---------------------------------------------------------------------------
  // Properties of the handler

  /** A first byte that times out or is not the begin marker costs exactly that
      byte and one `Failed` reply, and changes nothing else. */
  lemma NoBeginMarker(input: seq<Option<byte>>, s: Board, env: Env)
    requires input == [] || input[0] != Some(CMD_BEGIN)
    ensures OnCommand(input, s, env) == (Fail(s), if input == [] then [] else input[1..])
  {
  }

  /** A begin marker where a command type or an argument is expected costs one
      byte and one `Failed` reply, and parsing resumes at the command type. */
  lemma BeginMarkerRestarts(ph: Phase, rest: seq<Option<byte>>, s: Board, env: Env)
    requires ph != AwaitBegin
    ensures Run(ph, [Some(CMD_BEGIN)] + rest, s, env) == Run(AwaitType, rest, Fail(s), env)
  {
    assert ([Some(CMD_BEGIN)] + rest)[1..] == rest;
  }

  /** `n` failed replies. */
  function Failures(n: nat): (b: seq<byte>)
    ensures |b| == n && forall i :: 0 <= i < n ==> b[i] == REPLY_TYPE_FAILED
  {
    if n == 0 then [] else [REPLY_TYPE_FAILED] + Failures(n - 1)
  }

  /** `s'` is `s` after some `Failed` replies and then exactly one more reply. */
  ghost predicate FailuresThenReply(s: Board, s': Board)
  {
    exists k: nat, r: Reply :: r.Valid() && s'.sent == s.sent + Failures(k) + EncodeReply(r)
  }

  /** Each call answers with some number of `Failed` replies for frames aborted
      by a begin marker, followed by exactly one final reply. */
  lemma {:induction false} OneFinalReply(ph: Phase, input: seq<Option<byte>>, s: Board, env: Env)
    ensures FailuresThenReply(s, Run(ph, input, s, env).0)
    decreases |input|
  {
    if input == [] {
      assert Run(ph, input, s, env).0.sent == s.sent + Failures(0) + EncodeReply(Failed);
    } else {
      var (s1, next) := Step(ph, input[0], s, env);
      if next.None? {
        LastStep(ph, input, s, env);
      } else {
        OneFinalReply(next.value, input[1..], s1, env);
        StepContinues(ph, input[0], s, env);
        assert Run(ph, input, s, env).0 == Run(next.value, input[1..], s1, env).0;
        PrependRestart(s, s1, Run(ph, input, s, env).0);
      }
    }
  }

  /** A step that ends the command leaves exactly its one reply. */
  lemma LastStep(ph: Phase, input: seq<Option<byte>>, s: Board, env: Env)
    requires input != [] && Step(ph, input[0], s, env).1.None?
    ensures FailuresThenReply(s, Run(ph, input, s, env).0)
  {
    var s1 := Step(ph, input[0], s, env).0;
    assert Run(ph, input, s, env).0 == s1;
    StepEmits(ph, input[0], s, env);
    var r: Reply :| r.Valid() && s1.sent == s.sent + EncodeReply(r);
    assert Failures(0) == [];
    assert s.sent + Failures(0) == s.sent;
  }

  /** Each call consumes at least one read outcome unless the input is already
      exhausted, so a stream of calls always makes progress. */
  lemma {:induction false} RunConsumes(ph: Phase, input: seq<Option<byte>>, s: Board, env: Env)
    ensures var rest := Run(ph, input, s, env).1;
      |rest| < |input| || input == rest == []
    ensures exists n :: 0 <= n <= |input| && Run(ph, input, s, env).1 == input[n..]
    decreases |input|
  {
    if input != [] {
      var (s1, next) := Step(ph, input[0], s, env);
      if next.None? {
        assert Run(ph, input, s, env).1 == input[1..];
      } else {
        RunConsumes(next.value, input[1..], s1, env);
        var n :| 0 <= n <= |input[1..]| && Run(next.value, input[1..], s1, env).1 == input[1..][n..];
        assert input[1..][n..] == input[n + 1..];
      }
    } else {
      assert Run(ph, input, s, env).1 == input[0..];
    }
  }

  /** Failed replies already sent before a restart join the ones after it. */
  lemma PrependRestart(s: Board, s1: Board, s2: Board)
    requires s1 == s || s1 == Fail(s)
    requires FailuresThenReply(s1, s2)
    ensures FailuresThenReply(s, s2)
  {
    var k: nat, r: Reply :| r.Valid() && s2.sent == s1.sent + Failures(k) + EncodeReply(r);
    if s1 == s {
      assert s2.sent == s.sent + Failures(k) + EncodeReply(r);
    } else {
      assert s1.sent == s.sent + [REPLY_TYPE_FAILED];
      assert s1.sent + Failures(k) == s.sent + Failures(k + 1) by {
        assert [REPLY_TYPE_FAILED] + Failures(k) == Failures(k + 1);
        assert s1.sent + Failures(k) == s.sent + ([REPLY_TYPE_FAILED] + Failures(k));
      }
      assert s2.sent == s.sent + Failures(k + 1) + EncodeReply(r);
    }
  }

  /** A step that ends the command emits exactly one reply. */
  lemma StepEmits(ph: Phase, b: Option<byte>, s: Board, env: Env)
    requires Step(ph, b, s, env).1.None?
    ensures exists r: Reply :: r.Valid() && Step(ph, b, s, env).0.sent == s.sent + EncodeReply(r)
  {
    var s1 := Step(ph, b, s, env).0;
    if ph == AwaitBegin && b == Some(CMD_BEGIN) {
      assert false;
    } else if ph == AwaitBegin {
      assert s1.sent == s.sent + EncodeReply(Failed);
    } else if b.None? || b.value == CMD_BEGIN {
      assert s1.sent == s.sent + EncodeReply(Failed);
    } else {
      var x := b.value;
      match ph
      case AwaitType =>
        if x == CMD_TYPE_GET_MODE {
          assert s1.sent == s.sent + EncodeReply(GetModeOk(s.mode));
        } else if x == CMD_TYPE_READ_CLOCK {
          assert s1.sent == s.sent + EncodeReply(ReadClockOk(env.bootTime));
        } else {
          assert s1.sent == s.sent + EncodeReply(Failed);
        }
      case AwaitMode =>
        if x <= FIRMWARE_MODE_TEST {
          assert s1.sent == s.sent + EncodeReply(SetModeOk);
        } else {
          assert s1.sent == s.sent + EncodeReply(Failed);
        }
      case AwaitReadPort =>
        if x > PORT_READ_SPEED_INPUT || s.mode != FIRMWARE_MODE_TEST {
          assert s1.sent == s.sent + EncodeReply(Failed);
        } else if x == PORT_READ_PWM_INPUT {
          assert s1.sent == s.sent + EncodeReply(ReadPortOk(Bit(env.pwmInput)));
        } else {
          assert s1.sent == s.sent + EncodeReply(ReadPortOk(Bit(env.speedInput)));
        }
      case AwaitValue(p) =>
        if x <= 1 && s.mode == FIRMWARE_MODE_TEST {
          assert s1.sent == s.sent + EncodeReply(WritePortOk);
        } else {
          assert s1.sent == s.sent + EncodeReply(Failed);
        }
      case AwaitWritePort =>
        assert s1.sent == s.sent + EncodeReply(Failed);
    }
  }

  /** A step that keeps the command going either emits nothing or, for a begin
      marker, one `Failed`; it never touches the mode or the pins. */
  lemma StepContinues(ph: Phase, b: Option<byte>, s: Board, env: Env)
    requires Step(ph, b, s, env).1.Some?
    ensures var s1 := Step(ph, b, s, env).0;
      s1 == s || s1 == Fail(s)
  {
  }

  // ---------------------------------------------------------------------------
  // The handler against the frame layout

  /** The read outcomes of a frame that arrives without timeouts. */
  function Arrives(bytes: seq<byte>): (input: seq<Option<byte>>)
    ensures |input| == |bytes|
  {
    seq(|bytes|, i requires 0 <= i < |bytes| => Some(bytes[i]))
  }

  /** What the firmware is meant to do with a well-formed command: the reference
      behaviour of each command type, stated on the decoded command. */
  function Respond(c: Command, s: Board, env: Env): (r: Board)
    ensures |r.sent| > |s.sent| && r.sent[..|s.sent|] == s.sent
  {
    match c
    case GetMode => Emit(s, GetModeOk(s.mode))
    case SetMode(m) => Emit(s.(mode := ModeCode(m)), SetModeOk)
    case ReadPort(p) =>
      if s.mode != FIRMWARE_MODE_TEST then Fail(s)
      else Emit(s, ReadPortOk(Bit(if p == PwmInput then env.pwmInput else env.speedInput)))
    case WritePort(p, v) =>
      if v > 1 || s.mode != FIRMWARE_MODE_TEST then Fail(s)
      else if p == SpeedOutput then Emit(s.(speedOutput := v == 1), WritePortOk)
      else Emit(s.(pwmOutput := v == 1), WritePortOk)
    case ReadClock => Emit(s, ReadClockOk(env.bootTime))
    case _ => Fail(s)
  }

  /** The bytes of a frame the handler leaves unread: the arguments of the
      commands it does not implement. */
  function Unread(c: Command): seq<byte>
    requires c.Valid()
  {
    match c
    case SetOutputSpeed(_) => Args(c)
    case SetOutputPwm(_) => Args(c)
    case WriteConfig(_) => Args(c)
    case _ => []
  }

  /** The handler answers every frame the host builds as `Respond` says, reads
      exactly the frame (less the arguments of unimplemented commands), and
      leaves the rest of the input for the next call. A WritePort value of 0xFF
      is a begin marker to the handler and is excluded. */
  lemma HandlesEncodedCommand(c: Command, rest: seq<Option<byte>>, s: Board, env: Env)
    requires c.Valid()
    requires c.WritePort? ==> c.value != CMD_BEGIN
    ensures OnCommand(Arrives(Encode(c)) + rest, s, env) == (Respond(c, s, env), Arrives(Unread(c)) + rest)
  {
    match c
    case SetMode(m) =>
      HandlesSetMode(m, rest, s, env);
      assert Arrives(Unread(c)) + rest == rest;
    case ReadPort(p) =>
      HandlesReadPort(p, rest, s, env);
      assert Arrives(Unread(c)) + rest == rest;
    case WritePort(p, v) =>
      HandlesWritePort(p, v, rest, s, env);
      assert Arrives(Unread(c)) + rest == rest;
    case _ =>
      HandlesHeaderOnly(c, rest, s, env);
  }

  /** The read outcomes of a frame followed by more input. */
  lemma ArrivesFrame(c: Command, rest: seq<Option<byte>>)
    requires c.Valid()
    ensures Arrives(Encode(c)) + rest == [Some(CMD_BEGIN), Some(TypeCode(c))] + (Arrives(Args(c)) + rest)
  {
    var header := [CMD_BEGIN, TypeCode(c)];
    assert Encode(c) == header + Args(c);
    ArrivesConcat(header, Args(c));
    assert Arrives(header) == [Some(CMD_BEGIN), Some(TypeCode(c))];
  }

  lemma ArrivesConcat(a: seq<byte>, b: seq<byte>)
    ensures Arrives(a + b) == Arrives(a) + Arrives(b)
  {
  }

  /** Commands decided by their type byte alone: GetMode, ReadClock and the
      unimplemented ones, whose arguments stay unread. */
  lemma HandlesHeaderOnly(c: Command, rest: seq<Option<byte>>, s: Board, env: Env)
    requires c.Valid() && !c.SetMode? && !c.ReadPort? && !c.WritePort?
    ensures OnCommand(Arrives(Encode(c)) + rest, s, env) == (Respond(c, s, env), Arrives(Unread(c)) + rest)
  {
    var tail := Arrives(Args(c)) + rest;
    var input := [Some(CMD_BEGIN)] + ([Some(TypeCode(c))] + tail);
    HeaderOnlyArrives(c, rest);
    assert input[1..] == [Some(TypeCode(c))] + tail;
    assert OnCommand(input, s, env) == Run(AwaitType, input[1..], s, env);
    TypeByteAnswers(c, tail, s, env);
  }

  lemma HeaderOnlyArrives(c: Command, rest: seq<Option<byte>>)
    requires c.Valid() && !c.SetMode? && !c.ReadPort? && !c.WritePort?
    ensures Arrives(Encode(c)) + rest == [Some(CMD_BEGIN)] + ([Some(TypeCode(c))] + (Arrives(Args(c)) + rest))
    ensures Arrives(Unread(c)) + rest == Arrives(Args(c)) + rest
  {
    ArrivesFrame(c, rest);
    UnreadIsArgs(c);
  }

  /** A command whose arguments the handler does not parse leaves all of them unread. */
  lemma UnreadIsArgs(c: Command)
    requires c.Valid() && !c.SetMode? && !c.ReadPort? && !c.WritePort?
    ensures Unread(c) == Args(c)
  {
  }

  /** The type byte of a command without parsed arguments decides it. */
  lemma TypeByteAnswers(c: Command, tail: seq<Option<byte>>, s: Board, env: Env)
    requires c.Valid() && !c.SetMode? && !c.ReadPort? && !c.WritePort?
    ensures Run(AwaitType, [Some(TypeCode(c))] + tail, s, env) == (Respond(c, s, env), tail)
  {
    var input := [Some(TypeCode(c))] + tail;
    assert input[0] == Some(TypeCode(c)) && input[1..] == tail;
  }

  lemma HandlesSetMode(m: FirmwareMode, rest: seq<Option<byte>>, s: Board, env: Env)
    ensures OnCommand(Arrives(Encode(SetMode(m))) + rest, s, env) == (Respond(SetMode(m), s, env), rest)
  {
    var input := [Some(CMD_BEGIN), Some(CMD_TYPE_SET_MODE)] + ([Some(ModeCode(m))] + rest);
    ArrivesFrame(SetMode(m), rest);
    assert Arrives(Args(SetMode(m))) == [Some(ModeCode(m))];
    assert Arrives(Encode(SetMode(m))) + rest == input;
    assert input[1..] == [Some(CMD_TYPE_SET_MODE), Some(ModeCode(m))] + rest;
    assert input[1..][1..] == [Some(ModeCode(m))] + rest;
    assert input[1..][1..][1..] == rest;
    assert OnCommand(input, s, env) == Run(AwaitType, input[1..], s, env);
    assert Run(AwaitType, input[1..], s, env) == Run(AwaitMode, input[1..][1..], s, env);
  }

  lemma HandlesReadPort(p: ReadablePort, rest: seq<Option<byte>>, s: Board, env: Env)
    ensures OnCommand(Arrives(Encode(ReadPort(p))) + rest, s, env) == (Respond(ReadPort(p), s, env), rest)
  {
    var code := ReadablePortCode(p);
    var input := [Some(CMD_BEGIN), Some(CMD_TYPE_READ_PORT)] + ([Some(code)] + rest);
    ArrivesFrame(ReadPort(p), rest);
    assert Arrives(Args(ReadPort(p))) == [Some(code)];
    assert Arrives(Encode(ReadPort(p))) + rest == input;
    assert input[1..] == [Some(CMD_TYPE_READ_PORT), Some(code)] + rest;
    assert input[1..][1..] == [Some(code)] + rest;
    assert input[1..][1..][1..] == rest;
    assert OnCommand(input, s, env) == Run(AwaitType, input[1..], s, env);
    assert Run(AwaitType, input[1..], s, env) == Run(AwaitReadPort, input[1..][1..], s, env);
  }

  lemma HandlesWritePort(p: WritablePort, v: byte, rest: seq<Option<byte>>, s: Board, env: Env)
    requires v != CMD_BEGIN
    ensures OnCommand(Arrives(Encode(WritePort(p, v))) + rest, s, env) == (Respond(WritePort(p, v), s, env), rest)
  {
    var code := WritablePortCode(p);
    var tail := [Some(CMD_TYPE_WRITE_PORT), Some(code), Some(v)] + rest;
    var input := [Some(CMD_BEGIN)] + tail;
    WritePortArrives(p, v, rest);
    assert input[1..] == tail;
    assert OnCommand(input, s, env) == Run(AwaitType, tail, s, env);
    WritePortArguments(code, v, rest, s, env);
  }

  lemma WritePortArrives(p: WritablePort, v: byte, rest: seq<Option<byte>>)
    ensures Arrives(Encode(WritePort(p, v))) + rest
         == [Some(CMD_BEGIN)] + ([Some(CMD_TYPE_WRITE_PORT), Some(WritablePortCode(p)), Some(v)] + rest)
  {
    var frame := [CMD_BEGIN, CMD_TYPE_WRITE_PORT, WritablePortCode(p), v];
    assert Encode(WritePort(p, v)) == frame;
    assert Arrives(frame) == [Some(CMD_BEGIN), Some(CMD_TYPE_WRITE_PORT), Some(WritablePortCode(p)), Some(v)];
  }

  /** The WritePort type byte, a port byte and a value byte, as the parser reads them. */
  lemma WritePortArguments(code: byte, v: byte, rest: seq<Option<byte>>, s: Board, env: Env)
    requires code <= PORT_WRITE_PWM_OUTPUT && v != CMD_BEGIN
    ensures Run(AwaitType, [Some(CMD_TYPE_WRITE_PORT), Some(code), Some(v)] + rest, s, env)
         == (if v <= 1 then WritePortReply(s, code, v) else Fail(s), rest)
  {
    var tail := [Some(CMD_TYPE_WRITE_PORT), Some(code), Some(v)] + rest;
    assert tail[1..] == [Some(code), Some(v)] + rest;
    assert tail[1..][1..] == [Some(v)] + rest;
    assert tail[1..][1..][1..] == rest;
    assert Run(AwaitType, tail, s, env) == Run(AwaitWritePort, tail[1..], s, env);
    assert Run(AwaitWritePort, tail[1..], s, env) == Run(AwaitValue(code), tail[1..][1..], s, env);
  }

  /** Only SetMode changes the mode and only WritePort changes a pin; every
      other command leaves the board as it was except for its reply. */
  lemma RespondSideEffects(c: Command, s: Board, env: Env)
    ensures Respond(c, s, env).mode != s.mode ==> c.SetMode?
    ensures Respond(c, s, env).speedOutput != s.speedOutput ==> c.WritePort? && c.writePort == SpeedOutput
    ensures Respond(c, s, env).pwmOutput != s.pwmOutput ==> c.WritePort? && c.writePort == PwmOutput
    ensures !c.SetMode? && (!c.WritePort? || s.mode != FIRMWARE_MODE_TEST) ==>
      Respond(c, s, env).(sent := s.sent) == s
  {
  }

  // The exchanges a host sees, starting in Normal mode.

  /** GetMode in Normal mode answers [0x01, 0x00]. */
  lemma ExchangeGetMode(s: Board, env: Env)
    requires s.mode == FIRMWARE_MODE_NORMAL
    ensures OnCommand(Arrives([0xFF, 0x00]), s, env) == (s.(sent := s.sent + [0x01, 0x00]), [])
  {
    var a := Arrives([0xFF, 0x00]);
    assert a[1..] == [Some(0x00)] && a[1..][1..] == [];
  }

  /** SetMode Test answers [0x01], and a following GetMode reports mode 0x02. */
  lemma ExchangeSetTestMode(s: Board, env: Env)
    ensures var s1 := OnCommand(Arrives([0xFF, 0x01, 0x02]), s, env).0;
      s1 == s.(mode := FIRMWARE_MODE_TEST, sent := s.sent + [0x01]) &&
      OnCommand(Arrives([0xFF, 0x00]), s1, env).0.sent == s1.sent + [0x01, 0x02]
  {
    var b := Arrives([0xFF, 0x01, 0x02]);
    assert b[1..] == [Some(0x01), Some(0x02)] && b[1..][1..] == [Some(0x02)];
    var a := Arrives([0xFF, 0x00]);
    assert a[1..] == [Some(0x00)];
  }

  /** ReadPort outside Test mode answers [0x00] and reads nothing. */
  lemma ExchangeReadPortRefused(s: Board, env: Env)
    requires s.mode == FIRMWARE_MODE_NORMAL
    ensures OnCommand(Arrives([0xFF, 0x10, 0x00]), s, env) == (s.(sent := s.sent + [0x00]), [])
  {
    var c := Arrives([0xFF, 0x10, 0x00]);
    assert c[1..] == [Some(0x10), Some(0x00)] && c[1..][1..] == [Some(0x00)];
    assert c[1..][1..][1..] == [];
  }

  /** An unknown command type answers [0x00]. */
  lemma ExchangeUnknownCommand(s: Board, env: Env)
    ensures OnCommand(Arrives([0xFF, 0x99]), s, env) == (s.(sent := s.sent + [0x00]), [])
  {
    var d := Arrives([0xFF, 0x99]);
    assert d[1..] == [Some(0x99)] && d[1..][1..] == [];
  }

  /** A stray begin marker before GetMode: one [0x00], then the GetMode answer. */
  lemma ExchangeStrayMarker(s: Board, env: Env)
    requires s.mode == FIRMWARE_MODE_NORMAL
    ensures OnCommand(Arrives([0xFF, 0xFF, 0x00]), s, env) == (s.(sent := s.sent + [0x00, 0x01, 0x00]), [])
  {
    var e := Arrives([0xFF, 0xFF, 0x00]);
    assert e[1..] == [Some(0xFF), Some(0x00)] && e[1..][1..] == [Some(0x00)];
    assert e[1..][1..][1..] == [];
    assert s.sent + [0x00] + [0x01, 0x00] == s.sent + [0x00, 0x01, 0x00];
  }

  /** A marker followed by a timeout answers [0x00]. */
  lemma ExchangeTimeout(s: Board, env: Env)
    ensures OnCommand([Some(0xFF), None], s, env) == (s.(sent := s.sent + [0x00]), [])
  {
    var g: seq<Option<byte>> := [Some(0xFF), None];
    assert g[1..] == [None] && g[1..][1..] == [];
  }
}
