/** The firmware's command handler as it runs: the output pins and the bytes
    written to the UART are fields changed in place, the mode lives in the
    clock module, and every step is proved to follow the parser of `Protocol`. */
module Serial {
  import opened Bytes
  import opened Optional
  import opened Wire
  import ClockIo
  import opened Protocol

  class Engine {
    /** The clock and mode state the handler reads and writes. */
    const clock: ClockIo.Clock
    /** The two output pins. */
    var speedOutput: bool
    var pwmOutput: bool
    /** Every byte written to the UART so far. */
    var sent: seq<byte>

    /** The part of the machine a command can change, as the parser sees it. */
    ghost function State(): Protocol.Board
      reads this, clock
    {
      Protocol.Board(clock.mode, speedOutput, pwmOutput, sent)
    }

    constructor(clock: ClockIo.Clock, speedOutput0: bool, pwmOutput0: bool)
      ensures this.clock == clock
      ensures speedOutput == speedOutput0 && pwmOutput == pwmOutput0 && sent == []
    {
      this.clock := clock;
      speedOutput, pwmOutput, sent := speedOutput0, pwmOutput0, [];
    }

    // -------------------------------------------------------------------------
    // The UART

    /** Sends one byte. */
    method WriteByte(b: byte)
      modifies this`sent
      ensures sent == old(sent) + [b]
    {
      sent := sent + [b];
    }

    /** Sends the bytes in order. */
    method WriteBytes(bytes: seq<byte>)
      modifies this`sent
      ensures sent == old(sent) + bytes
    {
      for i := 0 to |bytes|
        invariant sent == old(sent) + bytes[..i]
      {
        WriteByte(bytes[i]);
      }
      assert bytes[..|bytes|] == bytes;
    }

    /** Waits for one byte: each look at the receiver either finds a byte or
        reads the boot counter, and the wait gives up once more than the
        timeout has elapsed since the first reading, measured by wrapping
        32-bit subtraction. The readings taken while waiting are given by
        `polls`, since the timer interrupt advances the counter meanwhile. */
    method ReadByte(polls: seq<Poll>) returns (r: Option<byte>)
      requires Decisive(clock.bootTime, polls)
      modifies clock`timerEnabled
      ensures r == WaitFor(clock.bootTime, polls)
      ensures clock.timerEnabled
    {
      var begin := clock.BootTime();
      var i := 0;
      while true
        invariant i <= |polls| && Decisive(begin, polls[i..])
        invariant WaitFor(begin, polls[i..]) == WaitFor(begin, polls)
        invariant clock.timerEnabled
        decreases |polls| - i
      {
        if polls[i].received.Some? {
          return polls[i].received;
        }
        if Sub32(polls[i].now, begin) > READ_TIMEOUT {
          return None;
        }
        assert polls[i..][1..] == polls[i + 1..];
        i := i + 1;
      }
    }

    /** Takes the outcome of the next byte read: the next element of `input`,
        or a timeout once the input is exhausted. Each element stands for the
        value `ReadByte` returns, that is what `WaitFor` decides over that
        read's polls. Like every read it takes the boot time, which leaves the
        timer interrupt enabled. */
    method Receive(input: seq<Option<byte>>) returns (b: Option<byte>, rest: seq<Option<byte>>)
      modifies clock`timerEnabled
      ensures clock.timerEnabled
      ensures input == [] ==> b == None && rest == []
      ensures input != [] ==> b == input[0] && rest == input[1..]
    {
      var _ := clock.BootTime();
      if input == [] {
        b, rest := None, [];
      } else {
        b, rest := input[0], input[1..];
      }
    }

    // -------------------------------------------------------------------------
    // The commands

    method CmdGetMode()
      modifies this`sent
      ensures State() == GetModeReply(old(State()))
    {
      var m := clock.CurrentMode();
      WriteBytes(EncodeReply(GetModeOk(m)));
    }

    method CmdSetMode(m: byte)
      modifies this`sent, clock`mode
      ensures State() == SetModeReply(old(State()), m)
    {
      clock.SetCurrentMode(m);
      WriteBytes(EncodeReply(SetModeOk));
    }

    method CmdReadPort(port: byte, pwmInput: bool, speedInput: bool)
      requires port <= PORT_READ_SPEED_INPUT
      modifies this`sent
      ensures State() == ReadPortReply(old(State()), port, Env(pwmInput, speedInput, clock.bootTime))
    {
      var m := clock.CurrentMode();
      if m != FIRMWARE_MODE_TEST {
        WriteByte(REPLY_TYPE_FAILED);
        return;
      }
      var value: byte;
      if port == PORT_READ_PWM_INPUT {
        value := if pwmInput then 1 else 0;
      } else {
        value := if speedInput then 1 else 0;
      }
      WriteBytes(EncodeReply(ReadPortOk(value)));
    }

    method CmdWritePort(port: byte, value: byte)
      modifies this`sent, this`speedOutput, this`pwmOutput
      ensures State() == WritePortReply(old(State()), port, value)
    {
      var m := clock.CurrentMode();
      if m != FIRMWARE_MODE_TEST {
        WriteByte(REPLY_TYPE_FAILED);
        return;
      }
      if port == PORT_WRITE_SPEED_OUTPUT {
        speedOutput := value != 0;
      } else if port == PORT_WRITE_PWM_OUTPUT {
        pwmOutput := value != 0;
      }
      WriteBytes(EncodeReply(WritePortOk));
    }

    method CmdReadClock()
      modifies this`sent, clock`timerEnabled
      ensures State() == Emit(old(State()), ReadClockOk(clock.bootTime))
      ensures clock.timerEnabled
    {
      var t := clock.BootTime();
      WriteBytes(EncodeReply(ReadClockOk(t)));
    }

    // -------------------------------------------------------------------------
    // The parser: one method per label of the handler

    /** Reads and applies the SetMode argument. `restart` is set when the
        argument was a begin marker, after which the command type is read next. */
    method ParseSetMode(input: seq<Option<byte>>, ghost env: Env) returns (rest: seq<Option<byte>>, restart: bool)
      modifies this`sent, clock`mode, clock`timerEnabled
      ensures clock.timerEnabled
      ensures restart ==> |rest| < |input|
      ensures Run(AwaitMode, input, old(State()), env)
           == if restart then Run(AwaitType, rest, State(), env) else (State(), rest)
    {
      var b;
      b, rest := Receive(input);
      restart := false;
      if b == None {
        WriteByte(REPLY_TYPE_FAILED);
      } else if b.value == CMD_BEGIN {
        WriteByte(REPLY_TYPE_FAILED);
        restart := true;
      } else if b.value <= FIRMWARE_MODE_TEST {
        CmdSetMode(b.value);
      } else {
        WriteByte(REPLY_TYPE_FAILED);
      }
    }

    /** Reads the ReadPort argument and answers it. */
    method ParseReadPort(input: seq<Option<byte>>, pwmInput: bool, speedInput: bool)
      returns (rest: seq<Option<byte>>, restart: bool)
      modifies this`sent, clock`timerEnabled
      ensures clock.timerEnabled
      ensures restart ==> |rest| < |input|
      ensures Run(AwaitReadPort, input, old(State()), Env(pwmInput, speedInput, clock.bootTime))
           == if restart then Run(AwaitType, rest, State(), Env(pwmInput, speedInput, clock.bootTime))
              else (State(), rest)
    {
      var b;
      b, rest := Receive(input);
      restart := false;
      if b == None {
        WriteByte(REPLY_TYPE_FAILED);
      } else if b.value == CMD_BEGIN {
        WriteByte(REPLY_TYPE_FAILED);
        restart := true;
      } else if b.value <= PORT_READ_SPEED_INPUT {
        CmdReadPort(b.value, pwmInput, speedInput);
      } else {
        WriteByte(REPLY_TYPE_FAILED);
      }
    }

    /** Reads the WritePort port and value and applies them. */
    method ParseWritePort(input: seq<Option<byte>>, ghost env: Env) returns (rest: seq<Option<byte>>, restart: bool)
      modifies this`sent, this`speedOutput, this`pwmOutput, clock`timerEnabled
      ensures clock.timerEnabled
      ensures restart ==> |rest| < |input|
      ensures Run(AwaitWritePort, input, old(State()), env)
           == if restart then Run(AwaitType, rest, State(), env) else (State(), rest)
    {
      var port;
      rest, restart := input, false;
      port, rest := Receive(rest);
      if port == None {
        WriteByte(REPLY_TYPE_FAILED);
        return;
      } else if port.value == CMD_BEGIN {
        WriteByte(REPLY_TYPE_FAILED);
        restart := true;
        return;
      } else if port.value > PORT_WRITE_PWM_OUTPUT {
        WriteByte(REPLY_TYPE_FAILED);
        return;
      }
      ghost var afterPort := rest;
      assert Run(AwaitWritePort, input, State(), env) == Run(AwaitValue(port.value), afterPort, State(), env);
      var value;
      value, rest := Receive(rest);
      if value == None {
        WriteByte(REPLY_TYPE_FAILED);
      } else if value.value == CMD_BEGIN {
        WriteByte(REPLY_TYPE_FAILED);
        restart := true;
      } else if value.value <= 1 {
        CmdWritePort(port.value, value.value);
      } else {
        WriteByte(REPLY_TYPE_FAILED);
      }
    }

    /** Handles one command from the read outcomes `input` and returns the
        outcomes it did not consume; input and output pins are the values read
        from the port during the call. The whole effect is the one the parser
        of `Protocol` prescribes. */
    method OnCommand(input: seq<Option<byte>>, pwmInput: bool, speedInput: bool) returns (rest: seq<Option<byte>>)
      modifies this`speedOutput, this`pwmOutput, this`sent, clock`mode, clock`timerEnabled
      ensures (State(), rest)
           == Protocol.OnCommand(input, old(State()), Env(pwmInput, speedInput, clock.bootTime))
      ensures clock.timerEnabled
    {
      ghost var env := Env(pwmInput, speedInput, clock.bootTime);
      var b;
      b, rest := Receive(input);
      if b == None || b.value != CMD_BEGIN {
        WriteByte(REPLY_TYPE_FAILED);
        return;
      }
      while true
        invariant Protocol.OnCommand(input, old(State()), env) == Run(AwaitType, rest, State(), env)
        invariant clock.timerEnabled
        decreases |rest|
      {
        ghost var before, s := rest, State();
        b, rest := Receive(rest);
        if b == None {
          WriteByte(REPLY_TYPE_FAILED);
          return;
        }
        var x := b.value;
        if x == CMD_BEGIN {
          WriteByte(REPLY_TYPE_FAILED);
          continue;
        }
        var restart := false;
        if x == CMD_TYPE_GET_MODE {
          CmdGetMode();
        } else if x == CMD_TYPE_SET_MODE {
          assert Run(AwaitType, before, s, env) == Run(AwaitMode, rest, s, env);
          rest, restart := ParseSetMode(rest, env);
        } else if x == CMD_TYPE_READ_PORT {
          assert Run(AwaitType, before, s, env) == Run(AwaitReadPort, rest, s, env);
          rest, restart := ParseReadPort(rest, pwmInput, speedInput);
        } else if x == CMD_TYPE_WRITE_PORT {
          assert Run(AwaitType, before, s, env) == Run(AwaitWritePort, rest, s, env);
          rest, restart := ParseWritePort(rest, env);
        } else if x == CMD_TYPE_READ_CLOCK {
          CmdReadClock();
        } else {
          WriteByte(REPLY_TYPE_FAILED);
        }
        if !restart {
          return;
        }
      }
    }
  }
}
