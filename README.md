# Fan-controller firmware core, modelled in Dafny

The system is a fan-speed controller: firmware on an 8051-class MCU plus a
host tool that talks to it over a serial line. This project models the
firmware's core and one host helper:

- **The record store** (`firmware/source/eeprom.c`). It is a wear-levelling
  store for one configuration record in the 4 KiB on-chip data flash. Slot 0
  holds the Record Allocation Table (RAT): 16 group bytes, each counting its
  taken 32-byte slots as a run of cleared low bits, then an `err` byte. Every
  write goes to a fresh slot. Once the table is full, the flash is formatted
  and the log starts over at slot 1.
  - `Rat` models the table as a value.
  - `StoreSpec` models each store operation as a state transformer over the
    flash image, the RAM copy of the table and the count of controller
    commands issued. Programming a byte ANDs it into flash, an erase sets a
    page to 0xFF, and a fault oracle decides which controller command fails.
  - `EepromStore.Eeprom` is the imperative store. It holds the flash and the
    table in arrays. Each of its methods is proved to compute exactly its
    `StoreSpec` function.
  - `StoreProps` proves what the store guarantees: format, allocation and
    read-back, the health invariant, the wrap-around cycle, init and the
    corruption path.
- **The configuration record** (`firmware/include/eeprom.h`), in `Record`.
- **The serial command handler** (`firmware/source/serial.c`).
  - `Protocol` states the handler as a finite-state machine over the
    outcomes of successive byte reads. `None` stands for a read that timed
    out.
  - `Serial.Engine` is the handler as the firmware runs it: pins and
    transmitted bytes are fields changed in place. Every method is proved to
    follow the state machine.
- **The clock and mode state** (`firmware/source/clock_io.c`), in
  `ClockIo.Clock`.
- **The wire format** shared with the host (`include/command.h`), in `Wire`.
  It covers command, mode, port and reply codes, and the byte layout of
  every frame.
- **The host's byte-order helpers** (`host/include/utils/utils.h`), in
  `Utils`. The swap loop works in place on an array.

The `StoreSpec` functions (`Format`, `GetReadAddr`, `AllocateWriteAddr`,
`ReadRecord`, `WriteRecord`, `Init`) are the reference definitions. Their own
contracts keep the store well-formed and tie each failure outcome to the
table decision behind it. The rest of what they do is stated by the
`EepromStore.Eeprom` methods that follow them and by the `StoreProps` lemmas
named in their rows. The same holds for the `Protocol` functions `WaitFor`,
`Step`, `Run`, `OnCommand` and `Respond`: their own contracts are small, and
their rows name the lemmas that say what they mean.

## Model

| member | source | states |
|---|---|---|
| Bytes.And | firmware/source/eeprom.c:60-76 | The programmed byte is numerically at most each operand; its meaning is stated by Bytes.AndSubmask |
| Bytes.AndSubmask | firmware/source/eeprom.c:60-76 | Programming a flash byte can only clear bits: the result is a sub-mask of both the old byte and the new one |
| Bytes.AndAllOnes | firmware/source/eeprom.c:60-76 | Programming onto an erased (0xFF) byte stores exactly the new value |
| Bytes.AndIdempotent | firmware/source/eeprom.c:60-76 | Programming a byte with its own value leaves it unchanged |
| Bytes.Int8 | firmware/source/eeprom.c:96 | The `(int8_t)` cast of a byte count lies in -128..127 and agrees with the count modulo 256 |
| Bytes.ToUint16 | firmware/source/eeprom.c:216-239 | Truncation to `uint16_t` agrees with its argument modulo 2^16 and is the identity in range |
| Bytes.Sub32 | firmware/source/serial.c:47 | Unsigned 32-bit subtraction: the difference, plus 2^32 when it would go negative |
| Bytes.Add32 | firmware/source/clock_io.c:63 | Unsigned 32-bit addition: the sum, less 2^32 when it overflows |
| Bytes.LE16RoundTrip | include/command.h:113-119 | Decoding the little-endian bytes of a 16-bit field gives the value back |
| Bytes.FromLE16RoundTrip | include/command.h:113-119 | Any two bytes are the little-endian image of the 16-bit value they decode to |
| Bytes.LE32RoundTrip | include/command.h:329-332 | Decoding the little-endian bytes of a 32-bit field gives the value back |
| Bytes.FromLE32RoundTrip | include/command.h:329-332 | Any four bytes are the little-endian image of the 32-bit value they decode to |
| ClockIo.BootTimeAfter | firmware/source/clock_io.c:60-64 | After n timer ticks the boot counter is 17·n mod 2^32 |
| ClockIo.PulseCountAfter | firmware/source/clock_io.c:116-119 | After n edges the pulse counter is n mod 2^16 |
| ClockIo.Clock.constructor | firmware/source/clock_io.c:6-11 | Power-on state: boot time 0, mode Normal, pulse count 0 |
| ClockIo.Clock.BootTime | firmware/source/clock_io.c:49-55 | Returns the boot counter unchanged and leaves the timer interrupt enabled |
| ClockIo.Clock.TimerTick | firmware/source/clock_io.c:60-64 | Adds 17 µs with 32-bit wrap, keeping the counter equal to BootTimeAfter(ticks) |
| ClockIo.Clock.CurrentMode | firmware/source/clock_io.c:100-103 | Returns the stored mode |
| ClockIo.Clock.SetCurrentMode | firmware/source/clock_io.c:108-111 | Stores any byte as the mode |
| ClockIo.Clock.Int1Edge | firmware/source/clock_io.c:116-119 | Adds one to the pulse counter with 16-bit wrap, keeping it equal to PulseCountAfter(edges) |
| ClockIo.BootTimeMonotone | firmware/source/clock_io.c:60-64 | Before the first wrap the boot counter is 17·n and never decreases |
| ClockIo.BootTimeWraps | firmware/source/clock_io.c:60-64 | The counter reaches 0xFFFFFFFF and the next tick wraps it to 16, so it does decrease once |
| ClockIo.ElapsedAcrossWrap | firmware/source/serial.c:47 | Wrapping subtraction of two counter readings gives the true elapsed time, even across a wrap |
| Record.Serialize | firmware/include/eeprom.h:10-17 | The record image is 28 bytes, under the 32-byte slot: the map, then each speed little-endian |
| Record.Parse | firmware/include/eeprom.h:10-14 | Any 28 bytes read back give a well-formed record |
| Record.ParseSerialize | firmware/include/eeprom.h:10-14 | Parsing a serialised record gives the record back |
| Record.SerializeParse | firmware/include/eeprom.h:10-14 | Serialising a parsed image gives the bytes back |
| Record.DefaultRecord | firmware/source/eeprom.c:369-377 | The record init stores: every map entry 100, both full speeds 1000 |
| Wire.ModeCode | include/command.h:25-27 | Each firmware mode has its own code (0, 1, 2), none of them the begin marker |
| Wire.ModeOf | include/command.h:25-27 | A byte names a mode exactly when it is at most 2, and then it is that mode's code |
| Wire.ReadablePortCode | include/command.h:34-35 | Each readable port has its own code, none of them the begin marker |
| Wire.ReadablePortOf | include/command.h:34-35 | A byte names a readable port exactly when it is at most 1 |
| Wire.WritablePortCode | include/command.h:36-37 | Each writable port has its own code, none of them the begin marker |
| Wire.WritablePortOf | include/command.h:36-37 | A byte names a writable port exactly when it is at most 1 |
| Wire.EnumCodesRoundTrip | include/command.h:78-98 | Decoding the code of a mode or port gives it back |
| Wire.EncodeSpeedMap | include/command.h:115-118 | Four bytes per speed pair |
| Wire.DecodeSpeedMap | include/command.h:115-118 | One speed pair per four bytes |
| Wire.SpeedMapRoundTrip | include/command.h:115-118 | Decoding an encoded speed map gives it back |
| Wire.SpeedMapBytesRoundTrip | include/command.h:115-118 | Encoding a decoded speed map gives the bytes back |
| Wire.EncodeConfig | include/command.h:113-119 | A configuration is 50 bytes, the duty map first |
| Wire.DecodeConfig | include/command.h:113-119 | Any 50 bytes give a well-formed configuration whose duty map is the first 10 bytes |
| Wire.ConfigRoundTrip | include/command.h:113-119 | Decoding an encoded configuration gives it back |
| Wire.ConfigBytesRoundTrip | include/command.h:113-119 | Encoding a decoded configuration gives the bytes back |
| Wire.TypeCode | include/command.h:17-52 | Every command has one of the eleven type codes, never the begin marker |
| Wire.Args | include/command.h:133-227 | The argument bytes of a command have the width its type fixes |
| Wire.Encode | include/command.h:121-227 | A frame is the begin marker, the type byte, then the arguments |
| Wire.Decode | include/command.h:121-227 | A frame that decodes has exactly the length its type fixes |
| Wire.CommandRoundTrip | include/command.h:121-227 | Decoding an encoded command gives it back |
| Wire.FrameRoundTrip | include/command.h:121-227 | Any frame that decodes is the encoding of its command |
| Wire.EncodeReply | include/command.h:229-332 | A Failed reply is the single byte 0x00; every other reply starts with 0x01 |
| Wire.ReplySize | include/command.h:229-332 | A success reply is one header byte plus the payload its command type fixes |
| Wire.DecodeReply | include/command.h:229-332 | A decoded reply is well-formed and answers the command type it was read for |
| Wire.ReplyRoundTrip | include/command.h:229-332 | Decoding an encoded reply for its command type gives it back |
| Wire.ReplyBytesRoundTrip | include/command.h:229-332 | Any reply bytes that decode are the encoding of their reply |
| Protocol.WaitFor | firmware/source/serial.c:41-58 | A byte it returns was seen by one of the polls; Protocol.WaitForFirstVerdict and Serial.Engine.ReadByte state which poll decides |
| Protocol.Step | firmware/source/serial.c:217-427 | A timeout fails the command and the machine never steps back to waiting for the begin marker; Protocol.StepEmits and Protocol.StepContinues state the replies |
| Protocol.Run | firmware/source/serial.c:217-427 | Consumes at least one outcome unless the input is exhausted; Protocol.RunConsumes, Protocol.OneFinalReply and Protocol.BeginMarkerRestarts give the rest |
| Protocol.OnCommand | firmware/source/serial.c:217-427 | Consumes at least one outcome unless the input is exhausted; Protocol.HandlesEncodedCommand, Protocol.NoBeginMarker and Serial.Engine.OnCommand state its behaviour |
| Protocol.Respond | firmware/source/serial.c:101-212 | Appends a reply to what was sent; Protocol.HandlesEncodedCommand and Protocol.RespondSideEffects state which reply and which side effect |
| Protocol.WaitForFirstVerdict | firmware/source/serial.c:41-58 | A byte read ends at the first look that sees a byte (returned) or a reading more than 100 ms after the start (timeout) |
| Protocol.NoBeginMarker | firmware/source/serial.c:221-230 | A first byte that is missing or not 0xFF is answered with one Failed and nothing else |
| Protocol.BeginMarkerRestarts | firmware/source/serial.c:241-244 | A begin marker where a type or argument byte is expected is answered with Failed, and parsing restarts at the type byte |
| Protocol.OneFinalReply | firmware/source/serial.c:217-427 | One call answers with some Failed replies for aborted frames, then exactly one final reply |
| Protocol.RunConsumes | firmware/source/serial.c:217-427 | A call consumes a prefix of the input, at least one outcome unless the input is exhausted |
| Protocol.StepEmits | firmware/source/serial.c:217-427 | A step that ends the command appends exactly one well-formed reply |
| Protocol.StepContinues | firmware/source/serial.c:241-244 | A step that keeps parsing emits nothing or one Failed and changes nothing else |
| Protocol.HandlesEncodedCommand | firmware/source/serial.c:217-427 | Every frame the host builds is answered as the command's reference behaviour says, and the rest of the input is left for the next call |
| Protocol.HandlesHeaderOnly | firmware/source/serial.c:289-292 | Commands without parsed arguments are answered from the type byte alone |
| Protocol.HandlesSetMode | firmware/source/serial.c:294-320 | A SetMode frame stores the mode and answers success |
| Protocol.HandlesReadPort | firmware/source/serial.c:322-347 | A ReadPort frame answers the pin level in Test mode and Failed otherwise |
| Protocol.HandlesWritePort | firmware/source/serial.c:349-401 | A WritePort frame sets the pin in Test mode for values 0 and 1, and fails otherwise |
| Protocol.TypeByteAnswers | firmware/source/serial.c:240-292 | The type byte of an argument-less command leads straight to its reply |
| Protocol.WritePortArguments | firmware/source/serial.c:349-401 | The WritePort port and value bytes are read in that order and a value above 1 fails |
| Protocol.RespondSideEffects | firmware/source/serial.c:101-212 | Only SetMode changes the mode and only WritePort changes a pin; other commands only reply |
| Protocol.ExchangeGetMode | firmware/source/serial.c:289-292 | [FF 00] in Normal mode answers [01 00] |
| Protocol.ExchangeSetTestMode | firmware/source/serial.c:294-320 | [FF 01 02] answers [01], and the next GetMode reports mode 02 |
| Protocol.ExchangeReadPortRefused | firmware/source/serial.c:127-133 | [FF 10 00] outside Test mode answers [00] |
| Protocol.ExchangeUnknownCommand | firmware/source/serial.c:282-285 | An unknown type answers [00] |
| Protocol.ExchangeStrayMarker | firmware/source/serial.c:241-244 | [FF FF 00] answers [00] for the stray marker, then the GetMode reply |
| Protocol.ExchangeTimeout | firmware/source/serial.c:232-237 | A marker followed by a timeout answers [00] |
| Serial.Engine.WriteByte | firmware/source/serial.c:65-80 | Appends the byte to what was transmitted |
| Serial.Engine.WriteBytes | firmware/source/serial.c:88-96 | Appends the bytes in order |
| Serial.Engine.ReadByte | firmware/source/serial.c:41-58 | The polling loop returns what WaitFor prescribes and leaves the timer interrupt enabled |
| Serial.Engine.Receive | firmware/source/serial.c:41-58 | Takes the next read outcome, or a timeout when the input is exhausted |
| Serial.Engine.CmdGetMode | firmware/source/serial.c:101-107 | Transmits success and the current mode |
| Serial.Engine.CmdSetMode | firmware/source/serial.c:114-120 | Stores the mode, then transmits success |
| Serial.Engine.CmdReadPort | firmware/source/serial.c:127-149 | Outside Test mode transmits Failed; in Test mode transmits success and the input pin as 0 or 1 |
| Serial.Engine.CmdWritePort | firmware/source/serial.c:157-179 | Outside Test mode transmits Failed; in Test mode sets the named pin to value ≠ 0 and transmits success |
| Serial.Engine.CmdReadClock | firmware/source/serial.c:204-212 | Transmits success and the boot time, little-endian |
| Serial.Engine.ParseSetMode | firmware/source/serial.c:294-320 | Follows the parser state for the SetMode argument, including restart on a marker |
| Serial.Engine.ParseReadPort | firmware/source/serial.c:322-347 | Follows the parser state for the ReadPort argument |
| Serial.Engine.ParseWritePort | firmware/source/serial.c:349-401 | Follows the parser states for the WritePort port and value |
| Serial.Engine.OnCommand | firmware/source/serial.c:217-427 | The whole handler, with its goto-driven restarts, leaves the board and the remaining input exactly as Protocol.OnCommand says |
| Rat.SlotsUsed | firmware/source/eeprom.c:216-239 | A group byte is legal exactly when it is one of the nine patterns, and then it decodes to the count of that pattern |
| Rat.FirstOpen | firmware/source/eeprom.c:205-210 | The scan stops at the first group byte that is not 0x00 |
| Rat.FirstOpenIs | firmware/source/eeprom.c:205-210 | That index is the only one with all earlier bytes 0x00 and a non-zero byte there |
| Rat.TablePatternAt | firmware/source/eeprom.c:7-10 | Group i of the table of n taken slots holds the pattern of its share of n |
| Rat.TableShape | firmware/source/eeprom.c:7-10 | The table of n slots is full groups 0x00, one partial group, then 0xFF groups |
| Rat.FirstOpenTable | firmware/source/eeprom.c:205-210 | The scan finds group n / 8 |
| Rat.Decode | firmware/source/eeprom.c:203-247 | Counts taken slots: at most 128, and corrupt (None) exactly when the first open group holds an illegal byte; its values are pinned by Rat.DecodeTable and Rat.SlotsUsedPattern |
| Rat.ReadAddr | firmware/source/eeprom.c:203-247 | Fails exactly when the table is corrupt, and otherwise gives the address of the last taken slot; Rat.ReadTable gives its values |
| Rat.Allocate | firmware/source/eeprom.c:252-350 | Corrupt exactly when the decode is, wraps exactly when all 128 slots are taken, and otherwise hands out the first free slot's address with a 16-group table; Rat.AllocateTable and Rat.AllocateClearsOneBit give the new table |
| Rat.DecodeTable | firmware/source/eeprom.c:203-247 | The table of n slots decodes to n |
| Rat.TableNotCorrupt | firmware/source/eeprom.c:241-245 | No table the store itself writes is seen as corrupt |
| Rat.CorruptionDetected | firmware/source/eeprom.c:241-245 | The read lookup and the allocator agree on which tables are corrupt: exactly those whose first open group holds an illegal byte |
| Rat.CorruptionBehindScanUndetected | firmware/source/eeprom.c:205-245 | A broken byte after the first open group passes unnoticed |
| Rat.TableStep | firmware/source/eeprom.c:271-342 | Writing the next pattern into the open group turns the table of n into the table of n + 1 |
| Rat.AllocateTable | firmware/source/eeprom.c:252-350 | Allocating from n < 128 gives slot n and the table of n + 1; at 128 it wraps |
| Rat.SlotsUsedPattern | firmware/source/eeprom.c:216-239 | Each pattern decodes to its own count |
| Rat.ReadTable | firmware/source/eeprom.c:203-247 | The read lookup on the table of n gives slot n - 1, and 0xFFE0 for the empty table |
| Rat.ReadAfterAllocate | firmware/source/eeprom.c:203-350 | After an allocation the read lookup returns the slot just allocated |
| Rat.AllocateClearsOneBit | firmware/source/eeprom.c:271-342 | An allocation clears exactly one bit of one group byte, so the flash can be programmed without an erase |
| Rat.PatternStep | firmware/source/eeprom.c:271-342 | Each successive pattern clears one more bit and is a sub-mask of the previous one |
| Rat.PatternsArePowers | firmware/source/eeprom.c:271-342 | The pattern of k taken slots is 256 - 2^k |
| StoreSpec.Leading | firmware/source/eeprom.c:152-183 | The number of commands that succeed before the first failure |
| StoreSpec.Completed | firmware/source/eeprom.c:87-119 | A byte loop completes k bytes: all k succeeded, and byte k failed or lay outside the flash |
| StoreSpec.ProgramOnlyClears | firmware/source/eeprom.c:109-119 | After programming, every flash byte is a sub-mask of the byte it replaced: only an erase can set a bit again |
| StoreSpec.ProgramStep | firmware/source/eeprom.c:109-119 | Programming one more byte of the loop extends the programmed prefix by that byte |
| StoreSpec.ErasePagesStep | firmware/source/eeprom.c:152-183 | Erasing the pages one after another in order erases a growing prefix of the flash |
| StoreSpec.ReadBytes | firmware/source/eeprom.c:87-97 | A read changes only the command count and returns a buffer of the same size |
| StoreSpec.WriteBytes | firmware/source/eeprom.c:109-119 | A write never changes the RAM table |
| StoreSpec.FormattedRat | firmware/source/eeprom.c:185-190 | The table a format builds is 17 bytes |
| StoreSpec.Format | firmware/source/eeprom.c:150-198 | Returns 0 or -1, and on 0 the RAM table is the formatted one; StoreProps.FormatHealthy and StoreProps.FormatEraseFailure state the flash it leaves |
| StoreSpec.GetReadAddr | firmware/source/eeprom.c:203-247 | Reboots exactly when the table is corrupt and otherwise changes nothing; Rat.ReadTable and StoreProps.ReadAfterAllocateStore give the address |
| StoreSpec.AllocateWriteAddr | firmware/source/eeprom.c:252-350 | Reboots exactly when the table is corrupt; outside a wrap it returns the next slot's address or 0xFFFF when the table write failed; StoreProps.AllocateHealthy, StoreProps.AllocationsHealthy and StoreProps.FreshCycle give the sequence of addresses |
| StoreSpec.WriteRecord | firmware/source/eeprom.c:393-397 | Reboots exactly when the allocation finds the table corrupt; StoreProps.WriteRecordHealthy and StoreProps.RecordRoundTrip state what lands in flash |
| StoreSpec.ReadRecord | firmware/source/eeprom.c:384-388 | Reboots exactly when the table is corrupt; StoreProps.ReadRecordInSync and StoreProps.RecordRoundTrip state what is read |
| StoreSpec.NeedsFormat | firmware/source/eeprom.c:365 | Init reformats exactly when the table's own slot is not marked taken or the corruption flag is set |
| StoreSpec.Init | firmware/source/eeprom.c:355-379 | Its own contract keeps the store well-formed; StoreProps.InitFormats, StoreProps.InitReadFailure and StoreProps.InitRestoresTable state its three paths |
| StoreSpec.MarkCorrupt | firmware/source/eeprom.c:241-245 | The corruption path always ends in a reboot |
| EepromStore.Eeprom.constructor | firmware/source/eeprom.c:24 | Power-up: the flash keeps its image and the RAM table is zeroed |
| EepromStore.Eeprom.ReadByte | firmware/source/eeprom.c:34-50 | One command; succeeds exactly when it does not fault and the address is in the flash, and then returns the byte |
| EepromStore.Eeprom.WriteByte | firmware/source/eeprom.c:60-76 | One command; on success the byte becomes the AND of old and new, and otherwise the flash is unchanged |
| EepromStore.Eeprom.Erase | firmware/source/eeprom.c:128-143 | One command; on success the page holding the address is erased |
| EepromStore.Eeprom.ReadBytes | firmware/source/eeprom.c:87-97 | The byte loop computes exactly StoreSpec.ReadBytes, stopping at the first failure |
| EepromStore.Eeprom.WriteBytes | firmware/source/eeprom.c:109-119 | The byte loop computes exactly StoreSpec.WriteBytes, stopping at the first failure |
| EepromStore.Eeprom.EraseAll | firmware/source/eeprom.c:152-183 | Erases pages 0 to 7 in order, giving up at the first failure |
| EepromStore.Eeprom.Format | firmware/source/eeprom.c:150-198 | Computes exactly StoreSpec.Format |
| EepromStore.Eeprom.FindOpenGroup | firmware/source/eeprom.c:205-210 | Returns the first group index whose byte is not 0x00 |
| EepromStore.Eeprom.GetReadAddr | firmware/source/eeprom.c:203-247 | Computes exactly StoreSpec.GetReadAddr |
| EepromStore.Eeprom.Rewind | firmware/source/eeprom.c:261-269 | Format (result ignored), mark slot 1 taken, write the table, return 32 or 0xFFFF |
| EepromStore.Eeprom.AllocateWriteAddr | firmware/source/eeprom.c:252-350 | Computes exactly StoreSpec.AllocateWriteAddr |
| EepromStore.Eeprom.ReadRecord | firmware/source/eeprom.c:384-388 | Computes exactly StoreSpec.ReadRecord |
| EepromStore.Eeprom.WriteRecord | firmware/source/eeprom.c:393-397 | Computes exactly StoreSpec.WriteRecord |
| EepromStore.Eeprom.Init | firmware/source/eeprom.c:355-379 | Computes exactly StoreSpec.Init |
| StoreProps.WriteBytesResult | firmware/source/eeprom.c:109-119 | A multi-byte write returns its size exactly when every command succeeded in range, and -1 otherwise; bytes outside the range are untouched |
| StoreProps.WriteOntoErased | firmware/source/eeprom.c:109-119 | A fault-free write onto erased flash stores exactly the data |
| StoreProps.ReadBack | firmware/source/eeprom.c:87-97 | A fault-free read copies the flash bytes into the buffer and leaves the rest of the buffer alone |
| StoreProps.WriteToFailedAddress | firmware/source/eeprom.c:393-397 | Writing a record to the failed-allocation address 0xFFFF fails at once and leaves the flash alone |
| StoreProps.FormatHealthy | firmware/source/eeprom.c:150-198 | A fault-free format erases everything, stores [FE FF … FF 00] and leaves a healthy store with one slot taken |
| StoreProps.FormatEraseFailure | firmware/source/eeprom.c:152-183 | A format that fails at an erase returns -1 with the leading pages erased and the RAM table as it was |
| StoreProps.ProgramOverSubmask | firmware/source/eeprom.c:271-342 | Programming bytes that only clear bits of what flash holds stores them exactly |
| StoreProps.StoreNextTable | firmware/source/eeprom.c:271-342 | Writing the advanced table over a healthy store keeps flash and RAM in sync |
| StoreProps.StoreTableAfterFormat | firmware/source/eeprom.c:261-269 | The table write after a wrap's format leaves two slots taken and in sync |
| StoreProps.AllocateHealthy | firmware/source/eeprom.c:252-350 | A fault-free allocation in a healthy store returns the next erased slot and keeps the store in sync |
| StoreProps.ReadAfterAllocateStore | firmware/source/eeprom.c:203-350 | Whatever the faults, after an allocation the read lookup returns the slot the allocation chose |
| StoreProps.ReadAfterWrap | firmware/source/eeprom.c:261-269 | After a wrap, whether or not the format's erases succeeded, the read lookup returns slot 1 |
| StoreProps.WriteRecordHealthy | firmware/source/eeprom.c:393-397 | A fault-free record write puts the record in the new slot and keeps the store healthy |
| StoreProps.ReadRecordInSync | firmware/source/eeprom.c:384-388 | A fault-free record read copies the latest slot |
| StoreProps.RecordRoundTrip | firmware/source/eeprom.c:384-397 | Writing a record then reading it back gives the same record |
| StoreProps.AllocationsHealthy | firmware/source/eeprom.c:252-350 | Any number of fault-free allocations return the predicted addresses and keep the store healthy |
| StoreProps.AllocationsAscend | firmware/source/eeprom.c:271-342 | Before the table fills, allocations hand out consecutive slots |
| StoreProps.AllocationsSplit | firmware/source/eeprom.c:252-350 | a + b allocations are a allocations followed by b more |
| StoreProps.FreshCycle | firmware/source/eeprom.c:252-350 | From a fresh format allocations return 32, 64, …, 4064 and then wrap to 32 |
| StoreProps.WrapPeriod | firmware/source/eeprom.c:261-269 | After the first wrap the log cycles with period 127 and passes slot 1 exactly once per cycle |
| StoreProps.InitFormats | firmware/source/eeprom.c:355-379 | Whenever the table read asks for a format, a fault-free init formats, writes the default record into slot 1 and leaves a healthy store whose read lookup returns slot 1 |
| StoreProps.InitBlankChip | firmware/source/eeprom.c:355-379 | Corollary: a blank chip is formatted that way |
| StoreProps.InitReadFailure | firmware/source/eeprom.c:361-363 | A fault while reading the table reboots and leaves the flash untouched |
| StoreProps.InitRestoresTable | firmware/source/eeprom.c:355-367 | Init of a store written by the store reloads the same table and does not touch the flash |
| StoreProps.CorruptionFlagNotPersisted | firmware/source/eeprom.c:241-245 | The corruption path sets err = 1 in RAM, but flash keeps 0 because programming cannot set a bit, so the next init does not format because of it |
| StoreProps.EmptyTableAllocatesTableSlot | firmware/source/eeprom.c:271-342 | Allocating from an all-0xFF table (left by a failed format) hands out address 0, the table's own slot |
| Utils.ReverseAt | host/include/utils/utils.h:14-32 | Byte i of the reversal is byte n - 1 - i of the original |
| Utils.ReverseInvolutive | host/include/utils/utils.h:42-48 | Converting to big-endian and back is the identity |
| Utils.ReverseConvertsByteOrder | host/include/utils/utils.h:14-32 | Reversing a little-endian integer's bytes gives its big-endian bytes |
| Utils.SwapInward | host/include/utils/utils.h:23-30 | The two-pointer swap loop reverses exactly the window it is given, in place |
| Utils.LeToBeAsWritten | host/include/utils/utils.h:14-32 | As written, the swap reverses the value together with the two bytes after it |
| Utils.AsWrittenStartsPastTheValue | host/include/utils/utils.h:21 | As written, the two lowest result bytes are the two bytes past the value, reversed |
| Utils.AsWrittenCounterexample | host/include/utils/utils.h:21 | As written, 0x3412 with zero bytes after it converts to 0x0000, not 0x1234 |
| Utils.LeToBe | host/include/utils/utils.h:14-32 | Reverses the bytes, so the big-endian reading equals the little-endian one |
| Utils.BeToLe | host/include/utils/utils.h:42-48 | The same reversal, in the other direction |

## Left out

- The in-application-programming register sequences (IAP_CMD, IAP_TRIG, the
  wait states) are abstracted to byte commands that succeed or fail. A fault
  oracle indexed by the running command count decides which commands fail.
- The controller's behaviour on an address at or past 4 KiB is taken to be a
  failure.
- UART register handling, `serial_init`, the busy wait for the transmit flag,
  and `serial_isr`'s masking of the serial interrupt around the handler are
  left out. Transmitted bytes are a sequence and received bytes a sequence of
  read outcomes. Concurrency between interrupt handlers, and torn reads of
  the boot counter, are not modelled.
- The interrupt-enable register is modelled only as the timer-0 enable bit,
  because that is the bit `boot_time` changes.
- Timer, port and interrupt set-up (`clock_init`, `enable_clock`, `io_init`,
  `enable_io`) is register configuration and is left out. The sampling and
  PWM-output state variables of the clock module are declared but never
  used by the core, so they are left out too.
- The platform header, `main`, and the host's Qt user interface and serial
  transport are not part of this model.
- The input pin levels that ReadPort samples, and the boot time, are
  parameters of each command, not hardware reads.
- `command.h` defines no `CMD_TYPE_READ_SPEED` or `CMD_TYPE_SET_PWM`, which
  the handler's switch names. The model treats those type bytes like any
  other unlisted byte: the handler answers Failed. The input-speed, input-PWM
  and output commands are therefore answered Failed, as are ReadConfig and
  WriteConfig, whose handlers are empty stubs.
- Serial.Engine.CmdReadPort: requires a port of 0 or 1, which are the only
  values the parser passes to it.
- Utils.LeToBe: is modelled on a byte sequence of any length. The source
  restricts it to integral types of 1 to 8 bytes.
- Utils.LeToBeAsWritten: models the two bytes read and written past the
  value as explicit extra input, rather than as undefined behaviour.
- Bytes.And: is bitwise AND restricted to bytes, written arithmetically. No
  other bit operation is modelled.
- 16 groups of 8 slots suggest a period of 128. Slot 0 holds the table and
  the wrap restarts at slot 1, so after the first wrap the period is 127
  (StoreProps.WrapPeriod).

## Findings

| source | as written | input that shows it | evidently intended | confidence | as-written member | corrected member |
|---|---|---|---|---|---|---|
| host/include/utils/utils.h:21 | the end pointer starts at `p1 + sizeof(IntType) + 1`, two bytes past the last byte of the value, so the swap reads and writes outside `ret` | the 16-bit value stored as [0x12, 0x34] with zero bytes after it converts to [0x00, 0x00] | start at `p1 + sizeof(IntType) - 1` and reverse the value's bytes ([0x34, 0x12]) | not executed | Utils.LeToBeAsWritten, Utils.AsWrittenCounterexample | Utils.LeToBe |
