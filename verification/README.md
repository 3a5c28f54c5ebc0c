# RIX robot command path: a verified model

This project models, in Dafny, the path that a key press takes from the
keyboard program to the motor board, and the state machines it rests on: the
binary message codec, the framed stream between the two programs, the signal
notifier, descriptor ownership, the serial packets and the two threads that
write them, time arithmetic, and the option parser.

`dafny verify dfyconfig.toml` checks the whole project.

## How the model is laid out

| file | what it holds |
|---|---|
| `Bytes.dfy` | bytes, machine widths, little-endian images, two's complement, 64-bit sums that wrap |
| `Codec.dfy` | the wire format over schemas: `Encode`, `Decode`, `SizeOf` and the codec laws |
| `Serialization.dfy` | the header's functions as methods over a shared buffer and an in/out offset, proved against `Codec` |
| `Messages.dfy` | Time, Header, Twist2D, Twist2DStamped as classes, with the exact state after a failed deserialize |
| `TimeMath.dfy` | nanosecond split and recombine, rounding modes, poll timeouts, `Rate::sleep` |
| `Framing.dfy` | `Frames` and the reference parser `Commands` of the length-prefixed stream |
| `Environment.dfy` | what system calls may answer, as finite scripts; what has happened, as a journal |
| `Driver.dfy`, `Teleop.dfy` | the two event loops, for every script |
| `EndToEnd.dfy` | the two programs composed, up to the bytes on the serial port |
| `SerialPacket.dfy` | `checksum`, `encode_msg`, and the receiver's view of a packet stream |
| `SerialBus.dfy` | `MBot::drive`, `MBot::timesync` and the destructor as a two-thread step machine |
| `Signals.dfy` | the static notifier table, with handler runs between any two statements |
| `Descriptors.dfy` | File, Pipe and Fifo over a kernel descriptor table |
| `Arguments.dfy` | the argument parser and the print/parse law |

Three conventions recur. An environment is a script (arrivals, acceptances,
polls, signals) that is universally quantified; its end is end-of-file, or
success from then on. A journal (`log`) is a ghost record of every effect in
the order it happened, and the main theorems about the loops are predicates
on complete journals: `DriverRun`, `TeleopRun`. And a class's methods are
specified by functions of the old state whose laws are lemmas beside them.

Where the code and what one would expect of it differ, the model follows the
code and says exactly when the expectation holds:

- A failed `deserialize_string` leaves the offset behind its length prefix
  (serialization.hpp:278-283): `OffsetKeptIff` says for every schema when a
  failure leaves the offset alone, `FailedTextOffset` for strings.
- A container longer than a `uint32_t` has its prefix truncated:
  `SurvivesIffFits` says a value survives if and only if every length fits.
- `FLOOR` truncates toward zero (time.cpp:109): `FloorIsFloorIff`.
- Splitting a time into two `int32_t` loses large times: `SplitRecombine`.
- `File(const File &)` leaves its field unset for an invalid source
  (file.cpp:22-26): `File.Copy` states when ownership survives that.
- An interrupted `poll` makes `Signal::wait` false although a byte is pending
  (file.cpp:183-186): `Signal.Wait` states when a pending byte is reported.
- `MBot` never retries a short write (mbot.cpp:56, mbot.cpp:79):
  `StreamIntactIff`, `ShortWriteHidesNext`, `ShortWriteResync`.
- `timesync` may encode a packet after the stop flag is set (mbot.cpp:64-75):
  `AtMostOneTickAfterStop`, `TickAfterStop`.
- `encode_msg` keeps only 16 bits of the length: `RecoverableIff`.
- The keyboard loop does not look at the notification on EAGAIN
  (teleop_keyboard.cpp:48-51): `PollCount` says that it looks once for each
  failed wait and each byte, `BlockedReadsNeverPoll` gives the runs that never do.
- A vector option does not survive printing when one of its elements starts
  with a dash, or when it is empty at the end of the line: `VectorReadIff`,
  `VectorSurvivesIff`.
- `Signal` ignores the result of `signal` (signal.cpp:31), so an object for a
  signal that cannot be caught has no handler: `OneOwnerEach`, `ManageKill`.

## Model

| member | source | states |
|---|---|---|
| Bytes.BoundCheckExact | include/rix/msg/serialization.hpp:254 | the size_t test `offset + need > size` never wraps for an offset inside an object, so it is the mathematical test |
| Bytes.LEDigit | include/rix/msg/serialization.hpp:73 | the byte order: the i-th byte of a number is its i-th digit to the base 256, least significant first |
| Bytes.BitsOfI32 | include/rix/msg/standard/Time.hpp:38-42 | a signed number is written as the bit pattern congruent to it modulo 2^32 |
| Codec.RoundTrip | include/rix/msg/serialization.hpp:70-482 | a value whose lengths fit, encoded anywhere in a buffer, decodes to itself and stops right behind its bytes; for every schema, nested ones included |
| Codec.Canonical | include/rix/msg/serialization.hpp:251-482 | whatever bytes decode, the result fits its prefixes and re-encodes to exactly the bytes consumed |
| Codec.SurvivesIffFits | include/rix/msg/serialization.hpp:86-235 | a typed value survives encode and decode, with any bytes before and after, if and only if every length fits its uint32 prefix |
| Codec.StrictPrefixRejected | include/rix/msg/serialization.hpp:251-482 | every strict prefix of an encoding is rejected |
| Codec.PrefixFree | include/rix/msg/serialization.hpp:70-235 | no encoding is a proper prefix of another one of its type, and equal encodings come from equal values |
| Codec.SizeAgrees | include/rix/msg/serialization.hpp:16-57 | for every typed value, one with a truncated length included, the size functions with all their uint32 truncations give the number of bytes written modulo 2^32, and exactly when that is below 2^32 |
| Codec.SizeAgreesItems | include/rix/msg/serialization.hpp:28-57 | the same for the accumulating loops, from any start value |
| Codec.OffsetKeptIff | include/rix/msg/serialization.hpp:251-482 | for every schema, a decoder fails and leaves the offset where it was if and only if not even the first bytes it asks for are there |
| Codec.FailedTextOffset | include/rix/msg/serialization.hpp:277-283 | a string that fails keeps the offset exactly when its prefix is missing, and has advanced it by four otherwise |
| Serialization.SerializeNumber | include/rix/msg/serialization.hpp:70-75 | writes the digits to the base 256, least significant first, from the offset on, advances it by the width, leaves every other byte alone |
| Serialization.SerializeString | include/rix/msg/serialization.hpp:86-94 | writes the truncated count and so many characters, and nothing outside that span |
| Serialization.SerializeNumberArray | include/rix/msg/serialization.hpp:122-130 | writes the elements without a prefix, and nothing outside that span |
| Serialization.SerializeNumberVector | include/rix/msg/serialization.hpp:183-193 | writes the truncated count and so many elements, and nothing outside that span |
| Serialization.SerializeItems | include/rix/msg/serialization.hpp:143-170 | the element loop writes the concatenated encodings of all elements and advances the offset by their total |
| Serialization.SerializeValue | include/rix/msg/serialization.hpp:105-235 | any value: the buffer is the old one with exactly Encode spliced in at the offset |
| Serialization.SizeOfContainer | include/rix/msg/serialization.hpp:28-57 | the accumulating size loop, modulo 2^32 at every addition |
| Serialization.DeserializeNumber | include/rix/msg/serialization.hpp:251-260 | succeeds exactly when the bytes are there, otherwise leaves the offset |
| Serialization.DeserializeString | include/rix/msg/serialization.hpp:274-287 | agrees with Decode on success, value and offset, and on failure leaves the offset where the code does, behind the prefix if that was read |
| Serialization.DeserializeItems | include/rix/msg/serialization.hpp:351-387 | the element loop decodes what the recursive decoder does, and stops at the first bad element with that element's offset |
| Serialization.DeserializeNumbers | include/rix/msg/serialization.hpp:322-335 | the bounded memcpy of a number array or vector: all elements or nothing and the old offset |
| Serialization.DeserializeValue | include/rix/msg/serialization.hpp:251-482 | any schema on arbitrary bytes: terminates, stays in the buffer, has no wrapping bound check, and agrees with Decode on result and offset |
| Messages.TimeMsg.Serialize | include/rix/msg/standard/Time.hpp:38-42 | splices the two fields in, little-endian, nothing else changed |
| Messages.TimeMsg.Deserialize | include/rix/msg/standard/Time.hpp:44-49 | fields, result and offset, including the half-filled object after a failure |
| Messages.HeaderMsg.Size | include/rix/msg/standard/Header.hpp:28-36 | the byte count of the encoding unless the name wraps the uint32, and the exact value when it does |
| Messages.HeaderMsg.Serialize | include/rix/msg/standard/Header.hpp:41-46 | seq, stamp and frame id spliced in, in this order |
| Messages.HeaderMsg.Deserialize | include/rix/msg/standard/Header.hpp:48-54 | fields, result and offset, including the partly filled object after a failure |
| Messages.Twist2DMsg.Serialize | include/rix/msg/geometry/Twist2D.hpp:40-45 | the three float patterns spliced in, in this order |
| Messages.Twist2DMsg.Deserialize | include/rix/msg/geometry/Twist2D.hpp:47-53 | fields, result and offset, including the partly filled object after a failure |
| Messages.Twist2DStampedMsg.Size | include/rix/msg/geometry/Twist2DStamped.hpp:28-34 | the byte count of the encoding unless the frame id wraps a uint32, and the exact value, with both truncations, when it does |
| Messages.Twist2DStampedMsg.Serialize | include/rix/msg/geometry/Twist2DStamped.hpp:40-44 | the header's and the twist's bytes spliced in, nothing else changed |
| Messages.Twist2DStampedMsg.Deserialize | include/rix/msg/geometry/Twist2DStamped.hpp:46-51 | fields, result and offset, including the partly filled object after a failure |
| Messages.ReadCommandAgrees | include/rix/msg/geometry/Twist2DStamped.hpp:46-51 | the message's own field-by-field reader accepts what the generic decoder accepts, with the same value and offset |
| Messages.EncodeCommandIsEncode | include/rix/msg/geometry/Twist2DStamped.hpp:40-44 | the message's own byte layout is the generic encoding of its nested schema |
| Messages.CommandLayout | include/rix/msg/geometry/Twist2DStamped.hpp:40-44 | where each field of a serialised command is: number, seconds, nanoseconds, name length, name, three speeds |
| Messages.CommandRoundTrip | include/rix/msg/geometry/Twist2DStamped.hpp:40-51 | a serialised command at any offset is read back whole into an object with any previous contents |
| Messages.CommandCanonical | include/rix/msg/geometry/Twist2DStamped.hpp:46-51 | bytes that read as a command are exactly that command's serialisation |
| TimeMath.ToMsg | src/rix/util/time.cpp:37-43 | the nanoseconds lie strictly within one second and have the sign of the time; seconds and nanoseconds together are congruent to it modulo 2^32 seconds |
| TimeMath.SplitRecombine | src/rix/util/time.cpp:37-63 | to_msg followed by Time(msg) is the identity if and only if the whole seconds fit in an int32, negative times included |
| TimeMath.FloorIsFloorIff | src/rix/util/time.cpp:105-139 | FLOOR is the mathematical floor if and only if the time is non-negative or a whole number of units |
| TimeMath.CeilIsCeiling | src/rix/util/time.cpp:105-139 | CEIL is the least whole number of units not below the time, for negative times too |
| TimeMath.NearestIsNearest | src/rix/util/time.cpp:105-139 | NEAREST is at most half a unit away and even when it is exactly half |
| TimeMath.ModesBracket | src/rix/util/time.cpp:105-139 | for a non-negative time FLOOR and CEIL bracket it, differ by one unless it is exact, and NEAREST is one of them |
| TimeMath.StampToUtime | src/mbot/mbot.cpp:44 | the stamp taken by the keyboard program reaches the motor board truncated to microseconds if and only if its seconds fit an int32 |
| TimeMath.PollTimeout | src/rix/ipc/file.cpp:132-145 | the timeout is never early and less than a millisecond late exactly when it is not clamped to INT_MAX; a negative duration does not wait |
| TimeMath.Rate.Sleep | src/rix/util/time.cpp:324-334 | sleeps exactly when the period is not over; start advances by at least one period |
| TimeMath.Rate.SleepTimes | src/rix/util/time.cpp:324-334 | n calls advance start by at least n periods, whatever the clock does in between |
| Framing.CommandsConcat | src/mbot_driver/mbot_driver.cpp:48-88 | parsing is a homomorphism at frame boundaries |
| Framing.CommandsMonotone | src/mbot_driver/mbot_driver.cpp:48-88 | more input never retracts or changes a command that was already parsed |
| Framing.FramesParse | src/teleop_keyboard/teleop_keyboard.cpp:95-105 | the concatenated frames of any commands parse back to those commands |
| Framing.FrameLayout | src/teleop_keyboard/teleop_keyboard.cpp:95-105 | a frame is the exact length of the message in four bytes, least significant first, and then the message |
| Framing.CutStreamParses | src/mbot_driver/mbot_driver.cpp:26-46 | a stream of frames cut anywhere parses to the commands of the frames that are complete |
| Driver.CausalAt | src/mbot_driver/mbot_driver.cpp:48-88 | at every moment of a run the commands driven are a prefix of the parse of the bytes read until then |
| Driver.AttentiveAt | src/mbot_driver/mbot_driver.cpp:48-56 | between any drive call and the one before it there is a poll of the notification |
| Driver.ChunkingIndependence | src/mbot_driver/mbot_driver.cpp:26-88 | two runs over the same bytes, cut up differently, with different EINTR and EAGAIN, drive the same commands: the parse of the bytes, then the stop |
| Driver.PrefixIsDriven | src/mbot_driver/mbot_driver.cpp:26-88 | any run, notified or broken off by a read error, drives the parse of a prefix of the stream and then the stop |
| Driver.MBotDriver.ReadExact | src/mbot_driver/mbot_driver.cpp:26-46 | takes exactly the next n bytes off the stream, or fewer and a reason: end, error, or a notification that is then the last event; a notification object is polled right behind each read that would block, and nowhere else |
| Driver.MBotDriver.ReadFrame | src/mbot_driver/mbot_driver.cpp:58-77 | consumes exactly one frame, or a piece that holds no complete frame |
| Driver.MBotDriver.SendStop | src/mbot_driver/mbot_driver.cpp:11-17 | drives the command whose fields are all zero |
| Driver.MBotDriver.Spin | src/mbot_driver/mbot_driver.cpp:9-89 | for every script: terminates; what is driven is the parse of the bytes consumed, then one stop with all fields zero; never a command before its bytes; a notification object, if there is one, is polled once for each frame begun and once right behind each read that would block, and before every drive call; once it fires nothing follows but the stop; nothing but a notification or a read error ends the run before the stream does |
| Teleop.KeysAre | src/teleop_keyboard/teleop_keyboard.cpp:56-74 | the keys are exactly the ASCII codes of W A S D Q E in both cases and of the space bar |
| Teleop.KeyMeaning | src/teleop_keyboard/teleop_keyboard.cpp:63-74 | over ASCII codes: which of the three speeds a key sets, to the given pattern or to the one with only the sign bit flipped, and which are 0 |
| Teleop.OneMoreKey | src/teleop_keyboard/teleop_keyboard.cpp:76-81 | the valid keys of an input are its keys, in order, and no other byte |
| Teleop.SteadyAt | src/teleop_keyboard/teleop_keyboard.cpp:31-105 | at every moment the output is a prefix of the frames for the valid keys read until then |
| Teleop.PunctualAt | src/teleop_keyboard/teleop_keyboard.cpp:31-89 | in a run with a notification object, every poll is right behind a failed wait or a byte read, every one of those has its poll, and every frame is begun right behind a poll that found nothing |
| Teleop.PollCount | src/teleop_keyboard/teleop_keyboard.cpp:31-84 | so a whole run polls as often as waits failed and bytes were read, and never for a read that would block |
| Teleop.BlockedReadsNeverPoll | src/teleop_keyboard/teleop_keyboard.cpp:48-51 | any number of reads that would block, behind waits that succeed, end with the input and without one poll, though the notification may be there from the start |
| Teleop.TeleopKeyboard.WriteExact | src/teleop_keyboard/teleop_keyboard.cpp:17-29 | all bytes are out exactly when it returns true, otherwise a strict prefix of them |
| Teleop.TeleopKeyboard.SendMessage | src/teleop_keyboard/teleop_keyboard.cpp:95-105 | the frame of the message, length prefix first, is out exactly when it returns true |
| Teleop.TeleopKeyboard.HandleKey | src/teleop_keyboard/teleop_keyboard.cpp:76-105 | with a notification object, its first act is a poll, for an invalid key its only one; a valid key then has its frame sent, in full unless a write fails |
| Teleop.TeleopKeyboard.Spin | src/teleop_keyboard/teleop_keyboard.cpp:8-107 | for every script: terminates; the output is the frames of all valid keys, numbered modulo 2^32, less a part of the last frame only after a write failure, or less the one key read when the notification was seen; nothing follows that poll; a notification object is polled right behind each failed wait and each byte, and nowhere else; only a read error ends the run as one; undisturbed, the whole input is handled |
| EndToEnd.OutputParses | src/teleop_keyboard/teleop_keyboard.cpp:86-105 | the keyboard's output, however the run ended, parses to the commands of its whole 36-byte frames |
| EndToEnd.EndToEndDrive | src/mbot_driver/mbot_driver.cpp:9-89 | a keyboard run of any kind, fed in any pieces to a driver run that is not notified, drives exactly the commands whose frames were completed, headers included, in order, and then stops: all planned ones, or all but the last after a write failure |
| EndToEnd.AnyDriverRun | src/mbot_driver/mbot_driver.cpp:9-89 | a driver that is notified or loses its input at any moment has driven a prefix of the keyboard's commands and then the stop |
| EndToEnd.DrivenCommand | src/teleop_keyboard/teleop_keyboard.cpp:86-93 | the i-th planned command carries number i modulo 2^32, the name "mbot", speeds that the i-th valid key means, a stamp whose parts have the sign of the time and add up to it if and only if the seconds fit an int32, and then its microseconds |
| EndToEnd.EveryKeyIsDriven | src/teleop_keyboard/teleop_keyboard.cpp:31-105 | when the keyboard's input ended normally every valid key is driven once, in order, with the speeds it means, and then the robot stops |
| EndToEnd.RunBoth | src/mbot_driver/mbot_driver.cpp:9-89 | both loops run in sequence: whenever the driver receives the keyboard's bytes, cut up in any way, it drives all planned commands, or all but the last after a write failure, then a stop; when nothing fails for good these are those of the valid keys in the raw input, numbered in order |
| EndToEnd.KeysReachThePort | src/mbot/mbot.cpp:30-89 | after shutdown, the drive packets parsed out of the serial port's bytes, mixed with time packets, are one for each valid key, whose bytes read back to its time in microseconds and to the speeds it means, and then one whose payload is all zeros |
| SerialPacket.ChecksumOf | include/mbot/messages.hpp:50-57 | 255 minus the sum modulo 256, without overflowing the int |
| SerialPacket.EncodeMsg | include/mbot/messages.hpp:59-89 | a packet buffer of the right size becomes flags, length, its checksum, topic, payload, body checksum; any other size is refused and left alone |
| SerialPacket.PacketLayout | include/mbot/messages.hpp:59-89 | every byte of a packet: 0xff, 0xfe, length low and high, its checksum, topic low and high, payload, body checksum |
| SerialPacket.WireIsWellFormed | include/mbot/messages.hpp:59-89 | for every payload and topic bytes 2..4 and bytes 5..end each add up to 255 modulo 256 |
| SerialPacket.SingleByteErrorCaught | include/mbot/messages.hpp:50-89 | changing any one byte of any packet breaks a flag or one of the checksums |
| SerialPacket.WireParses | include/mbot/messages.hpp:59-89 | a packet in front of any bytes is parsed off whole, topic and payload |
| SerialPacket.CutPacketHidden | include/mbot/messages.hpp:59-89 | a packet that is still incomplete parses to nothing |
| SerialPacket.RecoverableIff | include/mbot/messages.hpp:69-70 | topic and payload can be recovered if and only if the payload is at most 65535 bytes |
| SerialPacket.DriveValue | src/mbot/mbot.cpp:42-53 | a drive packet has topic 214 and 20 bytes that read back to the microseconds and the three speeds |
| SerialPacket.TickValue | src/mbot/mbot.cpp:66-75 | a time packet has topic 201 and 8 bytes that read back to the whole microseconds of the clock reading |
| SerialPacket.DriveMsgRecoverable | src/mbot/mbot.cpp:42-53 | equal drive packets carry equal times and equal speeds |
| SerialPacket.BuildDrive | src/mbot/mbot.cpp:42-53 | the buffer handed to write is the packet of the command's time in microseconds and its speeds |
| SerialBus.StepInv | src/mbot/mbot.cpp:30-89 | every step of either thread keeps mutual exclusion, the stream's composition, the order of each thread's packets and the stop accounting |
| SerialBus.RunInv | src/mbot/mbot.cpp:30-89 | so they hold in every reachable state |
| SerialBus.StreamIntactIff | src/mbot/mbot.cpp:55-81 | in every reachable state the port has whole packets and at most one prefix in flight if and only if no write so far was cut short |
| SerialBus.StreamParses | src/mbot/mbot.cpp:55-81 | then a receiver parses exactly the delivered packets, in order |
| SerialBus.ShortWriteHidesNext | src/mbot/mbot.cpp:56 | behind the one byte of a packet that was cut there, a receiver that does not resynchronise loses the next packet as well, although it is whole |
| SerialBus.ShortWriteResync | src/mbot/mbot.cpp:56 | a receiver that drops bytes until a packet begins loses only the packet that was cut |
| SerialBus.DriveOnce | src/mbot/mbot.cpp:42-58 | from any reachable state with the port free, a drive call of which the kernel takes any number of bytes can run to its end, and the state it leaves |
| SerialBus.TicksGoOn | src/mbot/mbot.cpp:64-88 | from any reachable state with timesync at the head of its loop, the port free and no stop, there is a run that sends a packet for each of any clock readings, in order, and ends there again |
| SerialBus.FailureEndsTicks | src/mbot/mbot.cpp:79-84 | in every run, once a write of timesync has failed no further packet is encoded |
| SerialBus.OnlyStopOrFailureEnds | src/mbot/mbot.cpp:64-88 | in every run, timesync ends only after the stop flag or a failed write |
| SerialBus.ShortWriteLosesBoth | src/mbot/mbot.cpp:49-58 | for any two drive calls there is a run in which the first write is short, the second whole, the stream not made of packets, and neither command received without resynchronising |
| SerialBus.ReceivedIsMerge | src/mbot/mbot.cpp:42-89 | with writes that take everything, what is parsed is a merge of the drive calls and the time packets, each in its own order, and lacks only what a thread is still busy with |
| SerialBus.AtMostOneTickAfterStop | src/mbot/mbot.cpp:30-89 | once the stop flag is set at most one more time packet is sent and at most one more is encoded, the latter if and only if the thread had passed the flag test by then |
| SerialBus.TickAfterStop | src/mbot/mbot.cpp:30-75 | a run in which the flag is set between the test and the encoding, and a packet is encoded after the stop |
| SerialBus.QuietAfterJoin | src/mbot/mbot.cpp:30-38 | when both threads are at rest the mutex is free and every drive call and every time packet has been received |
| Signals.Process.Handler | src/rix/ipc/signal.cpp:124-143 | exactly one byte for a managed signal, nothing for any other; never a write to a closed descriptor |
| Signals.Process.Interrupt | src/rix/ipc/signal.cpp:124-143 | any batch of signals between two statements: one byte each for those whose handler is installed, no slot changed otherwise, and the small-step invariant kept |
| Signals.Process.Release | src/rix/ipc/signal.cpp:37-41 | flag given up before the pipe, with signals in between, without the handler ever seeing a closed pipe; at the end the handler is gone |
| Signals.Process.Acquire | src/rix/ipc/signal.cpp:24-31 | pipe, flag, disposition set up in this order, with signals in between: the pipe holds exactly the signals that arrive behind the call of signal, none from before; the handler is installed unless signal refuses the number, which goes unnoticed |
| Signals.Process.OneOwnerEach | src/rix/ipc/signal.cpp:21-31 | a slot has at most one live owner and is initialised exactly when it has one; its handler is installed if and only if it has one and signal does not refuse the number |
| Signals.ManageKill | src/rix/ipc/signal.cpp:11-31 | a Signal for SIGKILL can be constructed, and owns a slot without a handler |
| Signals.Process.WaitsNeverOutnumberDeliveries | src/rix/ipc/signal.cpp:84-121 | at every small step, waits that returned true are at most the bytes drained, which are at most the signals delivered |
| Signals.Process.ReadUntilEmpty | src/rix/ipc/signal.cpp:103-117 | on a non-blocking read end, takes everything delivered before its last read, and ends although signals keep arriving |
| Signals.Signal.New | src/rix/ipc/signal.cpp:11-32 | throws exactly for a number outside 1..32 or a slot that is taken, and then changes nothing; otherwise the slot gains its owner, with nothing pending but the signals that arrived behind the call of signal |
| Signals.Signal.Destroy | src/rix/ipc/signal.cpp:35-44 | frees its own slot and no other |
| Signals.Signal.MoveNew | src/rix/ipc/signal.cpp:46 | ownership passes to the new object; the slot and its pending bytes stay |
| Signals.Signal.MoveAssign | src/rix/ipc/signal.cpp:48-59 | the target's slot is freed, the source's passes over; assigning an object to itself frees its slot |
| Signals.Signal.Wait | src/rix/ipc/signal.cpp:84-121 | false takes nothing; true takes everything delivered before the last read, at least one byte, and restores the blocking mode; a pending byte makes it true unless poll is interrupted |
| Signals.RunProgram | src/rix/ipc/signal.cpp:11-121 | every program of constructions, destructions, moves and waits, under every schedule of signals, keeps slot ownership |
| Descriptors.Kernel.Linear | src/rix/ipc/file.cpp:22-67 | every descriptor above 0 has at most one live owner, an owner's descriptor is open, owned descriptors are exactly those of live objects, and an open descriptor that is not foreign to the wrappers has an owner |
| Descriptors.Kernel.OwnedMeansLive | src/rix/ipc/file.cpp:61-67 | with no live object left, only foreign descriptors are open |
| Descriptors.File.Adopt | src/rix/ipc/file.cpp:13 | takes any number; ownership survives if and only if it is not positive or an open descriptor of nobody else, which then has this object as its owner; one owned elsewhere has two owners |
| Descriptors.File.Open | src/rix/ipc/file.cpp:16-19 | holds what open returned; only that descriptor was added |
| Descriptors.File.Copy | src/rix/ipc/file.cpp:22-26 | a duplicate of a valid source; with an invalid one the field is whatever the memory held, and ownership survives if and only if that is not positive; a descriptor owned elsewhere then has two owners |
| Descriptors.CopySafeIff | src/rix/ipc/file.cpp:22-26 | the copy keeps ownership whatever the memory held if and only if the source is valid |
| Descriptors.File.Assign | src/rix/ipc/file.cpp:29-47 | the old descriptor is closed, a duplicate taken, or -1 for an invalid source; nothing happens on self-assignment |
| Descriptors.File.Move | src/rix/ipc/file.cpp:49 | the source ends up with -1 and nothing is opened or closed |
| Descriptors.File.MoveAssign | src/rix/ipc/file.cpp:51-58 | the old descriptor is closed, the source's taken over, also for self-assignment, which closes it |
| Descriptors.File.Destroy | src/rix/ipc/file.cpp:61-67 | closes exactly the owned descriptor, if positive |
| Descriptors.Pipe.Create | src/rix/ipc/pipe.cpp:7-16 | two different new descriptors, read end first, or two invalid pipes |
| Descriptors.Pipe.Copy | src/rix/ipc/pipe.cpp:21-27 | a duplicate with the same direction; an invalid source gives an invalid copy |
| Descriptors.Pipe.Assign | src/rix/ipc/pipe.cpp:30-50 | the old end is closed, a duplicate and the direction taken |
| Descriptors.Pipe.MoveAssign | src/rix/ipc/pipe.cpp:54-63 | the old end is closed, the other's descriptor and direction taken over; the self-move case too |
| Descriptors.Fifo.constructor | src/rix/ipc/fifo.cpp:7-26 | open on a made or already existing fifo, invalid when mkfifo fails for another reason |
| Descriptors.Fifo.Copy | src/rix/ipc/fifo.cpp:31-38 | a duplicate with name and mode; an invalid source gives an invalid copy |
| Descriptors.Fifo.Assign | src/rix/ipc/fifo.cpp:41-62 | the old descriptor is closed, a duplicate, the name and the mode taken |
| Descriptors.Fifo.MoveAssign | src/rix/ipc/fifo.cpp:70-80 | the old descriptor is closed, the other's descriptor, name and mode taken over |
| Descriptors.RunProgram | src/rix/ipc/pipe.cpp:7-63 | every program over files, pipes and fifos, with File(int) on descriptors no object has, keeps ownership linear and closes no descriptor it did not obtain or adopt; when its objects are gone the descriptor table is what it was at the start, without the adopted ones |
| Arguments.ArgumentParser.Add | src/rix/util/argument_parser.cpp:9-16 | rejects exactly the names, short names and required flags that Arg rejects; an existing name keeps its argument |
| Arguments.ArgumentParser.Reachable | include/rix/util/argument_parser.hpp:159-170 | every argument of a parser is named by `--` and its name, which has two or more characters and no dash |
| Arguments.ArgumentParser.Parse | src/rix/util/argument_parser.cpp:41-89 | the loops over required arguments and options terminate, compute the recursive reference parse, values changed before a failure included, and add no argument |
| Arguments.PrintParse | src/rix/util/argument_parser.cpp:53-86 | the option loop reads any printed settings, of every kind and by long or short name, applies them one after another and goes on with whatever follows |
| Arguments.GivenParse | src/rix/util/argument_parser.cpp:46-51 | printed values for the required arguments are read in order and stored, one for each name |
| Arguments.AssignedValues | src/rix/util/argument_parser.cpp:46-51 | with distinct names the i-th required argument has the i-th value and nothing else changes |
| Arguments.LineParses | src/rix/util/argument_parser.cpp:41-89 | a whole printed line, required values and then settings, parses to exactly those values, unless it is shorter than the number of required arguments, when it fails and changes nothing |
| Arguments.UnknownOptionRejected | src/rix/util/argument_parser.cpp:53-82 | an argument that is neither `-c` with a registered c nor `--name` with a registered name ends the parse with false and leaves what was set in front of it |
| Arguments.BadValueRejected | src/rix/util/argument_parser.cpp:84-86 | so does an option whose value is missing or cannot be read; a numeric vector is then emptied, any other value stays |
| Arguments.AppliedValues | src/rix/util/argument_parser.cpp:122-136 | each option ends with the last value given, a flag toggled once a mention, and everything else as it was |
| Arguments.VectorReadIff | include/rix/util/argument_parser.hpp:136-153 | whatever text follows, a vector of any element type is read back, and nothing more, if and only if no element starts with a dash and an option follows, or it has an element and ends the line |
| Arguments.VectorSurvivesIff | src/rix/util/argument_parser.cpp:53-86 | on a whole line, a vector followed by any settings of other options comes back if and only if no element starts with a dash and it has an element or another option follows |
| Arguments.SetVectorsDashless | src/rix/util/argument_parser.cpp:41-89 | whatever the whole command line says, a vector of strings, required or optional, either keeps the value it had or holds no element that starts with a dash |
| Arguments.PrintAndParse | src/rix/util/argument_parser.cpp:41-89 | the round trip on a parser object, required arguments included |

## Left out

- System calls: open, dup, pipe, poll, read and write are outcomes chosen by a script plus a small kernel state; signal refuses an arbitrary fixed set of numbers; fcntl and close do not fail.
- Infinite scripts: every script is finite, and the end of an input script is end-of-file; no liveness under endless EAGAIN or EINTR is claimed.
- Concurrency of signals: a handler run is atomic with respect to the main thread, a pipe never fills up, drain reads fail only with EAGAIN, and only one thread waits on a Signal.
- Signal `raise`, `kill` and `signum`: single system calls.
- Floating point: speeds are 32-bit patterns with a sign flip; double-to-float narrowing, `Duration(double)`, `Rate(double)` and `frequency` are not modelled.
- bool elements in messages: their canonicity depends on the byte that a bool object may hold.
- Memory exhaustion: a payload or container of any announced length is allocated.
- Containers after a failed deserialize: only the four messages' state is given exactly; a vector's partly filled contents are not, its offset is.
- 64-bit overflow: nanosecond counts, their sums in `Rate` and in the time packets are unbounded integers.
- SerialPacket.ChecksumOf: states its result for up to 8,421,504 addends, because beyond that the code's int sum can overflow, which is undefined.
- Descriptor 0 is taken to be held open elsewhere, because the wrappers neither close it nor count it as owned.
- Descriptors.Perform: copies a File only when it is valid and adopts a descriptor only when no object has it, because the code then breaks ownership; File.Copy and File.Adopt say what happens otherwise.
- Moved-from strings: the standard leaves them unspecified, the model empties them.
- Blocking flags of File, Pipe and Fifo, and `Fifo()`, whose mode is uninitialised; only the flag of a Signal's read end is modelled.
- The serial port's termios set-up, and the direct close in `MBot::MBot`, which bypasses the ownership wrapper.
- The motor board's firmware is not in the repository: the receiver modelled (`Packets`) gives up at the first byte that begins no packet, and never resynchronises; only ShortWriteResync speaks of one that does.
- The motor board's own message structs and their memcpy functions other than the two that MBot sends.
- Signals.Signal.Wait: does not model the duration, because time does not pass in a script; TimeMath.PollTimeout is the arithmetic of the timeout.
- `std::stoi` and `std::stof`: parameters of the parser; a number is printed by any text that they read as it.
- Argument strings hold no NUL character; `help`, `get` and argument descriptions are not modelled.
- Logging, `to_string`, message hashes, the UInt32 and Duration messages, mocks and the main functions.
