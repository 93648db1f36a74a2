# nikobusconnect in Dafny

nikobusconnect talks to a Nikobus home-automation bus through a PC-Link
interface, over a serial port or a TCP bridge. This project models its core
and proves properties of the model:

- **Frame codec** (`Protocol`): the PC-Link frame codec of
  `nikobusconnect/protocol.py`. It covers:
  - fixed-width upper-case hexadecimal;
  - the CRC-16 over the hex-decoded body and the CRC-8 over the frame text;
  - the command frame `$` + length + function code + address (low byte
    first) + arguments + CRC-16 + CRC-8, as `make_pc_link_command` writes
    it and as the validator expects it (see Findings);
  - the channel-to-group mapping.
  Both CRC loops are methods with loop invariants, proved equal to recursive
  specification functions. The handshake frame `$10110000B8CF9D` is worked
  through both CRCs.
- **Stream framer, validator and router** (`Listener`): the event listener of
  `nikobusconnect/listener.py`.
  - The framer keeps the unfinished line in `_frame_buffer`. It is a class
    method proved equal to a function of the buffer and the new text, with
    the chunking invariant proved on that function.
  - `validate_crc` is a total function with the same recursion.
  - The routing decision of `_dispatch_message` is also modelled.
- **Module state cache** (`Command`): the handler of
  `nikobusconnect/command.py`. It holds the map from module address to six
  cached output bytes, updated in place, and the one send each command gets.
- **Correlation and retry engine** (`CommandHandler`): the handler of
  `nikobusconnect/command_handler.py`. It covers:
  - the FIFO of fire-and-forget commands;
  - the acknowledgement and answer signatures a command waits for;
  - the retry loop whose two flags survive from one attempt to the next.
  Time is abstract: an attempt is the list of read outcomes (message,
  timeout or read error) that arrive before its deadline.
- **Draft handler** (`DraftCommandHandler`): the unfinished handler in
  `nibobusconnect/command_handler.py`, proved to agree with the first one
  wherever both are complete.
- **Message classifier** (`MessageParser`): `parse_message`. The files
  `nikobusconnect/message_parser.py` and `nibobusconnect/message_parser.py`
  are the same text line for line. One module models both, so whatever is
  proved of the one holds of the other.
- **Connection manager** (`NkbConnect`): the connection-string classifier and
  the handshake of `nikobusconnect/nkbconnect.py`.

Every handler sends the frame `make_pc_link_command` builds, length field
and all (`Protocol.MakePcLinkCommandAsWritten`). The corrected builder
`Protocol.MakePcLinkCommand` is the second half of the Finding. The handler
lemmas are stated of the frame actually sent.

Shared models:

- `Transport` holds the connection as its callers see it. It keeps a log of
  every `send`; the set of call positions that raise is a parameter. It also
  holds an asyncio queue of strings, shared by reference between listener
  and handler as in the source.
- `PyBuiltins` holds the Python string and integer operations the source
  relies on, with Python's semantics. Examples:
  - slicing with clamped bounds;
  - `count` and `find`;
  - `split`;
  - `strip`;
  - `int(s, 16)` with its sign, `0x` prefix, underscores and whitespace.

Integers are unbounded, as in Python. The CRC registers are `bv16` and `bv8`
because the source masks them with 0xFFFF and 0xFF after every shift.

Library calls are parameters:

- `ipaddress.ip_address` and `int()` are functions passed to the
  connection-string classifier.
- Whether a send raises is a property of the connection.
- What a read returns is the list of arrivals handed to the retry loop.

## Model

| member | source | states |
|---|---|---|
| Protocol.IntToHex | nikobusconnect/protocol.py:3-14 | The result is upper-case hexadecimal, at least `digits` long and never empty. |
| Protocol.IntToHexParses | nikobusconnect/protocol.py:3-14 | The digits always read back as the value formatted. |
| Protocol.IntToHexFits | nikobusconnect/protocol.py:3-14 | A value below 16^d is written in exactly d digits that parse back to it. |
| Protocol.IntToHexOverflows | nikobusconnect/protocol.py:3-14 | A value of 16^d or more is not truncated. It takes more than d digits: its plain hexadecimal form, which still parses back to it. |
| Protocol.IntToHexOfTwoDigits | nikobusconnect/protocol.py:3-14 | Two upper-case digits are the two-digit form of their own value. This is the inverse direction. |
| Protocol.Hex2 | nikobusconnect/protocol.py:3-14 | A byte in two digits is exactly two upper-case digits that read back as the byte. |
| Protocol.HexPairs | nikobusconnect/protocol.py:28-29 | The bytes calc_crc1 reads: one per digit pair, `int(data[2j:2j+2], 16)`; a trailing odd digit is dropped. |
| Protocol.CalcCrc1 | nikobusconnect/protocol.py:17-36 | The nested loop returns the CRC-16 specification value: polynomial 0x1021 from 0xFFFF, most significant bit first. Its range [0, 0xFFFF] is its type. |
| Protocol.Crc16BytesSnoc | nikobusconnect/protocol.py:27-36 | Feeding one more byte is one pass of the outer loop. |
| Protocol.Crc16HandshakeVector | nikobusconnect/protocol.py:17-36 | The CRC-16 of "110000" is 0xB8CF, the value inside the handshake frame of nikobusconnect/const.py:8. |
| Protocol.Crc16CheckValue | nikobusconnect/protocol.py:17-36 | The CRC-16 of the ASCII bytes "123456789" is 0x29B1, the catalogued check value of CRC-16/CCITT-FALSE. It is not that of the CRC-16/ARC ("IBM") the docstring names. |
| Protocol.Crc16IgnoresOddDigit | nikobusconnect/protocol.py:28-29 | An unpaired final digit does not change the CRC-16. |
| Protocol.CalcCrc2 | nikobusconnect/protocol.py:39-58 | The nested loop returns the CRC-8 specification value: polynomial 0x99 from 0, fed `ord(c)` for every character, the "$" included. Its range [0, 0xFF] is its type. |
| Protocol.Crc8Snoc | nikobusconnect/protocol.py:49-58 | Feeding one more character is one pass of the outer loop. |
| Protocol.Crc8HandshakeVector | nikobusconnect/protocol.py:39-58 | The CRC-8 of "$10110000B8CF" is 0x9D, the last two digits of the handshake frame. |
| Protocol.AppendCrc1 | nikobusconnect/protocol.py:61-72 | The input is kept as a prefix, followed by exactly four upper-case digits that read as its CRC-16. |
| Protocol.AppendCrc2 | nikobusconnect/protocol.py:75-86 | The input is kept as a prefix, followed by exactly two upper-case digits that read as its CRC-8. |
| Protocol.ArgsHex | nikobusconnect/protocol.py:108 | Two upper-case digits per argument byte. |
| Protocol.ArgsHexPairs | nikobusconnect/protocol.py:108 | The argument digits read back as the arguments. |
| Protocol.CommandBody | nikobusconnect/protocol.py:101-109 | The body is upper-case hexadecimal, 6 + 2·\|args\| digits at least. |
| Protocol.BodyPairs | nikobusconnect/protocol.py:101-109 | The body the CRC-16 covers decodes to the function code, the address low byte, the high byte and the arguments. |
| Protocol.CommandLayoutAsWritten | nikobusconnect/protocol.py:89-115 | The frame make_pc_link_command builds is `$`, a length field holding the byte count \|args\| + 6, the body, the CRC-16 of the body and the CRC-8 of everything before it. Its length is 15 + 2·\|args\|. |
| Protocol.CommandLayout | nikobusconnect/protocol.py:101-114 | A frame of the corrected builder has the same layout, with a length field equal to its length plus one. |
| Protocol.CommandFields | nikobusconnect/protocol.py:102-109 | In the frame of either builder, field by field: the code digits at 3-4, the address low byte at 5-6, the high byte at 7-8, then the argument digits. |
| Protocol.CommandDecodes | nikobusconnect/protocol.py:89-115 | Decoded, the frame make_pc_link_command builds carries the byte count \|args\| + 6, exactly the command's bytes, and both CRCs of what it covers. A frame of the corrected builder carries the same with its length plus one. |
| Protocol.CommandAsWrittenIsUpperHex | nikobusconnect/protocol.py:101-114 | Everything after the `$` of a frame of make_pc_link_command is upper-case hexadecimal. |
| Protocol.CommandIsUpperHex | nikobusconnect/protocol.py:101-114 | The same holds of a frame of the corrected builder. |
| Protocol.BuildersShareBody | nikobusconnect/protocol.py:111-114 | The builder as written and the corrected one differ only in the length field (\|args\|+6 against 2·\|args\|+16) and hence the CRC-8. |
| Protocol.BuildersNeverAgree | nikobusconnect/protocol.py:112 | For no code, address or arguments do the two builders produce the same frame. |
| Protocol.CommandFrameAsWritten | nikobusconnect/protocol.py:111-114 | As written, the frame is the head with the byte-count length field, then the CRC-8 of that head. |
| Protocol.AddressIsLittleEndian | nikobusconnect/protocol.py:101-107 | A four-digit address goes out with its bytes swapped ("1A2B" as "2B1A"), in the frame of either builder. |
| Protocol.AddressExample | nikobusconnect/protocol.py:101-107 | The frame for function 0x12 and address "1A2B" carries "2B1A" at positions 5 to 8. |
| Protocol.CalculateGroupNumber | nikobusconnect/protocol.py:118-128 | The group g satisfies 6(g-1)+1 ≤ channel ≤ 6g, with floor division on every integer. |
| Protocol.GroupUnique | nikobusconnect/protocol.py:118-128 | That g is the only one. |
| Protocol.GroupMonotone | nikobusconnect/protocol.py:118-128 | The group number is monotone in the channel. |
| Protocol.GroupExamples | nikobusconnect/protocol.py:118-128 | Channels 1..6 are group 1, channels 7..12 are group 2, and channel 0 is group 0. |
| Listener.Normalize | nikobusconnect/listener.py:78 | After the replacements there is no line feed, STX or ETX, and the text is no longer. |
| Listener.NormalizeConcat | nikobusconnect/listener.py:78 | Normalisation distributes over concatenation. |
| Listener.SplitBeforeDollarShape | nikobusconnect/listener.py:90 | The pieces of `re.split(r'(?=\$)', p)` rejoin to `p`. The first holds no `$`; every later one starts with the only `$` it holds. |
| Listener.NonEmptyKeeps | nikobusconnect/listener.py:91 | Dropping empty pieces keeps every non-empty piece and the joined text. |
| Listener.NoLineNoFrames | nikobusconnect/listener.py:79-85 | With no `\r` in the buffer, nothing is returned and the buffer keeps all the text. |
| Listener.BufferStaysClean | nikobusconnect/listener.py:78-85 | Starting from a buffer with no line feed, STX or ETX, the buffer left behind holds no `\r`, `\n`, STX or ETX. |
| Listener.ChunkingInvariant | nikobusconnect/listener.py:75-95 | Feeding text in two chunks returns the frames of one call and leaves the same buffer. |
| Listener.LinesAppend | nikobusconnect/listener.py:79-85 | The finished lines of x+y are those of x, then those that y completes. |
| Listener.FramesWellFormed | nikobusconnect/listener.py:87-93 | Every frame returned is non-empty, holds no `\r`, `\n`, STX or ETX, and has a `$` at index 0 if anywhere. |
| Listener.FramesOfLines | nikobusconnect/listener.py:87-93 | The loop over the finished lines returns the frames of those lines in order. |
| Listener.NikobusEventListener.ExtractFrames | nikobusconnect/listener.py:75-95 | The frames returned and the new `_frame_buffer` are the frames and the remainder of old buffer + normalised text. |
| Listener.JudgedByLastFrame | nikobusconnect/listener.py:122-123 | A message with several `$` is judged by the part from its last `$` on. |
| Listener.NextFrameStart | nikobusconnect/listener.py:122-123 | Recursion moves to the second `$`, a strictly shorter suffix that is no later than the last `$`. |
| Listener.SingleFrameValidity | nikobusconnect/listener.py:119-143 | Say a single frame is hexadecimal, in either case, after its `$` and is no five-character `$05` acknowledgement. It is valid if and only if its length field reads its length plus one and its last two digits read as the CRC-8 of the rest. |
| Listener.ValidSingleFrame | nikobusconnect/listener.py:119-143 | Whatever its characters, a valid message with one `$` at most that is no five-character `$05` acknowledgement has a length field `int()` reads as its length plus one, and ends in two hexadecimal digits, in either case, that read as the CRC-8 of the rest. |
| Listener.AcknowledgementValid | nikobusconnect/listener.py:126-127 | A five-character message starting `$05`, with no other `$`, is valid whatever its last two characters. |
| Listener.HandshakeFrameValid | nikobusconnect/listener.py:119-143 | The handshake frame `$10110000B8CF9D` of nikobusconnect/const.py:8 passes validate_crc. |
| Listener.BuiltCommandValid | nikobusconnect/listener.py:119-143 | Every frame of the corrected builder passes validate_crc. |
| Listener.AsWrittenNeverValid | nikobusconnect/listener.py:134 | No frame of the builder as written passes validate_crc, for any code, address or arguments. |
| Listener.HandshakeFrameQueued | nikobusconnect/listener.py:97-117 | The handshake frame, echoed back, is queued and is an event, and never feedback. |
| Listener.AcknowledgementQueued | nikobusconnect/listener.py:103-106 | Every message starting `$05` is queued, whatever its CRC, is an event, and is never feedback. |
| Listener.FeedbackFrameRouted | nikobusconnect/listener.py:103-111 | A hexadecimal `$1004` frame with the right length field and CRC-8 is 15 characters long. It is queued, it is an event, and it reaches the feedback callback exactly when there is one. |
| Listener.BadCrcFeedbackDropped | nikobusconnect/listener.py:103-111 | A hexadecimal `$1004` frame whose last two digits are not its CRC-8 is neither queued nor feedback; it is only an event. |
| Listener.FeedbackImpliesQueued | nikobusconnect/listener.py:109-111 | The feedback callback fires only with a callback and a valid `$1004` frame. Such a frame is also queued and also an event. |
| Listener.AsWrittenFrameNotQueued | nikobusconnect/listener.py:103-106 | A frame of the builder as written, echoed back, never reaches the response queue. |
| Listener.NikobusEventListener.DispatchMessage | nikobusconnect/listener.py:97-117 | The queue, the feedback calls and the events each grow by exactly what the routing decision picks. |
| Listener.NikobusEventListener.constructor | nikobusconnect/listener.py:19-41 | The buffer is empty, the queue is fresh and empty, and the module group is 1. |
| Command.ChannelSlot | nikobusconnect/command.py:39 | The slot `(channel-1) % 6` is below 6 and is the channel's position inside its group. |
| Command.SlotFolding | nikobusconnect/command.py:39 | Channels c and c+6 share a slot but lie in consecutive groups. |
| Command.WithState | nikobusconnect/command.py:39-40 | The buffer keeps six bytes, with the state in the channel's slot and every other slot unchanged. |
| Command.GroupTwoOverwritesGroupOne | nikobusconnect/command.py:39 | Writing channel c and then c+6 leaves only the second value. |
| Command.SetCode | nikobusconnect/command.py:76 | The code is 0x12 if and only if the channel is in group 1, and 0x15 otherwise. |
| Command.NikobusCommandHandler.constructor | nikobusconnect/command.py:18-31 | The handler starts with no cached module. |
| Command.NikobusCommandHandler.SetCachedState | nikobusconnect/command.py:33-40 | The first write creates a zero buffer. Only the channel's slot of that address changes, and every buffer stays six long. A state outside 0..255 raises and leaves the fresh buffer. |
| Command.NikobusCommandHandler.QueueCommand | nikobusconnect/command.py:42-63 | Exactly one send. The handler runs once, only when the send returned; a send error is re-raised. |
| Command.NikobusCommandHandler.SetOutputState | nikobusconnect/command.py:65-80 | The cache is updated before the send, even when the send raises. The one frame sent is make_pc_link_command's, with code 0x12/0x15 and the six cached bytes; an out-of-range state sends nothing. The completion handler runs, once, only when a handler was given and the send succeeded. |
| Command.NikobusCommandHandler.SetOutputStates | nikobusconnect/command.py:82-94 | An uncached address sends nothing. Otherwise the one frame sent is make_pc_link_command's, with code 0x12 and the cached bytes, and the completion handler runs, once, only when a handler was given and the send succeeded. |
| Command.NikobusCommandHandler.WaitForResponse | nikobusconnect/command.py:96-102 | The result is the oldest queued frame, taken off the queue, or "" when none is there. |
| Command.OutputCommandCarriesState | nikobusconnect/command.py:73-80 | The frame set_output_state sends is 27 characters long. Its body decodes to the code, the address and the six cached bytes, with the new state in the channel's slot and no 0xFF terminator. |
| CommandHandler.CommandValues | nikobusconnect/command_handler.py:87-92 | Seven bytes: the value in slot `(channel-1) % 6`, 0xFF last, zeros elsewhere. |
| CommandHandler.PrepareCommandValues | nikobusconnect/command_handler.py:87-92 | The bytearray filled is CommandValues. A value outside 0..255 raises (None). |
| CommandHandler.PrepareSignals | nikobusconnect/command_handler.py:94-100 | The acknowledgement is "$05" and at most two more characters. The answer is "$18" or "$1C" followed by the address's characters, rotated: the same characters, as many times each. |
| CommandHandler.SignalsOfBuiltCommand | nikobusconnect/command_handler.py:94-100 | For a frame of make_pc_link_command, the acknowledgement is "$05" + the code digits. The answer is "$18" for code 0x11, "$1C" otherwise, then the address halves swapped, in the order the frame carries them. |
| CommandHandler.AnswerEchoesAddressField | nikobusconnect/command_handler.py:94-100 | For a four-digit address the answer is the prefix followed by the frame's own address field (characters 5..9): for "1A2B" the answer is "$1C2B1A". |
| CommandHandler.OutputStateRequestAnswer | nikobusconnect/command_handler.py:34-45 | The state request always waits for a "$1C" answer. |
| CommandHandler.StateCode | nikobusconnect/command_handler.py:37 | The code is 0x12 if and only if the group is 1, and 0x17 otherwise. |
| CommandHandler.SetCode | nikobusconnect/command_handler.py:49-50 | The code is 0x15 if and only if the channel is in group 1, and 0x16 otherwise. |
| CommandHandler.SetCodesDisagree | nikobusconnect/command_handler.py:50 | For every channel this code differs from the one command.py:76 sends. |
| CommandHandler.Repeat | nikobusconnect/command_handler.py:106-108 | `[command] * n`: n copies of the command. |
| CommandHandler.ReadAttempt | nikobusconnect/command_handler.py:110-125 | The inner loop of one attempt ends exactly as the specification Attempt says. |
| CommandHandler.AttemptKeepsAnswer | nikobusconnect/command_handler.py:114-123 | An attempt only ever records, or returns, a message holding the answer signal. |
| CommandHandler.WaitBounded | nikobusconnect/command_handler.py:106-131 | The command is sent at most `maxAttempts` times. The result is None or a message containing the answer signal. |
| CommandHandler.NoAnswerUsesEveryAttempt | nikobusconnect/command_handler.py:106-131 | With no answer and no read error, every attempt is used and the result is None. |
| CommandHandler.AnswerDoesNotStopRetries | nikobusconnect/command_handler.py:114-119 | A message holding both signals only breaks the attempt. The command is still sent `maxAttempts` times, and the answer is returned at the end. |
| CommandHandler.ReturnsEarlierAnswer | nikobusconnect/command_handler.py:110-123 | An attempt returns only the non-empty answer captured in an earlier attempt, and only once the acknowledgement was seen, earlier or in one of its own messages. |
| CommandHandler.QuietAttempts | nikobusconnect/command_handler.py:106-131 | Attempts in which neither signal arrives and no read fails, with no acknowledgement yet, only resend the command and return what was captured. |
| CommandHandler.EarlyReturn | nikobusconnect/command_handler.py:120-123 | The early return comes on a later message without the answer, once both flags are set, with the flags kept across attempts. |
| CommandHandler.AnswerWithoutAck | nikobusconnect/command_handler.py:106-131 | For any number of attempts, an answer seen without the acknowledgement in the first attempt, with neither signal later, does not end the call: the command goes out every time and the answer is returned after the last attempt. |
| CommandHandler.ReadErrorEndsWait | nikobusconnect/command_handler.py:110-113 | A read that raises on the first attempt escapes after exactly one send. |
| CommandHandler.OutputStateReplies | nikobusconnect/command_handler.py:34-45 | The state request is sent at most `maxAttempts` times. It returns None or a message holding its "$1C" answer. |
| CommandHandler.NikobusCommandHandler.SendCommand | nikobusconnect/command_handler.py:66-72 | One send. An error is swallowed. |
| CommandHandler.NikobusCommandHandler.QueueCommand | nikobusconnect/command_handler.py:55-57 | The queue grows by the command at its end. |
| CommandHandler.NikobusCommandHandler.ProcessCommands | nikobusconnect/command_handler.py:59-64 | The queue is drained, and every queued command is sent in queue order, whichever sends fail. |
| CommandHandler.NikobusCommandHandler.SetOutputState | nikobusconnect/command_handler.py:47-53 | Exactly one command is queued, with code 0x15/0x16 and the seven values. An out-of-range value queues nothing. |
| CommandHandler.NikobusCommandHandler.WaitForSignals | nikobusconnect/command_handler.py:102-131 | The loop returns what the specification WaitSpec returns, and the log grows by that many copies of the command. |
| CommandHandler.NikobusCommandHandler.SendCommandGetAnswer | nikobusconnect/command_handler.py:74-85 | It derives the two signatures and runs the loop with them. |
| CommandHandler.NikobusCommandHandler.GetOutputState | nikobusconnect/command_handler.py:34-45 | It sends make_pc_link_command's request, with code 0x12/0x17 and no arguments. It returns the loop's answer, or None when a read raised. |
| DraftCommandHandler.PrepareValuesForCommand | nibobusconnect/command_handler.py:105-115 | The same seven bytes as CommandHandler.CommandValues; the address and group are ignored. A value outside 0..255 raises. |
| DraftCommandHandler.SignalsAgree | nibobusconnect/command_handler.py:117-123 | Both handlers derive the same acknowledgement and answer for every command and address. |
| DraftCommandHandler.StateCode | nibobusconnect/command_handler.py:54 | The same state-request code as the other handler for every group. |
| DraftCommandHandler.SetCode | nibobusconnect/command_handler.py:64 | 0x15 if and only if the channel is in group 1, and 0x16 otherwise. |
| DraftCommandHandler.SetCommandsAgree | nibobusconnect/command_handler.py:58-66 | Both handlers queue the same set command for every address, channel and value. |
| DraftCommandHandler.NikobusCommandHandler.OutputStateRequest | nibobusconnect/command_handler.py:51-56 | It sends make_pc_link_command's request, with code 0x12/0x17 and no arguments, with the signatures the other handler would wait for. |
| DraftCommandHandler.NikobusCommandHandler.SendCommand | nibobusconnect/command_handler.py:82-89 | One send. An error is swallowed. |
| DraftCommandHandler.NikobusCommandHandler.QueueCommand | nibobusconnect/command_handler.py:68-71 | The queue grows by the command at its end. |
| DraftCommandHandler.NikobusCommandHandler.ProcessCommands | nibobusconnect/command_handler.py:73-80 | The queue is drained in FIFO order, whichever sends fail. |
| DraftCommandHandler.NikobusCommandHandler.SetOutputState | nibobusconnect/command_handler.py:58-66 | Exactly one command is queued, the same one the other handler queues. An out-of-range value queues nothing. |
| MessageParser.ParseMessage | nikobusconnect/message_parser.py:15-49 | Every result has a 'type' key, with one of the eight kinds as its value. |
| MessageParser.PrefixesExclusive | nikobusconnect/message_parser.py:26-44 | No message starts with two of the six prefixes. |
| MessageParser.TypeByPrefix | nikobusconnect/message_parser.py:26-44 | Each prefix's kind is chosen if and only if the message starts with that prefix. So a "$1F…" message is a feedback module answer, never a manual refresh. |
| MessageParser.TypeBySubstring | nikobusconnect/message_parser.py:42-47 | With no prefix, the message is a manual refresh if and only if "$1F" or "$0F" occurs in it, and unknown otherwise. |
| MessageParser.Payload | nikobusconnect/message_parser.py:25-49 | A button press carries data = message[2:8]. A controller address carries address = message[3:7]. An ignored answer and an acknowledgement carry only 'type'. Every other kind carries the message unchanged. |
| MessageParser.AcknowledgementIsControllerAddress | nikobusconnect/message_parser.py:33-35 | Every "$05…" message is a controller address, whose address is message[3:7]: the four characters after the prefix when there are seven or more, and all the characters after it otherwise. So the five-character acknowledgement "$05xx" gives the two-character address "xx". |
| NkbConnect.ParseConnStr | nikobusconnect/nkbconnect.py:33-48 | IP goes with a (host, port) pair, SERIAL with the unchanged string, and UNKNOWN with None. It never raises. |
| NkbConnect.IpEndpoint | nikobusconnect/nkbconnect.py:36-41 | Take a host without ':' that is an address and a port text that `int` accepts. Joined by ':', they give (IP, (host, port)). |
| NkbConnect.IpSplitsAtFirstColon | nikobusconnect/nkbconnect.py:36-41 | An IP result always comes from the text before the first ':' and after it. So the host never holds a ':', and an IPv6 literal never becomes the host. |
| NkbConnect.FailedIpFallsThrough | nikobusconnect/nkbconnect.py:38-48 | When the IP reading fails, the result is SERIAL if and only if the serial pattern matches, and UNKNOWN otherwise. |
| NkbConnect.UsbAdapterIsSerial | nikobusconnect/nkbconnect.py:43-45 | `/dev/ttyUSB` followed by one or more digits is SERIAL, whatever the parsers say. |
| NkbConnect.BarePrefixIsUnknown | nikobusconnect/nkbconnect.py:43-48 | A bare `/dev/ttyUSB` or `/dev/serial/by-id/` is UNKNOWN. |
| NkbConnect.NikobusConnect.constructor | nikobusconnect/nkbconnect.py:57-62 | The string is classified at construction. |
| NkbConnect.FirstFailure | nikobusconnect/nkbconnect.py:162-173 | The position of the first failing handshake send: every earlier send returns, and the send at that position raises. |
| NkbConnect.FirstFailureIs | nikobusconnect/nkbconnect.py:162-173 | That position is unique. |
| NkbConnect.NikobusConnect.Handshake | nikobusconnect/nkbconnect.py:162-173 | The commands go out in order up to and including the first failing one. The result is true if and only if none failed, and nothing is read back. |
| NkbConnect.HandshakeSucceedsIffNoSendFails | nikobusconnect/nkbconnect.py:162-173 | The handshake succeeds if and only if all eight sends return. |
| NkbConnect.HandshakeFrameIsValid | nikobusconnect/const.py:4-13 | The one PC-Link frame of the handshake passes validate_crc. |
| Transport.Connection.Send | nikobusconnect/nkbconnect.py:140-150 | Each call is logged in order. It returns normally or raises NikobusSendError, as the connection decides. |
| Transport.Fifo.Put | nikobusconnect/command_handler.py:55-57 | The item is appended. |
| Transport.Fifo.Get | nikobusconnect/command.py:96-102 | The oldest item is removed and returned, or None when the queue is empty. |

## Left out

- Transport I/O is not modelled:
  - `connect`, `read`, `ping`, `disconnect` and the context manager of
    nkbconnect.py;
  - the encoding and the "\r" that `send` appends;
  - `_detect_usb_version` and `os.access`.
  These are socket, serial and filesystem calls. A send is a logged call
  that returns or raises, as the connection decides.
- `_listen_loop` is not modelled: read timeouts, the one-second back-off, and
  the Windows-1252 decoding, which is a library codec. The framer works on
  text that is already decoded.
- Timing and concurrency are not modelled:
  - `asyncio.wait_for`, `sleep`, and the event-loop clock;
  - the `asyncio.Lock` of command.py;
  - starting, stopping and cancelling tasks.
  `_process_commands` is modelled as draining the queue while the task runs.
  Every queue read happens after the items it takes were put.
- In the retry loop, deadlines become per-attempt lists of read outcomes. An
  attempt past the end of the list reads nothing.
- Callbacks and completion handlers are not invoked. Each call is recorded as
  an event with its arguments; whether the callable is a coroutine does not
  matter to the model.
- `connection.receive()` is not modelled. nikobusconnect/command_handler.py:112
  calls it, but NikobusConnect defines only `read` and `send`. Its outcome is
  a parameter of the retry loop. CommandHandler.ReadErrorEndsWait states what
  happens when it raises.
- The handshake never reads back `EXPECTED_HANDSHAKE_RESPONSE` (const.py:14).
  The model declares the constant and, like the source, never uses it.
- `COMMAND_EXECUTION_CONFIG`, which nikobusconnect/command_handler.py imports
  from const.py, is not defined there. The attempt count it would supply is a
  parameter, and its delays are left out with the clock.
- `COMMAND_EXECUTION_DELAY` is the draft's own 0.5-second constant
  (nibobusconnect/command_handler.py:9). It only paces the queue, so it is
  left out with the clock.
- `_wait_for_ack_and_answer` in nibobusconnect/command_handler.py:125 is cut
  off after its signature. DraftCommandHandler.NikobusCommandHandler.OutputStateRequest
  models get_output_state there only up to the call into it.
- nikobusconnect/api.py wraps a coordinator that is not part of this model,
  and the two `__init__.py` files only re-export names. The `.connection`
  module they import is not part of this model.
- Logging is not modelled.
- Protocol.IsAddress: an address is restricted to a non-empty string of
  hexadecimal digits. `int(addr, 16)` also accepts a sign, surrounding
  whitespace, a `0x` prefix and underscores, so those spellings are not
  covered by the builder's preconditions.
- Command.NikobusCommandHandler.SetOutputState requires a hexadecimal
  address. With any other address the source raises inside
  `make_pc_link_command`, after the cache update (command.py:78-79); the
  model does not cover that path.
- Command.NikobusCommandHandler.SetOutputStates requires a hexadecimal
  address. With any other cached address the source raises inside
  `make_pc_link_command` (command.py:93); the model does not cover that path.
- CommandHandler.NikobusCommandHandler.SetOutputState requires a hexadecimal
  address. With any other address the source raises inside
  `make_pc_link_command` (command_handler.py:52); the model does not cover
  that path.
- CommandHandler.NikobusCommandHandler.GetOutputState requires a hexadecimal
  address. The source builds the request before its `try`
  (command_handler.py:38), so any other address raises out of the call
  instead of returning None; the model does not cover that path.
- DraftCommandHandler.NikobusCommandHandler.SetOutputState requires a
  hexadecimal address. With any other address the source raises inside
  `make_pc_link_command` (nibobusconnect/command_handler.py:65); the model
  does not cover that path.
- DraftCommandHandler.NikobusCommandHandler.OutputStateRequest requires a
  hexadecimal address. With any other address the source raises inside
  `make_pc_link_command` (nibobusconnect/command_handler.py:55); the model
  does not cover that path.
- Protocol.CommandLayoutAsWritten, Protocol.CommandLayout,
  Protocol.CommandDecodes and Listener.BuiltCommandValid assume one-byte function codes and at most 119
  argument bytes.
  - With more arguments the corrected length field needs a third digit, so
    no two-digit field could describe such a frame.
  - Every caller in the repository sends at most seven argument bytes.
- NkbConnect.ParseConnStr does not check that a port fits in 0..65535, and
  neither does the source. Both parsers are parameters: the model does not
  decide which strings are IP literals.
- NkbConnect.ParseConnStr reads the `\d` of the serial pattern as the
  ASCII digits 0-9. Python's `re` also matches the other Unicode decimal
  digits there, so a device name ending in, say, Arabic-Indic digits is
  SERIAL in the source and UNKNOWN in the model.
- PyBuiltins.IntBase16 accepts ASCII digits only. Python's `int` also takes
  other Unicode decimal digits, which never occur in a frame.

## Findings

| source | as written | input that shows it | evidently intended | confidence | as-written member | corrected member |
|---|---|---|---|---|---|---|
| nikobusconnect/protocol.py:112 | The length field is `len(data_with_crc1)//2 + 1`, a count of bytes, that is \|args\| + 6. The validator at nikobusconnect/listener.py:134 wants the frame length plus one in characters, 2·\|args\| + 16. | `make_pc_link_command(0x12, "1A2B")` writes the length field "06". The frame is 15 characters long, so the validator needs "10" (16). The handshake frame `$10110000B8CF9D` in nikobusconnect/const.py:8 carries "10" for its 15 characters. | The length field is the frame length plus one, as the handshake frame and the validator have it. Every built frame then passes validate_crc. | not executed | Protocol.MakePcLinkCommandAsWritten, Listener.AsWrittenNeverValid | Protocol.MakePcLinkCommand, Listener.BuiltCommandValid |
