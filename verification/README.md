# SEGGER trace stack

This project models the target side of the SEGGER trace stack that the repository builds into its firmware: the RTT ring
buffers of `SEGGER_RTT.c` and the SystemView recorder of `SEGGER_SYSVIEW.c`, in the shipped configuration (memcpy copies,
static packet buffer, 32-bit timestamps, no post-mortem mode).

- `RingModel`, `UpBuffer`, `OverwriteModel`, `DownBuffer`: byte rings as classes over arrays. The host is an arbitrary
  schedule, a function from turn numbers to what the host does in that turn; it has a turn before every copied byte, before
  bytes are published, in every round of a blocking write and between the stores of one recorder call. A turn before an
  operation looks at an offset for the first time is a turn before the operation; the recorder takes it where it calls
  one. `accepted` and `consumed` record what was published and what the host has read; that the second is a prefix of
  the first is part of every contract.
- `TerminalStream`, `Terminal`: virtual terminals on channel 0 and the host's decoder for them.
- `Codec`, `Packets`: encodings, in-place writers, the layout of packets and a host parser.
- `Trace`, `Decisions`, `Gaps`: the history of a recording as a sequence of entries, which histories are possible, on what
  room and clock reading each outcome was decided, and what follows.
- `Bits`, `Masks`: which events a mask disables.
- `Meanings`: what a host learns from the packets it is sent, in event ids and the values it reads back.
- `Commands`, `Sessions`, `Modules`, `Recorder`: host commands, what they make the recorder do, the module list, and the
  recorder itself. Command handling is entered from sending and sends packets itself; `RecursionCnt` bounds the nesting,
  which is also the termination argument of the mutually recursive methods. With each executed command its place in the
  history, the settings and the state of that moment are noted, and the answer is checked against them.
- `Conformance`, `Builtins`, `Calls`, `EndToEnd`: events a host can take apart, the recording functions of the library as
  data, the calls of an application and what they mean, and whole runs.
- `Numbers`, `PrintBuffer`, `TargetPrintf`, `Formats`, `FormatInterpreter`, `Conversions`, `LengthModifiers`: printf on the
  target.

The clock is an arbitrary function of the reading number. The OS callbacks are lists of recordings which are recorded when the
callback is called. The interrupt lock is taken for granted: target code that writes to one ring is serialised.

Where the code differs from its comments the model follows the code:

- `SEGGER_RTT_WriteSkipNoLock` announces the number of stored bytes and returns 1 or 0 (`SEGGER_RTT.c:743`, `799`).
- The overwriting write announces any number of wrap-arounds, but its later rounds stop one byte short of the buffer
  (`SEGGER_RTT.c:722`). `OverwriteExactly` says for which lengths the newest bytes survive.
- The overflow packet announces the number of dropped packets; `DropCount` lacks every packet that started dropping, and is
  never reset (`SEGGER_SYSVIEW.c:506`, `547`, `711`). `OverflowReportsLosses` says what the host has to add.
- The format interpreter accepts length modifiers and then skips a character too many (`SEGGER_SYSVIEW.c:1129-1137`,
  `1172`). `Formats.Parse` takes a format apart either way; `LengthModifiers` says when the difference shows.
- Stopping while packets are dropped leaves no trace of the loss (`SEGGER_SYSVIEW.c:1703-1712`); see `Trace.GapExactly`.
- `_VPrintHost` takes an argument for every percent sign, so two for a doubled one.

`char` is taken to be unsigned, as it is on the target's architecture, where terminal ids are compared.

## Model

| member | source | states |
|---|---|---|
| RingModel.PublishAppends | SystemView_V252a/Src/SEGGER/SEGGER_RTT.c:399-448 | moving the write offset over freshly filled cells appends exactly those cells to the unread bytes, whichever of the two copy shapes filled them |
| RingModel.StoreAppends | SystemView_V252a/Src/SEGGER/SEGGER_RTT.c:399-448 | a wrap-around store into the free space leaves every unread byte alone and appends the data |
| RingModel.WriteFreeCell | SystemView_V252a/Src/SEGGER/SEGGER_RTT.c:485-501 | a cell within the space reported free is never an unread one |
| RingModel.ContentsAfterRead | SystemView_V252a/Src/SEGGER/SEGGER_RTT.c:73-80 | a reader moving its offset by k drops exactly the k oldest bytes |
| UpBuffer.UpBuffer.HostTurn | SystemView_V252a/Src/SEGGER/SEGGER_RTT.h:90-97 | the host moves the read offset within the published bytes only; free space grows by what it took |
| UpBuffer.UpBuffer.CopyIn | SystemView_V252a/Src/SEGGER/SEGGER_RTT.c:366 | memcpy with the host acting before every byte: no unread byte is touched, nothing unpublished becomes visible |
| UpBuffer.UpBuffer.Publish | SystemView_V252a/Src/SEGGER/SEGGER_RTT.c:375 | what the host can see grows by exactly the bytes that have been copied |
| UpBuffer.UpBuffer.GetAvailWriteSpace | SystemView_V252a/Src/SEGGER/SEGGER_RTT.c:485-501 | free space is size - 1 minus the unread bytes, for both orders of the offsets |
| UpBuffer.UpBuffer.WriteNoCheck | SystemView_V252a/Src/SEGGER/SEGGER_RTT.c:399-448 | data that fits is appended to the history and laid down circularly, for any host schedule |
| UpBuffer.UpBuffer.WriteSkipNoLock | SystemView_V252a/Src/SEGGER/SEGGER_RTT.c:751-870 | accepts exactly when the data fits, all or nothing; the result is 1 or 0; its inner no-wrap branch is unreachable |
| UpBuffer.UpBuffer.WriteNoLock | SystemView_V252a/Src/SEGGER/SEGGER_RTT.c:895-945 | skip stores all or nothing, trim the longest prefix that fits, blocking everything, other flags nothing |
| UpBuffer.UpBuffer.BlockingRound | SystemView_V252a/Src/SEGGER/SEGGER_RTT.c:348-376 | a round that moves no byte has met a full ring and a host that took nothing |
| UpBuffer.UpBuffer.WriteBlocking | SystemView_V252a/Src/SEGGER/SEGGER_RTT.c:335-379 | appends exactly its data in order and terminates, with a host that keeps reading, or without any host when the data fits |
| UpBuffer.UpBuffer.PutCharSkipNoLock | SystemView_V252a/Src/SEGGER/SEGGER_RTT.c:1033-1060 | one character is stored exactly when there is room |
| UpBuffer.UpBuffer.PutChar | SystemView_V252a/Src/SEGGER/SEGGER_RTT.c:1136-1180 | in blocking mode the character is always stored and the wait ends; otherwise it is dropped when there is no room |
| UpBuffer.UpBuffer.PutChars | SystemView_V252a/Src/SEGGER/SEGGER_RTT.c:1033-1060 | whatever the host reads meanwhile, n single-character writes keep at least what fits at the beginning, and everything if the host always empties the ring; what fits is stored like by one write |
| UpBuffer.SkipWritesAgree | SystemView_V252a/Src/SEGGER/SEGGER_RTT.c:751-870 | the hand-optimised skip write and the plain one accept the same data and leave the same cells and write offset, however the hosts read |
| UpBuffer.TrimIsCharByChar | SystemView_V252a/Src/SEGGER/SEGGER_RTT.c:923-930 | for any hosts a trim-mode write keeps a prefix of what its characters put one by one keep; both keep the same and leave the same cells and write offset if the data fits or nobody reads |
| UpBuffer.TrimMayKeepLess | SystemView_V252a/Src/SEGGER/SEGGER_RTT.c:923-930 | with a host that always empties the ring the characters put one by one keep more if and only if the data does not fit |
| UpBuffer.UpBuffer.MakeRoom | SystemView_V252a/Src/SEGGER/SEGGER_RTT.c:671-683 | the correction of the read offset terminates, with every subtraction and the addition in 32-bit arithmetic |
| UpBuffer.UpBuffer.OverwriteCells | SystemView_V252a/Src/SEGGER/SEGGER_RTT.c:687-724 | the copying rounds terminate and leave exactly the cells of the round-by-round model |
| UpBuffer.UpBuffer.WriteWithOverwriteNoLock | SystemView_V252a/Src/SEGGER/SEGGER_RTT.c:655-725 | cells, both offsets and contents after overwriting are those of the model |
| OverwriteModel.OverwriteExactly | SystemView_V252a/Src/SEGGER/SEGGER_RTT.c:655-725 | every byte string of length n survives as the newest size - 1 bytes if and only if n plus the write offset is at most 2 size - 2 and the read offset does not pass 2^32 while it is pushed on |
| OverwriteModel.KeepsNewestWithinLimit | SystemView_V252a/Src/SEGGER/SEGGER_RTT.c:655-725 | within that limit the ring holds the last size - 1 bytes (or all, if fewer) of old contents and new data |
| OverwriteModel.LosesNewestBeyondLimit | SystemView_V252a/Src/SEGGER/SEGGER_RTT.c:722 | beyond it, because later rounds restart with size - 1, a concrete byte string is not kept |
| OverwriteModel.OverrunLosesNewest | SystemView_V252a/Src/SEGGER/SEGGER_RTT.c:678-682 | once the read offset has passed 2^32, which takes a buffer of more than 2 GiB, the ring does not hold the newest bytes |
| OverwriteModel.ShortDataIsKept | SystemView_V252a/Src/SEGGER/SEGGER_RTT.c:655-725 | up to 2 GiB data shorter than the buffer is safe wherever the offsets are; beyond, if the read offset is not ahead of the write offset |
| DownBuffer.PiecesAddUp | SystemView_V252a/Src/SEGGER/SEGGER_RTT.c:540-591 | both pieces of a read add up to min(used, limit) although the offset difference may wrap in 32 bits |
| DownBuffer.DownBuffer.HostTurn | SystemView_V252a/Src/SEGGER/SEGGER_RTT.h:103-110 | the host appends the whole schedule entry if it fits, and else nothing |
| DownBuffer.DownBuffer.Gather | SystemView_V252a/Src/SEGGER/SEGGER_RTT.c:540-592 | both pieces copied out are the oldest unread bytes, in order, while the host keeps publishing |
| DownBuffer.DownBuffer.ReadNoLock | SystemView_V252a/Src/SEGGER/SEGGER_RTT.c:526-598 | returns and removes exactly the first min(used, limit) bytes |
| DownBuffer.DownBuffer.HasData | SystemView_V252a/Src/SEGGER/SEGGER_RTT.h:168 | the offsets differ exactly when there are unread bytes |
| TerminalStream.PlainTextExactly | SystemView_V252a/Src/SEGGER/SEGGER_RTT.c:1618-1741 | text reaches the current terminal unchanged if and only if it has no 0xFF byte |
| TerminalStream.TerminalNames | SystemView_V252a/Src/SEGGER/SEGGER_RTT.c:243 | terminals are named by the characters 0 to 9 and A to F |
| TerminalStream.SwitchDecodes | SystemView_V252a/Src/SEGGER/SEGGER_RTT.c:463-469 | 0xFF and an id character select that terminal and show nothing |
| TerminalStream.DecodeConcat | SystemView_V252a/Src/SEGGER/SEGGER_RTT.c:1618-1741 | the host may decode a stream in pieces |
| TerminalStream.PrefixShowsPrefix | SystemView_V252a/Src/SEGGER/SEGGER_RTT.c:1618-1741 | a host that has received a prefix shows a prefix |
| TerminalStream.ScreenOf | SystemView_V252a/Src/SEGGER/SEGGER_RTT.c:1653-1657 | text for one terminal adds to that screen and to no other |
| TerminalStream.EscapeIsNotShown | SystemView_V252a/Src/SEGGER/SEGGER_RTT.c:463-469 | the escape byte itself is never shown |
| TerminalStream.NeverShown | SystemView_V252a/Src/SEGGER/SEGGER_RTT.c:1618-1741 | no stream whatever shows text with a 0xFF byte |
| Terminal.Terminal.Write | SystemView_V252a/Src/SEGGER/SEGGER_RTT.c:895-945 | any text: what is stored appears on the active terminal's screen and on no other if and only if it has no 0xFF byte |
| Terminal.Terminal.SetTerminal | SystemView_V252a/Src/SEGGER/SEGGER_RTT.c:1618-1649 | the active terminal and the host's terminal change together, exactly on success |
| Terminal.Terminal.Sandwich | SystemView_V252a/Src/SEGGER/SEGGER_RTT.c:1702-1704 | switch, text and switch back add the text to the addressed screen only and return to the active terminal, if and only if it has no 0xFF byte |
| Terminal.Terminal.TerminalOut | SystemView_V252a/Src/SEGGER/SEGGER_RTT.c:1668-1741 | results in every mode; the accepted text is added to the addressed screen only, if and only if it has no 0xFF byte; skip and trim modes never need the host |
| Terminal.Terminal.HostScreens | SystemView_V252a/Src/SEGGER/SEGGER_RTT.c:1618-1741 | each screen the host has built so far is a prefix of what was accepted for that terminal |
| Codec.EncodingIsLeb128 | SystemView_V252a/Src/SEGGER/SEGGER_SYSVIEW.c:300-311 | the encoding is unsigned LEB128: 7-bit groups from the least significant on, high bit set in all bytes but the last, no superfluous group |
| Codec.U32RoundTrip | SystemView_V252a/Src/SEGGER/SEGGER_SYSVIEW.c:300-311 | decoding an encoded number gives the number and what follows it |
| Codec.U32LengthExactly | SystemView_V252a/Src/SEGGER/SEGGER_SYSVIEW.c:300-311 | at most n bytes if and only if below 128 to the n |
| Codec.U32Length | SystemView_V252a/Src/SEGGER/SEGGER_SYSVIEW.c:300-311 | a U32 takes at most 5 bytes, 1 below 128, 2 below 16384 |
| Codec.DecodeU32Extends | SystemView_V252a/Src/SEGGER/SEGGER_SYSVIEW.c:300-311 | later bytes never change a number already decoded |
| Codec.DecodedIsNotShorter | SystemView_V252a/Src/SEGGER/SEGGER_SYSVIEW.c:300-311 | no number is decoded from fewer bytes than its encoding has |
| Codec.StrBytes | SystemView_V252a/Src/SEGGER/SEGGER_SYSVIEW.c:388-420 | one length byte below 255, else 255 and the length with its lower byte first, then the characters, cut to the limit |
| Codec.StrRoundTripExactly | SystemView_V252a/Src/SEGGER/SEGGER_SYSVIEW.c:388-420 | a string, cut to its limit, reads back if and only if its length is at most 65535 |
| Codec.DecodeStrExtends | SystemView_V252a/Src/SEGGER/SEGGER_SYSVIEW.c:388-420 | later bytes never change a string already decoded |
| Codec.PutU32 | SystemView_V252a/Src/SEGGER/SEGGER_SYSVIEW.c:300-311 | the in-place loop appends exactly the encoding |
| Codec.PutStr | SystemView_V252a/Src/SEGGER/SEGGER_SYSVIEW.c:388-420 | length bytes and characters are appended in place, cut to the limit |
| Packets.FieldsRoundTrip | SystemView_V252a/Src/SEGGER/SEGGER_SYSVIEW.c:1750-1768 | a parameter list reads back value by value |
| Packets.BackfillExactly | SystemView_V252a/Src/SEGGER/SEGGER_SYSVIEW.c:677-688 | the two-byte back-filled form is the normal encoding if and only if the number has 14 bits |
| Packets.HeaderExactly | SystemView_V252a/Src/SEGGER/SEGGER_SYSVIEW.c:673-689 | the header filled into the 4-byte reserve equals encoded id and length if and only if both are below 16384 |
| Packets.PacketLayout | SystemView_V252a/Src/SEGGER/SEGGER_SYSVIEW.c:663-696 | a packet is id and payload, with the length between them for ids from 24 on, and then the time since the packet before |
| Packets.PacketRoundTripExactly | SystemView_V252a/Src/SEGGER/SEGGER_SYSVIEW.c:663-696 | a host takes a stored packet apart into what was recorded if and only if the event conforms: parameters as the layout of its id says, or id and length of 14 bits |
| Packets.PartialPacketIsShort | SystemView_V252a/Src/SEGGER/SEGGER_SYSVIEW.c:707 | a strict part of a packet is never taken for a packet |
| Packets.ParseItemExtends | SystemView_V252a/Src/SEGGER/SEGGER_SYSVIEW.c:663-696 | later bytes never change a packet already taken apart |
| Packets.ParseStreamResumes | SystemView_V252a/Src/SEGGER/SEGGER_SYSVIEW.c:663-696 | parsing what has arrived and going on with the remainder is parsing everything |
| Packets.ZerosAreDummies | SystemView_V252a/Src/SEGGER/SEGGER_SYSVIEW.c:257 | a sync block yields no packets and leaves the parser in step |
| Packets.PutField | SystemView_V252a/Src/SEGGER/SEGGER_SYSVIEW.c:1750-1768 | one parameter is appended in place |
| Trace.ReplayPrefix | SystemView_V252a/Src/SEGGER/SEGGER_SYSVIEW.c:624-748 | every prefix of a possible history is possible, entry by entry |
| Trace.AttemptIsPossible | SystemView_V252a/Src/SEGGER/SEGGER_SYSVIEW.c:641-713 | whatever clock and ring do, sending continues a possible history |
| Trace.EnableStates | SystemView_V252a/Src/SEGGER/SEGGER_SYSVIEW.c:199-201 | EnableState is 0, 1 or 2 after every history |
| Trace.StreamParses | SystemView_V252a/Src/SEGGER/SEGGER_SYSVIEW.c:624-748 | the stream parses into exactly the stored packets, in order, with nothing left over |
| Trace.TimelineIsTrue | SystemView_V252a/Src/SEGGER/SEGGER_SYSVIEW.c:693-709 | deltas added up modulo 2^32 give the true time of every stored packet, overflow packets included |
| Trace.HostReconstructs | SystemView_V252a/Src/SEGGER/SEGGER_SYSVIEW.c:624-748 | a host that has received any part of the stream has recovered a prefix of the packets and true times, and the rest completes them |
| Trace.WholePacketsAreSeen | SystemView_V252a/Src/SEGGER/SEGGER_SYSVIEW.c:624-748 | no packet received completely is held back and nothing is made up from a partial one |
| Trace.GapIsMarked | SystemView_V252a/Src/SEGGER/SEGGER_SYSVIEW.c:645-657 | between a dropped packet and a later stored one lies an overflow packet, unless recording was stopped in between |
| Trace.GapExactly | SystemView_V252a/Src/SEGGER/SEGGER_SYSVIEW.c:645-657 | between a dropped packet and a later stored one an overflow packet comes before any stop if and only if no stop comes before any overflow packet |
| Trace.GapByState | SystemView_V252a/Src/SEGGER/SEGGER_SYSVIEW.c:1703-1712 | the gap is marked if and only if nobody stopped the recording while EnableState was still DROPPING on its account |
| Gaps.StopHidesAGap | SystemView_V252a/Src/SEGGER/SEGGER_SYSVIEW.c:1657-1712 | for any settings without descriptions and tasks: a start, a stop while dropping and a second start, with all packets these calls request, leave a gap without an overflow packet |
| Trace.PlayIsPossible | SystemView_V252a/Src/SEGGER/SEGGER_SYSVIEW.c:641-713 | whatever is sent, started and stopped with whatever room and times, the history is possible |
| Decisions.StoredExactly | SystemView_V252a/Src/SEGGER/SEGGER_SYSVIEW.c:693-712 | at every place of a history a packet was stored if and only if it fitted into the room the host had left, with the clock reading of that moment as its time |
| Decisions.JustifiedAt | SystemView_V252a/Src/SEGGER/SEGGER_SYSVIEW.c:624-748 | every entry was made on the room and time there were; the host only reads on, and no clock reading is used twice |
| Decisions.EagerHostsLoseNothing | SystemView_V252a/Src/SEGGER/SEGGER_SYSVIEW.c:624-748 | a host that empties the ring at each of its turns loses nothing if the ring holds the largest packet |
| Decisions.NothingLostBeforeFull | SystemView_V252a/Src/SEGGER/SEGGER_SYSVIEW.c:624-748 | whatever the host does, nothing is lost while the stream and one more packet fit the ring |
| Trace.DropConservation | SystemView_V252a/Src/SEGGER/SEGGER_SYSVIEW.c:522-551 | every request made while recording has exactly one outcome; DropCount modulo 2^32 is the number of refusals; each loss that starts dropping is matched by an overflow packet, a stop or the dropping state |
| Trace.OverflowTells | SystemView_V252a/Src/SEGGER/SEGGER_SYSVIEW.c:526-535 | an overflow packet has id 1, and the number a host reads in it is the number of drops |
| Trace.OverflowReportsLosses | SystemView_V252a/Src/SEGGER/SEGGER_SYSVIEW.c:504-535 | at an overflow packet all losses so far are the number a host reads in it plus the overflow packets so far (plus stops made while dropping) |
| Commands.FirstCommand | SystemView_V252a/Src/SEGGER/SEGGER_SYSVIEW.c:485-494 | codes below 128 stand alone, the others are followed by one parameter byte |
| Commands.CompleteConcat | SystemView_V252a/Src/SEGGER/SEGGER_SYSVIEW.c:485-494 | complete commands followed by more bytes are understood as before |
| Masks.MaskedExactly | SystemView_V252a/Src/SEGGER/SEGGER_SYSVIEW.c:663-666 | an event is masked if and only if its id is below 32 and its bit of the mask is set; with mask 0 none is |
| Masks.MaskedByOr | SystemView_V252a/Src/SEGGER/SEGGER_SYSVIEW.c:2832-2834 | disabling masks the events of the bits set, and no others |
| Masks.MaskedByAndNot | SystemView_V252a/Src/SEGGER/SEGGER_SYSVIEW.c:2818-2820 | enabling unmasks the events of the bits set, and no others |
| Meanings.ReplyTells | SystemView_V252a/Src/SEGGER/SEGGER_SYSVIEW.c:463-496 | what a host reads in the answer to each command byte: 1 start, 2 stop, 3 time, 4 tasks, 5 system, 6 number of modules, 7 module descriptions, 128 one module, else nothing |
| Meanings.StartTells | SystemView_V252a/Src/SEGGER/SEGGER_SYSVIEW.c:1657-1685 | a start tells, in this order: sync, start event, frequencies and id base and shift, every recording of the system description, the time, every recording of the task list, the number of modules |
| Meanings.StopTells | SystemView_V252a/Src/SEGGER/SEGGER_SYSVIEW.c:1703-1712 | a stop tells the stop event, then recording is off |
| Meanings.InitTells | SystemView_V252a/Src/SEGGER/SEGGER_SYSVIEW.c:1666-1676 | event 24 with both frequencies, the base of ids and the shift 2 |
| Meanings.TimeTells | SystemView_V252a/Src/SEGGER/SEGGER_SYSVIEW.c:1820-1831 | event 13 with the lower and the upper word of the OS time, which together are the time modulo 2^64, or event 12 with the clock |
| Meanings.ModuleAtTells | SystemView_V252a/Src/SEGGER/SEGGER_SYSVIEW.c:2452-2481 | event 22 with index, event offset and name of the module that has the index, if there is one |
| Meanings.DescriptionsTell | SystemView_V252a/Src/SEGGER/SEGGER_SYSVIEW.c:2491-2503 | every recording of every module's description, module after module in list order |
| Meanings.TaskTells | SystemView_V252a/Src/SEGGER/SEGGER_SYSVIEW.c:1750-1768 | event 9 with id, priority and name, event 21 with id, stack base, stack size and 0 |
| Meanings.ShrunkIdExactly | SystemView_V252a/Src/SEGGER/SEGGER_SYSVIEW.c:2348-2350 | a host gets an id back from its shrunk form if and only if it is a multiple of 4 away from the base |
| Sessions.CommandRead | SystemView_V252a/Src/SEGGER/SEGGER_SYSVIEW.c:457-498 | reading one complete command keeps the sequence of executed commands equal to the sequence sent |
| Sessions.FollowsThen | SystemView_V252a/Src/SEGGER/SEGGER_SYSVIEW.c:736-742 | steps of a recorder compose, with commands executed in between or not |
| Sessions.HandledDoes | SystemView_V252a/Src/SEGGER/SEGGER_SYSVIEW.c:736-742 | executing a command is a step in which nothing is done on behalf of the caller |
| Sessions.PromptThen | SystemView_V252a/Src/SEGGER/SEGGER_SYSVIEW.c:736-742 | occasions to execute commands add up: after n sends n commands have been executed, or all that were waiting |
| Sessions.SendFollows | SystemView_V252a/Src/SEGGER/SEGGER_SYSVIEW.c:736-742 | a send that executes a command, or finds none waiting, is a step that keeps up with the commands |
| Sessions.StillWitnessed | SystemView_V252a/Src/SEGGER/SEGGER_SYSVIEW.c:457-498 | what is noted with an executed command (settings, whether recording was off, the time reading, the place in the history) stays true |
| Sessions.AttemptDoes | SystemView_V252a/Src/SEGGER/SEGGER_SYSVIEW.c:641-713 | with or without an overflow packet, one send is one request, and exactly the masked events are filtered |
| Recorder.PutHeader | SystemView_V252a/Src/SEGGER/SEGGER_SYSVIEW.c:673-689 | id and length are filled in backwards within the reserve |
| Recorder.PutOverflow | SystemView_V252a/Src/SEGGER/SEGGER_SYSVIEW.c:526-538 | an overflow packet fits 11 bytes and has the layout of an overflow event |
| Recorder.Frame | SystemView_V252a/Src/SEGGER/SEGGER_SYSVIEW.c:673-696 | the packet completed in place is header, payload and delta |
| Recorder.Recorder.constructor | SystemView_V252a/Src/SEGGER/SEGGER_SYSVIEW.c:1226-1267 | initially recording is off, no command has been read or is being handled, nothing is stored, no module is registered and the clock has been read once |
| Recorder.Recorder.StoreSkip | SystemView_V252a/Src/SEGGER/SEGGER_SYSVIEW.c:707-712 | the ring and the history agree after each store, whether accepted or not, and the outcome is noted with the room it was decided on |
| Recorder.Recorder.TrySendOverflowPacket | SystemView_V252a/Src/SEGGER/SEGGER_SYSVIEW.c:522-551 | an overflow packet is stored if it fits and ends dropping; otherwise the drop is counted |
| Recorder.Recorder.StorePacket | SystemView_V252a/Src/SEGGER/SEGGER_SYSVIEW.c:673-712 | the caller's payload is stored with its time if it fits; otherwise dropping starts |
| Recorder.Recorder.Transmit | SystemView_V252a/Src/SEGGER/SEGGER_SYSVIEW.c:663-712 | a masked event leaves no trace but its outcome |
| Recorder.Recorder.Attempted | SystemView_V252a/Src/SEGGER/SEGGER_SYSVIEW.c:641-713 | the three states of EnableState are handled as the outcome function says, with the actual clock and room; the host may read between the overflow packet and the event |
| Recorder.Recorder.CheckHost | SystemView_V252a/Src/SEGGER/SEGGER_SYSVIEW.c:736-742 | at most one command is executed, exactly one if one is waiting, and none inside a command |
| Recorder.Recorder.SendPacket | SystemView_V252a/Src/SEGGER/SEGGER_SYSVIEW.c:624-748 | outcome, own packet and executed commands of one call; terminates with commands nested at most once |
| Recorder.Recorder.HandleWaiting | SystemView_V252a/Src/SEGGER/SEGGER_SYSVIEW.c:736-742 | a waiting command is executed, and nothing else |
| Recorder.Recorder.ReadCommand | SystemView_V252a/Src/SEGGER/SEGGER_SYSVIEW.c:457-494 | one command is taken from the ring, with its parameter if it has one, the host publishing in between |
| Recorder.Recorder.HandleIncomingPacket | SystemView_V252a/Src/SEGGER/SEGGER_SYSVIEW.c:457-498 | one command is read and answered completely, according to the settings and the state of that moment, with what belongs to its byte |
| Recorder.Recorder.Execute | SystemView_V252a/Src/SEGGER/SEGGER_SYSVIEW.c:463-496 | every command does what its script says |
| Recorder.Recorder.Encode | SystemView_V252a/Src/SEGGER/SEGGER_SYSVIEW.c:1314-1323 | parameters are encoded behind the reserve and leave room for the time |
| Recorder.Recorder.Record | SystemView_V252a/Src/SEGGER/SEGGER_SYSVIEW.c:1314-1323 | what is requested is what was encoded, although a command executed afterwards reuses the buffer |
| Recorder.Recorder.RecordSystime | SystemView_V252a/Src/SEGGER/SEGGER_SYSVIEW.c:1820-1831 | the time recorded is that of the next reading of the OS time, or of the clock if there is none |
| Recorder.Recorder.GetSysDesc | SystemView_V252a/Src/SEGGER/SEGGER_SYSVIEW.c:1722-1737 | an init packet followed by what the callback records |
| Recorder.Recorder.SendModule | SystemView_V252a/Src/SEGGER/SEGGER_SYSVIEW.c:2452-2481 | the module with the index is announced if it exists |
| Recorder.Recorder.SendModuleDescription | SystemView_V252a/Src/SEGGER/SEGGER_SYSVIEW.c:2491-2503 | all modules describe themselves in list order |
| Recorder.Recorder.SendNumModules | SystemView_V252a/Src/SEGGER/SEGGER_SYSVIEW.c:2512-2520 | the number of modules is recorded |
| Recorder.Recorder.Begin | SystemView_V252a/Src/SEGGER/SEGGER_SYSVIEW.c:1658-1665 | recording is on, and the sync block is stored if it fits |
| Recorder.Recorder.Introduce | SystemView_V252a/Src/SEGGER/SEGGER_SYSVIEW.c:1666-1685 | start event, init, description, time, tasks and number of modules, in this order |
| Recorder.Recorder.Start | SystemView_V252a/Src/SEGGER/SEGGER_SYSVIEW.c:1657-1688 | the start script is followed exactly when recording was off, with a time read during the call |
| Recorder.Recorder.Stop | SystemView_V252a/Src/SEGGER/SEGGER_SYSVIEW.c:1703-1712 | a stop event is requested if recording was on, and recording is off afterwards |
| Recorder.Recorder.SendTaskInfo | SystemView_V252a/Src/SEGGER/SEGGER_SYSVIEW.c:1750-1768 | both packets are the caller's although the buffer is reused between them |
| Recorder.Recorder.RecordModuleDescription | SystemView_V252a/Src/SEGGER/SEGGER_SYSVIEW.c:2411-2440 | the index sent is the position of the module modulo 256, past the end for an unregistered one, and finds the same module again among at most 256; the offset is that of the module |
| Recorder.Recorder.RegisterModule | SystemView_V252a/Src/SEGGER/SEGGER_SYSVIEW.c:2370-2398 | the new module is first in the list, the settings change accordingly, and it is announced with index 0, followed by its description |
| Recorder.Recorder.EnableEvents | SystemView_V252a/Src/SEGGER/SEGGER_SYSVIEW.c:2818-2820 | bits of the mask are cleared and nothing else changes |
| Recorder.Recorder.DisableEvents | SystemView_V252a/Src/SEGGER/SEGGER_SYSVIEW.c:2832-2834 | bits of the mask are set and nothing else changes |
| Recorder.Recorder.SetRAMBase | SystemView_V252a/Src/SEGGER/SEGGER_SYSVIEW.c:1280-1282 | the base changes and nothing else |
| Modules.OffsetCountsEarlierEvents | SystemView_V252a/Src/SEGGER/SEGGER_SYSVIEW.c:2378-2388 | event offsets count the events registered before, from 512 modulo 2^32 |
| Modules.RangesTile | SystemView_V252a/Src/SEGGER/SEGGER_SYSVIEW.c:2370-2398 | if no offset has run over, every id from 512 up belongs to exactly one module, and no other id to any |
| Modules.RangesTileExactly | SystemView_V252a/Src/SEGGER/SEGGER_SYSVIEW.c:2370-2398 | the ranges tile in this way if and only if no module with events has an offset that has run over 32 bits |
| Modules.Registry.Register | SystemView_V252a/Src/SEGGER/SEGGER_SYSVIEW.c:2370-2392 | a new module is prepended to an acyclic list with the right offset and count |
| Modules.Registry.Find | SystemView_V252a/Src/SEGGER/SEGGER_SYSVIEW.c:2456-2463 | the walk ends at the module with the index, or at none |
| Modules.Registry.IndexOf | SystemView_V252a/Src/SEGGER/SEGGER_SYSVIEW.c:2415-2423 | the walk ends at the only position of the module modulo 256, past the end for an unregistered one |
| Modules.Registry.IndexToSend | SystemView_V252a/Src/SEGGER/SEGGER_SYSVIEW.c:2411-2440 | the index sent is the position modulo 256, past the end for an unregistered module; with at most 256 modules it finds the same module again |
| Calls.DoneMeans | SystemView_V252a/Src/SEGGER/SEGGER_SYSVIEW.c:1657-2808 | what a host reads of each call, in ids and values: recordings, time, tasks, modules, start, stop, prints of both kinds |
| Calls.CommandIsCall | SystemView_V252a/Src/SEGGER/SEGGER_SYSVIEW.c:463-496 | a command gets what the application gets for the call it stands for |
| Calls.StepsTally | SystemView_V252a/Src/SEGGER/SEGGER_SYSVIEW.c:2378-2391 | after any calls the number of modules is theirs modulo 256, and each event offset counts the events registered before from 512 modulo 2^32 |
| Calls.StepsFilter | SystemView_V252a/Src/SEGGER/SEGGER_SYSVIEW.c:663-666 | in a run exactly those events are filtered, of the ones tried, whose bits the calls so far have disabled |
| Calls.DisabledSince | SystemView_V252a/Src/SEGGER/SEGGER_SYSVIEW.c:2818-2834 | after disabling a mask, until the mask is changed again, exactly its events and those disabled before are disabled |
| Calls.NothingFiltered | SystemView_V252a/Src/SEGGER/SEGGER_SYSVIEW.c:663-666 | if nothing is ever disabled nothing is filtered |
| EndToEnd.Do | SystemView_V252a/Src/SEGGER/SEGGER_SYSVIEW.c:624-748 | one call of the application, printing and module calls included, asks for exactly what the settings and the state of that moment demand |
| EndToEnd.StepsServe | SystemView_V252a/Src/SEGGER/SEGGER_SYSVIEW.c:624-748 | after any sequence of calls requests and answers to commands follow each other in order |
| EndToEnd.StepsConform | SystemView_V252a/Src/SEGGER/SEGGER_SYSVIEW.c:624-748 | after any sequence of conforming calls everything stored can be taken apart |
| EndToEnd.Run | SystemView_V252a/Src/SEGGER/SEGGER_SYSVIEW.c:624-748 | from any state, any sequence of calls, host schedule and clock: each call does what it should, commands are executed in the order sent, answered completely and as soon as there is a send, drops are conserved and do not happen with a host that always empties the ring, and the host recovers packets and true times from any part of the stream |
| EndToEnd.FreshRun | SystemView_V252a/Src/SEGGER/SEGGER_SYSVIEW.c:1226-1267 | the same from initialisation on, with the first and the last snapshot those of the recorder: the history is exactly what the calls and the host's commands ask for, every call means what it should, and exactly the disabled events are filtered |
| EndToEnd.Summary | SystemView_V252a/Src/SEGGER/SEGGER_SYSVIEW.c:624-748 | what is known at the end of a run, from the steps of the run |
| Conformance.FieldsConform | SystemView_V252a/Src/SEGGER/SEGGER_SYSVIEW.c:663-689 | parameters in layout order make an event a host can take apart |
| Conformance.ScriptConforms | SystemView_V252a/Src/SEGGER/SEGGER_SYSVIEW.c:457-498 | all answers to commands can be taken apart if the callbacks' packets can |
| Conformance.LogConforms | SystemView_V252a/Src/SEGGER/SEGGER_SYSVIEW.c:624-748 | if all requests conform then so does everything stored |
| Conformance.StepConforms | SystemView_V252a/Src/SEGGER/SEGGER_SYSVIEW.c:624-748 | a step with conforming requests stores conforming packets only, answers to commands included |
| Builtins.BuiltinFits | SystemView_V252a/Src/SEGGER/SEGGER_SYSVIEW_ConfDefaults.h:153 | the packets of the library fit the 227-byte buffer with reserve and time |
| Builtins.BuiltinConforms | SystemView_V252a/Src/SEGGER/SEGGER_SYSVIEW.c:1833-2193 | the packets of the library follow the layouts of their ids |
| Builtins.BuiltinTells | SystemView_V252a/Src/SEGGER/SEGGER_SYSVIEW.c:1833-2193 | id and values a host reads in each packet of the library |
| Builtins.PercentsExactly | SystemView_V252a/Src/SEGGER/SEGGER_SYSVIEW.c:787-793 | the arguments counted are the percent signs |
| Builtins.HostTells | SystemView_V252a/Src/SEGGER/SEGGER_SYSVIEW.c:818-828 | event 26 with the format, the options, the number of arguments and the arguments in order |
| Builtins.HostFieldsFit | SystemView_V252a/Src/SEGGER/SEGGER_SYSVIEW.c:763-830 | a host-formatted print with the longest text and 16 arguments fits, because their number takes one byte |
| Builtins.VPrintHost | SystemView_V252a/Src/SEGGER/SEGGER_SYSVIEW.c:763-830 | one argument is taken per percent sign, two for a doubled one, and at most 16 |
| PrintBuffer.PrintTells | SystemView_V252a/Src/SEGGER/SEGGER_SYSVIEW.c:857-862 | event 26 with the text, the options and 0 |
| PrintBuffer.FlattenConcat | SystemView_V252a/Src/SEGGER/SEGGER_SYSVIEW.c:844-868 | the texts of packets are put together in order |
| PrintBuffer.CompletePayload | SystemView_V252a/Src/SEGGER/SEGGER_SYSVIEW.c:857-862 | length, text, options and a 0 are completed in place |
| PrintBuffer.Printer.Flush | SystemView_V252a/Src/SEGGER/SEGGER_SYSVIEW.c:857-867 | the buffered text is sent as one packet and the buffer starts afresh |
| PrintBuffer.Printer.StoreChar | SystemView_V252a/Src/SEGGER/SEGGER_SYSVIEW.c:844-868 | no character is lost, whether the buffer is sent or not |
| PrintBuffer.Printer.Finish | SystemView_V252a/Src/SEGGER/SEGGER_SYSVIEW.c:1181-1186 | packets are never empty and all but the last hold exactly 128 characters |
| Numbers.DigitNames | SystemView_V252a/Src/SEGGER/SEGGER_SYSVIEW.c:887 | digits are the characters 0 to 9 and A to F |
| Numbers.NumeralReadsBack | SystemView_V252a/Src/SEGGER/SEGGER_SYSVIEW.c:942-947 | the digits printed have the value of the number |
| Numbers.NumeralIsUnique | SystemView_V252a/Src/SEGGER/SEGGER_SYSVIEW.c:942-947 | and no other digits in as many places have |
| Numbers.WidthExactly | SystemView_V252a/Src/SEGGER/SEGGER_SYSVIEW.c:899-903 | the width loop counts the digits without leading zeros |
| Numbers.TopDigit | SystemView_V252a/Src/SEGGER/SEGGER_SYSVIEW.c:943-946 | quotient and remainder by the place value split off the first digit |
| Numbers.InField | SystemView_V252a/Src/SEGGER/SEGGER_SYSVIEW.c:977-1035 | a number in its field is as long as the field or the number, whichever is longer |
| Numbers.IntReadsBack | SystemView_V252a/Src/SEGGER/SEGGER_SYSVIEW.c:977-1035 | for all flags, widths and precisions the text reads back to the number |
| Numbers.UnsignedReadsBack | SystemView_V252a/Src/SEGGER/SEGGER_SYSVIEW.c:886-959 | so does the text of an unsigned number |
| TargetPrintf.PlaceValueExactly | SystemView_V252a/Src/SEGGER/SEGGER_SYSVIEW.c:928-938 | the place value fits 32 bits if and only if the precision is at most 10 (base 10) or 8 (base 16) |
| TargetPrintf.NaturalWidth | SystemView_V252a/Src/SEGGER/SEGGER_SYSVIEW.c:899-903 | the width loop computes the natural width |
| TargetPrintf.FirstPlace | SystemView_V252a/Src/SEGGER/SEGGER_SYSVIEW.c:928-938 | the place value of the first digit is found without overflow |
| TargetPrintf.DigitStep | SystemView_V252a/Src/SEGGER/SEGGER_SYSVIEW.c:943-946 | each quotient is the next digit and leaves the rest of the numeral to be printed |
| TargetPrintf.PrintDigits | SystemView_V252a/Src/SEGGER/SEGGER_SYSVIEW.c:942-947 | the digit loop prints the numeral |
| TargetPrintf.PrintUnsigned | SystemView_V252a/Src/SEGGER/SEGGER_SYSVIEW.c:886-959 | digits, precision and padding as the reference text says |
| TargetPrintf.PrintInt | SystemView_V252a/Src/SEGGER/SEGGER_SYSVIEW.c:977-1035 | sign, digits, precision and padding as the reference text says |
| Formats.ParseIsComplete | SystemView_V252a/Src/SEGGER/SEGGER_SYSVIEW.c:1073-1180 | taking a format apart accounts for each of its characters |
| FormatInterpreter.ScanFields | SystemView_V252a/Src/SEGGER/SEGGER_SYSVIEW.c:1085-1128 | flags, width and precision are read up to where they end |
| FormatInterpreter.ScanModifiers | SystemView_V252a/Src/SEGGER/SEGGER_SYSVIEW.c:1129-1137 | with length modifiers the position ends up behind the conversion character |
| FormatInterpreter.ScanConversion | SystemView_V252a/Src/SEGGER/SEGGER_SYSVIEW.c:1085-1172 | flags, width, precision and kind are read, and the position is where the interpreter goes on |
| FormatInterpreter.Convert | SystemView_V252a/Src/SEGGER/SEGGER_SYSVIEW.c:1081-1172 | one conversion prints its reference text and uses its argument |
| FormatInterpreter.Interpret | SystemView_V252a/Src/SEGGER/SEGGER_SYSVIEW.c:1073-1180 | the loop prints what the reference formatter yields |
| FormatInterpreter.VPrintTarget | SystemView_V252a/Src/SEGGER/SEGGER_SYSVIEW.c:1050-1193 | the packets sent concatenate to the reference formatter's output, all full but the last, none empty |
| Conversions.HexReadsBack | SystemView_V252a/Src/SEGGER/SEGGER_SYSVIEW.c:1157-1161 | %x and %X: the text reads back with base 16 to the argument as U32, and is as long as field or number |
| Conversions.UnsignedConversionReadsBack | SystemView_V252a/Src/SEGGER/SEGGER_SYSVIEW.c:1153-1156 | %u: the text reads back with base 10 to the argument as U32, and is as long as field or number |
| Conversions.PointerReadsBack | SystemView_V252a/Src/SEGGER/SEGGER_SYSVIEW.c:1162-1165 | %p: 8 digits that read back with base 16 |
| Conversions.SignedReadsBack | SystemView_V252a/Src/SEGGER/SEGGER_SYSVIEW.c:1149-1152 | %d: the text reads back with base 10 to the argument |
| Conversions.OtherConversions | SystemView_V252a/Src/SEGGER/SEGGER_SYSVIEW.c:1141-1172 | %c prints the character, a doubled percent sign itself, unknown letters nothing; which letters take an argument |
| Conversions.NumberStands | SystemView_V252a/Src/SEGGER/SEGGER_SYSVIEW.c:886-1035 | where sign, digits and padding stand: a minus flag pads with spaces behind, a zero flag without precision with zeros behind the sign, else spaces in front; a plus flag shows the sign |
| Conversions.FormatNumberReads | SystemView_V252a/Src/SEGGER/SEGGER_SYSVIEW.c:1096-1128 | widths and precisions are decimal numbers modulo 2^32 |
| Conversions.WidthAndPrecision | SystemView_V252a/Src/SEGGER/SEGGER_SYSVIEW.c:1096-1128 | which digits are the width and which the precision |
| Conversions.PartsBelong | SystemView_V252a/Src/SEGGER/SEGGER_SYSVIEW.c:1081-1137 | flags are of -0+#, widths and precisions digits, modifiers l and h |
| Conversions.BareConversion | SystemView_V252a/Src/SEGGER/SEGGER_SYSVIEW.c:1073-1180 | the format of a percent sign and a letter prints just that conversion |
| LengthModifiers.ModifiersLoseCharacters | SystemView_V252a/Src/SEGGER/SEGGER_SYSVIEW.c:1129-1137 | as long as no percent sign is swallowed, for any arguments: the output is what the format means if and only if it has no length modifiers, and otherwise exactly the swallowed characters are missing |
| LengthModifiers.SwallowedPercentExactly | SystemView_V252a/Src/SEGGER/SEGGER_SYSVIEW.c:1129-1172 | a swallowed percent sign with no arguments used behind its conversion: the output is what the format means if and only if that conversion is a bare %c for the letter c |
| LengthModifiers.LossesMayCancel | SystemView_V252a/Src/SEGGER/SEGGER_SYSVIEW.c:1129-1172 | a format with length modifiers and unknown conversions whose output is what it means |

## Left out

- Other target code: projects, boards, FreeRTOS, Wi-Fi and SDK sources are hardware plumbing around this stack.
- Interrupt locks, memory barriers and compiler reordering: writers are serialised and steps happen in program order.
- Byte-loop copies, timestamps below 32 bits and the post-mortem mode, except for the overwriting write as a ring operation: not the shipped configuration.
- Buffer allocation, naming and flag setters, the acID string, `_EncodeData`, `GetKey` and `HasKey`: they would only add easy members.
- The recorders with two to ten numbers are one generic recorder over a list of parameters.
- NUL terminators: a C string is the sequence of characters before its zero byte, except in the format scanner.
- RingModel: offsets are unbounded integers below the buffer size; 32-bit wrap-around is written out where the code relies on it.
- UpBuffer.UpBuffer.WriteWithOverwriteNoLock: no host reads the ring meanwhile, as its note in the source demands.
- OverwriteModel.ShortDataIsKept: in buffers above 2 GiB only with the read offset not ahead of the write offset; `OverwriteExactly` says when else.
- UpBuffer.UpBuffer.WriteBlocking: termination needs a host that never stops reading, unless the data fits.
- UpBuffer.TrimIsCharByChar: with a host reading in between, characters that did not fit at the beginning may be kept; which ones depends on its schedule.
- EndToEnd.Run: events a host cannot take apart (id 0, id 23, parameters against the layout of an id below 24, ids or lengths of 15 bits or more; exactly these, by `PacketRoundTripExactly`) make the statement about the host conditional; calls are made outside of commands, except those of the callbacks; no module is registered twice, and none described while there are none, as the source demands.
- Trace.GapIsMarked: stops are excluded; with them `Trace.GapExactly` applies.
- LengthModifiers.SwallowedPercentExactly: further length modifiers, a swallowed doubled percent sign, or arguments used behind the swallowed percent sign, are excluded; then the outputs may agree by coincidence of texts, as `LossesMayCancel` shows, and nothing short of comparing them decides.
- TargetPrintf.PrintInt: the smallest 32-bit integer and precisions beyond 10 or 8 digits are excluded; negating the former is undefined in C.
- FormatInterpreter.VPrintTarget: formats that end inside a conversion, or directly behind one with length modifiers, are excluded, because the interpreter then reads past the terminator; numbers and precisions as for `PrintInt`.
- TargetPrintf.PrintUnsigned: precisions as for `PrintInt`.
