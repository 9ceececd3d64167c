# USB switch controller: a Dafny model

The firmware drives latching coax relays, a high-voltage supply and a serial EEPROM from an STM32,
answers command packets over USB and offers a small shell on a second USB interface; a Perl library
is its host side. This project models its algorithms and state machines and proves what they promise
over all inputs and all runs. Where the code falls short of its evident intent, the code is modelled
as it stands, the exact condition under which it still meets the intent is proved, and in three
places the intended theorem is proved beside it for the repaired form.

| modules | what they model |
|---|---|
| Bits, CStrings, Wrappers | C's unsigned bit operators, bit strings on a serial line, NUL-terminated memory, null pointers |
| EepromChip, Eeprom9366 | the EEPROM as a bit-serial device, and its driver |
| Fletcher, Instrument | the packet checksum, the packet buffers and the command dispatcher |
| EepromLayout, AttenSwitch, Cdcacm, EndToEnd | the EEPROM map, the host's reader and writer, the firmware's boot-time reader, and all layers together |
| PrintfSpec, PrintfFormat, PrintfStdarg, PrintfMeaning | numbers and padding, the format language, the formatter, and what each directive prints in bytes |
| LineEditor, Tokenizer, Shell | the shell's line editor, its in-place tokenizer, and one turn of the shell from keys to arguments |
| RingBuf | the ticket / compare-and-swap / semaphore queue under every interleaving |
| Console | the packetising console stream |
| HvSupply, Spdt | the high-voltage supply over time, and the relay pin sequences |
| HiresTimer, HeapBreak | the 64-bit tick counter and the heap break |

Classes carry the state the source updates in place; each method is proved against a function of the
old state, and the results about those functions are lemmas. `dafny verify dfyconfig.toml` checks
everything.

## Where the code, its comments and its intent part

- A reply's checksum leaves out the last two bytes of the packet (app/instr_task.c:64), so the cell a
  READEE reply carries is not protected: `Instrument.UndetectedCorruption`, `Instrument.ReadReplyChecksumIsBlind`.
- The first byte of an identity reply is the product ID that the firmware read from the EEPROM when it
  booted (app/instr_task.c:116, app/cdcacm.c:432-435), so a reply also depends on that:
  `EndToEnd.ConfigureAndBoot`.
- ID, ECHO and READEE replies carry the request's version and command instead of ACK (app/instr_task.c:228-250).
- The host may write strings longer than the firmware's buffers; the exact lengths that are safe are
  in `Cdcacm.HostAndFirmwareAgree`.
- A string that ends in the EEPROM's very last cell is written but never read back, and strings that run
  past it come round to cell 0 and up: `EepromLayout.RestoresIff`, `EepromLayout.LastCellIsUnread` and,
  cell by cell, `EepromLayout.SomeWritten`.
- `eePolarity` cannot store (nonzero, zero): `AttenSwitch.PolarityStored`.
- Left adjustment with zero padding appends zeros to the digits, where section 7.19.6.1 of ISO C99
  ignores the zero flag: `PrintfSpec.FieldReadsBack` says exactly when the value survives,
  and `PrintfSpec.LeftZeroAppends` shows 5 printed as 50000.
- A quote is looked for only up to the first terminator already planted, so a non-empty quoted argument
  is accepted only as the first one. A line of 127 characters that ends in a word loses the last one;
  `Tokenizer.RoundTrip` says exactly which lines come back whole; `Tokenizer.QuotedSecondIsRejected` and
  `Tokenizer.LongestLineIsCut` are lines that do not.
- An erase on the empty line wraps the editor's index: `LineEditor.UnderflowIff`.
- The queue in app/ring_buf.c is safe exactly with one producer or one slot: `RingBuf.DeliversInOrder`.
  Its line 22 indexes with `writePosition` where the local `writepos` is meant.
- The console counts its buffer modulo 64, so the waits for a full packet are never entered and every
  completed block of 64 bytes is overwritten: `Console.OnlyBlocksAreLost`, `Console.StreamConserved` and
  `Console.FullBlockVanishes`, with the intended form in `Console.RepairedConserves`.
- Switching the supply off from the shell leaves its timer running: `HvSupply.OffLeavesTimerRunning`.
- The tick counter's carry is stored back without its increment: `HiresTimer.WrittenIsExactIff` and
  `HiresTimer.WrittenGoesBack`, with the intended form in `HiresTimer.RepairedIsExact`.

## Assumptions

- The EEPROM part (only its instruction shape is in the repository, app/eeprom9366.c:19): it skips zeros
  until the start bit, gives one dummy bit before read data, ignores surplus clocks, executes when chip
  select falls, comes up write-protected, and a write replaces the cell.
- A USB endpoint is a yes-or-no answer; the host's packets arrive whole and one at a time, and where the host
  waits for a reply the endpoint takes it at one of its ten offers, which one may differ from reply to reply.
- Time is a counter in milliseconds; the supply's timer callback runs when it is due and only while the
  calling code waits. Relay and supply calls do not overlap.
- A relay moves when exactly one of its coils is powered for a whole 80 ms pulse.
- Values in the queue of app/ring_buf.c are not NULL, which its swap takes for granted.

## Model

| member | source | states |
|---|---|---|
| EepromChip.WindowExecutes | app/eeprom9366.c:19-20 | a chip-select window of zeros, a start bit and an instruction executes exactly that instruction, and its output follows the bits received so far |
| Eeprom9366.TransactionOnWire | app/eeprom9366.c:41-71 | the shifts and masks put three zeros, the command, nine address bits, eight data bits and a surplus zero on the wire |
| Eeprom9366.CommandOnWire | app/eeprom9366.c:73-94 | the same for the two-byte instructions |
| Eeprom9366.CallMeaning | app/eeprom9366.c:104-133 | each call's window executes the instruction the caller asked for at the address modulo 512, and a read returns that cell |
| Eeprom9366.RunRefinesArray | app/eeprom9366.c:96-133 | any sequence of driver calls, bit by bit through the device, is the same sequence of operations on a 512-byte array, answers included |
| Eeprom9366.RunEnablesFirst | app/eeprom9366.c:96-126 | in every run an enable goes out before the first window that could change a cell of any part |
| Eeprom9366.Driver.SpiTransaction | app/eeprom9366.c:41-71 | three ordered transfers inside one window, and the byte received with the last one |
| Eeprom9366.Driver.SpiCMD | app/eeprom9366.c:73-94 | two ordered transfers inside one window |
| Eeprom9366.Driver.WriteEnable | app/eeprom9366.c:96-102 | enables once per power-up and keeps the wire in order |
| Eeprom9366.Driver.EraseAll | app/eeprom9366.c:104-109 | every cell becomes 0xff |
| Eeprom9366.Driver.Erase | app/eeprom9366.c:111-117 | exactly the addressed cell becomes 0xff |
| Eeprom9366.Driver.Write | app/eeprom9366.c:120-126 | exactly the addressed cell takes the data |
| Eeprom9366.Driver.Read | app/eeprom9366.c:129-133 | returns the addressed cell and changes none |
| Fletcher.FletcherChecksum.Fletch | app/usbcmdio.h:189-195 | one in-place step on the two 16-bit sums, which stay below 255 |
| Fletcher.StreamMeaning | app/usbcmdio.h:189-195 | after any bytes the sums are the plain and the position-weighted sum modulo 255 |
| Fletcher.StreamConcat | app/usbcmdio.h:182-195 | the state of two streams in a row follows from their states and the second one's length |
| Fletcher.CollisionIffCongruent | app/instr_task.c:63-67 | two byte strings share a checksum exactly when both sums agree modulo 255 |
| Fletcher.TwoByteCollisions | app/instr_task.c:63-67 | exactly which changes of at most two bytes go unnoticed |
| Fletcher.TwoByteDetection | app/instr_task.c:63-67 | at a distance coprime to 255 only changes that keep both bytes modulo 255 do |
| Fletcher.OneByteDetection | app/instr_task.c:63-67 | a single changed byte is missed only when 0 and 255 are confused |
| Instrument.HistoryIndependence | app/instr_task.c:213-269 | a reply's wire bytes are a function of the request, the EEPROM and the identity record, whatever the queue item and the output buffer held before |
| Instrument.ReplyStatus | app/instr_task.c:213-266 | version, length and status of every reply by command number: 0 for the requests that only act, 1 for unknown ones, the request's own for ID, ECHO and READEE |
| Instrument.ReplyChecksum | app/instr_task.c:58-67 | the checksum field is the plain and then the weighted sum modulo 255 of the reply but its last two bytes, the field itself zero |
| Instrument.StoredBytes | app/instr_task.c:242-257 | command 14 writes one cell, 16 erases, no other changes any |
| Instrument.RunHistoryIndependence | app/instr_task.c:213-269 | the same over every run that really carries the buffers along |
| Instrument.UndetectedCorruption | app/instr_task.c:50-70 | exactly which single-byte corruptions of a reply pass a checksum test |
| Instrument.ReadReplyChecksumIsBlind | app/instr_task.c:247-251 | a READEE reply's header and checksum are the same for every value of the cell |
| Instrument.EchoReturnsRequest | app/instr_task.c:232-234 | an echo returns version, length, command and payload unchanged, with a valid checksum |
| Instrument.InstrumentTask.ReadPacket | app/cdcacm.c:268-287 | the queue item is the flow byte, the packet, and leftovers |
| Instrument.InstrumentTask.CopyPacket | app/instr_task.c:83-90 | copies length + 1 bytes when that is less than 248, nothing otherwise |
| Instrument.CopiedBytes | app/instr_task.c:83-90 | byte by byte, for any length field |
| Instrument.InstrumentTask.GetInstrumentID | app/instr_task.c:105-152 | the payload becomes the identity record, which starts with the low byte of the product ID read at boot, and the length 22 |
| Instrument.InstrumentTask.ComputeChecksum | app/instr_task.c:58-67 | the checksum over buffer bytes 1 to length - 2 with its own field zeroed |
| Instrument.InstrumentTask.WritePacket | app/instr_task.c:50-80 | seals the reply and delivers it if the endpoint takes one of ten offers; every offer has its own answer |
| Instrument.InstrumentTask.Dispatch | app/instr_task.c:213-266 | for any 256 buffer bytes: the reply buffer, the EEPROM and the peripheral calls, with every access in bounds |
| Instrument.InstrumentTask.Serve | app/instr_task.c:213-269 | a well-formed request is executed once and answered from the request, the EEPROM and the identity record alone |
| EepromLayout.SomeWritten | perl/AttenSwitch.pm:779-815 | for strings of any length, what every cell holds: the last string byte that fell on it since its own header was written, or that header's byte, or what it held before |
| EepromLayout.AllWritten | perl/AttenSwitch.pm:779-815 | when the strings fit, every header points at its string and every string is in place |
| EepromLayout.StringsInARow | perl/AttenSwitch.pm:779-815 | strings that fit stand one behind the other from 0x30 on |
| EepromLayout.RoundTrip | perl/AttenSwitch.pm:714-817 | for strings that fit the part, reading returns what was written exactly when each is at most 255 bytes and the last cell stays free |
| EepromLayout.RestoresIff | perl/AttenSwitch.pm:714-817 | for strings of any length: they come back and leave the rest of the map alone, whatever the part held, exactly when each is at most 255 bytes and the last cell stays free |
| EepromLayout.WrappedMayReadBack | perl/AttenSwitch.pm:714-817 | two equal strings that run past the last cell and read back only because they overwrite their own headers |
| EepromLayout.LastCellIsUnread | perl/AttenSwitch.pm:742-753 | two strings of which the second ends in the last cell, and is read back as nothing |
| EepromLayout.LongStringIsLost | perl/AttenSwitch.pm:783 | a string over 255 bytes never comes back |
| EepromLayout.WriteStringsFrame | perl/AttenSwitch.pm:770-817 | magic, VID, PID, polarity and every other cell below the strings and outside the headers: unchanged exactly as long as the strings stop short of coming round to it, otherwise the last string byte that did |
| EepromLayout.ReadsAnyPart | perl/AttenSwitch.pm:714-753 | what is read from any part, whoever wrote it: pointer and length from cells 5, 8, 0xb and 0x10 on, tested against 0x20 and 512 |
| AttenSwitch.MadeIsWellFormed | perl/AttenSwitch.pm:876-894 | every packet the host builds is a request the firmware understands |
| AttenSwitch.MadeBytes | perl/AttenSwitch.pm:876-919 | version, length, command and payload sum of a packet stand where they should, low byte first |
| AttenSwitch.WrittenCell | perl/AttenSwitch.pm:547-561 | a write packet changes exactly the cell at its address modulo 512 |
| AttenSwitch.ReadCell | perl/AttenSwitch.pm:516-534 | the third payload byte of a read reply is that cell, under the request's command code |
| AttenSwitch.PolarityStored | perl/AttenSwitch.pm:830-841 | the pair stored is the pair asked for unless that is (nonzero, zero), which is stored as two ones |
| AttenSwitch.Host.SendPacket | perl/AttenSwitch.pm:367-397 | one request, one reply; success means the reply says ACK |
| AttenSwitch.Host.ReadEE | perl/AttenSwitch.pm:516-534 | returns the cells from the address on, one packet each, and changes none |
| AttenSwitch.Host.WriteEE | perl/AttenSwitch.pm:547-561 | stores the bytes from the address on, one packet each |
| AttenSwitch.Host.EraseAllEE | perl/AttenSwitch.pm:573-582 | every cell becomes 0xff and the reply is an ACK |
| AttenSwitch.Host.Identify | perl/AttenSwitch.pm:594-606 | returns the sixteen bytes of the identity record, the product first, and changes no cell |
| AttenSwitch.Host.Spdt | perl/AttenSwitch.pm:436-447 | the firmware is told exactly the two bytes, the reply is an ACK, and no cell changes |
| AttenSwitch.Host.EeMagic | perl/AttenSwitch.pm:660-672 | writes or reads cell 0 |
| AttenSwitch.Host.EeVidPid | perl/AttenSwitch.pm:685-698 | writes both IDs low byte first into cells 1 to 4 and nowhere else, with the default VID for a missing one, or reads them |
| AttenSwitch.Host.EePolarity | perl/AttenSwitch.pm:830-841 | cell 0xe becomes one exactly if the first value is nonzero, cell 0xf exactly if the second is, or is missing or zero while the first is nonzero; no other cell moves; the pair returned has the first in place of a missing or zero second |
| AttenSwitch.Host.WriteEEString | perl/AttenSwitch.pm:781-788 | one header and its string, or an empty header |
| AttenSwitch.Host.WriteEEStrings | perl/AttenSwitch.pm:770-817 | leaves the EEPROM as the layout writer describes |
| AttenSwitch.Host.ReadEEStrings | perl/AttenSwitch.pm:714-740 | for any cells: each of the four strings is what its header names, when that starts above the map and ends before the last cell, and empty otherwise; no cell changes |
| AttenSwitch.Host.EraseAndRead | perl/AttenSwitch.pm:742-753 | an erased part reads as four empty strings |
| Cdcacm.HostAndFirmwareAgree | app/cdcacm.c:358-430 | the firmware decodes the host's IDs, polarities and strings, nothing for an empty string, and its buffers hold them exactly when they are at most 63, 63 and 23 bytes |
| Cdcacm.TakesAnyPart | app/cdcacm.c:386-416 | what the firmware makes of any part, whoever wrote it: the bytes from the pointer on, round the end of the part, unless pointer or length is zero |
| Cdcacm.FilledText | app/cdcacm.c:326-337 | a copied string reads back from its buffer as itself, and the bytes behind its terminator stay |
| Cdcacm.CopyFromEE | app/cdcacm.c:326-337 | copies the cells and a terminator, in bounds, and leaves the rest of the buffer |
| Cdcacm.UsbIdentity.ReadEEString | app/cdcacm.c:388-396 | one string of the map, or the default kept |
| Cdcacm.UsbIdentity.ReadEEprom | app/cdcacm.c:358-430 | for any cells the buffers can hold: IDs, strings and polarity calls as the bytes say, defaults kept otherwise |
| EndToEnd.ConfigureAndBoot | app/cdcacm.c:358-435 | through every layer: the host reads back the strings it wrote, and the firmware boots with those IDs, polarities and strings and identifies itself by that product ID |
| EndToEnd.MoveRelay | app/instr_task.c:236-240 | from the host's call to the coil: the relay asked for gets its pulse and, with a supply only the timer turns off, ends up where it was sent, the other one staying |
| PrintfSpec.NumberText | app/printf-stdarg.c:83-120 | a printed number is as long as the wider of its width and its natural length |
| PrintfSpec.FieldReadsBack | app/printf-stdarg.c:83-120 | stripping the padding and parsing gives the value back, for every 32-bit value, base, width and flags, exactly unless zeros were appended to a nonzero number |
| PrintfSpec.LeftZeroAppends | app/printf-stdarg.c:57-79 | 5 under the directive %-05d comes out as 50000 |
| PrintfFormat.SpelledReadsBack | app/printf-stdarg.c:127-176 | every list of literals and directives, spelled out, parses as itself |
| PrintfMeaning.DirectiveMeans | app/printf-stdarg.c:147-175 | d prints the signed value, u, x and X the value modulo 2^32 in base 10, 16 and 16 with their digits, c a byte, s its text or (null); padded left or right with blanks or zeros, a sign in front of zeros |
| PrintfMeaning.DirectiveReads | app/printf-stdarg.c:129-146 | a percent sign, optional minus sign, optional zero, width and conversion are read as exactly that directive |
| PrintfMeaning.SprintfField | app/printf-stdarg.c:203-208 | mysprintf of one spelled directive leaves that field, a terminator, and the rest of the destination |
| PrintfMeaning.PlainText | app/printf-stdarg.c:178-181 | text without percent signs prints as itself |
| PrintfMeaning.PercentSigns | app/printf-stdarg.c:131-134 | two percent signs print one; a lone one at the end and an unknown conversion print nothing |
| PrintfMeaning.RenderInARow | app/printf-stdarg.c:122-182 | pieces in a row render as their renderings in a row, each with its own arguments |
| PrintfStdarg.Output.PrintChar | app/printf-stdarg.c:34-45 | writes through the output pointer and advances it, or sends to the console |
| PrintfStdarg.Prints | app/printf-stdarg.c:49-80 | pads the text as asked and counts the characters |
| PrintfStdarg.FillDigits | app/printf-stdarg.c:100-107 | the backward digit loop produces the digits and never leaves the twelve-byte buffer |
| PrintfStdarg.FinishNumber | app/printf-stdarg.c:108-119 | the sign goes before padding zeros and still fits the buffer |
| PrintfStdarg.Printi | app/printf-stdarg.c:83-120 | prints the number text, the most negative value included |
| PrintfStdarg.ReadDirective | app/printf-stdarg.c:129-146 | flags and width are read as the format language says |
| PrintfStdarg.PrintArg | app/printf-stdarg.c:147-175 | one argument through its conversion, as PrintfMeaning.DirectiveMeans spells it out |
| PrintfStdarg.PrintPieces | app/printf-stdarg.c:122-182 | the interpreter prints the renderings of the pieces in order and counts them |
| PrintfStdarg.Print | app/printf-stdarg.c:122-187 | a string destination holds exactly the rendering and a terminator, nothing else in it moves, and the result is the byte count |
| PrintfStdarg.Mysprintf | app/printf-stdarg.c:203-208 | the same from the start of a buffer |
| Tokenizer.RoundTrip | app/debug_shell.c:136-192 | for every line of words and quoted arguments: exactly those arguments come back, terminated in place, if and only if the line is accepted and does not end in a word at its 127th character; scanning quotes to the line's end accepts every line, as written one is rejected exactly when a quoted argument after the first is non-empty; a clipped line comes back as the line without its last character |
| Tokenizer.LongestLineIsCut | app/debug_shell.c:139-142 | a word of 127 characters comes back as its first 126 |
| Tokenizer.QuotedSecondIsRejected | app/debug_shell.c:144-158 | a word and then a quoted word: no matching quote is found |
| Tokenizer.TypedLineIsSplit | app/debug_shell.c:136-192 | in bytes: words without NUL, tab, space and quotes, joined by any runs of 0x20 and 0x09, the first argument possibly enclosed in 0x22 or 0x27, come back as exactly those arguments |
| Tokenizer.SkippedAfterQuote | app/debug_shell.c:157-158 | the character after a closing quote is lost, whatever it is |
| Tokenizer.SwallowQuoted | app/debug_shell.c:144-150 | finds the closing quote below the shrunken length |
| Tokenizer.CmdParse | app/debug_shell.c:121-192 | the scan in place, its offsets and its error, for any line of at most 32 arguments |
| Tokenizer.ParseTyped | app/debug_shell.c:136-192 | the tokenizer in place on such a line: args receives exactly the arguments and then nulls |
| LineEditor.LineIsInterpretation | app/debug_shell.c:17-52 | a line that stays open until its return is what the keys leave on a stack |
| LineEditor.EachKey | app/debug_shell.c:30-49 | what each key does: 0x0d ends the line, 0x08 and 0x7f take the last character or underflow, anything else is added |
| LineEditor.FullLine | app/debug_shell.c:17-52 | a line one short of the limit takes no more keys |
| LineEditor.InterpretTyped | app/debug_shell.c:47-49 | keys without 0x08 and 0x7f are the line |
| LineEditor.EraseCancels | app/debug_shell.c:40-45 | a character and the 0x08 or 0x7f after it leave no trace |
| LineEditor.UnderflowIff | app/debug_shell.c:40-45 | the index wraps exactly when some prefix erases more than it typed |
| LineEditor.CmdTermGet | app/debug_shell.c:17-52 | the buffer holds the edited text, CR LF and a terminator, and nothing beyond index maxlen is written |
| LineEditor.ReadCommand | app/debug_shell.c:388-392 | stripping two bytes leaves exactly the edited text; a full buffer loses its last two characters |
| LineEditor.EditedLineIsParsed | app/debug_shell.c:390-392 | the tokenizer receives exactly that text |
| Shell.Turn | app/debug_shell.c:388-392 | what is typed, corrections included, reaches the command as its arguments, whole and in place, exactly when no quoted argument after the first is non-empty and the line does not end in a word at its 127th character |
| RingBuf.DeliversInOrder | app/ring_buf.c:15-37 | over all interleavings and counter wrap-arounds the consumer reads the produced values in order and never a NULL, exactly with at most one producer or one slot |
| RingBuf.RunKeepsInv | app/ring_buf.c:15-37 | every step of every run keeps the queue invariant |
| RingBuf.QueueHolds | app/ring_buf.c:15-23 | with one producer every slot can be used: as many values as slots go in before any is read |
| RingBuf.AnyListIsDelivered | app/ring_buf.c:15-37 | with one producer and any number of slots every list of values is what some run delivers |
| RingBuf.SwapSparesLive | app/ring_buf.c:20-22 | a successful swap never overwrites an item still in flight |
| RingBuf.BlockedLeavesConsumerAble | app/ring_buf.c:20-31 | a spinning producer leaves its consumer able to move |
| RingBuf.ConsumerUnblocks | app/ring_buf.c:27-36 | the consumer's steps alone free the slot, in at most three per item in flight |
| RingBuf.InFlightBounded | app/ring_buf.c:15-37 | there are never more items in flight, nor semaphore counts, than slots |
| Console.OnlcrReversible | app/syscalls.c:181-187 | the line-feed translation loses nothing |
| Console.OnlcrBytes | app/syscalls.c:181-187 | 0x0a becomes 0x0d 0x0a wherever it stands, every other byte stays |
| Console.OnlyBlocksAreLost | app/syscalls.c:142-198 | in every run the translated stream falls into pieces at the packets the endpoint accepts, and each packet is exactly its piece without the whole 64-byte blocks in front |
| Console.DeliveredTails | app/syscalls.c:142-198 | from power-up what arrives is the concatenation of those ends, and what is missing are the completed 64-byte blocks |
| Console.StreamConserved | app/syscalls.c:142-198 | packets and pending bytes are the translated input exactly when no call completes 64 queued bytes |
| Console.FullBlockVanishes | app/syscalls.c:146-147 | 64 bytes written at once: an empty packet goes out and nothing is left |
| Console.PacketSizes | app/syscalls.c:151-166 | no packet holds more than 63 bytes; with nothing pending an empty one goes out |
| Console.RepairedConserves | app/syscalls.c:176-194 | with the size counted to 64 everything arrives, whatever the endpoint answers, in packets of at most 64 |
| Console.Stream.Enq | app/syscalls.c:142-149 | the byte joins the pending ones, or completes a block and leaves none |
| Console.Stream.SendPacket | app/syscalls.c:151-166 | an accepted packet is the pending bytes, none included, and empties the buffer |
| Console.Stream.Write | app/syscalls.c:169-198 | queues the translation and offers one packet; the read index stays 0, the write index is the size, below 64 |
| HvSupply.DropsInTime | app/bsp.c:54-82 | in every run a high HVEnable is less than 10 s after the last completed hvOn(1) |
| HvSupply.RunSupervised | app/bsp.c:54-82 | as long as only the timer turns the supply off, flag, pin and timer agree and every 80 ms pulse is powered throughout |
| HvSupply.PulsePoweredIff | app/bsp.c:69-82 | exactly when the pulse of a relay command is powered |
| HvSupply.OnArms | app/bsp.c:69-77 | in every run a completed hvOn(1) leaves the flag up and the timer due 10 s later, and exactly when the pin high |
| HvSupply.OffStaysOff | app/bsp.c:78-81 | in every run a completed hvOn(0) leaves pin and flag low until the supply is asked for again |
| HvSupply.OffLeavesTimerRunning | app/command.c:65-69 | a run in which switching off by hand leads to unpowered pulses |
| Spdt.RelaysFollowRequests | app/spdt.c:25-138 | each relay is where it was last told to be, through polarity changes and commands to the other switch |
| Spdt.Board.S1SetPulseHigh | app/spdt.c:25-36 | both lines of switch 1 end high exactly when the low byte of the setting is zero, with the enable low and no other pin changed; what it adds to the record is safe and covers its time |
| Spdt.Board.S2SetPulseHigh | app/spdt.c:38-49 | the same for switch 2 |
| Spdt.Board.Aim | app/spdt.c:59-60 | the start of every pulse branch: the other line idle, the chosen one active |
| Spdt.Board.Hold | app/spdt.c:61 | the wait of every pulse branch: a pulse on record, and the powered relay moved |
| Spdt.Board.PulseS1High | app/spdt.c:57-68 | the pulse branch of switch 1 for the high polarity: one moment of 80 ms with just the chosen line away from its idle level |
| Spdt.Board.PulseS1Low | app/spdt.c:69-81 | and for the low one |
| Spdt.Board.S1J1Sel | app/spdt.c:53-83 | moves only its own relay, by a pulse of at least 80 ms on U for J1 or D for J2; the record grows by moments that cover the time of the call without gaps, at each at most one coil line of one switch active under the enable; lines idle afterwards |
| Spdt.Board.PulseS2High | app/spdt.c:90-103 | the pulse branch of switch 2 for the high polarity, with the enable raised only once the line is set |
| Spdt.Board.PulseS2Low | app/spdt.c:104-118 | and for the low one |
| Spdt.Board.S2J1Sel | app/spdt.c:87-120 | the same as for switch 1, with the enable raised last |
| Spdt.Board.SpdtSet | app/spdt.c:122-138 | dispatches on the two bytes of the command, of which only zero is special, to one pulse of one switch, and sets the position LEDs of switch 1 |
| Spdt.Board.Execute | app/spdt.c:25-138 | one command of any kind, or a pause: the rig does what the command says, a selection gives its pulse, a polarity sets both lines, and the time is on record |
| Spdt.Board.ExecuteAll | app/spdt.c:25-138 | any run of commands ends in the state the run prescribes, with every moment of its time on record and safe, and the lines idle for their polarity |
| Spdt.Board.HvOn | app/bsp.c:69-82 | powers up once, waits, and restarts the timer; or drops the supply; its time is on record |
| Spdt.Board.VhvTimerExpired | app/bsp.c:54-66 | stops the timer and drops the supply |
| HiresTimer.RepairedIsExact | app/hiresTimer.c:32-43 | with the carry kept every call returns the true count modulo 2^64, over calls less than 2^32 ticks apart |
| HiresTimer.RepairedIsMonotone | app/hiresTimer.c:32-43 | until the count outgrows 64 bits that time is the count and never goes back |
| HiresTimer.WrittenIsModulo | app/hiresTimer.c:32-43 | as written the upper word never moves |
| HiresTimer.WrittenIsExactIff | app/hiresTimer.c:32-43 | as written the result is the true count exactly while that fits 32 bits |
| HiresTimer.WrittenGoesBack | app/hiresTimer.c:36-39 | the tick after 2^32 - 1 is reported as zero |
| HiresTimer.Timer.GetTime | app/hiresTimer.c:32-43 | the statements as written, atomic add and store included |
| HeapBreak.RequestMoves | app/syscalls.c:37-49 | the 32-bit round-up does not wrap for RAM addresses; a request is granted exactly if the next multiple of eight past its block is in the heap, and then moves the break there; otherwise nothing changes |
| HeapBreak.BlocksApart | app/syscalls.c:31-72 | over any requests the granted blocks are in order, disjoint, inside the heap and aligned after the first |
| HeapBreak.Heap.Sbrk | app/syscalls.c:53-72 | the first call starts at the heap's start, and every call does what the request says |

## Left out

- Tokenizer.CmdParse: more than 32 arguments would run past `args`, and an empty line makes the code read through a null pointer; both are outside the model, as is the walk through the command tables that follows.
- EepromLayout.RoundTrip: strings that run past the last cell are outside it, because some of them read back by accident (EepromLayout.WrappedMayReadBack); EepromLayout.SomeWritten gives every cell they leave, and EepromLayout.RestoresIff the exact condition once the rest of the map has to survive too.
- Instrument.InstrumentTask.Serve: well-formed requests only; Instrument.InstrumentTask.Dispatch covers the buffers for any contents, and a zero length field, which gets no reply at all, is not modelled.
- LineEditor.CmdTermGet: the echo to the terminal is not modelled.
- PrintfStdarg.Print: formats that end inside a directive, or whose width overflows an int, are excluded; the code reads past the terminator there.
- RingBuf.ConsumerUnblocks: states that enough consumer steps free the slot, not that a scheduler grants them.
- Console.RepairedConserves: the waits are taken to end; how long the endpoint refuses is not bounded.
- Building the identity record from the version header: after the product ID it enters as 57 constant bytes.
- ID blinking, LEDs other than D4 to D6, the aux outputs, the small shell commands: one pin or one memory access each.
- USB descriptors, endpoint setup, interrupts, FreeRTOS and libopencm3: outside code.
- Tick and time unit conversions: single expressions over the counter.
- perl/test/setupUSB, which lays out the same map with its own sequence of writes.
- Preemption of one relay or supply call by another, or by the timer between a test and its action.
