# Arduino cores, libraries and bootloaders: models and proofs

The firmware in this repository moves bytes between a wire and a memory: bootloaders write flash
page by page, the `String` class edits a buffer in place, interrupt handlers share ring buffers
with the main line, and small codecs and schedulers count in eight, sixteen and thirty-two bits.
This project models those parts in Dafny and proves what they promise, for every input, every
run or every interleaving. Where a promise does not hold in general, the project gives the exact
condition under which it does, and an input on which it fails.

`dafny verify dfyconfig.toml` verifies everything; each proof is kept small enough for Dafny's
default time limit.

| file | models |
|---|---|
| `TextReplace.dfy`, `WString.dfy` | `String::replace` and the rest of the in-place editing of `String` |
| `AvrFlash.dfy`, `PagedBlock.dfy` | the self-programming flash of an AVR, and storing a block in it page by page |
| `Optiboot.dfy`, `OptibootHost.dfy` | the optiboot command loop, and the plain memory its host sees |
| `Stk500v2.dfy`, `Stk500Boot.dfy` | the STK500v2 framing and programming session, and the boot loader whose main loop serves them over the wire |
| `AtmegaBoot.dfy` | the page-write loop of ATmegaBOOT as a program of labels and jumps |
| `UsbDfu.dfy` | the USB DFU boot loader over a queue of packets |
| `FlashKernel.dfy` | the C2000 flash kernel |
| `HardwareSerial.dfy` | serial transmission and reception under interrupts |
| `Timer0.dfy` | `millis`, `micros` and `delay` |
| `Servo.dfy` | servo angles, and the frames of pulses the timers make |
| `Firmata.dfy` | the Firmata protocol in both directions |
| `StreamFind.dfy`, `NumberText.dfy` | searching a stream, printing and reading numbers |
| `LcdLine.dfy` | line drawing with an 8-bit error term |
| `Arithmetic.dfy`, `Sequences.dfy` | what several of these need of numbers and sequences |

How the models are built:

- A transition that a theorem ranges over (one command, one received byte, one interrupt, one
  label of the assembly) is a function on values. The class next to it has the fields, buffers
  and loops of the source, and its methods are proved equal to that function.
- Flash is a sequence of bytes and a temporary page buffer. Erasing sets a page to 0xFF, a page
  write can only clear bits, ignores the address inside the page and leaves the buffer at 0xFF.
- Integer widths are written out: 8-bit counters where 0 means 256, 16-bit addresses and time
  stamps, 32-bit wrap-around, signed characters, C division.
- The UART, the USB endpoint and the clock are sequences of bytes, packets and readings. The
  outcome of an allocation is a parameter; so is the number of flash calls that succeed on the
  C2000.

## Where the promise needs a condition

- `String::replace` with a longer replacement is right on all texts exactly when no proper suffix
  of `find` is a prefix of `find` or of `replace` (`TextReplace.GrowExact`). `"aba"` in
  `"ababa"` is the classic failure. If a suffix of `find` is a prefix of `replace`, the walk can
  even write more than the buffer was sized for (`TextReplace.SizingExact`).
- A `String` is asked for 65535 characters with a block of 0 bytes, because the length and its NUL
  are added in 16 bits: `reserve` and growing keep their word exactly below that
  (`WString.SeparableGrown`, `WString.NoRoomAtLimit`).
- An optiboot host sees a plain memory as long as a page command ends in front of the RAM where
  the two moved vectors are saved: at most two pages and 4 bytes (`OptibootHost.LengthExact`),
  which excludes 256-byte commands for 64-byte pages (`OptibootHost.LongProgramFails`).
- The optiboot vector move keeps control flow exactly for rjmp offsets of at least 4
  (`OptibootHost.MoveExact`).
- An STK500v2 page write is right exactly when the erase cursor is on the page, or the page
  happens not to need an erase and the page under the cursor nothing to lose
  (`Stk500Session.ProgramExact`).
- The STK500v2 receiver stays inside its 285-byte buffer exactly on streams without a header that
  declares more, or 0, and is followed by 286 bytes (`Stk500Frames.OverrunExact`).
- After a DFU download that broke off, a short one is filled up with 0xFF exactly when the page
  buffer was blank behind it (`PagedBlock.PaddingExact`).
- After a DFU erase the blank check passes exactly when no half-loaded page buffer was left over
  (`UsbDfuSpec.BlankAfterErase`), and bytes to throw away at a packet boundary are counted one
  too many (`UsbDfuSpec.DiscardAtBoundary`), so only aligned start addresses stay in step.
- A line is drawn right exactly when the extreme of its doubled error term fits eight bits
  (`LcdLine.FaithfulExact`); that covers all extents up to 43 and not 44 by 1
  (`LcdLine.ExactBound`).
- `micros` is 256 ticks behind when it is called in the last tick before a second overflow
  (`Timer0Spec.TicksExact`); `millis` is exact exactly when an overflow takes a multiple of
  8 microseconds (`Timer0Spec.MillisExact`).
- `delay` counts the milliseconds as they pass exactly when its readings keep up with them
  (`Timer0Spec.Prompt`), and none too early exactly when no bad reading of `micros` falls back
  behind `start` (`Timer0Spec.LateReadings`). After one that does, `delay` can return early
  (`Timer0Spec.ReturnsEarly`, `Timer0Spec.DelayReturnsEarly`).
- `findUntil` finds the first occurrence on every stream exactly for targets of bytes below 128
  that `StreamFindSpec.Forgetful` describes (`StreamFindSpec.FindExact`), and ends at the first
  occurrence of its terminator exactly when that is one byte below 128, once or repeated
  (`StreamFindSpec.TerminatorExact`).
- A Firmata port message carries its value exactly when bit 14 is clear, a string its bytes exactly
  up to 15 characters and while there is memory (`FirmataSpec.HeardExact`). The callback gets the
  bytes without a length or a terminator, so what it reads is settled exactly when the bytes
  include a NUL (`FirmataSpec.ListenExact`), which `sendString` never sends
  (`FirmataSpec.SendStringUnread`).
- A servo frame lasts the refresh interval exactly when the pulses end before it
  (`ServoFrames.LengthExact`).
- Numbers are printed whole exactly in bases up to 208 (`NumberTextSpec.NumberWhole`).

## Where code and comments differ

The models follow the code.

- hardware/arduino/libraries/Servo/Servo.cpp:92 allows "a few ticks" so that the next compare
  match is not missed, but adds them on the wrong side: a pulse train that ends within four ticks
  after the refresh interval sets a compare value that has passed.
- hardware/arduino/libraries/Servo/Servo.cpp:59 starts every channel counter at 0, so the round
  before the first reset does not pulse channel 0 (`ServoFrames.FirstChannelSkipped`).
- hardware/arduino/firmwares/arduino-usbdfu/Arduino-usbdfu.c:483-489 says that the given number
  of bytes is discarded; waiting for a packet uses up one of them.
- hardware/arduino/firmwares/arduino-usbdfu/Arduino-usbdfu.c:284 speaks of erasing the next
  page's buffer; the call erases the flash page.
- hardware/arduino/cores/arduino/Print.cpp:206 accepts every base; the characters are only
  distinct up to base 128 (`NumberTextSpec.DigitCharsDistinct`).

## Model

| member | source | states |
|---|---|---|
| TextReplace.GrowExact | hardware/arduino/cores/arduino/WString.cpp:587-603 | replacing from the right with `lastIndexOf` gives the leftmost non-overlapping replacement on every text exactly when no proper suffix of `find` is a prefix of `find` or of `replace`; the source promises it for all |
| TextReplace.SizingExact | hardware/arduino/cores/arduino/WString.cpp:588-594 | the walk never writes more characters than the sizing pass counted, on every text, exactly when no proper suffix of `find` is a prefix of `replace`; otherwise the buffer can be too short |
| TextReplace.SeparableGrowsCorrectly | hardware/arduino/cores/arduino/WString.cpp:587-603 | for such pairs the walk from the right equals the scan from the left on every text |
| TextReplace.WalkBackSealed | hardware/arduino/cores/arduino/WString.cpp:595-603 | the walk edits the text before its bound and leaves what is behind alone, as long as no match straddles the two |
| TextReplace.WalkBackRoom | hardware/arduino/cores/arduino/WString.cpp:588-603 | intermediate texts of the walk stay within the counted size |
| TextReplace.SpillBreaks | hardware/arduino/cores/arduino/WString.cpp:587-603 | a concrete text on which the walk writes more than was counted, for every `replace` that starts with an end of `find` |
| TextReplace.BorderBreaks | hardware/arduino/cores/arduino/WString.cpp:587-603 | a concrete text on which the two directions disagree, for every `find` that overlaps itself |
| TextReplace.InseparableBreaks | hardware/arduino/cores/arduino/WString.cpp:587-603 | outside the condition there is always a NUL-free text that is replaced wrongly |
| TextReplace.ReplaceAllFirst | hardware/arduino/cores/arduino/WString.cpp:571-575 | the scan replaces the first occurrence and goes on behind it |
| TextReplace.ReplaceAllLast | hardware/arduino/cores/arduino/WString.cpp:595-603 | without self-overlap the scan also splits at the last occurrence |
| TextReplace.OneMoreMatch | hardware/arduino/cores/arduino/WString.cpp:588-592 | one more match makes the counted size larger by the difference of the lengths at least |
| TextReplace.ReplaceAllShort | hardware/arduino/cores/arduino/WString.cpp:588-592 | a text shorter than two copies of `find` has at most one match |
| TextReplace.WalkBackGrows | hardware/arduino/cores/arduino/WString.cpp:595-603 | the walk never shortens the text |
| TextReplace.ReplaceAllNoNul | hardware/arduino/cores/arduino/WString.cpp:564-605 | replacing keeps a text free of NUL |
| WString.Strstr | hardware/arduino/cores/arduino/WString.cpp:571-571 | the first occurrence at or after a position in a NUL-terminated buffer, or none |
| WString.ArduinoString.Replace | hardware/arduino/cores/arduino/WString.cpp:564-605 | all three branches in place: equal and shorter replacements give the leftmost non-overlapping replacement for every text, longer ones the walk of the source, allocation failure included; NUL at `len` and `len <= capacity` are kept |
| WString.ArduinoString.ReplaceSame | hardware/arduino/cores/arduino/WString.cpp:570-574 | overwriting each match in place is the replacement of the whole text |
| WString.ArduinoString.ReplaceShrinking | hardware/arduino/cores/arduino/WString.cpp:575-586 | compacting towards the front while reading ahead is the replacement, in the same buffer |
| WString.ArduinoString.GrownSize | hardware/arduino/cores/arduino/WString.cpp:588-593 | the sizing pass computes the length of the replaced text modulo 2^16 |
| WString.ArduinoString.ReplaceFromRight | hardware/arduino/cores/arduino/WString.cpp:595-603 | the loop over `lastIndexOf` with its memmove and memcpy is the walk from the right |
| WString.ArduinoString.ReplaceGrowing | hardware/arduino/cores/arduino/WString.cpp:587-603 | size, reserve, walk: what is left when the allocation succeeds, when it fails and when the counted size wraps to the old length |
| WString.SeparableGrown | hardware/arduino/cores/arduino/WString.cpp:587-603 | for separable arguments the walk has room exactly when its result is shorter than 65535 characters or fits the old buffer, and up to 65535 what is left is the replacement whenever there is memory |
| WString.NoRoomAtLimit | hardware/arduino/cores/arduino/WString.cpp:137-146 | 105 times a, 15 times b and 624 characters for every a: the result counts 65535 and the walk is made without a buffer |
| WString.ArduinoString.LastIndexOf | hardware/arduino/cores/arduino/WString.cpp:517-528 | the last occurrence that starts at or before the bound, or -1 |
| WString.ArduinoString.Reserve | hardware/arduino/cores/arduino/WString.cpp:127-135 | below 65535 content and terminator survive and the capacity is at least what was asked for when it succeeds; 65535 succeeds with nothing behind the buffer |
| WString.ArduinoString.ChangeBuffer | hardware/arduino/cores/arduino/WString.cpp:137-146 | a failed allocation changes nothing; a block is counted in 16 bits, so that the new capacity is really there exactly below 65535 |
| WString.ArduinoString.Copy | hardware/arduino/cores/arduino/WString.cpp:152-161 | the copied text, or an invalid string when there is no memory |
| WString.ArduinoString.Concat | hardware/arduino/cores/arduino/WString.cpp:221-235 | the concatenation, or the old text when there is no memory |
| WString.ArduinoString.Substring | hardware/arduino/cores/arduino/WString.cpp:535-550 | the characters between two bounds given in either order, cut off at the end; the original is unchanged after its NUL was poked in and out |
| WString.ArduinoString.Trim | hardware/arduino/cores/arduino/WString.cpp:623-633 | no white space at either end and nothing else removed |
| WString.SpacesAre | hardware/arduino/cores/arduino/WString.cpp:623-633 | white space is blank, tab, line feed, vertical tab, form feed and carriage return |
| AvrFlash.FillStep | hardware/arduino/bootloaders/optiboot/boot.h:695-730 | loading one more word extends the loaded part of the temporary page buffer |
| AvrFlash.WriteErased | hardware/arduino/bootloaders/optiboot/boot.h:695-730 | writing to any address inside an erased page stores the temporary buffer there |
| AvrFlash.EraseAligned | hardware/arduino/bootloaders/optiboot/boot.h:695-730 | erasing at any address inside a page sets that page to 0xFF and no other byte |
| AvrFlash.FillAligned | hardware/arduino/bootloaders/optiboot/boot.h:695-730 | a fill loop from a page base leaves exactly the data and 0xFF behind it |
| AvrFlash.BurnAligned | hardware/arduino/bootloaders/optiboot/boot.h:695-730 | erase, fill and write of an aligned page store exactly the data |
| Optiboot.Bootloader.DoLoadAddress | hardware/arduino/bootloaders/optiboot/optiboot.c:357-369 | the address is 2 (lo + 256 hi) modulo 2^16 after the two bytes and the terminator were taken |
| OptibootSpec.LoadNumber | hardware/arduino/bootloaders/optiboot/optiboot.c:357-369 | behind load-address lo hi the address is 2 (lo + 256 hi) modulo 2^16 |
| OptibootSpec.Parameters | hardware/arduino/bootloaders/optiboot/optiboot.c:331-348 | parameters 0x81 and 0x82 answer 4, all others 3 |
| Optiboot.Bootloader.Receive | hardware/arduino/bootloaders/optiboot/optiboot.c:376-396 | the byte loop with its 8-bit counter, where 0 means 256, overwrites the front of the RAM with exactly the bytes sent, the saved vectors included when it gets that far |
| Optiboot.Bootloader.FillPage | hardware/arduino/bootloaders/optiboot/optiboot.c:422-436 | the copy loop loads the page word by word |
| Optiboot.Bootloader.PatchVectors | hardware/arduino/bootloaders/optiboot/optiboot.c:404-421 | the vectors of page 0 are moved and saved behind the buffer, other pages untouched |
| Optiboot.Bootloader.Accept | hardware/arduino/bootloaders/optiboot/optiboot.c:376-400 | erasing before or after the data comes in leaves the same flash |
| Optiboot.Bootloader.DoProgPage | hardware/arduino/bootloaders/optiboot/optiboot.c:376-444 | the whole command is the transition that the host theorems are about |
| Optiboot.Bootloader.Send | hardware/arduino/bootloaders/optiboot/optiboot.c:446-480 | the read loop sends the patched-back bytes of the range, 256 of them for a length byte of 0 |
| Optiboot.Bootloader.DoReadPage | hardware/arduino/bootloaders/optiboot/optiboot.c:446-480 | the whole read command is the transition that the host theorems are about |
| Optiboot.Bootloader.GetNch | hardware/arduino/bootloaders/optiboot/optiboot.c:616-619 | skips a number of bytes and checks the terminator |
| Optiboot.Bootloader.CheckSpace | hardware/arduino/bootloaders/optiboot/optiboot.c:621-628 | a missing terminator ends the session, otherwise the device answers in sync |
| Optiboot.Bootloader.PlainCommand | hardware/arduino/bootloaders/optiboot/optiboot.c:326-375 | the commands that do not touch the flash answer and leave it alone |
| Optiboot.Bootloader.Round | hardware/arduino/bootloaders/optiboot/optiboot.c:326-500 | one round of the loop is one command of the model |
| Optiboot.Bootloader.Run | hardware/arduino/bootloaders/optiboot/optiboot.c:326-500 | the forever loop, until the input ends or the terminator is missing, is the model run |
| OptibootHost.StepRefines | hardware/arduino/bootloaders/optiboot/optiboot.c:326-500 | every legal command answers like a plain memory and leaves a flash that still represents it, whatever is moved in bytes 0, 1, 8 and 9 |
| OptibootHost.RunRefines | hardware/arduino/bootloaders/optiboot/optiboot.c:326-500 | for every sequence of legal commands, the one that shortens the watchdog only as the last, the host gets what a plain memory would answer: each read returns what was last written |
| OptibootHost.PageAtByte | hardware/arduino/bootloaders/optiboot/optiboot.c:357-444 | a page programmed behind load-address w stands at byte 2w, and both commands are answered |
| OptibootHost.FirstPageReadsBack | hardware/arduino/bootloaders/optiboot/optiboot.c:357-480 | the page at address 0 is read back as it was sent, its vectors included |
| OptibootHost.OnWire | hardware/arduino/bootloaders/optiboot/optiboot.c:326-500 | the commands of the runs, byte by byte |
| OptibootHost.FirstPageRefines | hardware/arduino/bootloaders/optiboot/optiboot.c:404-444 | programming page 0 keeps the representation, with its patched vectors |
| OptibootHost.LaterPageRefines | hardware/arduino/bootloaders/optiboot/optiboot.c:422-444 | programming any other page keeps the representation, as long as the command ends in front of the saved vectors |
| OptibootHost.LengthExact | hardware/arduino/bootloaders/optiboot/optiboot.c:254-258 | a command of n bytes for another page keeps the saved vectors, whatever its bytes, exactly when n is at most two pages and 4: behind that the receive loop runs into `rstVect` and `wdtVect` |
| OptibootHost.VectorLost | hardware/arduino/bootloaders/optiboot/optiboot.c:391-396 | a longer command leaves one of its own bytes as the vector byte that a read of address 0 gives |
| OptibootHost.LongProgramFails | hardware/arduino/bootloaders/optiboot/optiboot.c:376-480 | the run that fails: a command that is too long, load address 0, read one byte; the answer is not what a plain memory gives |
| OptibootHost.ReadRaw | hardware/arduino/bootloaders/optiboot/optiboot.c:446-480 | the whole answer to a read, for any RAM: in sync, the flash bytes with the saved vectors in their places, OK |
| OptibootHost.ProgramAligned | hardware/arduino/bootloaders/optiboot/optiboot.c:376-444 | the programmed page holds the data, patched if it is page 0, and no other page changes |
| OptibootHost.ReadAnswers | hardware/arduino/bootloaders/optiboot/optiboot.c:446-480 | a read answers with the host-visible bytes |
| OptibootHost.ReadExact | hardware/arduino/bootloaders/optiboot/optiboot.c:452-475 | a read of a byte is right whatever the remembered vectors are exactly when page 0 was programmed before or the byte is none of the four vector bytes |
| OptibootHost.MoveExact | hardware/arduino/bootloaders/optiboot/optiboot.c:405-420 | the decremented rjmp reaches the same word from word 4 as the original from word 0 exactly when its offset field is at least 4 |
| OptibootHost.ResetReachesBootloader | hardware/arduino/bootloaders/optiboot/optiboot.c:418-420 | the word written to the reset vector jumps to byte address 0x1d00 |
| OptibootHost.AppStartReachesApplication | hardware/arduino/bootloaders/optiboot/optiboot.c:658-672 | after page 0 was programmed the jump at word 4 reaches the application and the reset vector the bootloader |
| Ring.PendingLength | hardware/arduino/cores/arduino/HardwareSerial.cpp:351-354 | the modular difference is the number of bytes waiting; full is SIZE-1 |
| Ring.Push | hardware/arduino/cores/arduino/HardwareSerial.cpp:78-86 | moving the head appends the stored byte to what waits |
| Ring.Pop | hardware/arduino/cores/arduino/HardwareSerial.cpp:365-375 | moving the tail takes the oldest byte |
| SerialTx.RunKeepsInv | hardware/arduino/cores/arduino/HardwareSerial.cpp:194-216 | under every interleaving of the interrupt with the single steps of `write` and `end`: first in first out, no lost wake-up, no slot overwritten |
| SerialTx.SentInOrder | hardware/arduino/cores/arduino/HardwareSerial.cpp:194-216 | on every run the bytes sent are a prefix of those written and the rest is in the buffer |
| SerialTx.WaitingIsWoken | hardware/arduino/cores/arduino/HardwareSerial.cpp:383-399 | a writer that waits for room has the interrupt on, and one interrupt lets it go on |
| SerialTx.Drains | hardware/arduino/cores/arduino/HardwareSerial.cpp:377-381 | left alone the interrupt sends everything and then turns itself off |
| SerialTx.WriterKeepsInv | hardware/arduino/cores/arduino/HardwareSerial.cpp:383-399 | each single step of the main line keeps the invariant |
| SerialTx.InterruptKeepsInv | hardware/arduino/cores/arduino/HardwareSerial.cpp:194-216 | the interrupt keeps the invariant wherever it strikes |
| SerialTx.TxPort.UdreIsr | hardware/arduino/cores/arduino/HardwareSerial.cpp:194-216 | the handler is the interrupt step of the model |
| SerialTx.TxPort.Write | hardware/arduino/cores/arduino/HardwareSerial.cpp:383-399 | the byte is queued behind all others, with interrupts between any two steps |
| SerialRx.RxPort.StoreChar | hardware/arduino/cores/arduino/HardwareSerial.cpp:74-86 | a byte is dropped exactly when SIZE-1 are waiting |
| SerialRx.RxPort.Read | hardware/arduino/cores/arduino/HardwareSerial.cpp:365-375 | the oldest byte or -1, with bytes arriving before and after the load |
| SerialRx.RxPort.Available | hardware/arduino/cores/arduino/HardwareSerial.cpp:351-354 | the number of waiting bytes |
| SerialRx.RxPort.Peek | hardware/arduino/cores/arduino/HardwareSerial.cpp:356-363 | the oldest byte stays where it is |
| SerialRx.ArrivedFits | hardware/arduino/cores/arduino/HardwareSerial.cpp:74-86 | nothing is dropped while there is room |
| SerialRx.ArrivedPrefix | hardware/arduino/cores/arduino/HardwareSerial.cpp:74-86 | arriving bytes never disturb waiting ones |
| Stk500Frames.CompleteIsFrame | hardware/arduino/bootloaders/stk500v2/stk500boot.c:538-639 | whenever the receiver completes a message on any stream, its last bytes are start, sequence, length, token, body and checksum, every bit is set in an even number of them, and the buffer holds that body of 1 to 285 bytes |
| Stk500Frames.FrameAccepted | hardware/arduino/bootloaders/stk500v2/stk500boot.c:538-639 | a frame with the expected sequence number is accepted with its body exactly when that has 1 to 285 bytes, and overruns the buffer exactly when it has more; every bit is set in an even number of its bytes |
| Stk500Frames.ChecksumExact | hardware/arduino/bootloaders/stk500v2/stk500boot.c:573-638 | behind header and body the last byte completes the message exactly when it makes every bit occur an even number of times |
| Stk500Frames.FrameBalanced | hardware/arduino/bootloaders/stk500v2/stk500boot.c:929-955 | every bit is set in an even number of the bytes of a frame |
| Stk500Frames.LoadAddressOnWire | hardware/arduino/bootloaders/stk500v2/stk500boot.c:573-638 | the frame of load-address 0 and of its answer, byte by byte |
| Stk500Frames.OverrunExact | hardware/arduino/bootloaders/stk500v2/stk500boot.c:538-639 | a stream writes past the message buffer exactly when somewhere between messages an expected header declares a length of 0 or of more than 285 and 286 more bytes follow |
| Stk500Frames.LongBodyOverruns | hardware/arduino/bootloaders/stk500v2/stk500boot.c:609-620 | behind such a header any 286 bytes overrun the buffer |
| Stk500Frames.SequenceKept | hardware/arduino/bootloaders/stk500v2/stk500boot.c:581-592 | the expected sequence number only ever stays or becomes 1 |
| Stk500Frames.JunkSkipped | hardware/arduino/bootloaders/stk500v2/stk500boot.c:573-580 | bytes before a start byte change nothing |
| Stk500Frames.FeedAllTracks | hardware/arduino/bootloaders/stk500v2/stk500boot.c:538-639 | in every state short of an overrun the bytes taken so far are a frame up to that state |
| Stk500Boot.Bootloader.FeedByte | hardware/arduino/bootloaders/stk500v2/stk500boot.c:538-639 | one turn of the receive loop is one step of the receiver |
| Stk500Boot.Bootloader.Collect | hardware/arduino/bootloaders/stk500v2/stk500boot.c:533-640 | a completed message is a frame whose body is in the buffer |
| Stk500Boot.Bootloader.SendAnswer | hardware/arduino/bootloaders/stk500v2/stk500boot.c:929-955 | the answer on the wire is a frame of the message in the buffer, which the receiver accepts, with every bit set in an even number of its bytes |
| Stk500Boot.BodyDecodes | hardware/arduino/bootloaders/stk500v2/stk500boot.c:804-923 | the bodies a programmer sends for the modelled commands are decoded as those commands |
| Stk500Boot.TopBitDropped | hardware/arduino/bootloaders/stk500v2/stk500boot.c:811-816 | on RAMPZ parts the top bit of the word address, which hosts set above 64 KB, makes no difference |
| Stk500Boot.Bootloader.ProgramFlash | hardware/arduino/bootloaders/stk500v2/stk500boot.c:820-877 | erase ahead of the cursor, fill, write: the program transition of the session |
| Stk500Boot.Bootloader.FillPage | hardware/arduino/bootloaders/stk500v2/stk500boot.c:838-850 | the word loop loads the page buffer from the message and moves the address |
| Stk500Boot.Bootloader.ReadFlash | hardware/arduino/bootloaders/stk500v2/stk500boot.c:879-918 | status, the flash bytes from the address on, status |
| Stk500Boot.Bootloader.ProcessMessage | hardware/arduino/bootloaders/stk500v2/stk500boot.c:804-923 | every modelled command has its effect and its status |
| Stk500Boot.RequestTaken | hardware/arduino/bootloaders/stk500v2/stk500boot.c:533-640 | of junk and a frame with more bytes behind them the receiver takes exactly the junk and the frame |
| Stk500Boot.Bootloader.Receive | hardware/arduino/bootloaders/stk500v2/stk500boot.c:533-640 | the collecting loop takes one request and leaves its body in the buffer |
| Stk500Boot.Bootloader.ProcessRequest | hardware/arduino/bootloaders/stk500v2/stk500boot.c:804-955 | the body in the buffer has its effect on the memory and is replaced by the body of the answer |
| Stk500Boot.Bootloader.Round | hardware/arduino/bootloaders/stk500v2/stk500boot.c:533-955 | one pass of the main loop: the request is taken, the memory does its step, the answer is one frame with the number of the request |
| Stk500Boot.Bootloader.Serve | hardware/arduino/bootloaders/stk500v2/stk500boot.c:533-955 | for any legal list of framed requests with junk between them, the bytes sent are the frames of what the plain session answers |
| Stk500Boot.AfterIsRun | hardware/arduino/bootloaders/stk500v2/stk500boot.c:804-923 | the memory behind the wire runs the commands of the requests |
| Stk500Boot.PayloadsAreOutputs | hardware/arduino/bootloaders/stk500v2/stk500boot.c:879-918 | the flash bytes inside the answers are those that the session reads |
| Stk500Boot.UploadComesBack | hardware/arduino/bootloaders/stk500v2/stk500boot.c:533-955 | over the wire: chip erase, load-address 0, full pages, load-address 0 and reads that cover them, however framed, are answered with the data of the pages |
| Stk500Boot.OnWire | hardware/arduino/bootloaders/stk500v2/stk500boot.c:533-955 | load-address 0 with its answer, and how the other requests begin, byte by byte |
| Stk500Session.RunSparesBoot | hardware/arduino/bootloaders/stk500v2/stk500boot.c:804-877 | in every run no byte at or above APP_END is erased: bits there are only ever cleared |
| Stk500Session.SessionStoresPages | hardware/arduino/bootloaders/stk500v2/stk500boot.c:804-918 | after chip erase and load-address 0 any number of full pages is stored from address 0 on and the two cursors stay in step |
| Stk500Session.SessionReadsBack | hardware/arduino/bootloaders/stk500v2/stk500boot.c:804-918 | after such an upload, load-address 0 and read commands of any even sizes that add up to the length of the data answer with exactly the data, one answer after the other |
| Stk500Session.ReadsReturn | hardware/arduino/bootloaders/stk500v2/stk500boot.c:879-918 | reads of any even sizes give the stretch of flash they cover and change nothing |
| Stk500Session.ReadFromAddress | hardware/arduino/bootloaders/stk500v2/stk500boot.c:810-918 | a read behind load-address a gives the flash from byte a on |
| Stk500Session.ProgramPages | hardware/arduino/bootloaders/stk500v2/stk500boot.c:820-877 | full pages from any common position of the two cursors are stored one behind the other |
| Stk500Session.ProgramExact | hardware/arduino/bootloaders/stk500v2/stk500boot.c:820-877 | an aligned full page is stored correctly exactly when the erase cursor is on it, or the page already has every bit it needs and the page under the cursor is blank or past the section |
| Stk500Session.ProgramInStep | hardware/arduino/bootloaders/stk500v2/stk500boot.c:820-877 | with the cursors in step a page is stored and both move on |
| Stk500Session.ProgramBehindCursor | hardware/arduino/bootloaders/stk500v2/stk500boot.c:820-877 | once the section is erased, a page is stored exactly when it only clears bits |
| Stk500Session.ProgramOtherPage | hardware/arduino/bootloaders/stk500v2/stk500boot.c:820-877 | with the erase cursor elsewhere the page under it is lost unless it was blank |
| FlashKernelSpec.ChunkingHarmless | hardware/c2000/F28027_flash_kernel/Shared_Boot.c:96-150 | programming in chunks of 0x400 words and a rest gives the same flash as programming each block at once |
| FlashKernelSpec.OverlayReads | hardware/c2000/F28027_flash_kernel/Shared_Boot.c:64-163 | with disjoint blocks every word of the overlaid flash is that of its block, and the old one outside them |
| FlashKernelSpec.ErasedImage | hardware/c2000/F28027_flash_kernel/Shared_Boot.c:64-163 | blocks put into the erased flash: every word inside a block is that of the block, every other word is 0xFFFF |
| FlashKernelSpec.ChunkCount | hardware/c2000/F28027_flash_kernel/Shared_Boot.c:96-150 | a block of up to 0x400 words takes one flash call, a longer one a call for every 0x400 words and one for the rest, even if it is empty |
| FlashKernelSpec.HoldsExact | hardware/c2000/F28027_flash_kernel/Shared_Boot.c:96-150 | a flash call can succeed exactly when all words of the block are in the flash |
| FlashKernelSpec.OnWire | hardware/c2000/F28027_flash_kernel/SCI_Boot.c:185-209 | words go over the wire low byte first, addresses high word first |
| FlashKernel.Kernel.CopyData | hardware/c2000/F28027_flash_kernel/Shared_Boot.c:64-163 | for every list of blocks: the flash is the erased one with the flash calls applied, exactly 3 words and the data are consumed per block and one terminator, the checksum restarts; when it ends well and the blocks are disjoint, every word of the flash is that of its block or 0xFFFF |
| FlashKernel.Kernel.CopyBlock | hardware/c2000/F28027_flash_kernel/Shared_Boot.c:80-160 | one block of any 16-bit size, in chunks, with one checksum sent for each |
| FlashKernel.Kernel.GetOnlyWordData | hardware/c2000/F28027_flash_kernel/SCI_Boot.c:185-209 | least significant byte first, both bytes added to the running checksum modulo 2^16 |
| FlashKernel.Kernel.GetLongData | hardware/c2000/F28027_flash_kernel/Shared_Boot.c:172-183 | most significant word first |
| FlashKernel.Kernel.SendCheckSum | hardware/c2000/F28027_flash_kernel/Shared_Boot.c:212-227 | sends the running checksum and restarts it |
| FlashKernel.Kernel.ReadReserved | hardware/c2000/F28027_flash_kernel/Shared_Boot.c:195-204 | takes eight words |
| FlashKernel.Kernel.SciBoot | hardware/c2000/F28027_flash_kernel/SCI_Boot.c:51-74 | a wrong key goes to the default entry point with the flash untouched; otherwise the blocks end up in the erased flash, whose other words are 0xFFFF, the entry address is the transmitted one and the checksums sent add up to the bytes consumed modulo 2^16 |
| PagedBlock.BlockStored | hardware/arduino/bootloaders/atmega/ATmegaBOOT_168.c:588-681 | the final image holds the data, 0xFF to the end of its last page, and the old bytes in every other page |
| PagedBlock.PaddingExact | hardware/arduino/firmwares/arduino-usbdfu/Arduino-usbdfu.c:234-292 | the last page is filled up with 0xFF exactly when the data fill the first page or what was left in the page buffer behind them is blank |
| PagedBlock.PagesOnce | hardware/arduino/bootloaders/atmega/ATmegaBOOT_168.c:588-681 | the pages of a block are its aligned addresses, each once and in rising order |
| PagedBlock.EraseOpens | hardware/arduino/bootloaders/atmega/ATmegaBOOT_168.c:597-612 | erasing the next page starts it and keeps the finished ones |
| PagedBlock.LoadKeepsOpen | hardware/arduino/bootloaders/atmega/ATmegaBOOT_168.c:624-636 | loading a word keeps the finished pages and extends the open one |
| PagedBlock.WriteCloses | hardware/arduino/bootloaders/atmega/ATmegaBOOT_168.c:640-658 | writing finishes the page, full or cut short by the end of the data |
| AtmegaBoot.Avr.WriteBlock | hardware/arduino/bootloaders/atmega/ATmegaBOOT_168.c:588-681 | the assembly terminates although it adds 2 to its counter again for a short last page, and leaves the data padded with 0xFF; each touched page is erased once and written once, in order |
| AtmegaBoot.StepKeeps | hardware/arduino/bootloaders/atmega/ATmegaBOOT_168.c:596-680 | every label hands the invariant on: registers, counter and page buffer agree with the part that is done |
| AtmegaBoot.StepCloser | hardware/arduino/bootloaders/atmega/ATmegaBOOT_168.c:596-680 | every step brings the loop closer to its end |
| AtmegaBoot.NoPageEraseKeeps | hardware/arduino/bootloaders/atmega/ATmegaBOOT_168.c:624-639 | the load and the 8-bit word count |
| AtmegaBoot.WritePageKeeps | hardware/arduino/bootloaders/atmega/ATmegaBOOT_168.c:640-669 | the page write, for a full page and for the short one at the end, whose address is already past its last word |
| AtmegaBoot.SamePageKeeps | hardware/arduino/bootloaders/atmega/ATmegaBOOT_168.c:670-674 | the step to the next word and the test for the end |
| UsbDfuSpec.DiscardAtBoundary | hardware/arduino/firmwares/arduino-usbdfu/Arduino-usbdfu.c:491-510 | waiting for a packet is counted as a byte: at a packet boundary one byte too few is thrown away, so the stream stays in step exactly when there was nothing to throw away |
| UsbDfuSpec.BlankAfterErase | hardware/arduino/firmwares/arduino-usbdfu/Arduino-usbdfu.c:612-704 | after an erase the blank check passes exactly when no loaded page buffer was left over |
| UsbDfuSpec.FirstUsedLeast | hardware/arduino/firmwares/arduino-usbdfu/Arduino-usbdfu.c:622-646 | the reported address is the least one that is not blank |
| UsbDfuSpec.Fillers | hardware/arduino/firmwares/arduino-usbdfu/Arduino-usbdfu.c:227-231 | for an aligned start address the filler bytes end with the first packet |
| UsbDfuSpec.InclusiveCount | hardware/arduino/firmwares/arduino-usbdfu/Arduino-usbdfu.c:236-239 | the range includes both of its ends: all its bytes are counted exactly when they are whole words and not the whole 64 KB |
| UsbDfuSpec.JobInRange | hardware/arduino/firmwares/arduino-usbdfu/Arduino-usbdfu.c:234-292 | in the numbers of the command bytes: from start to end address, ends included, stand the first bytes of the payload |
| UsbDfu.Dfu.DiscardFillerBytes | hardware/arduino/firmwares/arduino-usbdfu/Arduino-usbdfu.c:491-510 | the loop throws away what DiscardAtBoundary says, packet boundaries counted as bytes |
| UsbDfu.Dfu.ReadWord | hardware/arduino/firmwares/arduino-usbdfu/Arduino-usbdfu.c:252-265 | the next two bytes of the stream, across packets, or false when they never come |
| UsbDfu.Dfu.ProcessMemProgCommand | hardware/arduino/firmwares/arduino-usbdfu/Arduino-usbdfu.c:581-606 | addresses from the command, first page erased for flash, state dfuDNLOAD_IDLE |
| UsbDfu.Dfu.ReceiveFlash | hardware/arduino/firmwares/arduino-usbdfu/Arduino-usbdfu.c:234-292 | the page loop stores the payload in whole pages and ends with StartAddr at EndAddr, after exactly end - start + 1 bytes of a range of whole words; when the packets run out, what did arrive is in finished pages and in the page buffer |
| UsbDfu.Dfu.DownloadFlash | hardware/arduino/firmwares/arduino-usbdfu/Arduino-usbdfu.c:171-325 | a whole download request: the bytes from the start to the end address, big-endian in the command and both included, are the first bytes of the payload; the last page is filled up as PaddingExact says, also after a download that broke off; no other page changes |
| UsbDfu.Dfu.SendFlash | hardware/arduino/firmwares/arduino-usbdfu/Arduino-usbdfu.c:360-399 | the flash bytes from the start to the end address, both included, in packets of at most 32 bytes |
| UsbDfu.Dfu.UploadRequest | hardware/arduino/firmwares/arduino-usbdfu/Arduino-usbdfu.c:331-431 | flash words and back to dfuIDLE, or the address of a failed blank check, or one byte |
| UsbDfu.Dfu.DownloadThenUpload | hardware/arduino/firmwares/arduino-usbdfu/Arduino-usbdfu.c:171-431 | the end - start + 1 bytes that are downloaded are uploaded again, byte for byte |
| UsbDfu.Dfu.BlankCheck | hardware/arduino/firmwares/arduino-usbdfu/Arduino-usbdfu.c:622-648 | nothing changes when the section is blank; otherwise dfuERROR, errCHECK_ERASED and the first other address |
| UsbDfu.Dfu.EraseFlash | hardware/arduino/firmwares/arduino-usbdfu/Arduino-usbdfu.c:690-707 | the application section is blank, except that the first page gets what the page buffer held |
| UsbDfu.Dfu.ProcessMemReadCommand | hardware/arduino/firmwares/arduino-usbdfu/Arduino-usbdfu.c:612-650 | selects a range for upload or checks for blank flash |
| UsbDfu.Dfu.ProcessBootloaderCommand | hardware/arduino/firmwares/arduino-usbdfu/Arduino-usbdfu.c:536-556 | each modelled command has its effect |
| UsbDfu.Dfu.LoadCommand | hardware/arduino/firmwares/arduino-usbdfu/Arduino-usbdfu.c:200-213 | one command byte and at most five bytes of parameters from the packet |
| LcdLine.WalkInBand | examples/7.Display/LCD_Colour/LCD_Colour.cpp:247-264 | every point is within half a pixel of the true line on the minor axis and every round steps along the major axis |
| LcdLine.WalkEnds | examples/7.Display/LCD_Colour/LCD_Colour.cpp:249-263 | the far end is reached after exactly max(dx, dy) rounds |
| LcdLine.WalkInside | examples/7.Display/LCD_Colour/LCD_Colour.cpp:249-263 | no point leaves the rectangle between the ends |
| LcdLine.DrawnIsWalk | examples/7.Display/LCD_Colour/LCD_Colour.cpp:247-263 | as long as the truncated term takes the right steps, the 8-bit drawing is at the point of the unbounded walk, with its error term modulo 2^8 |
| LcdLine.FaithfulExact | examples/7.Display/LCD_Colour/LCD_Colour.cpp:247-263 | for each of the 65025 angled lines: it is drawn right exactly when its extreme doubled error term, 2dx - 2dy + 2g((dx - 1) / 2g) for a flat line and g the greatest common divisor, fits eight bits |
| LcdLine.FaithfulAgrees | examples/7.Display/LCD_Colour/LCD_Colour.cpp:247-263 | a line is drawn right exactly when the truncated error term takes the right steps in every round |
| LcdLine.ExtremeReached | examples/7.Display/LCD_Colour/LCD_Colour.cpp:247-263 | the walk comes to the extreme of its error term before it ends |
| LcdLine.DevBounds | examples/7.Display/LCD_Colour/LCD_Colour.cpp:247-263 | no round goes beyond that extreme |
| LcdLine.ExactBound | examples/7.Display/LCD_Colour/LCD_Colour.cpp:247-263 | all lines with extents up to a bound are drawn right exactly when the bound is at most 43 |
| LcdLine.WideLineStrays | examples/7.Display/LCD_Colour/LCD_Colour.cpp:247-263 | a line of 44 by 1 leaves its true course in round 24 |
| LcdLine.Lcd.Angled | examples/7.Display/LCD_Colour/LCD_Colour.cpp:228-266 | on every line that FaithfulExact admits the loop emits exactly max(dx, dy) + 1 points, those of the algorithm, in order |
| LcdLine.Lcd.Line | examples/7.Display/LCD_Colour/LCD_Colour.cpp:190-266 | horizontal and vertical lines from the lesser to the greater end, angled lines as Angled draws them; a run of 256 pixels comes out empty |
| FirmataSpec.AllHeard | hardware/arduino/libraries/Firmata/Firmata.cpp:164-277 | any sequence of sendable messages fires exactly its callbacks, in order, each with the values or the bytes that were sent, exactly as long as the memory for the strings lasts: it is never given back |
| FirmataSpec.HeardExact | hardware/arduino/libraries/Firmata/Firmata.cpp:164-277 | from any state outside a sysex message a message is heard exactly when it is sendable, bit 14 of port data clear and at most 15 characters of text, and there is memory for the text |
| FirmataSpec.TwoDataHeard | hardware/arduino/libraries/Firmata/Firmata.cpp:212-262 | even in the middle of another message the next analog or digital message is decoded |
| FirmataSpec.PinModeHeard | hardware/arduino/libraries/Firmata/Firmata.cpp:212-262 | 0xF4 with two data bytes sets the mode of a pin |
| FirmataSpec.ReportHeard | hardware/arduino/libraries/Firmata/Firmata.cpp:212-262 | 0xC0 and 0xD0 with one data byte switch the reports of a channel |
| FirmataSpec.SysexHeard | hardware/arduino/libraries/Firmata/Firmata.cpp:186-205 | any other sysex message hands over its command and up to 31 bytes |
| FirmataSpec.FirmwareHeard | hardware/arduino/libraries/Firmata/Firmata.cpp:164-168 | 0x79 in a sysex message asks for the firmware |
| FirmataSpec.SystemHeard | hardware/arduino/libraries/Firmata/Firmata.cpp:240-275 | 0xF9 asks for the version, 0xFF resets and forgets a message that has begun |
| FirmataSpec.OnWire | hardware/arduino/libraries/Firmata/Firmata.cpp:283-344 | the three messages that are sent, byte by byte |
| FirmataSpec.TextHeard | hardware/arduino/libraries/Firmata/Firmata.cpp:164-205 | a string message hands over a block of exactly its characters, without a terminator |
| FirmataSpec.ListenExact | hardware/arduino/libraries/Firmata/Firmata.cpp:170-185 | what a callback reads from the block is the string that was sent, whatever the heap holds behind it, exactly when the characters sent include a NUL |
| FirmataSpec.AllMeantExact | hardware/arduino/libraries/Firmata/Firmata.cpp:170-185 | all callbacks of any messages get what was meant, whatever the heap holds, exactly when every string includes a NUL |
| FirmataSpec.SendStringUnread | hardware/arduino/libraries/Firmata/Firmata.cpp:334-344 | what `sendString` sends of any memory has no NUL, so no callback is sure to read it right |
| FirmataSpec.LongTextOverruns | hardware/arduino/libraries/Firmata/Firmata.cpp:200-205 | a text of more than 15 characters writes past the input buffer |
| FirmataSpec.PortNotHeard | hardware/arduino/libraries/Firmata/Firmata.cpp:315-320 | a port message whose last byte is a command fires no digital callback |
| FirmataSpec.PortHigh | hardware/arduino/libraries/Firmata/Firmata.cpp:315-320 | the last byte of a port message is a data byte exactly when bit 14 is clear |
| FirmataSpec.Fourteen | hardware/arduino/libraries/Firmata/Firmata.cpp:29-33 | two bytes of seven bits carry a value modulo 2^14 |
| Firmata.FirmataClass.ProcessInput | hardware/arduino/libraries/Firmata/Firmata.cpp:192-277 | one byte is one step of the receiver |
| Firmata.FirmataClass.ProcessSysexMessage | hardware/arduino/libraries/Firmata/Firmata.cpp:164-190 | the pairs of the buffer are joined into a block of memory that the callback gets, or the block is missing when there is no memory left |
| Firmata.FirmataClass.SendAnalog | hardware/arduino/libraries/Firmata/Firmata.cpp:283-288 | writes exactly the message that HeardExact shows is heard with four bits of the pin and fourteen of the value |
| Firmata.FirmataClass.SendDigitalPort | hardware/arduino/libraries/Firmata/Firmata.cpp:315-320 | writes exactly the message that HeardExact shows is heard when bit 14 is clear |
| Firmata.FirmataClass.SendSysex | hardware/arduino/libraries/Firmata/Firmata.cpp:323-332 | every value as its two seven-bit halves between start and end, so that the end byte never occurs inside |
| Firmata.FirmataClass.SendString | hardware/arduino/libraries/Firmata/Firmata.cpp:334-344 | writes the message of the characters before the NUL, as many as an 8-bit count says |
| Firmata.FirmataClass.SystemReset | hardware/arduino/libraries/Firmata/Firmata.cpp:422-441 | all receive state cleared and the callback fired |
| Timer0Spec.ClockAddsUp | hardware/arduino/cores/arduino/wiring.c:29-65 | after n overflows 1000 millis and 8 fract make n times the counted microseconds, with fract below 125 |
| Timer0Spec.MillisExact | hardware/arduino/cores/arduino/wiring.c:29-65 | the millisecond count is the exact floor for every number of overflows exactly when an overflow takes a multiple of 8 microseconds |
| Timer0Spec.TicksExact | hardware/arduino/cores/arduino/wiring.c:81-107 | `micros` is the exact tick count exactly when no overflow is waiting in its last tick; there it is 256 ticks behind |
| Timer0Spec.NeverEarly | hardware/arduino/cores/arduino/wiring.c:109-119 | for readings that do not fall back a millisecond is only counted when it has passed, whatever the 16-bit aliasing |
| Timer0Spec.CountedExact | hardware/arduino/cores/arduino/wiring.c:109-119 | for any readings: the milliseconds counted have passed at a reading exactly when it is not below the time that `start` stands for |
| Timer0Spec.LateReadings | hardware/arduino/cores/arduino/wiring.c:81-119 | for readings taken with `micros`: no millisecond is counted too early exactly when every reading in the bad tick comes at least 256 ticks after `start` |
| Timer0Spec.ReturnsEarly | hardware/arduino/cores/arduino/wiring.c:81-119 | exactly when a delay over `micros` returns early in true time, for good and bad first and last readings |
| Timer0Spec.DelayReturnsEarly | hardware/arduino/cores/arduino/wiring.c:81-119 | delay(3) at 16 MHz with interrupts off can return after 2044 microseconds |
| Timer0Spec.Prompt | hardware/arduino/cores/arduino/wiring.c:109-119 | the milliseconds left are exact after every reading exactly when, until the wait is over, no two consecutive readings straddle two millisecond marks, but for a last millisecond whose lag does not wrap to less than 1000 |
| Timer0Spec.AliasedNeverEnds | hardware/arduino/cores/arduino/wiring.c:109-119 | readings 2^16 microseconds apart never end a delay |
| Timer0.Timer.Overflow | hardware/arduino/cores/arduino/wiring.c:45-65 | the interrupt keeps the counters equal to the unbounded clock modulo their widths |
| Timer0.Timer.Millis | hardware/arduino/cores/arduino/wiring.c:67-79 | the counted microseconds of all overflows in milliseconds modulo 2^32; these are the elapsed ones when the overflow time is a multiple of 8 |
| Timer0.Timer.Micros | hardware/arduino/cores/arduino/wiring.c:81-107 | the elapsed microseconds modulo 2^32, or 256 ticks less in the one bad tick |
| Timer0.Timer.Delay | hardware/arduino/cores/arduino/wiring.c:109-119 | returns at the first reading at which no millisecond is left; early by its readings exactly when that one is below the time that `start` stands for, and never for readings that do not fall back |
| ServoAngles.AngleRoundTrip | hardware/arduino/libraries/Servo/Servo.cpp:286-321 | `write(a)` and `read()` give a for all angles exactly when the pulse range is wider than 180 microseconds |
| ServoAngles.LimitsWide | hardware/arduino/libraries/Servo/Servo.cpp:255-275 | whatever limits are attached, the range is that wide |
| ServoAngles.LimitsKept | hardware/arduino/libraries/Servo/Servo.cpp:266-267 | an attached limit is kept to within 3 microseconds exactly when its distance from the default fits eight bits |
| ServoAngles.WidthRoundTrip | hardware/arduino/libraries/Servo/Servo.cpp:297-332 | a pulse width inside the limits survives the ticks at 8 and 16 MHz |
| ServoAngles.WidthClamped | hardware/arduino/libraries/Servo/Servo.cpp:302-305 | a width beyond a limit is read back as that limit |
| ServoAngles.WidthEnds | hardware/arduino/libraries/Servo/Servo.cpp:286-295 | below 544 a value is an angle: 0 and less give the low limit, 180 and more the high one; from 544 on it is microseconds |
| ServoAngles.PlainServo | hardware/arduino/libraries/Servo/Servo.cpp:286-316 | `write(90)` with the limits of a plain attach is 1472 microseconds, 2940 ticks at 16 MHz |
| ServoAngles.PlainLimits | hardware/arduino/libraries/Servo/Servo.cpp:255-267 | a plain attach keeps its limits of 544 and 2400 exactly |
| ServoFrames.RunOneHigh | hardware/arduino/libraries/Servo/Servo.cpp:75-98 | after any interrupts, with the counter and the widths at any values, at most one pin is high and it is that of the current channel |
| ServoFrames.InterleavedAlone | hardware/arduino/libraries/Servo/Servo.cpp:75-98 | however the interrupts of several timers are interleaved, each timer does what it does on its own |
| ServoFrames.AllOneHigh | hardware/arduino/libraries/Servo/Servo.cpp:75-98 | on every interleaving each timer has at most one pin high |
| ServoFrames.FirstChannelSkipped | hardware/arduino/libraries/Servo/Servo.cpp:59-98 | a timer starts at channel 0: up to its first reset the active channels from 1 on are raised once, in order, and channel 0 is not |
| ServoFrames.FramePulses | hardware/arduino/libraries/Servo/Servo.cpp:75-98 | between two resets every active channel is pulsed once, in order, for exactly the ticks it had when it was raised, whatever is written between the interrupts |
| ServoFrames.FrameLength | hardware/arduino/libraries/Servo/Servo.cpp:89-97 | the time to the next reset, for pulses of any total length: ending at the refresh interval or less than four ticks behind it misses the compare match and costs a counter round |
| ServoFrames.LengthExact | hardware/arduino/libraries/Servo/Servo.cpp:89-97 | a frame lasts the refresh interval exactly when its pulses end before it, and is never shorter |
| ServoFrames.FramesPulse | hardware/arduino/libraries/Servo/Servo.cpp:75-98 | any number of frames follow each other, each with its pulses, with widths written at any time |
| ServoFrames.Periodic | hardware/arduino/libraries/Servo/Servo.cpp:75-98 | m frames take m refresh intervals exactly when the pulses of every one of them end before it |
| Servo.Timers.HandleInterrupts | hardware/arduino/libraries/Servo/Servo.cpp:75-98 | the handler is the transition of the frame theorems, leaves the other timers alone and keeps at most one pin of each high |
| Servo.Servo.constructor | hardware/arduino/libraries/Servo/Servo.cpp:245-253 | the next free slot with the default width, or none |
| Servo.Servo.Attach | hardware/arduino/libraries/Servo/Servo.cpp:260-275 | pin in six bits, limits in steps of four microseconds in eight bits, pin active |
| Servo.Servo.Write | hardware/arduino/libraries/Servo/Servo.cpp:286-295 | angles below 544 are mapped and clamped, the rest are microseconds; no other slot changes |
| Servo.Servo.WriteMicroseconds | hardware/arduino/libraries/Servo/Servo.cpp:297-316 | clamped, trimmed and stored in ticks |
| Servo.Servo.ReadMicroseconds | hardware/arduino/libraries/Servo/Servo.cpp:323-332 | ticks back to microseconds, 0 for an invalid servo |
| Servo.Servo.WriteThenRead | hardware/arduino/libraries/Servo/Servo.cpp:286-321 | an angle that was written is read back |
| StreamFindSpec.FindExact | hardware/arduino/cores/arduino/Stream.cpp:97-125 | on every NUL-free stream the reset-to-zero search stops at the first occurrence exactly when every proper border of a prefix of the target is followed by the byte that would have matched and all its bytes are below 128, as they are compared as signed characters |
| StreamFindSpec.HighByteMisses | hardware/arduino/cores/arduino/Stream.cpp:108-116 | a target with a byte of 128 or more is found on no stream |
| StreamFindSpec.TerminatorExact | hardware/arduino/cores/arduino/Stream.cpp:118-123 | on every NUL-free stream `termIndex` completes at the first occurrence of the terminator exactly when that is one byte below 128, once or repeated: a byte that breaks a match is not tried again |
| StreamFindSpec.NotUniformRunsPast | hardware/arduino/cores/arduino/Stream.cpp:118-123 | any other terminator below 128 is run past on the stream that has its first byte in front of it |
| StreamFind.EndsAtTerminator | hardware/arduino/cores/arduino/Stream.cpp:97-125 | a search that does not find its target ends at the first occurrence of such a terminator, and goes on to the end or a NUL only when there is none |
| StreamFindSpec.UniqueFirst | hardware/arduino/cores/arduino/Stream.cpp:97-125 | a target whose first character does not come again meets the condition |
| StreamFindSpec.ForgetfulFinds | hardware/arduino/cores/arduino/Stream.cpp:97-125 | under the condition found means first occurrence and back |
| StreamFindSpec.FoundIsOccurrence | hardware/arduino/cores/arduino/Stream.cpp:97-125 | for every target, found means that the last bytes read are the target |
| StreamFindSpec.NotForgetfulMisses | hardware/arduino/cores/arduino/Stream.cpp:97-125 | otherwise there is a stream that holds the target and is read to its end without finding it |
| StreamFindSpec.IndexSound | hardware/arduino/cores/arduino/Stream.cpp:106-116 | the bytes counted as matched are the last ones read |
| StreamFindSpec.IndexLongest | hardware/arduino/cores/arduino/Stream.cpp:106-116 | under the condition the count is the longest match that can still grow |
| StreamFind.Stream.FindUntil | hardware/arduino/cores/arduino/Stream.cpp:97-125 | true right behind a found target, false behind the terminator as `termIndex` counts it, at the end or at a NUL, whichever comes first, and nothing is skipped |
| StreamFind.Stream.Find | hardware/arduino/cores/arduino/Stream.cpp:83-86 | for every target and stream: found as soon as the matcher is done, else the stream is read to its end or its first NUL; under the condition of FindExact that is the first occurrence, or there is none |
| NumberTextSpec.LinesRoundTrip | hardware/arduino/cores/arduino/Stream.cpp:131-159 | any printed lines of 32-bit numbers are read back in order |
| NumberTextSpec.ParseLine | hardware/arduino/cores/arduino/Stream.cpp:138-159 | a printed number, the least one included, is read back and the line end left |
| NumberTextSpec.DigitsDenote | hardware/arduino/cores/arduino/Print.cpp:206-223 | the digits denote the number and only 0 starts with 0 |
| NumberTextSpec.DigitsFew | hardware/arduino/cores/arduino/Print.cpp:206-223 | a number of k bits has at most k digits in any base |
| NumberTextSpec.DigitCharsDistinct | hardware/arduino/cores/arduino/Print.cpp:219-220 | different digits print differently exactly up to base 128 |
| NumberTextSpec.NumberWhole | hardware/arduino/cores/arduino/Print.cpp:219-223 | every number is printed whole in a base exactly when the base is at most 208; beyond it the digit 208 is the NUL that cuts the output short |
| NumberTextSpec.PrintedDenotes | hardware/arduino/cores/arduino/Print.cpp:88-102 | in every base up to 208 but ten the characters denote the number modulo 2^32: 0 to 9, then A and on; base 1 prints in base ten |
| NumberTextSpec.PrintedTen | hardware/arduino/cores/arduino/Print.cpp:88-102 | base ten prints a minus sign and the digits of the magnitude, base 0 the low byte |
| NumberTextSpec.ParseText | hardware/arduino/cores/arduino/Stream.cpp:131-164 | over anything to the first digit or sign, then the value of all digits with the skipped characters between them, as a wrapping long, up to the first other byte |
| NumberTextSpec.DefaultSkip | hardware/arduino/cores/arduino/Stream.cpp:131-134 | `parseInt()` skips the byte 1 |
| NumberTextSpec.LoopDigits | hardware/arduino/cores/arduino/Stream.cpp:147-159 | the wrapping accumulation over digits gives the number modulo 2^32 |
| NumberText.Printer.PrintNumber | hardware/arduino/cores/arduino/Print.cpp:206-223 | the base expansion, written backwards into 33 characters without ever leaving them |
| NumberText.Printer.PrintLong | hardware/arduino/cores/arduino/Print.cpp:88-102 | sign in base ten, digits of the 32 bits without a sign that denote the number in any other base up to 208, one byte for base 0 |
| NumberText.Printer.PrintLine | hardware/arduino/cores/arduino/Print.cpp:176-181 | writes the line that ParseLine shows is read back as the number |
| NumberText.Reader.PeekNextDigit | hardware/arduino/cores/arduino/Stream.cpp:55-65 | skips to the next digit or sign |
| NumberText.Reader.ParseInt | hardware/arduino/cores/arduino/Stream.cpp:138-159 | the value and the rest of the stream that the model gives |
| NumberText.PrintThenParse | hardware/arduino/cores/arduino/Stream.cpp:131-159 | printing a list of numbers and reading as many gives the list |

## Left out

- WString.ArduinoString.Replace: for a longer replacement it is stated for texts on which the walk fits the buffer that was sized for it; what the source does to memory beyond the buffer when it does not fit is undefined, and `TextReplace.SizingExact` says when that can happen.
- WString.ArduinoString.Replace: aliasing of the text with `find` or `replace` is not modelled.
- WString.ArduinoString.Copy: texts of 65535 characters, which with their NUL would fill the whole address space.
- WString.ArduinoString.Reserve: what is stored outside a block of 0 bytes is undefined in the source; the model stores nothing there.
- WString.ArduinoString.Substring: without a buffer an end of 0 is excluded, the source dereferences NULL there.
- WString.ArduinoString.Concat: appending a string to itself is not modelled.
- The other `String` members (conversions, comparisons, `indexOf` of characters, case mapping): they would only add easy members.
- OptibootHost.RunRefines: programs are aligned full pages and page 0 is programmed before its vector bytes are read, as the boot loader demands of its host; partial pages are not modelled. Longer commands are excluded exactly where `OptibootHost.LengthExact` says they do harm.
- Optiboot and the other boot loaders: watchdog, LED, UART set-up, EEPROM, fuse, lock-bit and signature contents, the extended address byte of chips above 64 KiB in optiboot and ATmegaBOOT.
- SerialTx.RunKeepsInv: 16-bit `head` and `tail` are read and written in one step, and the register that enables the interrupt is set without disturbing its other bits.
- Stk500Boot.Bootloader.FeedByte: what a write past the 285 bytes of the message buffer does is undefined in the source; the model notes it and stops.
- Stk500Boot.Bootloader.Serve: requests come to an end with the input; answers that would not fit the message buffer are excluded.
- Stk500Boot.Bootloader.ProcessMessage: sign-on, parameter, EEPROM, fuse, lock and signature commands answer without touching flash and are not modelled, nor is the '!' monitor and the time-out.
- FlashKernel.Kernel.CopyData: a flash call that fails leaves the flash as it was; autobaud, clocks and code security are not modelled.
- AtmegaBoot.Avr.WriteBlock: the address is page-aligned and the length not 0, as a programmer sends them; with length 0 the 16-bit counter would run through 64 KiB.
- UsbDfu.Dfu.DownloadFlash: flash writes to page-aligned addresses; EEPROM transfers, leaving the boot loader, the status requests and stalls are not modelled.
- UsbDfu.Dfu.DownloadFlash: a range of no words, which the whole 64 KB is by `UsbDfuSpec.InclusiveCount`, is excluded.
- UsbDfu.Dfu.ReadWord: a packet holds whole words, as the host sends them.
- LcdLine.Lcd.Angled: lines that `LcdLine.FaithfulExact` shows are drawn wrong; which pixels they set instead is not modelled.
- The other display members: `circle` wraps for ordinary radii, fonts and rectangles are tables and fills.
- Firmata.FirmataClass.ProcessInput: a write past the input buffer or through a missing block is undefined in the source; the model notes it and stops. The heap is a number of free bytes. Callbacks that are not attached, firmware names and pin modes other than the message itself are not modelled.
- Timer0.Timer.Micros: at most one overflow is waiting and the flag is read within one tick of the counter; with two overflows lost no clock can be right.
- Timer0.Timer.Delay: the clock readings are given; how long a round of the loop takes is not modelled.
- ServoFrames.FramePulses: the handler takes no time and the timer does not run while it does; attaching and detaching inside a frame is not modelled, nor the timer set-up in `attach` and `detach`.
- Servo.Servo.Detach: an invalid servo is excluded, the source indexes past its array there.
- StreamFind.Stream.FindUntil: a time-out is the end of the stream; `find(char *)` without a length, which measures NULL, a length of 0 with a non-empty target and a target with a NUL inside are not modelled.
- NumberText.Reader.ParseInt: a skip character of -1, which the source cannot tell from a time-out, is excluded.
- Printing and parsing of floating-point numbers.
- Ethernet, SD, WiFi and USB stacks, register set-up, `shiftIn`, `shiftOut`, `IPAddress` and character classes.
- AvrFlash.FillStep: a word of the page buffer that is loaded a second time takes the new value; parts may differ there.
