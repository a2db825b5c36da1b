# Verified model of the SimpleScalar simulator's core

The repository holds the SimpleScalar 3.0 processor simulator with a course author's code
for pipeline hazards.  This project models its parts that carry state or arithmetic of some
depth, in Dafny 4.11, and proves what they are for.  `dafny verify dfyconfig.toml` checks all
of it.

- `Hazards.dfy`: the three register scoreboards of `sim-safe.c` (load-use, no forwarding "q1",
  full forwarding "q2") and their counters.  The scoreboards have no clock; after a stall they
  shift every pending ready time down.  They are shown to be a cycle-accurate in-order pipeline,
  whose schedule is the earliest that respects the dependences.
- `Basics.dfy`: what several modules need.
- `Machine.dfy`, `Memory.dfy`: simulated memory, a hashed inverted page table with
  move-to-front buckets, shown to be a flat byte map that is zero where nothing was written.
- `Numbers.dfy`: decimal and hexadecimal printing and parsing of 64-bit numbers.
- `Exo.dfy`, `ExoRoundTrip.dfy`, `ExoText.dfy`, `ExoStream.dfy`: the EXO term format, its printer
  and its reader, first as functions on text, then as they work on streams.
- `Trace.dfy`, `TraceText.dfy`, `Eio.dfy`: recording of system calls as transactions, and
  their replay; on values, through the text of a trace file, and on page table and registers.
- `Checkpoint.dfy`, `CheckpointStream.dfy`: checkpoints of the whole architected state.
- `EioRun.dfy`, `EioFile.dfy`: whole runs recorded and replayed on the machine; a whole file with
  header, checkpoint and trace, and going on from a later checkpoint.
- `EventQueue.dfy`, `EventLists.dfy`: the event queue as a machine on values, and the two
  linked lists that implement it.
- `Evaluator.dfy`, `Grammar.dfy`, `Lexer.dfy`: the debugger's expression evaluator, the grammar it
  parses, defined on its own, and the spelling of its tokens.
- `StartupStack.dfy`: the stack image with argc, argv and envp that the loader writes.
- `Crc.dfy`: the table-driven CRC against the bit-serial one, and that against long division.
- `Decoder.dfy`: the flattened opcode tables and the decoding loop.
- `Symbols.dfy`: symbol sizes, and the searches by address and by name.

Conventions.  Integers are unbounded except where the width matters; then it is written out
(64-bit addresses and numbers wrap, the page table index is taken from an address by division
and remainder, 32-bit CRC words are sequences of bits).  `panic` and `fatal` are result values.
I/O, clocks and system calls are parameters: a system call is any sequence of memory accesses
together with the registers and the break point it leaves.  Alpha constants are used (8192-byte
pages, 64-bit addresses).  A class holds what the source updates in place; its methods are
proved against functions on values, and what the source promises is proved about those.

Where a promise does not hold of the code, the code was kept, a lemma shows it failing, and
another says exactly when it holds:

- A printed EXO term reads back if and only if it holds no empty blob and the text behind it
  does not continue its last number: the reader leaves the closing `>` of an empty blob to the
  next reader (`RoundTripIff`, `LeaksOrFails`).
- A replayed call reproduces a recorded one if and only if the call changed no register but the
  output registers and its faulting accesses do no harm (`ReplayIff`).  They do harm if the
  buffer of a faulting read, which is recorded as it is, is not what memory holds, or if
  performing the faulting writes, which replay does, makes a difference (`FaultingReadDiverges`,
  `FaultingWriteDiverges`).  From the text of the trace it does so if and only if, besides, no
  empty blob was recorded (`TracedCallReplaysIff`; for whole runs `FileReproducesRunIff`; and for
  whole files, checkpoint and trace, `FileRunIff`).
- The word-wise block copy reads as the byte-wise one does if and only if it transfers nothing or
  address and size are multiples of four (`Copy4ReadIff`).  It writes as that does if and only if
  there is no whole word or the address is a multiple of four, and memory holds the bytes behind
  the last word already (`Copy4WriteIff`).
- Servicing events at two times has the effect of servicing them at the later one if and only
  if no callback was due at the first (`ServiceTwice`): callbacks are told the time of service.
- The evaluator finds the value and the end of the expression a string begins with if and only
  if no character that begins no token stands right behind it (`EvaluatesTheParse`).  It loses
  such characters where it looks for an operator, so that "1#+2" is 3 (`UnmappedExample`), and
  "(1#)" is 1 although no expression is spelled like that (`UnmappedParens`).  Evaluation
  succeeds and loses no character if and only if the string begins with an expression that has a
  value and no such character behind it (`EvaluationSucceedsIff`); whatever value it returns is
  that of the text without the lost characters (`ValueIsSpelled`).
- A sign behind a hexadecimal literal is an operator if and only if the literal does not end in
  the digit e (`HexToken`): "0x1e-1" is one literal (`HexSwallowsSign`).
- The start-up stack lacks argc and all pointers if the text segment is not a multiple of 8
  (`MisalignedDecodesIff`).  If it is, the program finds its arguments if and only if none of the
  strings begins at address 0 (`StackDecodesIff`, `LoaderPromise`), as one may with a text segment
  below 430080 (`ArgumentAtZero`).  The size check is right only above that (`OverflowCheckIff`).
- A decoded instruction has the fields of its opcode if and only if none of its fields has a
  value that the group it selects from does not reach (`DecodedFollowsIff`, `GapMisleads`);
  the PALcode group of the Alpha definitions has such values.
- The inexact search by address finds a symbol if and only if it looks at one that covers the
  address on its way to the last symbol that begins at or below it (`SearchFindsIff`).  In the
  tables of one segment it always does if there is one.  In the table of both, which is sorted on
  its own, a symbol is found if and only if its place is looked at on the way to the last one of
  the same address (`JointSearch`), and may be missed (`DuplicateMissed`).
- A checkpoint can be loaded over the trace of its run if and only if a transaction has its count
  (`ResumesIff`): one taken before the first system call can not.

The load-use count equals the count of two-cycle stalls with forwarding for all instruction sets
in which no opcode both loads and stores, as in the two that are shipped (`LoadUseEqualsTwoCycle`);
`LoadUseEqualsTwoCycleIff` and `MixedFeedDiffers` say what such an opcode would change.

Where the code and its documentation disagree the code was followed.  The header of the event
queue promises a limit on pending events; the count it is compared with never changes.  The
grammar in `dlite.h` calls factors what the code calls terms.  The comment on `mem_bcopy4`
asks for multiples of four, its code rounds down.

## Model

| member | source | states |
|---|---|---|
| Hazards.Charge | Lab1/sim-safe.c:465-490 | one instruction's stall is the longest wait of its checked inputs, and every pending ready time goes down by it |
| Hazards.Mark | Lab1/sim-safe.c:493-495 | outputs become ready a latency later, register 0 is no output, other registers keep their times |
| Hazards.CheckLoadUse | Lab1/sim-safe.c:435-446 | a load-use hazard is found exactly if an input but the data of a store waits for a load |
| Hazards.Scoreboard.constructor | Lab1/sim-safe.c:455-495 | a scoreboard starts with nothing pending and all counters zero |
| Hazards.Scoreboard.Execute | Lab1/sim-safe.c:499-543 | after any run the table is the specified one, and hazards, one-cycle and two-cycle stalls are counted; which these are, in cycles, say `StallsWithoutForwarding` and `StallsWithForwarding` |
| Hazards.HazardCounters.constructor | Lab1/sim-safe.c:435-543 | the three scoreboards start together on an empty run |
| Hazards.HazardCounters.Execute | Lab1/sim-safe.c:435-543 | executing an instruction advances all three scoreboards over the same run |
| Hazards.HazardCounters.Reported | Lab1/sim-safe.c:199-205 | in every reachable state the reported numbers satisfy the laws below |
| Hazards.ScoreboardRefinesPipeline | Lab1/sim-safe.c:465-495 | every register is as late on the shifted scoreboard as in the pipeline with absolute cycles, and every stall is the gap that pipeline leaves |
| Hazards.StaysInStep | Lab1/sim-safe.c:455-495 | the relation between table and pipeline is kept by every instruction |
| Hazards.StallIsGap | Lab1/sim-safe.c:465-490 | each stall is the gap in issue cycles of the pipeline with T(n) = max(T(n-1)+1, ready cycles of checked inputs) |
| Hazards.CycleNonNegative | Lab1/sim-safe.c:455-495 | instruction n issues no earlier than cycle n |
| Hazards.ScheduleIsCycles | Lab1/sim-safe.c:455-495 | the stalls charged add up to the pipeline's issue cycles |
| Hazards.ScheduleIsLegal | Lab1/sim-safe.c:455-543 | the schedule that the stalls give violates no dependence on a producer |
| Hazards.ScheduleIsEarliest | Lab1/sim-safe.c:455-543 | no schedule that respects the dependences issues any instruction earlier |
| Hazards.BoardBound | Lab1/sim-safe.c:493-495 | a ready time is at most a latency ahead |
| Hazards.StallRange | Lab1/sim-safe.c:487-495 | every stall is 0, 1 or 2 cycles |
| Hazards.StallConservation | Lab1/sim-safe.c:524-543 | hazards are one-cycle plus two-cycle stalls, and issue cycles are instructions plus stall cycles |
| Hazards.CPIMeasuresCycles | Lab1/sim-safe.c:199-205 | instructions times the CPI formula is the issue cycle of the last instruction |
| Hazards.CPIScales | Lab1/sim-safe.c:199-205 | the CPI formula over rationals is instructions plus stall cycles, per instruction |
| Hazards.ForwardingNeverHurts | Lab1/sim-safe.c:455-543 | after every run, stall cycles with forwarding are at most those without |
| Hazards.LoadUseMatchesTwoCycleStalls | Lab1/sim-safe.c:435-543 | the load-use count is the two-cycle stalls with forwarding plus the feeds from instructions that are load and store |
| Hazards.LoadUseEqualsTwoCycleIff | Lab1/sim-safe.c:435-543 | the two counters are equal if and only if there is no such feed |
| Hazards.LoadUseEqualsTwoCycle | Lab1/sim-safe.c:435-543 | they are equal in every run without opcodes that both load and store |
| Hazards.MixedFeedDiffers | Lab1/sim-safe.c:435-543 | two instructions on which they differ, the first of which does both |
| Hazards.PendingTimes | Lab1/sim-safe.c:479-495 | when a register will be ready, by which of the last two instructions wrote it |
| Hazards.StallsWithoutForwarding | Lab1/sim-safe.c:455-495 | in every run an instruction stalls exactly 2 cycles if the one right before it gives it an input, 1 if the one before that does and the one between did not stall, and else none |
| Hazards.StallsWithForwarding | Lab1/sim-safe.c:499-543 | in every run it stalls exactly 2 cycles behind a load that gives it an input, 1 behind another instruction that does and is no store, none behind a store; else 1 if a load stands before that and the one between did not stall; it does not wait for the datum of a store |
| Hazards.LoadUseMeans | Lab1/sim-safe.c:435-451 | a load-use hazard is counted exactly if the instruction right before is a load that gives an input, other than the datum of a store |
| Memory.AddressSplit | Lab1/memory.h:106-116 | tag, set and offset give back the address |
| Memory.AddressJoin | Lab1/memory.h:106-130 | every tag, set and offset in range is the split of one address |
| Memory.AlignedMeansMultiple | Lab1/memory.c:150-156 | the alignment test on bits means divisible by the size |
| Memory.CheckMeans | Lab1/memory.c:146-157 | an access is refused for its size unless that is 0 or one of 1, 2, 4 up to 8192, and else for its address unless that is a multiple of the size, or is 0 for no bytes |
| Memory.Copy4Aligned | Lab1/memory.c:366-390 | word-wise and byte-wise copies agree on aligned multiples of four |
| Memory.Copy4ReadIff | Lab1/memory.c:363-390 | and for reads on nothing else that transfers a byte |
| Memory.Copy4WriteIff | Lab1/memory.c:363-390 | for writes they agree if and only if there is no word or the address is a multiple of four, and memory holds the bytes behind the last word already |
| Memory.MovedFindsSame | Lab1/memory.c:87-103 | after moving an entry to the front every tag finds the same entry |
| Memory.MovedIs | Lab1/memory.c:92-101 | the entry goes to the front and the others keep their order |
| Memory.FlattenDistinct | Lab1/memory.h:140-142 | the page iterator visits no page twice |
| Memory.PageTable.constructor | Lab1/memory.c:250-263 | an empty table is empty memory |
| Memory.PageTable.Splice | Lab1/memory.c:93-99 | relinking keeps every bucket a list and moves one entry to the front |
| Memory.PageTable.MoveToFront | Lab1/memory.c:92-101 | moving to the front changes no byte and no translation |
| Memory.PageTable.Find | Lab1/memory.c:87-105 | the walk finds the entry with the tag if there is one |
| Memory.PageTable.Translate | Lab1/memory.c:78-107 | translation returns the page of the address or none, the entry found is then the first of its bucket, and memory is unchanged |
| Memory.PageTable.Insert | Lab1/memory.c:127-134 | the new entry heads its bucket, the page count goes up |
| Memory.PageTable.NewPage | Lab1/memory.c:110-135 | a zeroed page is added for an unallocated address without changing any byte |
| Memory.PageTable.Page | Lab1/memory.h:119-127 | the fast path at the first entry gives what the search gives, and the entry found is then the first of its bucket |
| Memory.PageTable.Tickle | Lab1/memory.h:133-137 | afterwards the page exists, one page more if it did not, and memory is unchanged |
| Memory.PageTable.ReadByte | Lab1/memory.h:151-154 | a byte read is what flat memory has, zero if the page is unallocated |
| Memory.PageTable.WriteByte | Lab1/memory.h:162-164 | a byte written changes flat memory at that address only, and allocates a page only if there was none |
| Memory.PageTable.Poke | Lab1/memory.h:162-164 | writing into a page changes no byte of another address |
| Memory.PageTable.ReadBlock | Lab1/memory.c:160-168 | the read loop fetches the bytes at consecutive, wrapping addresses |
| Memory.PageTable.WriteBlock | Lab1/memory.c:169-177 | the write loop stores them |
| Memory.PageTable.Access | Lab1/memory.c:140-219 | sizes and alignment are checked, then memory is read or written as flat memory is |
| Memory.PageTable.AccessAll | Lab1/memory.c:353-358 | accesses are made in turn up to the first fault |
| Memory.PageTable.Bcopy | Lab1/memory.c:340-362 | the byte-wise copy is a block copy on flat memory |
| Memory.PageTable.Bcopy4 | Lab1/memory.c:366-390 | the word-wise copy makes the word accesses on flat memory |
| Memory.PageTable.Run | Lab1/memory.c:140-390 | any sequence of accesses and copies answers and acts as on flat memory |
| Memory.PageTable.Dump | Lab1/memory.h:140-142 | as many pages as the page count, each once, with its contents, and every address ever written is in one |
| Numbers.LowDigit | Lab1/misc.c:400-413 | the low decimal digit and the quotient of a number whose highest bit is set |
| Numbers.TruncatedDigit | Lab1/misc.c:577-600 | the digit computed in a C int is the digit |
| Numbers.NumeralValue | Lab1/misc.c:572-603 | a numeral's value is the number, in any base |
| Numbers.PrintDecimal | Lab1/misc.c:572-603 | the text is the decimal numeral of every 64-bit number |
| Numbers.PrintHex | Lab1/misc.c:615-647 | the text is the hexadecimal numeral |
| Numbers.TakeTracks | Lab1/misc.c:955-975 | the accumulator with its overflow flag tracks the exact value digit by digit |
| Numbers.CutoffIsExact | Lab1/misc.c:945-970 | the cutoff test finds overflow exactly when the value no longer fits |
| Numbers.ParseUnsigned | Lab1/misc.c:895-985 | blanks, a hexadecimal prefix and digits are taken as specified: the exact value if it fits, the maximum and a range error otherwise |
| Numbers.ParseDigits | Lab1/misc.c:950-985 | the digit loop computes the exact value or finds that it does not fit |
| Numbers.DigitStrings | Lab1/misc.c:895-985 | on any digit string the result is its value, or the maximum with a range error |
| Numbers.DecimalRoundTrip | Lab1/misc.c:572-985 | parsing what was printed in decimal gives the number back |
| Numbers.HexRoundTrip | Lab1/misc.c:615-985 | parsing what was printed in hexadecimal behind 0x gives the number back |
| Numbers.ValueOfPair | Lab1/misc.c:955-975 | leading digits weigh as much more as there are digits behind them |
| Numbers.SpaceSkipped | Lab1/misc.c:907-911 | white space in front changes nothing but where the number ends |
| Numbers.BaseZero | Lab1/misc.c:913-925 | base 0 is 16 behind the prefix 0x or 0X, and else 10 |
| ExoRoundTrip.ReadPrint | Lab1/libexo/libexo.c:751-1135 | a printed term without empty blobs reads back, and the reader stops right behind it |
| ExoRoundTrip.EmptyBlobLeaks | Lab1/libexo/libexo.c:1088-1123 | an empty blob leaves its closing delimiter and the lexer's blob mode behind |
| ExoRoundTrip.LeaksOrFails | Lab1/libexo/libexo.c:984-1123 | a larger term with an empty blob somewhere inside can not be read |
| ExoRoundTrip.PrintAppend | Lab1/libexo/libexo.c:751-858 | printing only adds to what is already there |
| ExoRoundTrip.RoundTripIff | Lab1/libexo/libexo.c:751-1135 | a term reads back from its text with anything behind it if and only if it holds no empty blob and what is behind does not continue its last number |
| ExoRoundTrip.CommentInert | Lab1/libexo/exolex.l:83-150 | a comment is not seen by the reader, unless its text begins with a symbol or holds the end of a comment |
| ExoText.ListLayout | Lab1/libexo/libexo.c:789-802 | a list is its elements in parentheses, a comma and a blank between them |
| ExoText.ArrayLayout | Lab1/libexo/libexo.c:804-828 | an array is its size in braces and its slots in brackets, a blank for an empty one, up to the last filled one |
| ExoText.BlobLayout | Lab1/libexo/libexo.c:834-853 | a blob is its size and its bytes as hexadecimal digits in lines of 38 bytes; only a last line of one byte behind others is not ended |
| ExoText.SizedBlob | Lab1/libexo/libexo.c:1088-1129 | a blob with fewer bytes than its size is filled up with zeros, one with more is an error |
| ExoText.SizedArray | Lab1/libexo/libexo.c:1049-1086 | an array with fewer slots than its size is filled up with empty ones, one with more is an error |
| ExoText.NumbersEnd | Lab1/libexo/exolex.l:93-99 | an integer or an address ends exactly where no digit of it, and behind an integer no fraction, follows |
| ExoText.GapsSkipped | Lab1/libexo/exolex.l:119-123 | blanks, tabs and ends of lines and pages are skipped, other control characters are an error |
| ExoText.NoComment | Lab1/libexo/exolex.l:85-107 | the beginning of a comment with another symbol behind it is none |
| ExoText.TooLarge | Lab1/libexo/libexo.c:896-936 | a number of more than 64 bits is an error |
| ExoText.LooseList | Lab1/libexo/libexo.c:984-1011 | a list reads the same with any of its commas left out |
| ExoStream.Input.EatComment | Lab1/libexo/exolex.l:133-150 | the loop stops behind the first end of a comment |
| ExoStream.Input.DropGaps | Lab1/libexo/exolex.l:91-120 | blanks and comments in any order are dropped, comments only outside of blobs |
| ExoStream.Input.Match | Lab1/libexo/exolex.l:89-123 | the longest match of the token rules at the front of the text, digit by digit |
| ExoStream.Input.Yylex | Lab1/libexo/exolex.c:856-977 | the loops take from the stream the token that the lexical rules give on text; blob delimiters switch the lexer's mode |
| ExoStream.Input.Read | Lab1/libexo/libexo.c:876-1135 | the reader on the stream answers as the reader on text |
| ExoStream.Input.ReadListBody | Lab1/libexo/libexo.c:984-1011 | elements are read up to the closing parenthesis |
| ExoStream.Input.ReadSizedBody | Lab1/libexo/libexo.c:1025-1044 | the size in braces is read |
| ExoStream.Input.ReadSizedContents | Lab1/libexo/libexo.c:1046-1133 | an array or a blob follows |
| ExoStream.Input.ReadArrayBody | Lab1/libexo/libexo.c:1049-1086 | slots are filled in order, missing ones stay empty, too many are an error |
| ExoStream.Input.ReadSlot | Lab1/libexo/libexo.c:1058-1080 | one slot, filled or empty, with its comma; the loop goes on, ends or fails as on text |
| ExoStream.Input.ReadBlobBody | Lab1/libexo/libexo.c:1088-1129 | bytes are filled in order, missing ones are zero, too many are an error |
| ExoStream.LastFilled | Lab1/libexo/libexo.c:808-814 | the last slot of an array that holds a term |
| ExoStream.Output.Print | Lab1/libexo/libexo.c:751-858 | the printer adds exactly the term's text to the stream |
| ExoStream.Output.PrintElements | Lab1/libexo/libexo.c:789-802 | elements are separated by commas |
| ExoStream.Output.PrintArray | Lab1/libexo/libexo.c:804-828 | the size, and the slots up to the last filled one |
| ExoStream.Output.PrintSlots | Lab1/libexo/libexo.c:817-825 | empty slots before it leave their comma |
| ExoStream.Output.PrintBlob | Lab1/libexo/libexo.c:834-853 | the size, and the bytes between angle brackets |
| ExoStream.Output.PrintData | Lab1/libexo/libexo.c:839-850 | two digits for each byte, with line breaks |
| Trace.CoalescingIsExact | Lab1/eio.c:527-558 | however accesses are merged into blobs, the blobs flatten to the byte log |
| Trace.RecordingInvariant | Lab1/eio.c:491-565 | while recording, memory is the start memory with the writes that did not fault, the output log has all writes, and the input log is what memory held if and only if the buffers of faulting reads are |
| Trace.ReplayIff | Lab1/eio.c:571-811 | replay from the same state passes all checks and ends in the same state if and only if only output registers changed and faulting accesses do no harm |
| Trace.ReplayLooksSameIff | Lab1/eio.c:571-811 | the same for memory that reads the same: no program can tell the replayed call from the recorded one exactly then |
| Trace.ReplayChecksIff | Lab1/eio.c:646-736 | a recorded call replayed in any state that does not ask for an exit passes if and only if that state has the count and PC recorded, the 22 registers the call began with, and in memory every byte its reads recorded |
| Trace.ReplayEffect | Lab1/eio.c:755-807 | then it leaves the 22 registers and the break point of the call, all bytes it wrote, and everything else as it was |
| Trace.RecordsIff | Lab1/eio.c:504-513 | a call can be recorded if and only if it reads nothing behind its first write |
| Trace.BytesMerge | Lab1/eio.c:527-558 | up to 256 bytes written one behind the other are one blob |
| Trace.BytesSplit | Lab1/eio.c:527-558 | the byte behind those begins another |
| Trace.FaultingWriteDiverges | Lab1/eio.c:558-562 | a write that faults is recorded and then performed on replay, so that memory differs |
| Trace.FaultingReadDiverges | Lab1/eio.c:522-558 | the buffer a faulting read left alone is recorded as an input, and replay stops there unless memory holds it |
| Trace.NoFaultsHarmless | Lab1/eio.c:491-565 | accesses that do not fault do no harm |
| Trace.TraceReproducesRunIff | Lab1/eio.c:571-811 | a whole run replayed from its own trace is in the same state behind every call if and only if every call is reproducible |
| TraceText.DecodeEncode | Lab1/eio.c:615-677 | a transaction's term is pulled apart into the transaction |
| TraceText.DecodesIff | Lab1/eio.c:608-690 | exactly the terms with the six parts of a transaction, in their order and number, are one |
| TraceText.RecordedBlobs | Lab1/eio.c:527-558 | blobs of any accesses stay C ints in size, and are empty only if an access is |
| TraceText.TermText | Lab1/eio.c:655-677 | a term in the trace is read and applied, one with an empty blob is an error |
| TraceText.TracedCallReplaysIff | Lab1/eio.c:571-811 | from call to file and back: exactly when the recorded text, with anything behind it, reproduces the call |
| TraceText.FileReproducesRunIff | Lab1/eio.c:571-811 | a whole run replayed from the text of its own trace file is in the same state behind every call, the file read up to there, if and only if every call is reproducible and no empty blob was recorded |
| Eio.Recorder.constructor | Lab1/eio.c:589-595 | recording starts with nothing recorded |
| Eio.Recorder.MemFn | Lab1/eio.c:491-565 | the tracing accessor performs and records one access, a read after a write is fatal |
| Eio.Recorder.Call | Lab1/eio.c:571-606 | a call's accesses are recorded in order |
| Eio.Cpu.constructor | Lab1/eio.c:636-645 | the machine a trace is replayed on has the given registers, break point and memory |
| Eio.Cpu.CheckRegs | Lab1/eio.c:691-705 | input registers are all checked, in number and value |
| Eio.Cpu.CheckBlob | Lab1/eio.c:723-736 | a blob passes exactly if each of its bytes is in memory, which is unchanged |
| Eio.Cpu.CheckInputs | Lab1/eio.c:707-736 | all input blobs are checked |
| Eio.Cpu.Check | Lab1/eio.c:683-736 | instruction count, PC, registers and memory are checked |
| Eio.Cpu.WriteRegs | Lab1/eio.c:765-779 | output registers are written, a wrong number of them is found |
| Eio.Cpu.ApplyRegs | Lab1/eio.c:759-779 | the break point is set and the registers are written |
| Eio.Cpu.WriteBlob | Lab1/eio.c:797-806 | a blob is written byte by byte |
| Eio.Cpu.WriteOutputs | Lab1/eio.c:781-807 | all output blobs are written in order |
| Eio.Cpu.Replay | Lab1/eio.c:636-811 | replaying a transaction on page table and registers does what replay on values does; exactly when that passes, and what it leaves, say `ReplayChecksIff` and `ReplayEffect` |
| Eio.Cpu.WriteTrace | Lab1/eio.c:571-630 | a recorded call leaves the state of the call, and the text of its transaction at the end of the trace |
| Eio.Cpu.ReadTrace | Lab1/eio.c:636-811 | reading a transaction from the stream and applying it does what replay from text does, and leaves the stream behind it, ready for the next |
| ExoRoundTrip.ListKeepsMode | Lab1/libexo/libexo.c:984-1011 | a list is read outside of blobs and leaves the lexer there |
| EioRun.RecordAll | Lab1/eio.c:571-630 | any run on the machine ends in the recorded run's state, its trace at the end of the stream; it breaks off exactly at a call that can not be recorded |
| EioRun.ReplayAll | Lab1/eio.c:636-811 | any run replayed call by call from the stream does what replay from text does |
| EioRun.ReplayOwn | Lab1/eio.c:571-811 | replaying the text a run left ends in that run's state, if its calls are reproducible and it recorded no empty blob |
| EioFile.ReplaySame | Lab1/eio.c:679-807 | replay does not tell states apart that a program can not |
| EioFile.RunFromIff | Lab1/eio.c:571-811 | from a state and text that look the same, the replayed run looks like the recorded one behind every call if and only if every call's replay does |
| EioFile.FileRunIff | Lab1/target-alpha/loader.c:172-180 | a file with header, checkpoint and trace loads as the state where its run began, and the run replays from it exactly then |
| EioFile.FileLoads | Lab1/target-alpha/loader.c:172-180 | a file that was written loads again, unless its checkpoint is from behind a transaction |
| EioFile.IsEioIff | Lab1/eio.c:174-193 | a file is taken for an EIO file exactly if it begins with the header line |
| EioFile.FileIsEio | Lab1/eio.c:76-121 | a file that was written does |
| EioFile.OpensIff | Lab1/eio.c:136-160 | a term is taken for a header exactly if it is a list of three integers, the first 2 and the second 3 in their lowest 32 bits |
| EioFile.OtherVersionRefused | Lab1/eio.c:156-160 | a file of another format or version is refused, whatever follows |
| EioFile.Open | Lab1/eio.c:125-172 | the header of a file is checked |
| EioFile.Load | Lab1/target-alpha/loader.c:172-180 | header and first checkpoint are loaded into memory, and the trace is left |
| EioFile.Forward | Lab1/eio.c:813-840 | the loop skips transactions as on text |
| EioFile.ForwardsTo | Lab1/eio.c:813-840 | skipping ends behind the first transaction with the count, and fails if there is none |
| EioFile.ResumedRunIff | Lab1/target-alpha/loader.c:182-206 | after loading a later checkpoint and skipping, the rest of the run replays as a run from its beginning does |
| EioFile.ResumesIff | Lab1/target-alpha/loader.c:182-206 | skipping succeeds if and only if a transaction has the checkpoint's count |
| EioFile.ActsRespect | Lab1/memory.c:140-390 | what memory operations leave depends only on what memory reads as |
| Checkpoint.DumpRestores | Lab1/eio.c:291-300 | a dump loaded over memory with nothing outside its pages gives the dumped memory |
| Checkpoint.RunKeepsKeys | Lab1/memory.c:110-135 | no operation gives up a page that was written |
| Checkpoint.LaterCheckpointOverlays | Lab1/target-alpha/loader.c:178-206 | a later checkpoint of the run loaded over its first one gives the later memory |
| Checkpoint.NotesInert | Lab1/eio.c:217-285 | the comments of a checkpoint are not seen by the reader |
| Checkpoint.HeaderIff | Lab1/eio.c:315-428 | exactly the eight terms of a header, in their order, are one: counts, PC and NPC, control registers, 32 and 32 registers, pages, break and stack, and three segments |
| Checkpoint.CheckpointRoundTrip | Lab1/eio.c:208-463 | the text of a checkpoint, comments included, reads back as its header and its pages |
| Checkpoint.EndInert | Lab1/eio.c:300 | the next reader does not see what is left of the checkpoint |
| CheckpointStream.WriteItems | Lab1/eio.c:219-224 | terms are printed one after the other, each behind its comment and with an empty line behind it |
| CheckpointStream.WriteCheckpoint | Lab1/eio.c:208-303 | the stream gets the header, every page of memory, and all comments |
| CheckpointStream.ReadStream | Lab1/eio.c:317-345 | terms are read one after the other, until one can not be |
| CheckpointStream.LoadPage | Lab1/eio.c:430-460 | one page is read, checked and written to memory |
| CheckpointStream.LoadPages | Lab1/eio.c:430-460 | all announced pages are |
| CheckpointStream.ReadCheckpoint | Lab1/eio.c:307-463 | loading from a stream yields the header and the memory that the text says, and leaves the lexer outside of blobs |
| CheckpointStream.CheckpointRestoresState | Lab1/eio.c:208-463 | a checkpoint file, comments included, restores registers, segments and memory |
| EventQueue.InsertKeepsOrder | Lab1/eventq.c:90-93 | inserting before the first event that is not earlier keeps the queue sorted, latest-queued first among equals |
| EventQueue.RunConsistent | Lab1/eventq.c:76-269 | in every run the pending events are sorted and have ids given so far |
| EventQueue.EveryEventOnce | Lab1/eventq.c:76-269 | in every run the queued events have ids of their own, and each is pending, fired or cancelled, only one of these and only once |
| EventQueue.StepOfEvent | Lab1/eventq.c:185-269 | what one operation does with one event: only a removal by its id cancels it and only an execution by its id or a service at its time or later fires it, told 0 or the time of the service |
| EventQueue.HistoryOfEvent | Lab1/eventq.c:76-269 | in every run an event was cancelled exactly if a removal found it pending, and fired exactly if an execution or a service that was due found it pending |
| EventQueue.IdsCountUp | Lab1/eventq.c:76-105 | the events of a run are numbered 1, 2, 3 and so on in the order they were queued |
| EventQueue.PeakBounds | Lab1/eventq.c:76-85 | no state of a run had more events pending than the peak |
| EventQueue.PeakReached | Lab1/eventq.c:76-85 | one had that many |
| EventQueue.ServiceFiresDue | Lab1/eventq.c:254-269 | service fires exactly the events due, wherever they are in the queue |
| EventQueue.ServiceTwice | Lab1/eventq.c:161-269 | servicing twice fires the same events as servicing once, and has the same effect if and only if no callback was due first |
| EventQueue.RemoveUndoesQueue | Lab1/eventq.c:222-252 | removing the event just queued leaves the queue as it was |
| EventQueue.ActionEffect | Lab1/eventq.c:161-181 | an action changes its own bit or integer, or makes its callback, and nothing else |
| EventQueue.BitIsLast | Lab1/eventq.c:161-181 | a bit is as the last event fired on it left it |
| EventQueue.CellIsSum | Lab1/eventq.c:161-181 | an integer is what it was last set to plus all that was added since |
| EventLists.EventList.constructor | Lab1/eventq.c:67-74 | an initialised queue is empty and has no descriptors |
| EventLists.EventList.AllocatedIsPeak | Lab1/eventq.c:79-85 | as many descriptors are allocated as were ever pending at once |
| EventLists.EventList.Locate | Lab1/eventq.c:90-93 | the insertion point |
| EventLists.EventList.Find | Lab1/eventq.c:190-192 | the event with the id, and the one before it |
| EventLists.EventList.Provide | Lab1/eventq.c:79-84 | a descriptor is allocated only if none is free |
| EventLists.EventList.Link | Lab1/eventq.c:85-105 | a free descriptor becomes pending at its place; lists stay disjoint, without cycles, and hold all descriptors |
| EventLists.EventList.Unlink | Lab1/eventq.c:194-212 | a pending descriptor becomes free, with the same guarantees |
| EventLists.EventList.Queue | Lab1/eventq.c:76-105 | queueing acts on the lists as on the abstract queue and returns the id |
| EventLists.EventList.Fire | Lab1/eventq.c:260-268 | an event's action is performed and its descriptor freed |
| EventLists.EventList.Execute | Lab1/eventq.c:185-219 | an event is executed out of order, told time 0; found exactly if it is pending, and else nothing changes |
| EventLists.EventList.Remove | Lab1/eventq.c:223-252 | an event is removed without its action: nothing is fired and nothing acted upon; found exactly if it is pending |
| EventLists.EventList.Service | Lab1/eventq.c:254-269 | service acts on the lists as on the abstract queue |
| EventLists.EventList.RunAll | Lab1/eventq.c:67-269 | any sequence of operations takes the lists through the abstract states |
| Evaluator.EvalState.GetNextToken | Lab1/eval.c:120-207 | the next token is taken, from the look-ahead if there is one |
| Evaluator.EvalState.ScanToken | Lab1/eval.c:154-206 | a token's kind, text and end |
| Evaluator.EvalState.ScanConst | Lab1/eval.c:167-190 | how far a numeric literal goes |
| Evaluator.EvalState.ScanIdent | Lab1/eval.c:158-166 | how far an identifier goes |
| Evaluator.EvalState.PeekNextToken | Lab1/eval.c:211-223 | looking ahead consumes nothing but an invalid token |
| Evaluator.EvalState.Factor | Lab1/eval.c:937-986 | value or error of a factor, and where it ends |
| Evaluator.EvalState.Term | Lab1/eval.c:988-1029 | value or error of a term; a quotient is of the left operand by the right one, whose error comes first and then its being zero |
| Evaluator.EvalState.Expr | Lab1/eval.c:1031-1067 | value or error of an expression |
| Evaluator.EvalState.Evaluate | Lab1/eval.c:1095-1124 | value or error of a string, and the first character not used |
| Evaluator.Divide | Lab1/eval.c:1015-1026 | the error of the divisor, division by zero exactly if it is zero, or else the quotient in this order |
| Evaluator.Combine | Lab1/eval.c:1008-1013 | what an operator gives, or its own error on a failed right operand before that of the operand |
| Lexer.BlanksAreSkipped | Lab1/eval.c:146-152 | blanks and tabs before a token do not matter, and the text ends in none |
| Lexer.SingleToken | Lab1/eval.c:191-206 | each operator and parenthesis is a token of its own, every other character without meaning an invalid one |
| Lexer.IdentifierToken | Lab1/eval.c:158-166 | an identifier is a letter and the letters, digits and dots behind it, as many as there are |
| Lexer.DecimalToken | Lab1/eval.c:167-190 | digits and dots are a literal exactly up to a character that is none of these, nor e nor x |
| Lexer.ScientificToken | Lab1/eval.c:167-190 | with an exponent, whose sign belongs to the literal |
| Lexer.HexToken | Lab1/eval.c:167-190 | a hexadecimal literal ends at a sign if and only if its last digit is no e |
| Lexer.HexSwallowsSign | Lab1/eval.c:167-190 | else it goes on behind the sign, so that 0x1e-1 is no difference |
| Lexer.MissingTerm | Lab1/eval.c:985-987 | where no factor begins the error is a missing term |
| Lexer.UnclosedParenthesis | Lab1/eval.c:946-957 | where another token stands for the closing parenthesis the error is an unmatched one |
| Grammar.ExprValue | Lab1/eval.c:937-1067 | on the tokens of a syntax tree the evaluator gives the tree's value or error and stops right behind it, unless an unmapped character follows: then it stops further on |
| Grammar.ExprTree | Lab1/eval.c:937-1067 | if there is no error, the value is that of a syntax tree that the text read spells, unmapped characters left out |
| Grammar.UniqueExpr | Lab1/dlite.h:84-90 | a string begins with at most one expression |
| Grammar.EvaluationSucceedsIff | Lab1/eval.c:1095-1124 | for every string: evaluation succeeds and loses no character if and only if the string begins with an expression that has a value and no unmapped character behind it |
| Grammar.EvaluatesTheParse | Lab1/eval.c:1095-1124 | value and end of the only parse are found if and only if no unmapped character stands right behind it |
| Grammar.ValueIsSpelled | Lab1/eval.c:1095-1124 | any value returned is that of the text up to the end reported without the lost characters; the string begins with that expression if and only if none was lost |
| Grammar.UnmappedIsLost | Lab1/eval.c:198-219 | a character that begins no token is lost before an operator |
| Grammar.UnmappedExample | Lab1/eval.c:198-219 | "1#+2" evaluates as "1+2" |
| Grammar.UnmappedParens | Lab1/eval.c:937-986 | "(1#)" evaluates as "1" although the string begins with no expression |
| StartupStack.QuadRoundTrip | Lab1/target-alpha/loader.c:617-620 | a quadword written in little-endian order reads back |
| StartupStack.QuadValue | Lab1/target-alpha/loader.c:617-620 | the first byte of a quadword is its least significant |
| StartupStack.StrCpy | Lab1/memory.c:296-337 | the string and its terminator are stored |
| StartupStack.WriteWord | Lab1/target-alpha/loader.c:617-620 | a word is stored if the stack is aligned, otherwise nothing is |
| StartupStack.WriteString | Lab1/target-alpha/loader.c:641-643 | a string is stored behind the words |
| StartupStack.WriteArray | Lab1/target-alpha/loader.c:634-648 | an array of pointers, its strings and its null pointer |
| StartupStack.BuildStack | Lab1/target-alpha/loader.c:605-671 | the stack pointer, the argument registers, the memory left, and the size check |
| StartupStack.StringsDisjoint | Lab1/target-alpha/loader.c:634-662 | strings lie behind each other without overlap |
| StartupStack.PlanPresent | Lab1/target-alpha/loader.c:617-662 | nothing written is overwritten by a later write, and nothing outside the image changes |
| StartupStack.StackDecodesIff | Lab1/target-alpha/loader.c:605-662 | memory at an aligned stack pointer decodes to argc, argv and envp through the pointers if and only if no string begins at address 0 |
| StartupStack.DecodesUnique | Lab1/target-alpha/loader.c:605-662 | memory decodes to one argv and one envp only |
| StartupStack.StackConfined | Lab1/target-alpha/loader.c:605-662 | no byte outside the image is touched |
| StartupStack.MisalignedDecodesIff | Lab1/target-alpha/loader.c:607-620 | a misaligned stack in clear memory decodes if and only if there are no strings |
| StartupStack.OverflowCheckIff | Lab1/target-alpha/loader.c:664-671 | for which text addresses and sizes the final check passes |
| StartupStack.StackAlignment | Lab1/target-alpha/loader.c:607-612 | the stack is aligned as the text segment is |
| StartupStack.LoaderPromise | Lab1/target-alpha/loader.c:605-671 | with any aligned text segment, if the check passes then the program finds its arguments if and only if no string begins at address 0; above 430080 it does, within the stack |
| StartupStack.ArgumentAtZero | Lab1/target-alpha/loader.c:605-671 | a text segment for which the check passes and the program does not find its argument |
| Crc.ShiftsLinear | Lab1/misc.c:1157-1165 | the shift register is linear over exclusive or |
| Crc.StepIsSerial | Lab1/misc.c:1183-1187 | one table look-up does the work of eight bit steps |
| Crc.SerialIsRemainder | Lab1/misc.c:1157-1189 | the bits taken in leave the remainder that long division by the polynomial leaves of the message with 32 zeros behind it |
| Crc.EntryOfOne | Lab1/misc.c:1143-1166 | the remainder of byte 1 is the polynomial 0x04c11db7 |
| Crc.ByteOfNumber | Lab1/misc.c:1183-1187 | the bytes taken in are the digits of the word to base 256, the lowest first |
| Crc.WordInjective | Lab1/misc.c:1172-1189 | different registers, and different words, give different results |
| Crc.OneWordDetected | Lab1/misc.c:1172-1189 | a change to one word of any data changes the check |
| Crc.Table.constructor | Lab1/misc.c:1146-1147 | the table is not generated yet |
| Crc.Table.Generate | Lab1/misc.c:1150-1169 | every entry is the remainder of its byte |
| Crc.Table.TakeByte | Lab1/misc.c:1185-1187 | one byte: the bit-serial result |
| Crc.Table.Update | Lab1/misc.c:1172-1189 | one word: the bytes shifted in bit by bit, the lowest byte first |
| Crc.Table.UpdateAll | Lab1/misc.c:1172-1189 | any sequence of words: the bit-serial CRC |
| Crc.Remainder | Lab1/misc.c:1157-1166 | a table entry is eight steps of the register |
| Decoder.DecodingEnds | Lab1/target-alpha/alpha.h:212-217 | with links defined before they are connected, the table index grows with every step |
| Decoder.AndBits | Lab1/target-alpha/alpha.h:211-217 | a bit of a masked field is set exactly if it is set in both |
| Decoder.FieldBits | Lab1/target-alpha/alpha.h:211-217 | a field of k bits is the instruction divided by two to the shift, modulo two to the k |
| Decoder.TopOpBits | Lab1/target-alpha/alpha.h:211 | the first field is the instruction divided by 67108864, modulo 64 |
| Decoder.RefusedIff | Lab1/target-alpha/alpha.c:511-538 | a definition is refused exactly if its index is above 2047 or has a definition already |
| Decoder.WalkReaches | Lab1/target-alpha/alpha.h:212-217 | decoding passes through every definition the instruction's fields lead to |
| Decoder.DecodesPath | Lab1/target-alpha/alpha.h:212-217 | an instruction whose fields lead to an opcode decodes to it |
| Decoder.DecodedFollowsIff | Lab1/target-alpha/alpha.h:212-217 | a decoded instruction leads to its opcode if and only if no field selects from a wrong group |
| Decoder.FilledContains | Lab1/target-alpha/alpha.c:511-538 | no instruction's field does if every group reaches the mask that selects from it |
| Decoder.BuildLays | Lab1/target-alpha/alpha.c:511-538 | definitions read without error are each in their slot, groups follow each other, links lead to their last group |
| Decoder.DecoderIsRight | Lab1/target-alpha/alpha.c:511-538 | all of this for the tables that are built and the fields of a machine instruction |
| Decoder.GapMisleads | Lab1/target-alpha/alpha.h:212-217 | a concrete table in which an undefined value decodes to the next group's opcode |
| Decoder.GapMisleadsOne | Lab1/target-alpha/alpha.h:212-217 | machine instruction 1 does on that table |
| Decoder.Decoder.constructor | Lab1/target-alpha/alpha.c:78-81 | the tables start empty |
| Decoder.Decoder.Init | Lab1/target-alpha/alpha.c:511-538 | the tables are built, or an index is too large or used twice |
| Decoder.Decoder.Decode | Lab1/target-alpha/alpha.h:211-217 | the loop finds what the walk over the tables finds, from the first field on, whose bits `TopOpBits` and `FieldBits` tell |
| Symbols.ComputeSizes | Lab1/target-pisa/symbol.c:616-630 | sizes reach to the next symbol or the end of the segment |
| Symbols.SizedIsTidy | Lab1/target-pisa/symbol.c:616-630 | then no symbol reaches past a later one, duplicates aside |
| Symbols.SegmentsAreSpread | Lab1/target-pisa/symbol.c:536-630 | in the table of both segments, sorted in whatever order of duplicates, no symbol reaches another at a higher address |
| Symbols.MissesShadowed | Lab1/target-pisa/symbol.c:735-763 | in any sorted table an exact search misses nothing, an inexact one only symbols before one that begins no higher than the address and does not cover it |
| Symbols.MatchesMeans | Lab1/target-pisa/symbol.c:741-747 | an exact search goes for the address of a symbol, an inexact one for that and all below its end |
| Symbols.LooksAtMost | Lab1/target-pisa/symbol.c:735-763 | fewer than two to the k symbols are searched in at most k looks |
| Symbols.SearchFindsIff | Lab1/target-pisa/symbol.c:735-763 | in any sorted table the inexact search succeeds if and only if it looks at a covering symbol on the way to the last one at or below the address |
| Symbols.JointSearch | Lab1/target-pisa/symbol.c:536-763 | in the table of both segments, in any order of duplicates: which symbol is found, and exactly when none is |
| Symbols.OnlyDuplicatesShadow | Lab1/target-pisa/symbol.c:536-763 | in the table of both segments only a shorter symbol of the same address does that |
| Symbols.DuplicateMissed | Lab1/target-pisa/symbol.c:536-763 | tables in which it does |
| Symbols.BindAddr | Lab1/target-pisa/symbol.c:735-763 | in any sorted table the search by address finds a symbol that matches; none only if all that match are shadowed, in a segment's table only if none does; and exactly when an inexact search finds one |
| Symbols.BindName | Lab1/target-pisa/symbol.c:803-826 | the search by name likewise |
| Symbols.CompareTransitive | Lab1/target-pisa/symbol.c:807-812 | names are compared by an order |
| Symbols.CompareMeans | Lab1/target-pisa/symbol.c:807-812 | a name comes before another exactly if its first character that differs is smaller, or missing |

## Left out

- Instruction semantics, system calls and option handling: not part of this model; a system call is an arbitrary sequence of accesses.
- File, gzip and terminal I/O, and the echo of program output on replay: plumbing.
- Exit system calls on replay: the model says that the call is one, not what it does.
- Counters of 64 bits and event ids of 32 bits do not wrap in the model.
- The counts of accesses and misses of the page table; `mem_bzero`, which writes zero bytes through an accessor; `mem_dump`, which prints memory; and the accessors of half-words, words and quadwords, with their byte swapping.
- mem_access with a size of the smallest integer: in C its test for a power of two overflows.
- Memory.PageTable.Access: a read that faults leaves the host buffer alone; the buffer is part of the recorder's model, not of this one.
- EioFile.IsEioIff: of an empty file the source compares a buffer that nothing was read into; the model takes it for no EIO file.
- EXO strings, characters, floats, negative numbers, tokens and unsized arrays: the fragment that traces and checkpoints use, with sized arrays and comments, is modelled.
- ExoStream.Input.EatComment: a comment without end is taken to reach to the end of the file, where the source may read on for ever.
- The flex tables and buffers: tokens are modelled by the rules they implement.
- `exo_chain`, `exo_copy` and `exo_deepcopy`: term lists are sequences, so sharing and update of `next` links are not captured.
- ExoStream.Output.PrintData: the column at which the source breaks the line of an empty blob is not set there; the model breaks it.
- `myatosq` and the signed and floating-point conversions: signs, and the range error it gives for the smallest number.
- Numbers.TruncatedDigit: the overflow of a C int in computing a digit is modelled as wrap-around.
- TraceText.RecordedBlobs: accesses of 2147483392 bytes and more, for which the size of a blob overflows a C int, are not covered; nor are they by the lemmas on the text of a trace.
- Eio.Recorder.Call: recording while replaying another trace is not modelled.
- The limit on pending events: the count it is compared with is never updated, so no bound is claimed.
- Callbacks that call the event queue again: actions act on bits, integers and a log of calls.
- EventLists.EventList.constructor: initialising a queue a second time, which drops its descriptors but keeps the ids, is not modelled.
- Literal conversion, types and floating point in the evaluator: values and their operations are parameters, so `result_type` and the promotions are not captured; tokens longer than the token buffer are not either.
- Evaluator.EvalState.Evaluate: the string ends where the C string does; characters above 127 count as unmapped.
- Loading sections of an executable, and the byte swapping of a cross-endian host.
- The sorting of symbol tables: tables are taken as sorted, duplicates in any order.  Address arithmetic in symbol tables does not wrap.
- The instruction definitions themselves: the decoder is modelled for any list of definitions.
- Lab2 to Lab5: branch predictors, the out-of-order pipeline, caches with their prefetchers, and cache coherence.  The debugger's commands and breakpoints, the statistics package, resource pools and option parsing.
