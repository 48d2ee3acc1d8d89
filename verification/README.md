# The breakpoint engine, setjmp/longjmp and signal sets, modelled and proved

Three parts of the repository are modelled.

**The debugger** (`310551113_hw4/sdb.cpp`). It keeps a table of breakpoints, each with the 8-byte word saved
from its address, and patches `0xcc` into the text of a traced program by whole-word peeks and pokes, so that
neighbouring breakpoints overlap in the words they read and write. Class `Debugger.Sdb` follows the handlers
statement by statement, on 64-bit vectors and with their loops. Module `Session` tells the same commands with
addresses and bytes only, and every handler is proved to do exactly what `Session` says. What the debugger is
for is then proved about `Session`: over every session of commands the program runs as if it were not patched,
stops where an armed breakpoint is, and has known bytes in memory at every stop. The processor is a parameter:
any decoder of instructions and any effect on registers and data; only int3 is fixed.

**setjmp, longjmp, sleep and open** (`310551113_hw3/libmini64.asm`), instruction by instruction on a small
machine with the kernel side of the three system calls they make.

**The signal sets** (`310551113_hw3/libmini.c`), in place on an array of any number of 64-bit words, as a
refinement of mathematical sets of signal numbers.

| file | contents |
|---|---|
| words.dfy, text.dfy | bytes of a word; peek, poke, the fully armed text |
| alternate.dfy, patches.dfy, plant.dfy | the table, the loop over one word, what the four poked words amount to, the order of replanting |
| child.dfy | the traced program on native and on patched text |
| session.dfy | the commands on addresses and bytes, and the invariant that each keeps |
| runs.dfy, stops.dfy | whole sessions; where a resumed child stops; commands that undo each other |
| outcomes.dfy | every reply of every command, and what each leaves, entry by entry and byte by byte |
| sdb.dfy | the debugger itself |
| limits.dfy | concrete inputs on which it goes wrong |
| x86.dfy, setjmp.dfy, calls.dfy | the machine; setjmp and longjmp; sleep and open |
| sigset.dfy | the signal sets |

## Conditions

The code is right only under the following conditions. None is repaired. Where the code goes wrong without one,
the exact condition is proved for all inputs, and `Limits` gives a concrete failure.

- Breakpoints 7 bytes apart. For offset 8 `alterpart` shifts by 64, which C++ leaves undefined, and computes
  `pow(16, 14) - 1`, which is not exact in a double. The model takes the reading of the unoptimised x86-64 build
  of the Makefile (count modulo 64, rounding to 2^56), which ORs the top byte instead of replacing it.
- Addresses more than 2^31 apart. The distance is kept in an `int`, so a breakpoint a multiple of 2^32 away is
  taken for a near one.
- For both, `Patches.RearmIff`, `UnplantIff`, `LiftIff`, `SavedWordIff` and `ArmedByteIff` say exactly when each
  poked, saved or shown byte is right, by tests on addresses and bytes. `Patches.SafeIff`: a table is `Safe` exactly
  when every poke is right for it and for every table that deletes can leave of it; `break` must keep it so and
  save a right word. `Session.BreakLegalIff` turns that into two tests per break for a text of at most 2 GiB.
- `delete` accepts the index one past its table, and a delete of an index up to `lid` makes `lid` name another
  entry, or none. Reading an entry outside the table ends a modelled session with the reply `Undefined`,
  exactly as `Runs.UndefinedIff` says; `lid` comes to name none exactly by a delete while it names the last
  entry (`Runs.StaleIff`); without deletes up to `lid` or past the table neither happens (`Runs.RunKeeps`).
  See also `StopPoints.DeleteKeepsNameIff`, `DeleteRearmsIff` and `DeleteThenStopIff`.
- Status RUNNING means that there is a child until the child is killed, or a start with an empty table fails to
  execute the program: exactly then it is lost (`Runs.LostIff`, `Runs.LostAtEndIff`), and no command gets any
  further (`Runs.LostForGood`).
- The run of the unpatched program is followed as long as no instruction that is executed has an armed byte in it
  (`Child.PatchedStepIff`; whichever breakpoints are armed, `Child.OrderlyIff`), `si` is not used while the byte at
  rip is armed (`StopPoints.SiAgreesIff`; when it is, `ArmedUnderfootIff` and `StopUnderfootIff`), and no other
  signal stops `cont` one byte behind a breakpoint (`StopPoints.SignalStopIff`).
- Assumed without an exact condition: the program does not read or write its own text, every start maps the same
  text, and the program executes no int3 of its own.

Documentation and code differ in one place: `longjmp(env, 0)` makes setjmp return 0, where section 7.13.2.1 of
ISO C11 asks for 1 (`SetJmp.StandardResultIff`). The code is followed.

## Model

| member | source | states |
|---|---|---|
| Words.AlterPartBytes | 310551113_hw4/sdb.cpp:181-185 | every byte of alterpart's result for every offset: offsets 1 to 7 replace one byte and keep seven, offset 8 ORs the top byte |
| Words.AlterPartReplacesIff | 310551113_hw4/sdb.cpp:181-185 | the byte aimed at becomes the new one exactly when the offset is at most 7 or the old top byte has no bit outside the new one |
| Words.AlterPartCommutes | 310551113_hw4/sdb.cpp:181-185 | replacements at different offsets commute |
| Words.AlterPartLastWinsIff | 310551113_hw4/sdb.cpp:181-185 | of two replacements at one offset the last wins, exactly when the offset is at most 7 or the first brought no bit the last does not leave |
| Alternate.AlternateLoop | 310551113_hw4/sdb.cpp:187-197 | the loop over the table, with the truncated distance, computes AlternateWord |
| Alternate.DistIff | 310551113_hw4/sdb.cpp:190 | an entry is taken to sit i bytes up exactly when it does so up to a multiple of 2^32 |
| Alternate.AlternateArms | 310551113_hw4/sdb.cpp:187-197 | arming changes a byte exactly when some entry has that truncated distance, for any table |
| Alternate.AlternateLast | 310551113_hw4/sdb.cpp:187-197 | each of the lower seven bytes comes from the last entry with that truncated distance, for any table |
| Alternate.AlternateTop | 310551113_hw4/sdb.cpp:187-197 | the top byte is the OR of the old one and those of all entries with truncated distance 7 |
| Patches.AlternateAnyOrderIff | 310551113_hw4/sdb.cpp:187-197 | the result is the same for every permutation of the table, exactly when entries at one truncated distance agree; they do when arming |
| Patches.AlternateTwice | 310551113_hw4/sdb.cpp:187-197 | alternate is idempotent, for any table |
| Patches.RearmIff | 310551113_hw4/sdb.cpp:263-275 | the word poked by resetbreak is the fully armed one, exactly when each byte passes a test on addresses and original bytes; any table |
| Patches.LiftIff | 310551113_hw4/sdb.cpp:297-300 | the word poked by restoreifbreak is the original one, exactly when no far entry brings a different byte |
| Patches.UnplantIff | 310551113_hw4/sdb.cpp:386-391 | the word poked by deletebreak arms the neighbours and restores its own byte, exactly when each neighbour byte passes the test |
| Patches.SavedWordIff | 310551113_hw4/sdb.cpp:346-360 | the word saved from memory patched by overlapping breakpoints is the original word, exactly when each byte passes a test |
| Patches.ArmedByteIff | 310551113_hw4/sdb.cpp:405-409 | the byte a view shows at any base address is that of the fully armed text, exactly when it passes the test of arming on the bytes in memory |
| Patches.SafeIff | 310551113_hw4/sdb.cpp:187-197 | a table is safe, pair by pair, exactly when all words poked for it and for every table that deletes leave of it are right |
| Plant.PlantIff | 310551113_hw4/sdb.cpp:307-315 | replanting arms every breakpoint exactly when no poke writes over one planted before it |
| Plant.SortedPlantsAll | 310551113_hw4/sdb.cpp:307-315 | in ascending order of address the whole table is armed, whatever was armed before |
| Child.PatchedStep | 310551113_hw4/sdb.cpp:277-300 | one instruction on patched text traps on an armed breakpoint or is the native instruction, byte for byte |
| Child.PatchedStepIff | 310551113_hw4/sdb.cpp:337-366 | whatever instructions do, the step on patched text is the native one, exactly when no byte of the native instruction is patched |
| Child.OrderlyIff | 310551113_hw4/sdb.cpp:337-366 | a run is followed whichever breakpoints of the table are armed, exactly when no address of the table lies inside one of its instructions behind the first byte, and none of them crashes or is an int3 |
| Child.StopsIff | 310551113_hw4/sdb.cpp:368-375 | the child traps after n instructions exactly when the native run first meets an armed byte there, and exits exactly when the native run exits without having met one |
| Session.FindText | 310551113_hw4/sdb.cpp:248-256 | the section at the entry point, or none if no section starts there |
| Session.TextRange | 310551113_hw4/sdb.cpp:340-344 | which addresses the unsigned range test of break accepts, for every section |
| Session.BreakLegalIff | 310551113_hw4/sdb.cpp:337-366 | in a text of at most 2 GiB a break keeps the table safe and saves a right word, exactly under tests of the bytes of breakpoints 7 above and 7 below |
| Session.StopKeeps | 310551113_hw4/sdb.cpp:325-329 | resetbreak and restoreifbreak at a stop keep the text clean, and turn a tight state into the exact memory of a stop |
| Session.DeleteKeeps | 310551113_hw4/sdb.cpp:377-396 | a delete keeps the invariant, and keeps everything armed outside the lifted word if it deletes behind lid |
| Session.BreakKeeps | 310551113_hw4/sdb.cpp:337-366 | a break keeps the invariant and everything armed outside the lifted word |
| Session.StartKeeps | 310551113_hw4/sdb.cpp:588-612 | a start keeps the invariant, whatever lid was left by the last run and whether or not the child executes the program |
| Session.ContKeeps | 310551113_hw4/sdb.cpp:368-375 | cont keeps the invariant, and comes back from a tight state to the exact memory of a stop, whatever ended the wait |
| Session.SiKeeps | 310551113_hw4/sdb.cpp:581-586 | so does si |
| Session.StepKeeps | 310551113_hw4/sdb.cpp:263-396 | every command keeps: a safe table of distinct breakpoints in the text section, memory original but for 0xcc at breakpoints, a child only when RUNNING; and every command but a delete up to lid or past the table keeps all breakpoints outside the lifted word armed and reads nothing outside the table |
| Runs.RunKeeps | 310551113_hw4/sdb.cpp:616-663 | the same over every session, in any order of commands |
| Runs.TotalRemoval | 310551113_hw4/sdb.cpp:337-396 | a session that ends with an empty table leaves the text exactly original |
| Runs.EveryStopIsExact | 310551113_hw4/sdb.cpp:317-335 | at every stop, by breakpoint, step or other signal, memory is the armed text but for the word of the breakpoint stood upon, and rip is on that breakpoint |
| Runs.LifeCycle | 310551113_hw4/sdb.cpp:163-169 | over every session a loaded program stays loaded, load succeeds at most once, all breakpoints lie in the text section first loaded |
| Runs.TextNeedsChild | 310551113_hw4/sdb.cpp:163-169 | without a child only a command that starts one changes the text |
| Runs.LostIff | 310551113_hw4/sdb.cpp:317-335 | a command leaves RUNNING without a child exactly if the child is killed in it, or if it starts one that never executes the program with no breakpoint to plant |
| Runs.LostAtEndIff | 310551113_hw4/sdb.cpp:588-612 | after a session RUNNING means that there is a child exactly when no command of it did that |
| Runs.LostForGood | 310551113_hw4/sdb.cpp:163-169 | and from then on nothing changes, whatever the commands |
| Runs.StaleIff | 310551113_hw4/sdb.cpp:377-396 | lid ceases to name an entry exactly when a delete succeeds while it names the last one |
| Runs.UndefinedIff | 310551113_hw4/sdb.cpp:263-269 | a command reads outside the table exactly if it deletes the entry one past it, or comes to a stop while lid names none |
| Runs.ContOnTrack | 310551113_hw4/sdb.cpp:368-375 | cont ends n instructions further on the native run, rewound onto the breakpoint if it hit one, or exits where the native run does |
| Runs.SiOnTrack | 310551113_hw4/sdb.cpp:581-586 | si is one native instruction |
| Runs.BoundariesAreHonest | 310551113_hw4/sdb.cpp:368-375 | cont meets the condition of the theorem below if the native run from the start of the child is on instruction boundaries up to where it goes |
| Runs.Transparency | 310551113_hw4/sdb.cpp:263-396 | over every session, restarts included, a child is at a state of the run of the unpatched program and never moved back along it, and one that has exited did so where that run does |
| StopPoints.ContStopsAtNextIff | 310551113_hw4/sdb.cpp:277-335 | from a stop, cont halts at the next breakpoint of the native run exactly when that is not in the word lifted at the stop |
| StopPoints.NeverPassesArmed | 310551113_hw4/sdb.cpp:277-335 | whatever ends a wait, the child has passed no breakpoint outside the lifted word, after any breaks and deletes since the stop |
| StopPoints.SignalStopIff | 310551113_hw4/sdb.cpp:277-291 | a stop by another signal leaves the child where the native run is, exactly when no breakpoint is one byte below rip |
| StopPoints.SiAgreesIff | 310551113_hw4/sdb.cpp:581-586 | si agrees with the unpatched program exactly when the byte at rip is not armed (a native one-byte no-op looks the same either way) |
| StopPoints.ArmedUnderfootIff | 310551113_hw4/sdb.cpp:337-396 | start, break and delete leave the byte at rip armed exactly with a breakpoint on the first instruction, at the current one, and on one that the delete re-arms as a neighbour |
| StopPoints.StopUnderfootIff | 310551113_hw4/sdb.cpp:277-291 | a stop leaves it armed exactly when another signal ended a cont on a breakpoint with none one byte below |
| StopPoints.LiftThenRearmIff | 310551113_hw4/sdb.cpp:263-305 | lifting a hit and re-arming gives memory and table back exactly when every breakpoint of the word was armed |
| StopPoints.StopTwiceIff | 310551113_hw4/sdb.cpp:325-329 | handling a stop again with nothing executed in between changes nothing, exactly when the first handling left no breakpoint at rip armed |
| StopPoints.BreakThenDeleteIff | 310551113_hw4/sdb.cpp:337-396 | break then delete restores the whole state exactly when every breakpoint in the next seven bytes was armed |
| StopPoints.DeleteKeepsNameIff | 310551113_hw4/sdb.cpp:391 | after a delete lid names the lifted breakpoint exactly when a later entry was deleted |
| StopPoints.DeleteRearmsIff | 310551113_hw4/sdb.cpp:377-396 | after a delete at a stop the next stop re-arms every breakpoint left, exactly when a later entry was deleted or each breakpoint of the lifted word lies in the word of the deleted entry or of the one lid names next |
| StopPoints.DeleteThenStopIff | 310551113_hw4/sdb.cpp:391 | after any delete the next stop reads outside the table exactly when lid named the last entry |
| Outcomes.WrongStatusIff | 310551113_hw4/sdb.cpp:65-78 | a command is refused for its status exactly as the status table says |
| Outcomes.QuitIff | 310551113_hw4/sdb.cpp:532-612 | a command ends the debugger exactly if it needs a child, or a word of one, that is not there; so no exit of the program does |
| Outcomes.BadBreakpointIff | 310551113_hw4/sdb.cpp:337-384 | break and delete report a bad breakpoint exactly for an address out of range or taken, and an index out of range |
| Outcomes.BadWaitIff | 310551113_hw4/sdb.cpp:330-334 | ERR_BADWAIT comes exactly from a wait for a child that was killed |
| Outcomes.NoFileIff | 310551113_hw4/sdb.cpp:521-525 | load reports a missing file exactly if there is none |
| Outcomes.BreakAcceptsIff | 310551113_hw4/sdb.cpp:337-366 | break accepts exactly the new addresses of the text section with a mapped word, however close to other breakpoints |
| Outcomes.RefusedChangesNothing | 310551113_hw4/sdb.cpp:337-396 | a command that is refused changes nothing |
| Outcomes.LoadTakesText | 310551113_hw4/sdb.cpp:248-256 | load stores the address and size of the first section at the entry point, so break accepts exactly its addresses; without one they stay |
| Outcomes.BreakAdds | 310551113_hw4/sdb.cpp:354-362 | break appends one entry and changes one byte |
| Outcomes.DeleteCloses | 310551113_hw4/sdb.cpp:386-391 | delete moves the later ids down by one, restores its own byte, arms the neighbours in its word, changes no other byte and not lid |
| Outcomes.StopEffect | 310551113_hw4/sdb.cpp:263-305 | the state after any stop, byte by byte: whose word is lifted, whose is re-armed, rip and lid |
| Outcomes.ContEnds | 310551113_hw4/sdb.cpp:317-375 | the reply and the whole state after cont, for every end of the wait |
| Outcomes.SiEnds | 310551113_hw4/sdb.cpp:581-586 | the same for si |
| Outcomes.StartArms | 310551113_hw4/sdb.cpp:588-612 | a start ends with exactly the table armed, the child at its first instruction, and lid the index of the breakpoint there or -1 |
| Outcomes.StartFails | 310551113_hw4/sdb.cpp:588-612 | a failed start with an empty table changes the status only |
| Outcomes.RunIsStartThenCont | 310551113_hw4/sdb.cpp:532-543 | run is cont, or the session start, cont, or a start that fails |
| Outcomes.RestartArmsAll | 310551113_hw4/sdb.cpp:588-612 | after the program has exited, the session goes on: a start arms the whole old table in the new text |
| Debugger.Sdb.ResetBreak | 310551113_hw4/sdb.cpp:263-275 | re-arms exactly the word lifted last; lid is -1 |
| Debugger.Sdb.RewindOntoBreak | 310551113_hw4/sdb.cpp:279-291 | the loop finds the first entry at rip or rip - 1 and moves rip onto it |
| Debugger.Sdb.RestoreIfBreak | 310551113_hw4/sdb.cpp:277-305 | gives the word of the breakpoint hit its original bytes, moves rip onto it, records it in lid; nothing if there is none |
| Debugger.Sdb.SetAllBreak | 310551113_hw4/sdb.cpp:307-315 | memory becomes the fully armed text; without a child the first poke fails |
| Debugger.Sdb.WaitStatus | 310551113_hw4/sdb.cpp:317-335 | exit: LOADED, no child, lid kept; stop: re-arm, then lift; killed: ERR_BADWAIT, status kept |
| Debugger.Sdb.SetBreak | 310551113_hw4/sdb.cpp:337-366 | every outcome of break; saved words stay pristine if the placement is one the code handles |
| Debugger.Sdb.DeleteBreak | 310551113_hw4/sdb.cpp:377-396 | every outcome of delete for every index, the one past the table included |
| Debugger.Sdb.Cont | 310551113_hw4/sdb.cpp:368-375 | resumes, then handles the trap, the exit, the stop by another signal or the kill; ends the debugger if there is no child |
| Debugger.Sdb.Si | 310551113_hw4/sdb.cpp:581-586 | the same for one instruction |
| Debugger.Sdb.Start | 310551113_hw4/sdb.cpp:588-612 | new text and child, the stop of exec handled with the lid left from the last run, then everything armed; a child that exits or is killed at once leaves RUNNING without a child, or ends the debugger |
| Debugger.Sdb.Load | 310551113_hw4/sdb.cpp:518-530 | every outcome of load: wrong status, no file, with and without a text section |
| Debugger.Sdb.ElfInfo | 310551113_hw4/sdb.cpp:248-256 | the loop over section headers finds the first at the entry point |
| Debugger.Sdb.RunProgram | 310551113_hw4/sdb.cpp:532-543 | error, cont, or start followed by cont unless the start failed, by status |
| Debugger.Sdb.Middleware | 310551113_hw4/sdb.cpp:618-663 | each handler, on words, does what Session says of its command, and keeps the saved words the original ones |
| Debugger.Sdb.Core | 310551113_hw4/sdb.cpp:691-700 | so does the loop over any legal list of commands: its state and last reply are those of RunAll |
| Debugger.Sdb.PokeText | 310551113_hw4/sdb.cpp:271 | a poke writes one word; it fails without a child or where no whole word is mapped |
| Debugger.Sdb.ShownWord | 310551113_hw4/sdb.cpp:446-447 | each byte both views show, for any base, readable or not, and exactly when it is that of the fully armed text |
| Debugger.Sdb.Disasm | 310551113_hw4/sdb.cpp:398-409 | every byte handed to the disassembler, against the fully armed text |
| Debugger.Sdb.Dump | 310551113_hw4/sdb.cpp:436-470 | every printed row: address, sixteen bytes against the fully armed text, their characters; all words read are printed exactly when the count is a multiple of 16 |
| Limits.SevenApartMisarms | 310551113_hw4/sdb.cpp:182 | two breakpoints 7 bytes apart: re-arming goes wrong |
| Limits.SessionIsPossible | 310551113_hw4/sdb.cpp:277-335 | the conditions of the session theorems can be met together: load, start, break and cont from the initial state, ending on the breakpoint |
| Limits.LoopNeverStopsAgain | 310551113_hw4/sdb.cpp:368-375 | a loop with one breakpoint: after the first hit cont never comes back |
| Limits.DeleteBelowLosesOne | 310551113_hw4/sdb.cpp:391 | after a delete below lid the next stop re-arms another word, and the lifted breakpoint stays lifted with lid -1 |
| Limits.DeleteCurrentThenStop | 310551113_hw4/sdb.cpp:391 | deleting the only breakpoint while on it: the next stop reads outside the table |
| Limits.DescendingLoses | 310551113_hw4/sdb.cpp:309-313 | without the sort a breakpoint is overwritten |
| Limits.StartThenSiSkews | 310551113_hw4/sdb.cpp:588-612 | a breakpoint on the first instruction, start, si: rip is one byte on and nothing was executed |
| Limits.SignalMovesBack | 310551113_hw4/sdb.cpp:277-291 | a signal one byte behind a breakpoint makes the child execute an instruction twice |
| Limits.LostChildSaysRunning | 310551113_hw4/sdb.cpp:588-612 | a failed exec, and a kill during cont, leave status RUNNING and no child |
| Limits.InsideInstructionCorrupts | 310551113_hw4/sdb.cpp:337-366 | a breakpoint on the second byte of an instruction changes its effect |
| Limits.DumpShowsFarBreakpoint | 310551113_hw4/sdb.cpp:190 | dump shows 0xcc on a nop because of a breakpoint 2^32 bytes away |
| X86.CallStub | 310551113_hw3/libmini64.asm:1-10 | the system call stub keeps rsp and r10 and adds nothing to what the kernel does but two words of dead stack |
| X86.BlockableIsKernelMask | 310551113_hw3/libmini64.asm:154-158 | a mask the kernel has installed can be installed again unchanged |
| X86.BlockableSignals | 310551113_hw3/libmini64.asm:154-158 | of the signals in a mask given to the kernel exactly SIGKILL and SIGSTOP are dropped |
| X86.BlockableFixesIff | 310551113_hw3/libmini64.asm:132-135 | the masks that survive unchanged are those with bits 8 and 18 clear |
| SetJmp.SaveRegisters | 310551113_hw3/libmini64.asm:114-123 | seven registers and the return address are in env, nothing else is written |
| SetJmp.SaveMask | 310551113_hw3/libmini64.asm:125-135 | the current mask is in env and still in force |
| SetJmp.Setjmp | 310551113_hw3/libmini64.asm:112-137 | returns 0 with all callee-saved registers and the mask unchanged, having written env and four words of dead stack and asked the kernel for the current mask |
| SetJmp.LoadRegisters | 310551113_hw3/libmini64.asm:141-151 | registers from env; env's return address in the old slot, whatever was there |
| SetJmp.Longjmp | 310551113_hw3/libmini64.asm:139-161 | goes to env's return address with env's registers, stack pointer and mask, and val in rax; the one system call installs the mask in env |
| SetJmp.LongjmpResumes | 310551113_hw3/libmini64.asm:112-161 | longjmp on an intact env resumes where setjmp returned, after anything else has run, and leaves env intact |
| SetJmp.EveryJumpResumes | 310551113_hw3/libmini64.asm:112-161 | any number of jumps to one env resume there |
| SetJmp.LongjmpSignals | 310551113_hw3/libmini64.asm:112-161 | after a longjmp exactly the signals blocked at the setjmp are blocked, SIGKILL and SIGSTOP apart |
| SetJmp.LongjmpMayRun | 310551113_hw3/libmini64.asm:112-161 | the stack words that longjmp needs are among those setjmp used |
| SetJmp.StandardResultIff | 310551113_hw3/libmini64.asm:158-160 | the result is the one of ISO C11 exactly when val is not 0 |
| Calls.Sleep | 310551113_hw3/libmini64.asm:88-110 | one request, that of the C reference exactly when the argument is zero-extended; the result of the reference for every answer of the kernel, rsp restored, nothing written at or above the entry rsp |
| Calls.Open | 310551113_hw3/libmini64.asm:63-86 | one request with the caller's arguments; result and errno as by the macro of the C wrappers, nothing else written but dead stack |
| Calls.SleepCases | 310551113_hw3/libmini.c:329-340 | the reference returns the result, after EINTR the rest, after any other error 0 |
| Calls.WrappedCases | 310551113_hw3/libmini64.asm:63-86 | the macro gives result and errno by the sign of the kernel's result |
| SigSet.ApplyRefines | 310551113_hw3/libmini.c:186-226 | each operation on the words is the set operation on the members |
| SigSet.SequenceRefines | 310551113_hw3/libmini.c:186-226 | so is any sequence of operations |
| SigSet.AddToEmpty | 310551113_hw3/libmini.c:212-218 | signal s is bit (s - 1) % 64 of word (s - 1) / 64 |
| SigSet.SigEmptySet | 310551113_hw3/libmini.c:186-197 | all words 0, the unrolled cases like the loop |
| SigSet.SigFillSet | 310551113_hw3/libmini.c:199-210 | all words all ones, the unrolled cases like the loop |
| SigSet.SigAddSet | 310551113_hw3/libmini.c:212-218 | raises one bit of one word, the one-word branch like the general one |
| SigSet.SigDelSet | 310551113_hw3/libmini.c:220-226 | lowers one bit of one word, the one-word branch like the general one |
| SigSet.SigIsMember | 310551113_hw3/libmini.c:237-243 | 1 exactly for the members |

## Left out

- Debugger.Sdb.Cont: the number of instructions up to the end of the wait is an argument, because waitpid returns only then; that the debugger swallows a signal it stopped for is not modelled.
- Debugger.Sdb.SetBreak: a word is either wholly mapped or not, with one unmapped range at the top of memory.
- Debugger.Sdb.Dump: the byte count must be a multiple of 8, since the loop of the code does not end otherwise; the address does not wrap at 2^64.
- Runs.Transparency: of a native int3 nothing is said; a crash of the program is a stop by another signal.
- SetJmp.Setjmp: machine state is a value carried through the method, memory a word at each aligned address; page faults and unaligned accesses are not modelled. The same holds for longjmp, sleep and open.
- Calls.Sleep: the C reference takes an unsigned int; the request agrees with it exactly when the caller has zero-extended its argument.
- `ptrace`, `fork`, `waitpid` and ELF reading, beyond a text memory, a machine state, a stop event and a list of sections.
- `std::sort` is replaced by an insertion sort with the same contract: an ascending permutation.
- The commands `set`, `get`, `getregs`, `vmmap`, `list`, `help`, the parsing of commands and options, and all printing: register plumbing and text.
- Decoding by Capstone, and the cut of its output at the end of the text section.
- The thin system call wrappers, `signal`, `sigaction`, `perror`, `strlen` and `bzero` of libmini.c: one branch each.
- `310551113_hw1` and `310551113_hw2`: directory walking, and logging around library calls.
