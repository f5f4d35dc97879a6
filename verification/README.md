# Bigloo's C runtime, modelled and proved

This project models the parts of Bigloo's C runtime (`runtime/Clib`) that contain algorithms of their own,
and proves what they are for. `dafny verify dfyconfig.toml` checks all of it.

The code updates memory in place, and so does the model: a port, a nursery, a table or a big integer is a class whose
methods reassign the fields the C functions assign, with the same branches and the same order. Each method is
specified by what it does to an abstract state, and the main theorems are about that state.

| files | component | main theorem |
|---|---|---|
| SawMemory, SawNursery, SawStore, SawCollector, SawGraph, SawLaws, SawPrograms | the SAW generational copying collector: bump-allocated nursery, remembered set growing down from its end, recursive copiers that leave forwarding pointers, write barrier | a whole mutator program has the effect it has on a store without a collector (`RunProgram`), and that store reads as it was written (`SetAndGet`, `AllocAndGet`, `CallAndReturn`); one collection promotes exactly what is reachable, to an isomorphic graph (`Gc`, `GraphIsIsomorphic`) |
| Bytes, InputPort, InputRuns | the RGC input buffer with its five cursors over a procedure that hands out strings | any run of fills, push-backs, matches and block reads takes its bytes off the front of the logical stream, and reads what the run on the logical stream would (`Run`) |
| OutputPort | block-buffered, line-buffered and string ports over a device that writes partially, is interrupted, or fails | device ++ buffer is the concatenation of all that was written (`Run`) |
| Transfer | `copyfile` and `bgl_sendchars` | a prefix of the input stream moves to the end of the output stream, and its length is returned, exactly if the direct write does not fail (`SendChars`) |
| Limbs, Bignums, SafeArithmetic | sign-magnitude integers, with loops over limbs for the `mpn_*` calls, and the overflow tests | results are exact and normal; promotion happens exactly on overflow (`Mul`, `SafeMul`) |
| StringEscapes, EscapeLaws, Unicode | printing for the reader, and unescaping | the two are inverse on every byte string (`RoundTrip`); no byte of the printed form ends it early (`ForRead`); every escape stands for the value it writes (`HexEscape`, `UnicodeEscape`); the length result is right exactly if the backslashes before the end are even in number (`EscapeCString`) |
| IntegerText | printing and reading integers | canonical numerals in every radix (`NumeralIsCanonical`); reading is exact, except for a class of bignum tokens that is characterised (`BufferInteger`, `BignumExact`) |
| VectorSort | shell sort with a callback | a sorted permutation for every total preorder (`SortVector`) |
| Symbols | the symbol table and lazily named gensyms | interning is canonical over any run (`Run`); the search for a fresh name ends (`Genname`) |
| ProcessTable | process slots with a least-free-index cache | the cache is exact in every reachable state, and registration fails only when a purge frees nothing (`MakeProcess`) |

Where a C pointer comparison, a syscall result or a procedure result decides a branch, it is an input of the model:
the script of an output port says what its next writes do, the chunks of an input port are the strings its
procedure will return, and `waitpid` is a list of answers. Common holds what several files share.

## What the code does not do

Some properties one would expect fail. The code is modelled as it is; each theorem says when the property holds, and
each failure has an input.

- `rgc_buffer_bignum` (runtime/Clib/crgc.c:738-754) gives GMP the whole rest of the buffer when white space follows the
  token, and GMP ignores white space inside numbers. `IntegerText.BignumExact` says exactly when the value is right;
  `IntegerText.BignumWrong` gives an input, 20 nines followed by " 1". A plus sign is not accepted on this path either.
- `bgl_safe_mul_elong` and `bgl_safe_mul_llong` (runtime/Clib/cbignum.c:980-1000, 1050-1063) detect overflow by dividing
  the wrapped product, which itself overflows for the least word and -1. `SafeArithmetic.SafeMul` has this as `Trap`, and
  only this.
- `bgl_escape_C_string` (runtime/Clib/cstring.c:885-1055) reports a wrong length when an escape crosses the end of the
  text. Where no hexadecimal digit follows the end, so where a string or a quotation ends, that is exactly when the
  number of backslashes directly before the end is odd; for any end, `StringEscapes.CleanEnd` asks the same of the
  escapes that begin in the last five bytes. `StringEscapes.LoneBackslash` and `StringEscapes.AcrossTheEnd` are inputs;
  the second writes three bytes more than the text has, which is the most there can be, and reports the length -1.
- `bgl_sendchars` keeps the result of its direct write in an unsigned word (runtime/Clib/cports.c:2856-2869), so a short
  write is an error, but a failed or interrupted one counts as complete: the bytes stay in the buffer, the cursor moves
  back by one, and the count includes them. `Transfer.WhenUnnoticed` says when: bytes are buffered, the port has a device,
  and the first event that the flush leaves is no partial write. `Transfer.SendChars` says what is returned, delivered
  and left in every case; `Transfer.FailedWrite` is an input. On the early return `filepos` is not advanced.
- `utf8_string_to_ucs2_string` (runtime/Clib/cunicode.c:641-653) takes two bits of a byte that holds three when it reads back
  a high half surrogate, so that 64 of them do not come back. `Unicode.ReadsBackUnless` says exactly which;
  `Unicode.NotReadBack` is one.
- `symbol_exists_p` (runtime/Clib/csymbol.c:193-204) compares names up to their first NUL. `Symbols.Symtab.SymbolExistsP`
  says exactly what it finds, and `Symbols.NulName` is a table in which it finds a name that no symbol has.
- `c_unregister_process` (runtime/Clib/cprocess.c:228-269) writes to the word before the table for a process that is in no
  slot, and only then (`ProcessTable.Table.Unregister`). `ProcessTable.Table.AliveP` never calls it so.

## Model

| member | source | states |
|---|---|---|
| SawCollector.Saw.RunProgram | runtime/Clib/csaw.c:103-225 | for every sequence of allocations, reads, barriered assignments, calls and returns, the mutator's view is the one a store without a collector would have, whatever collections happen on the way |
| SawCollector.Saw.Execute | runtime/Clib/csaw.c:202-225 | one command has its collector-free effect, including when its allocation or barrier collects |
| SawCollector.Saw.ExecuteAlloc | runtime/Clib/csaw.c:202-225 | the allocating commands have their store effect, whether or not they collect |
| SawLaws.OnlyWhatItNames | runtime/Clib/csaw.c:202-225 | a command other than a call or return changes no local, global, field or frame but those it names, and no object's kind or size |
| SawLaws.SetThenGet | runtime/Clib/csaw.c:398-404 | a field reads as it was last assigned |
| SawLaws.SetThenGetOther | runtime/Clib/csaw.c:398-404 | every other field, of this object or another, reads as before the assignment |
| SawLaws.SetGlobalThenGet | runtime/Clib/csaw.c:390-396 | a global reads as it was last assigned, and every other one as before |
| SawLaws.AllocThenGet | runtime/Clib/csaw.c:202-273 | a new pair, extended pair or cell reads as its operands in the order of its fields, and has no other field |
| SawLaws.AllocIsNew | runtime/Clib/csaw.c:202-273 | a new object is none that could be referred to before |
| SawLaws.EnterThenLeave | runtime/Include/bigloo_saw.h:41-46 | a frame is entered empty, and leaving it restores the whole store |
| SawLaws.CallRestores | runtime/Include/bigloo_saw.h:41-46 | whatever a callee does, calls included, the caller has its frames back, value by value |
| SawLaws.StepCloses | runtime/Clib/csaw.c:202-225 | no command makes a reference to an object that does not exist |
| SawLaws.RunConcat | runtime/Clib/csaw.c:202-225 | two programs one after the other are one program |
| SawPrograms.OneNameOneValue | runtime/Clib/csaw.c:103-122 | live values of the heap that stand for one object are one value: identity survives collections |
| SawPrograms.SetAndGet | runtime/Clib/csaw.c:398-404 | after any program, and whatever collections it and the barrier trigger, the field just assigned reads as the very heap value that was assigned, and all else reads as before |
| SawPrograms.AllocAndGet | runtime/Clib/csaw.c:202-273 | after any program, the fields of a new object read as the very heap values it was made of, in order, also if allocating it collected; all else reads as before |
| SawPrograms.SetAndGetGlobal | runtime/Clib/csaw.c:390-396 | after any program, the global just assigned reads as the very heap value that was assigned, and all else reads as before |
| SawPrograms.CallAndReturn | runtime/Clib/csaw.c:146-156 | after any program, a call returns to the caller's frames, whatever the callee allocates, assigns and collects |
| SawPrograms.NewIsNew | runtime/Clib/csaw.c:202-273 | from the start, no program makes a reference to nowhere, and what it allocates next is none of the values it can read |
| SawCollector.Saw.TraceObj | runtime/Clib/csaw.c:103-122 | returns the forwarded form of any value, keeps the tracing invariant with any set of copies still being filled in, copies only what the value reaches, and counts exactly the newly marked objects; ends on every heap, cycles included; the "YOUNG not in heap" exit, tested against backpool, is dead |
| SawCollector.Saw.PairCopy | runtime/Clib/csaw.c:295-325 | the new pair or extended pair has the original's kind and its fields forwarded, the original forwards to it, and every copy made underneath is counted |
| SawCollector.Saw.CopyCarCdr | runtime/Clib/csaw.c:303-322 | car and cdr of the copy become the forwarded originals although the original's first word is overwritten and tracing may revisit it |
| SawCollector.Saw.CellCopy | runtime/Clib/csaw.c:454-464 | the new cell holds the forwarded value of the original, which forwards to it |
| SawCollector.Saw.Forward | runtime/Clib/csaw.c:298-302 | leaving the forwarding pointer keeps the tracing invariant, with the new object still to be filled in, and takes one object off the unmarked ones |
| SawCollector.Saw.CopyField | runtime/Clib/csaw.c:303-307 | initialising one field of a copy: nothing else of the copy changes, and what was forwarded before stays so |
| SawCollector.Saw.TraceLocal | runtime/Clib/csaw.c:124-144 | one slot of a frame becomes its forwarded value; those visited before stay forwarded and the others unchanged |
| SawCollector.Saw.TraceWord | runtime/Clib/csaw.c:124-144 | one remembered word becomes its forwarded value, also if it was recorded more than once |
| SawCollector.Saw.TraceFrames | runtime/Clib/csaw.c:146-156 | the two loops forward every slot of every frame |
| SawCollector.Saw.TraceRemembered | runtime/Clib/csaw.c:158-167 | the loop from backpool down to backptr forwards every recorded word |
| SawCollector.Saw.TraceAll | runtime/Clib/csaw.c:158-167 | everything outside the nursery is promoted; the marked objects are exactly those the roots reach, and the copy count is their number |
| SawCollector.Saw.Gc | runtime/Clib/csaw.c:158-175 | besides, nursery and remembered set are empty afterwards and the counters are reset |
| SawCollector.Saw.Settle | runtime/Clib/csaw.c:158-175 | after a collection, and any tracing that followed, the heap represents the store it represented before |
| SawCollector.Saw.Overwrite | runtime/Clib/csaw.c:219-223 | writing free nursery bytes destroys no live object and no recorded word |
| SawCollector.Saw.InitObject | runtime/Clib/csaw.c:219-225 | over space where nothing is stored, the object filled in is the next one of the store, young and live, with the given fields |
| SawCollector.Saw.Install | runtime/Clib/csaw.c:219-225 | the same over free space in which dead objects and old entries may still lie |
| SawCollector.Saw.TraceArgument | runtime/Clib/csaw.c:216-217 | after the reset, tracing an argument still gives its promoted form, whether or not the collection reached it |
| SawCollector.Saw.CollectFor | runtime/Clib/csaw.c:207-218 | the slow path returns arguments that name the same objects as before, all live, with the nursery empty and the store unchanged |
| SawCollector.Saw.Make | runtime/Clib/csaw.c:202-225 | allocation on the fast or slow path adds one object with the given fields and changes nothing else; the "not enough space" exit is dead |
| SawCollector.Saw.MakePair | runtime/Clib/csaw.c:202-225 | a pair of the two arguments is added, and nothing else changes |
| SawCollector.Saw.MakeEpair | runtime/Clib/csaw.c:247-273 | an extended pair of the three arguments is added, and nothing else changes |
| SawCollector.Saw.MakeCell | runtime/Clib/csaw.c:408-432 | a cell of the argument is added, and nothing else changes |
| SawCollector.Saw.DoBackptr | runtime/Clib/csaw.c:378-388 | the word is assigned as in the store on both paths, and the mutator's invariant, which includes that every old word holding a young pointer is recorded, holds afterwards |
| SawCollector.Saw.Record | runtime/Clib/csaw.c:383-385 | recording overwrites only free space and keeps every earlier entry |
| SawCollector.Saw.CollectForSlot | runtime/Clib/csaw.c:379-381 | the slow path of the barrier: the traced value is old and names the same object, and the word still belongs to the same object |
| SawCollector.Saw.Bmassign | runtime/Clib/csaw.c:390-396 | assigning a global variable has its collector-free effect |
| SawCollector.Saw.Bassign | runtime/Clib/csaw.c:398-404 | assigning a field of an object, young or old, has its collector-free effect and leaves every other field alone |
| SawMemory.StartCopy | runtime/Clib/csaw.c:298-302 | marking an object and leaving its copy's address in its first field keeps the tracing invariant |
| SawMemory.StartProgress | runtime/Clib/csaw.c:298-302 | it takes exactly one object from the unmarked ones: the termination measure |
| SawMemory.WriteGrey | runtime/Clib/csaw.c:303-307 | a copy that is still being filled in may be written freely |
| SawMemory.FinishCopy | runtime/Clib/csaw.c:303-309 | once its fields are the forwarded ones, a copy is complete |
| SawMemory.VisitedIsPromoted | runtime/Clib/csaw.c:158-167 | visiting the frames and the recorded words is enough to forward every word outside the nursery |
| SawMemory.PromotedIsReachable | runtime/Clib/csaw.c:158-167 | what is promoted includes all that the roots reach |
| SawMemory.MarkedIsClosed | runtime/Clib/csaw.c:103-122 | the fields of marked objects point to marked objects |
| SawMemory.ReachIsClosed | runtime/Clib/csaw.c:103-122 | reachability, as the least closed set, is closed |
| SawMemory.EndCollecting | runtime/Clib/csaw.c:158-175 | at the end the marked objects are exactly the reachable ones and as many as were copied |
| SawGraph.ForwardedObject | runtime/Clib/csaw.c:295-325 | a promoted object has the kind of its original and its fields forwarded |
| SawGraph.FollowConcat | runtime/Clib/csaw.c:103-122 | a path is followed one field after the other |
| SawGraph.PathsAreForwarded | runtime/Clib/csaw.c:103-122 | every path of field selections leads to the promoted form of what it led to |
| SawGraph.ForwardedInjective | runtime/Clib/csaw.c:103-122 | forwarding is injective: distinct objects have distinct copies |
| SawGraph.GraphIsIsomorphic | runtime/Clib/csaw.c:158-175 | two paths meet after a collection if and only if they met before, over any sharing and cycles, and none leads into the nursery |
| SawNursery.FreeSpaceIsFree | runtime/Clib/csaw.c:219-223 | the bytes between alloc and backptr hold nothing live and no recorded word |
| SawNursery.SparedSlots | runtime/Clib/csaw.c:219-223 | the recorded words lie beyond the free space |
| SawNursery.AllocConsistent | runtime/Clib/csaw.c:204-207 | moving alloc below backptr keeps objects inside the nursery, apart, and apart from the recorded words |
| SawNursery.RecordConsistent | runtime/Clib/csaw.c:383-385 | moving backptr down by one word keeps them apart and adds exactly that word to the recorded ones |
| SawNursery.ResetConsistent | runtime/Clib/csaw.c:169-170 | the reset is consistent once nothing outside the nursery points into it |
| SawNursery.AssignFieldConsistent | runtime/Clib/csaw.c:398-404 | an assignment needs no barrier unless it puts a young pointer into an old object |
| SawStore.ForwardedKeepsName | runtime/Clib/csaw.c:103-122 | a forwarded value names, in the renamed heap, the object it named before |
| SawStore.PromotedNamesDiffer | runtime/Clib/csaw.c:158-175 | no two live values name the same object after the renaming |
| SawStore.PromotionKeepsStore | runtime/Clib/csaw.c:158-175 | a promoted heap represents the same store, with the same roots |
| SawStore.AllocRepresents | runtime/Clib/csaw.c:219-225 | an object in free space represents one more object of the store |
| SawStore.SetRepresents | runtime/Clib/csaw.c:398-404 | a field assignment in memory is the field assignment of the store |
| SawStore.SameLiveRepresents | runtime/Clib/csaw.c:219-223 | memory that nothing live points to does not matter |
| SawStore.ArgumentsSettle | runtime/Clib/csaw.c:207-218 | traced arguments are live after the renaming and name what they named |
| SawStore.SlotSettles | runtime/Clib/csaw.c:378-381 | a word about to be assigned is the same word of the same object after a collection |
| InputPorts.InputPort.ProcRead | runtime/Clib/cports.c:393-438 | hands out the procedure's strings in order, each read as much of the next one as fits, touching nothing else of the target; it fails exactly when a failing procedure has no more strings; the end of file is noted only when the source is used up |
| InputPorts.InputPort.Deliver | runtime/Clib/cports.c:400-415 | the next piece of the current string, with the position kept for the rest |
| InputPorts.InputPort.DoubleBuffer | runtime/Clib/crgc.c:68-82 | all buffered text and cursors stay, in a larger buffer |
| InputPorts.InputPort.ShiftBuffer | runtime/Clib/crgc.c:88-103 | token, pending text and relative cursors stay and the answer of rgc_buffer_bol_p too, while room is made |
| InputPorts.InputPort.FillsizeBuffer | runtime/Clib/crgc.c:129-152 | appends exactly the bytes of one read, as much of the next string as the free part and the fill barrier allow, and takes them off the barrier; reads nothing at barrier 0 |
| InputPorts.InputPort.FillBuffer | runtime/Clib/crgc.c:158-214 | whether it fills, shifts or doubles: the token grows by exactly the bytes of one read into the room there is or comes free, matchstop keeps its offset in the token, forward is at the first unread byte, beginning-of-line is unchanged, the barrier holds, and a false result with an open barrier means end of file; an error comes exactly from a failing procedure without strings |
| InputPorts.InputPort.StartMatch | runtime/Include/bigloo.h:2746-2749 | the next token starts where the last ended, and is at the beginning of a line exactly if the last ended in a newline, or was empty and was itself |
| InputPorts.InputPort.Scan | runtime/Clib/crgc.c:158-214 | the automaton looks ahead, with fills, shifts and enlargements wherever it reaches the end of the buffer: the buffered text grows by what is read, the accepted part of the token stays, and it stops short only at the end of the source |
| InputPorts.InputPort.Accept | runtime/Include/bigloo.h:2746-2752 | up to the accepting state: the token is the first bytes of the stream, and all else is still to be read |
| InputPorts.InputPort.Match | runtime/Include/bigloo.h:2743-2752 | a match takes its token, and not what the automaton only looked at, off the front of the stream, and advances filepos by its length; if the procedure returns no empty strings and there is no fill barrier, it has the bytes asked for, or all there are, and fails exactly if a failing source is looked at beyond its end |
| InputPorts.InputPort.ReserveSpace | runtime/Clib/crgc.c:314-341 | ends, with the space asked for before the pending text and that text unchanged, every move in bounds |
| InputPorts.InputPort.InsertSubstring | runtime/Clib/crgc.c:347-377 | the logical stream is the inserted text followed by the old stream, for any length; filepos goes back, not below 0; a closed port and an empty range change nothing |
| InputPorts.InputPort.InsertChar | runtime/Clib/crgc.c:383-407 | the same for one character |
| InputPorts.InputPort.ReadLoop | runtime/Clib/crgc.c:254-272 | reads on to consecutive places until the request is met or the source ends, and fails exactly if a failing source ends first; on a datagram port it makes exactly one read, and gets what of the next string fits |
| InputPorts.InputPort.BlitString | runtime/Clib/crgc.c:220-288 | delivers the first min(l, remaining) bytes of the logical stream to the right place, leaves exactly the rest, and advances filepos by the count, however the procedure cuts its strings; on a datagram port what is buffered and one read of the rest; it fails exactly if the port is closed or a failing source ends before the request is met |
| InputRuns.Run | runtime/Clib/crgc.c:158-407 | any run of fills, push-backs, matches and block reads, over any source: each operation takes off the front of the logical stream no more than it is asked for, and in order; if no operation may fall short the run reads exactly what the same run on the logical stream reads; an error comes only from a failing source, at its end, and loses nothing read before |
| InputRuns.ReadSome | runtime/Clib/crgc.c:220-288 | the block read of a run: length, failure and the count on a datagram port, each exactly |
| InputRuns.Perform | runtime/Clib/crgc.c:158-407 | one operation is one step on the logical stream |
| OutputPorts.OutputPort.SysWrite | runtime/Clib/cports.c:311-318 | the oracle behind all writes: the next event decides count, error and what the device receives |
| OutputPorts.OutputPort.FlushString | runtime/Clib/cports.c:754-776 | over short and interrupted writes the device receives exactly the text; a failing write leaves a prefix and raises or drops as asked; how much is left, and what the device does next, is the function Drain of what it was going to do |
| OutputPorts.DrainsAll | runtime/Clib/cports.c:754-776 | a device without failures takes everything, whatever it interrupts or cuts short |
| OutputPorts.OutputPort.FlushBoth | runtime/Clib/cports.c:841-845 | the buffer and then the text that raises the overflow, in this order |
| OutputPorts.OutputPort.StrWrite | runtime/Clib/cports.c:3110-3130 | the text of a string port grows by exactly the argument, into a buffer of twice the needed length |
| OutputPorts.OutputPort.FlushToDevice | runtime/Clib/cports.c:826-860 | the device gets buffer[from..ptr] and then the text, from being stdout_from on standard output; a flush for a console read moves stdout_from and not ptr, and nothing is written twice |
| OutputPorts.OutputPort.OutputFlush | runtime/Clib/cports.c:810-885 | device ++ buffer grows by exactly the text, on any kind of port; the buffer of a device port is empty afterwards |
| OutputPorts.OutputPort.PutLineByte | runtime/Clib/cports.c:930-937 | one character of a line-buffered write, flushed on a newline |
| OutputPorts.OutputPort.Write | runtime/Clib/cports.c:927-946 | device ++ buffer grows by exactly the text; a line-buffered port keeps no newline in its buffer; an error leaves a prefix of what was written on the device |
| OutputPorts.OutputPort.GetOutputString | runtime/Clib/cports.c:1262-1276 | the text written since the last reset |
| OutputPorts.OutputPort.ResetOutputString | runtime/Clib/cports.c:1281-1288 | hands that text over, and the port is empty |
| OutputPorts.OutputPort.Run | runtime/Clib/cports.c:754-946 | for every run of writes, flushes and read-triggered flushes: device ++ buffer is the concatenation of everything written, or an error was raised and the device holds a prefix of it; no error unless a write fails |
| OutputPorts.OutputPort.Perform | runtime/Clib/cports.c:810-946 | one operation of such a run, the three kinds having one contract |
| OutputPorts.WrittenConcat | runtime/Clib/cports.c:927-946 | what two runs in a row write is what each writes, in order |
| Transfer.CopyLoop | runtime/Clib/cports.c:2697-2741 | blocks move from source to output in order and without loss, no more than asked for; on a reliable device it fails exactly if a failing source ends first |
| Transfer.CopyFile | runtime/Clib/cports.c:2673-2758 | moves min(sz, available) bytes, or all for a negative sz, to the end of the output stream, flushes, and returns the number; on a reliable device it fails exactly if a failing source ends first |
| Transfer.DirectWrite | runtime/Clib/cports.c:2855-2859 | the output stream grows by the prefix that the system write took, or by nothing if it failed, as the next event of the device decides |
| Transfer.Advance | runtime/Clib/cports.c:2865-2866 | the input stream loses exactly the bytes that were written; an error moves the cursor back by one |
| Transfer.SendBuffered | runtime/Clib/cports.c:2853-2866 | the bytes leaving the input buffer are the bytes arriving at the output, none if the write failed |
| Transfer.SendDirect | runtime/Clib/cports.c:2853-2883 | fails exactly if the write is short, returns at once exactly if the request is positive and no more than is buffered, and goes on otherwise, also after a failed write |
| Transfer.SendRest | runtime/Clib/cports.c:2906-2978 | the rest comes from the source alone, whatever is in the buffer, and the count covers both parts |
| Transfer.SendOn | runtime/Clib/cports.c:2906-2978 | what was written directly and what the source delivers arrive in this order, and are one prefix of what was to be read |
| Transfer.WantedInParts | runtime/Clib/cports.c:2858-2882 | what is written directly and what is asked of the source add up to the request |
| Transfer.SendFlushed | runtime/Clib/cports.c:2850-2978 | the two parts together are one prefix of the logical stream, unless the direct write failed; then the source part alone arrives, and the count is too large by the bytes that stay buffered |
| Transfer.SendChars | runtime/Clib/cports.c:2824-2987 | unless the direct write fails: moves exactly a prefix of the input port's logical stream to the end of the output port's, of length min(sz, available), or all for a negative sz, or the buffered bytes for 0, and returns that length. If it fails: the buffered bytes of the request do not arrive and are counted all the same. Raises if the flush fails, is an error exactly if the direct write is short, and otherwise, on a device whose writes do not fail, raises exactly if a failing source ends before the request is met. filepos advances by the count, except that a positive request met by the buffer alone leaves it |
| Transfer.WhenUnnoticed | runtime/Clib/cports.c:2853-2869 | the direct write fails unnoticed if and only if bytes are buffered, the port has a device, and the device's next event is an interruption or a failure |
| Transfer.WhenFailed | runtime/Clib/cports.c:2868-2870 | the direct write is an error if and only if the next event of the device is a partial write of fewer bytes than are to be written |
| Transfer.FailedWrite | runtime/Clib/cports.c:2853-2880 | for an interrupted or failed write of five buffered bytes: 5 is returned, nothing has arrived, and the next bytes to be read are the one read before and then all five |
| Limbs.MpnAdd | runtime/Clib/cbignum.c:464-481 | limbs and carry have the value of the sum |
| Limbs.MpnSub | runtime/Clib/cbignum.c:505-512 | limbs and borrow have the value of the difference |
| Limbs.MpnCmp | runtime/Clib/cbignum.c:367-377 | the sign of the first difference from the top is the order of the values |
| Limbs.MpnMul | runtime/Clib/cbignum.c:657-663 | the rows add up to the product, in the sum of the lengths |
| Limbs.ValBound | runtime/Clib/cbignum.c:367-376 | n limbs are worth less than the n-th power of the base |
| Limbs.TopLimb | runtime/Clib/cbignum.c:82-92 | a nonzero top limb puts a number at or above the next lower power |
| Limbs.ValZeroTail | runtime/Clib/cbignum.c:514-530 | zero limbs on top do not count |
| Bignums.LongerIsLarger | runtime/Clib/cbignum.c:367-376 | of two normal magnitudes the longer is the larger |
| Bignums.SetSize | runtime/Clib/cbignum.c:82-92 | the value stays and the magnitude is normal: no zero limb on top, zero has size 0 |
| Bignums.LongToBignum | runtime/Clib/cbignum.c:119-136 | exact for every long, the least included |
| Bignums.CmpAux | runtime/Clib/cbignum.c:367-377 | orders magnitudes as their values |
| Bignums.Cmp | runtime/Clib/cbignum.c:382-404 | orders signed numbers as their values |
| Bignums.Neg | runtime/Clib/cbignum.c:427-441 | the value is negated and normal |
| Bignums.AddPosPosAux | runtime/Clib/cbignum.c:464-481 | the sum of two magnitudes, normal with and without a carry |
| Bignums.DropCancelled | runtime/Clib/cbignum.c:514-531 | the cancellation scan keeps the value and leaves it normal, down to size 0 |
| Bignums.AddPosNegAux | runtime/Clib/cbignum.c:505-532 | the difference of two magnitudes, normal; the assertion that there is no borrow holds |
| Bignums.AddNegPosAux | runtime/Clib/cbignum.c:540-546 | the same with the other sign |
| Bignums.AddPosNeg | runtime/Clib/cbignum.c:554-570 | signed difference by comparing lengths and then limbs; 0 on equality |
| Bignums.AddNegNeg | runtime/Clib/cbignum.c:578-584 | the negated sum of two magnitudes |
| Bignums.Add | runtime/Clib/cbignum.c:590-612 | exact and normal for all signs |
| Bignums.Sub | runtime/Clib/cbignum.c:618-643 | exact and normal for all signs |
| Bignums.ProductSize | runtime/Clib/cbignum.c:657-667 | the product of normal magnitudes lacks at most its top limb |
| Bignums.Mul | runtime/Clib/cbignum.c:649-677 | exact and normal for all signs, the size_z - 1 case included |
| SafeArithmetic.PlusOverflow | runtime/Clib/cbignum.c:940-955 | the sign-bit test fires if and only if the sum does not fit |
| SafeArithmetic.MinusOverflow | runtime/Clib/cbignum.c:960-975 | the sign-bit test fires if and only if the difference does not fit |
| SafeArithmetic.MulOverflow | runtime/Clib/cbignum.c:980-1000 | dividing the wrapped product gives the factor back if and only if the product fits |
| SafeArithmetic.SafePlus | runtime/Clib/cbignum.c:940-955 | the sum, as a word if it fits and as a bignum exactly if not |
| SafeArithmetic.SafeMinus | runtime/Clib/cbignum.c:960-975 | the difference, as a word if it fits and as a bignum exactly if not |
| SafeArithmetic.SafeMul | runtime/Clib/cbignum.c:980-1000 | the product, as a word if it fits and as a bignum exactly if not; the check itself overflows for the least word times -1 and for nothing else |
| VectorSort.OrderOrStrictOrder | runtime/Clib/cvector.c:140-162 | the callback may be the order or its strict part |
| VectorSort.SwapSinks | runtime/Clib/cvector.c:148-156 | swapping an out-of-order pair moves the one misplaced element a gap down and misplaces no other |
| VectorSort.GapOneIsSorted | runtime/Clib/cvector.c:146-159 | sorted with gap 1 is sorted |
| VectorSort.SwapPermutes | runtime/Clib/cvector.c:153-155 | a swap permutes |
| VectorSort.Sink | runtime/Clib/cvector.c:148-157 | the innermost loop extends the gap-sorted part by one, and permutes |
| VectorSort.Pass | runtime/Clib/cvector.c:147-158 | each pass leaves the vector sorted with respect to its gap, and permutes |
| VectorSort.SortVector | runtime/Clib/cvector.c:140-162 | ends with a permutation for any callback, sorted for one that decides a total preorder |
| StringEscapes.PrintedForm | runtime/Clib/cstring.c:1104-1212 | the printed form has no NUL, is no shorter than the text and at most four times as long, and is the text if no byte needs an escape |
| StringEscapes.PutPrinted | runtime/Clib/cstring.c:1128-1198 | the switch writes the printed form of the byte at the cursor, inside the buffer |
| StringEscapes.ForRead | runtime/Clib/cstring.c:1104-1212 | the result is the printed form: no byte below 32, every quote, and in symbols every bar, behind an odd number of backslashes, and an even number at the end; the escape flag is false exactly if the text has no control byte, quote, backslash or, in symbols, bar, and the result is then the text |
| StringEscapes.PrintedDelimited | runtime/Clib/cstring.c:1127-1198 | no byte of a printed form ends it for a reader, and the byte put after it does |
| StringEscapes.PlainIsItself | runtime/Clib/cstring.c:1177-1191 | wherever it stands, a byte is printed as itself if it is 32 or more and no quote, backslash or, in a symbol, bar, and with a backslash if not |
| StringEscapes.PrintedConcat | runtime/Clib/cstring.c:1127-1198 | what is printed is the concatenation of what is printed of the parts |
| EscapeLaws.PrintedEscapes | runtime/Clib/cstring.c:1127-1198 | a control byte is printed by its letter if it has one and by its three octal digits if not; a quote, a backslash and a bar by themselves |
| StringEscapes.ReadPiece | runtime/Clib/cstring.c:900-1045 | one turn of the loop: text, cursor and running length |
| StringEscapes.EscapeCString | runtime/Clib/cstring.c:884-1055 | the text written is the unescaped one; the length result is its length if and only if no escape that begins in the last five bytes crosses the end, which, where no hexadecimal digit follows the end, is so if and only if the number of backslashes directly before the end is even; all is written within three bytes beyond the length of the text, and within that length if no escape crosses |
| EscapeLaws.HexEscape | runtime/Clib/cstring.c:945-967 | x in either case and the two hexadecimal digits of a byte, in either case, stand for the byte, for every byte |
| EscapeLaws.OctalEscape | runtime/Clib/cstring.c:1018-1037 | the three octal digits of a value stand for it, less 256 if it is no byte |
| EscapeLaws.DigitEscape | runtime/Clib/cstring.c:1015-1037 | any three decimal digits are taken for octal ones |
| EscapeLaws.UnicodeEscape | runtime/Clib/cstring.c:970-1007 | u in either case and the four hexadecimal digits of a UCS-2 character stand for the bytes from which the character is decoded, for every character, half surrogates included |
| EscapeLaws.ControlEscape | runtime/Clib/cstring.c:910-926 | the letters n, t, b, r, f and v stand for their control bytes |
| EscapeLaws.OtherEscape | runtime/Clib/cstring.c:928-1017 | any other byte stands for itself, also an x, a u or a digit that the digits of an escape do not follow |
| EscapeLaws.BackslashAtEnd | runtime/Clib/cstring.c:907-908 | a backslash before a NUL stands for itself |
| EscapeLaws.NoEscapes | runtime/Clib/cstring.c:901-902 | a text without backslashes stands for itself |
| EscapeLaws.UnescapedConcat | runtime/Clib/cstring.c:900-1045 | texts that no escape joins stand for the concatenation of what they stand for |
| Unicode.Utf8Decodes | runtime/Clib/cunicode.c:461-590 | every character is encoded in the least number of bytes, a lead byte and following bytes, and a decoder of the form gives it back, half surrogates included |
| Unicode.ReadsBackUnless | runtime/Clib/cunicode.c:636-695 | the decoder of the runtime gives a character back if and only if it is none of the high half surrogates from 0xdbc0 on |
| Unicode.NotReadBack | runtime/Clib/cunicode.c:641-653 | the half surrogate 0xdbc0 is read back as 0xffc0 |
| StringEscapes.StepParity | runtime/Clib/cstring.c:900-1045 | one turn of the loop passes an even number of backslashes at its end and no unescaped one within it |
| StringEscapes.ScanEndsClean | runtime/Clib/cstring.c:900-1045 | the loop ends at the end of the text if and only if no unescaped backslash begins an escape that crosses it |
| StringEscapes.LastFive | runtime/Clib/cstring.c:900-1045 | only escapes that begin in the last five bytes can cross |
| StringEscapes.EvenBackslashes | runtime/Clib/cstring.c:906-1045 | where no hexadecimal digit follows the end, none crosses if and only if the backslashes directly before the end are even in number |
| StringEscapes.LoneBackslash | runtime/Clib/cstring.c:904-908 | for a text that is one backslash the length result is 0, and one byte is written |
| StringEscapes.AcrossTheEnd | runtime/Clib/cstring.c:970-1013 | for a text that is the backslash of a `u` escape four bytes are written, and the length result is -1 |
| StringEscapes.StepBack | runtime/Clib/cstring.c:900-1045 | a printed byte is read back in one step that uses all of it |
| StringEscapes.ReadsBack | runtime/Clib/cstring.c:884-1055 | a printed form anywhere in a string is unescaped to the text, and the scan stops at its end |
| StringEscapes.RoundTrip | runtime/Clib/cstring.c:1218-1232 | unescaping what string_for_read or symbol_for_read gives returns the original bytes and the exact length, for every byte string |
| IntegerText.DecimalOfDigits | runtime/Clib/cstring.c:219-239 | the decimal digits of a number are worth the number |
| IntegerText.DigitsWorth | runtime/Clib/cstring.c:219-239 | the digits of a number are worth the number in their radix, none is out of range, and the first is not zero |
| IntegerText.LettersInOrder | runtime/Clib/cstring.c:219-239 | the digits are those of the table of digits, in order |
| IntegerText.NumeralIsCanonical | runtime/Clib/cstring.c:219-239 | a numeral is worth its integer in every radix from 2 to 36; it begins with a zero only for 0 and with a minus only for a negative number, with no zero after it |
| IntegerText.CountDigits | runtime/Clib/cstring.c:224-227 | the counting loop finds the length of the numeral |
| IntegerText.FillDigits | runtime/Clib/cstring.c:230-236 | the loop from the right writes the digits at the end of the field, zeros before them, and nothing else |
| IntegerText.IntegerToString | runtime/Clib/cstring.c:219-239 | the canonical numeral of every long in every radix from 2 to 36, the least long included |
| IntegerText.UnsignedToString | runtime/Clib/cstring.c:244-262 | the canonical numeral of the value as an unsigned word |
| IntegerText.NumeralIsToken | runtime/Clib/cstring.c:219-239 | decimal numerals are integer tokens of the value printed |
| IntegerText.SkipPadding | runtime/Clib/crgc.c:795-807 | sign and leading zeros |
| IntegerText.Accumulate | runtime/Clib/crgc.c:809-839 | the value of a prefix of the digits, never beyond the word, stopping exactly at the threshold |
| IntegerText.BufferInteger | runtime/Clib/crgc.c:783-843 | for every integer token: no intermediate overflow, the exact value as a fixnum, elong or llong by which loop and range it falls in, and the bignum path exactly for those beyond the last threshold |
| IntegerText.BignumExact | runtime/Clib/crgc.c:738-754 | on the bignum path the value is right if and only if there is no plus sign and what follows the token in the buffer is not white space, or only white space up to the next NUL |
| IntegerText.BignumWrong | runtime/Clib/crgc.c:738-754 | a token for which it is wrong |
| IntegerText.RoundTrip | runtime/Clib/cstring.c:219-239 | printing any long at radix 10 and reading the token back gives the number |
| Symbols.HashLen | runtime/Clib/chash.c:114-123 | the bucket of a name, below the table size |
| Symbols.HashCString | runtime/Clib/chash.c:99-108 | hashes the text before the NUL to the same bucket |
| Symbols.HashIsNines | runtime/Clib/chash.c:99-123 | the accumulator is the number that the signed bytes of the name are in base nine, modulo the word |
| Symbols.HashIsBucket | runtime/Clib/chash.c:99-123 | the bucket is that number modulo the size of the table |
| Symbols.Cut | runtime/Clib/csymbol.c:219-223 | a gensym name begins with the first 20 bytes of its base, or all of them |
| Symbols.CandidateInjective | runtime/Clib/csymbol.c:219-232 | different counters give different gensym names |
| Symbols.Entered | runtime/Clib/csymbol.c:93-132 | entering a new name keeps every symbol in its bucket and names distinct |
| Symbols.Symtab.Search | runtime/Clib/csymbol.c:110-122 | the list search finds the symbol of a name, by all its bytes; the stop at a symbol without a name is dead |
| Symbols.Symtab.Intern | runtime/Clib/csymbol.c:92-132 | the symbol returned has the name; at most one symbol is new, and then it is the one returned |
| Symbols.Symtab.Exists | runtime/Clib/csymbol.c:166-187 | finds exactly the names of the bucket, as C strings |
| Symbols.Symtab.SymbolExistsP | runtime/Clib/csymbol.c:193-204 | true if and only if a symbol in the bucket of the name has it for its name up to a NUL; so it finds the symbol of a name if there is one, and nothing else if names have no NULs |
| Symbols.NulName | runtime/Clib/csymbol.c:193-204 | a table in which it answers true for a name that no symbol has |
| Symbols.Symtab.AheadShrinks | runtime/Clib/csymbol.c:226-232 | each failed candidate uses up one name of the table: the search ends |
| Symbols.Symtab.Genname | runtime/Clib/csymbol.c:213-244 | the loop ends with a name no symbol has; only the gensym's own name changes |
| Symbols.Symtab.Gensym | runtime/Clib/csymbol.c:250-260 | a new symbol, unnamed without a base, and with one named by its first 20 bytes and the counter, unlike any other |
| Symbols.Symtab.Run | runtime/Clib/csymbol.c:92-260 | over any run two lookups give the same symbol if and only if the names agree byte for byte, and a gensym is no earlier symbol |
| ProcessTable.Table.Unregister | runtime/Clib/cprocess.c:237-269 | the slot is free, firstFreeIndex is again the least free slot, and nothing else changes; the write before the table happens if and only if the process is in no slot |
| ProcessTable.Table.AliveP | runtime/Clib/cprocess.c:162-190 | alive exactly if not found terminated; a process found terminated leaves its slot with its status recorded; nothing else of it changes |
| ProcessTable.Table.Purge | runtime/Clib/cprocess.c:284-295 | frees exactly the slots of terminated processes, although each removal moves firstFreeIndex, records the status of each, and changes no other process |
| ProcessTable.Table.Register | runtime/Clib/cprocess.c:364-370 | the process gets the least free slot, and the scan finds the next one |
| ProcessTable.Table.MakeProcess | runtime/Clib/cprocess.c:337-375 | fails if and only if every slot is taken by a process the purge does not find terminated; never overwrites an occupied slot, and takes the least free one; the new process is not exited and has no status, those purged have theirs recorded, and no other changes |

## Left out

The collector:

- SawCollector.Saw.Make: one method for the three allocators, with the wrappers MakePair, MakeEpair and MakeCell; they differ in the arity alone.
- SawCollector.Saw.Gc: the debugging output is not modelled; copies return their number.
- `bgl_saw_make_old_pair`, `bgl_saw_make_old_epair`, `bgl_saw_make_old_cell` and the SAW branch of `bgl_fill_vector`: they go on using a young value after a barrier that may have collected, so the invariant is not claimed of them.
- The real and vector copiers, which end the program, and `bgl_saw_gc_add_copier`; the built-in copiers for pairs and cells are installed. Objects of other types are immediate values of the model.
- `BYOUNG`, `BYOUNGP` and `BOLDP` are not defined in the repository; a value is taken to carry its generation as a tag, which is what their use requires.
- Old objects are never reclaimed in the model; the Boehm collector underneath is not part of it. The counters are unbounded.

Input ports:

- Sources other than procedures: files, consoles, sockets, strings and memory maps differ in when they note the end of file. A short read is a short string of the procedure; `bgl_read` retries interrupted reads.
- A procedure port that returns a string again after #f: the chunks are over at #f.
- InputPorts.InputPort.FillsizeBuffer: takes `size` and `bufpos` as they are, where the source narrows them to int; buffers above 2^31 bytes are not modelled.
- `rgc_buffer_unget_char`, which overwrites the first byte at position 0; the eol, bof and eof predicates; the build with the `RGC_0` sentinel.
- InputPorts.InputPort.BlitString: says nothing of beginning-of-line, since the source resets lastchar to a newline when it empties the buffer.

Output ports and transfer:

- Flush hooks, sysflush, mutexes, procedure and socket output ports, and writes to closed ports other than through `output_flush`.
- Transfer.SendChars: no offset, no sendfile build, no gzip ports. After a failed direct write the cursor may be before the buffer, or before the current token; no later operation on such a port is modelled.
- Transfer.CopyFile: an interrupted read is retried by the source; the procedure ports of the model are not interrupted.

Numbers and text:

- Division, gcd, shifts, bitwise operations, random numbers and conversions that only call GMP; the `_fx` variants; the builds with overflow builtins; builds where a long takes more than one limb.
- `mpz_set_str` is modelled from its documentation: white space is ignored, one minus sign may come first, anything but digits is refused.
- Flonums, `bgl_escape_scheme_string`, `integer_to_string_padding`.

Sorting and tables:

- VectorSort.SortVector: the callback is a function; side effects and escapes from it are not modelled.
- Symbols.Symtab.Genname: the counter is unbounded, where the source has a long, and the mutex is not modelled.
- The keyword table, which has the same shape as the symbol table.
- ProcessTable.Table.Unregister: stops where the source would write before the table; what follows from that write is not modelled. Closing the process's streams is not modelled.
- Starting, waiting for and signalling processes.
