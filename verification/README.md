# Verified models of libunwindstack, libziparchive and HashSet

These Dafny modules model the algorithms of this repository whose correctness is subtle:
a lock-free reader, interpreters, indexes, caches, in-place hash tables, a thread
handshake and an archive format. Each is proved against a simple statement of what it is
for. `dafny verify dfyconfig.toml` checks the whole project.

## What is modelled

**The JIT list** (`JitList`, `JitReader`, `JitSnapshot`). A process keeps a doubly
linked list of code entries, each with a seqlock that is odd while the entry is not
valid. A reader in another process reads one word at a time, and before each word the
process may have made any number of writes. `World` is the memory of the process
together with the birth order of its entries; `Write` are its single writes. What is
proved of the reader holds for every interleaving, from a process that has listed
nothing. If nothing fails to load, a snapshot has every symfile that is listed when the
head is last read, provided that this head has a symfile or is null; otherwise it can
miss only what has left the list since. A head without a symfile is never kept in the
map, so that a walk from it can look like a pass that found nothing new: `HeadDecides`
proves that the process can then go on so that the reader misses something, exactly if
something listed has a symfile that is not cached yet; `MissingExample` is such a
history. `ForEachSymfile` checks the seqlock of an entry only in its first scan; the
scan after a reread relies on the reread, and if that failed, on nothing.

**Call frames** (`DwarfCfa`, `CallFrameLaws`, `FrameLaws`, `FrameTable`, `CieRuns`,
`CfaRows`, `RowCache`, `FdeIndex`, `RegisterEval`, `Unwinding`, `Prologues`). The
instructions of section 6.4.2 of DWARF version 4 are interpreted as the handlers do it, on
decoded instructions. What they are for is stated without the interpreter: `FrameLaws`
says of each instruction what it makes of the frame address and of the caller's registers,
in registers, bytes of memory and integers; `FrameTable` that the rules at a pc are those
of the CIE after the changes of all lines up to it; `Unwinding` that a step up the stack
gives the caller its registers back whenever they are where the instructions say, for
every kind of rule, also through the cache of rows, and ends where the return address is
undefined; and `Prologues` that they are there: for any function that saves registers,
allocates and sets a frame pointer, with the instructions a compiler writes for it, a step
from any of its prologue's pcs undoes what it has done so far.

The code does not scale the operand of DW_CFA_offset_extended by the data alignment
factor, as section 6.4.2.3 of DWARF version 4 asks, nor that of
DW_CFA_GNU_negative_offset_extended, its negative; the model follows the code.
`OffsetsExactly` proves that the rule is the one that is asked for if and only if scaling
makes no difference to the operand, and that all other factored offsets are right;
`OffsetExtendedIsOff` is an input for which it is not. A factored offset is recorded as 64
bits of a number of the address type: `ScaledExactly` proves for which multiples that is
the multiple itself. The rules that a CIE gives are cached as they were found for the first
pc; `CacheableExactly` proves for which CIEs they do for all others. Restoring a remembered
state brings back the start of the row in which it was remembered, and if no instruction
follows, the row is recorded from there on. `RowsHoldExactly` proves for which FDEs, among
those whose location only grows, all recorded ranges are right nevertheless: those in which
every row from the remembered start to the last location has the remembered rules. For them
the cache of rows is proved to agree with interpretation from scratch; for all others
`TrailingRestoreIsStale` names a pc for which the row found at the last location is wrong,
and after `LookUpLast` the cache answers with it. The search table over FDEs finds one for
a pc exactly if there is one on the way through the section. Restoring registers is one
simultaneous assignment, in whatever order the rules are visited.

**Expressions** (`Bits`, `DwarfMemory`, `DwarfOp`, `DwarfOpLaws`, `TreeValues`,
`ExpressionTrees`). The stack machine of section 2.5 of DWARF version 4, on 32-bit and
64-bit words, with the operand formats it needs. Where C++ leaves a result open (shifts by
the width or more, overflow of signed negation and division) the result is a parameter of
the model, so that what is proved holds whatever it is. An expression means the tree that
it was made from: `Tree` has all constants, registers with offsets, all operations on one
and two values, reads of memory, and a choice compiled with a branch and a skip, and
`Value` is its value over integers, registers and bytes of memory. `ExpressionMeansTree`
proves that evaluating the operations of any tree gives this value or its error. The code
compares unsigned where section 2.5.1.5 of DWARF version 4 asks for signed comparisons:
`ComparesAsSigned` proves that they agree exactly for tests of equality and for numbers of
the same sign, and `ComparesOtherwise` is an input for which they do not. Canonical SLEB128
numbers below -2^62 take ten bytes, and their sign is filled in by such a shift:
`SlebExactly` proves that exactly the numbers from -2^62 on are always read back.

**ARM exception tables** (`ArmExidx`, `ArmLaws`, `ArmPrologues`). The bytes of a table
entry and the instructions of section 10.3 of the exception handling ABI for the ARM
architecture, decoded prefix by prefix as the code does. `ArmLaws` says of the encoding of
each instruction what it does to the stack pointer and the registers. `ArmPrologues`
encodes the unwinding of any prologue of pushes, stack adjustments and a frame pointer,
packs it into inline, compact and generic entries, and proves that reading and evaluating
the entry restores the registers and the stack pointer from before the prologue. The
comment on 01xxxxxx says that 4 is added; the code subtracts it, as the ABI asks.

**Maps, symbols and pages** (`MapList`, `Symbols`, `PageCache`, with `Sorting` and
`OrderedKeys`). The list of maps is merged with a newly parsed one in place. Symbol
lookups are bisections narrowed by a cache; a cached symbol answers for its addresses
exactly if its size fits 32 bits. Reads through the page cache cannot be told from reads
of the memory.

**The thread handshake** (`Handshake`). Requesters and signal handlers as a state
machine with any number of requesters. A handler never gives its reference back, so an
entry that a handler has once acquired is never deleted: this is what keeps the last
notification of a handler safe, and it also means that the entry is never freed. The
handshake cannot get stuck: without new requests every run ends, and it can end only
when all requests are served and all handlers have returned.

**HashSet** (`HashSets`). Open addressing with linear probing and shifting erasure, on
the array in place. Load factors are reals. Expanding makes room at every size exactly
if the minimum load factor is at most 999/1001, and shrinking to the maximum load leaves
an empty slot exactly if that load is at most 1000/1001; the class promises no more than
that. Expanding also puts the number of elements below the new limit, as the code
asserts, exactly for load factors that are far enough apart: `ExpandBelowLimit` gives
the finitely many table sizes to check, and `TooClose` load factors that fail.

**Zip files** (`ZipFormat`, `EntryNames`, `ZipWriter`, `CdEntryMap`, `ZipArchive`,
`ZipLayout`, `ZipReading`, `ZipRoundTrip`, `ZipReplay`). `ZipLayout` lays out archives as
sections 4.3.7, 4.3.12 and 4.3.16 of the ZIP application note do, with extra fields,
comments and gaps; `ZipReading` proves that the reader, with its packed hash table, opens
exactly these files, if the names are valid and distinct, and that it finds an entry
exactly if one stands where the directory says and agrees with it, and then its data. The
writer of stored entries, with discarding and alignment, on seekable and other files,
writes such archives (`ZipRoundTrip`); over every sequence of calls, what every call
returns, whether the archive can be finished and opened, and what is found in it follow
from what the caller asked for (`ZipReplay`). The writer accepts an empty entry name, and
the reader accepts the archive but never finds such an entry. A data descriptor without
signature whose checksum happens to be the signature is taken for one with it
(`DescriptorMistaken`). The comment on the number of entries says 16535; the code allows
65535.

`WordSizes` names the bounds of machine words.

## Model

| member | source | states |
|---|---|---|
| JitList.WriteKeeps | libunwindstack/GlobalDebugImpl.h:80-89 | Every single write of the process, publishing, unlinking or reusing an entry, keeps the list linked in birth order and never brings back an (address, seqlock) incarnation |
| JitList.StartsWell | libunwindstack/GlobalDebugImpl.h:80-89 | A process that has listed nothing meets what every write keeps |
| JitList.NextIsYoungestBelow | libunwindstack/GlobalDebugImpl.h:241-288 | The next field of a valid published entry leads to the youngest linked entry that is older |
| JitList.ValidBetween | libunwindstack/GlobalDebugImpl.h:337-356 | An incarnation that is valid at two moments is valid at every moment between them |
| JitReader.Process.Read | libunwindstack/GlobalDebugImpl.h:303-334 | One word is read at one moment, after any number of writes by the process, unless the read fails or the word is not mapped |
| JitReader.Process.constructor | libunwindstack/GlobalDebugImpl.h:80-89 | A process begins with nothing listed |
| JitReader.Sandwiched | libunwindstack/GlobalDebugImpl.h:303-334 | Two reads of the same even seqlock pin down every moment between them |
| JitReader.SymfileRead | libunwindstack/GlobalDebugImpl.h:248-277 | Address and size that were read while an incarnation stayed valid are that incarnation's |
| JitReader.CoverageAdvances | libunwindstack/GlobalDebugImpl.h:279-287 | Following a next field that was read while its entry was valid leaves no linked entry out |
| JitReader.WalkAdvances | libunwindstack/GlobalDebugImpl.h:241-288 | Visiting an entry and its successor moves the walk on and keeps all it has established |
| JitReader.HeadWasCached | libunwindstack/GlobalDebugImpl.h:213-246 | If the head was already cached, all that was listed at that moment had been seen |
| JitReader.LinksAreValid | libunwindstack/GlobalDebugImpl.h:303-334 | At every moment the head and the next field of whatever is listed lead to something valid |
| JitReader.QuietPass | libunwindstack/GlobalDebugImpl.h:213-230 | In a process that does not move, a pass caches every listed symfile, and a second pass adds nothing |
| JitReader.Reader.ReadNextField | libunwindstack/GlobalDebugImpl.h:303-334 | On success there is one moment of the call at which the field had the returned address and the returned incarnation was valid; in a process that does not move, it fails only if a read fails or the field leads to nothing valid, and a race is reported only if it leads to an odd seqlock |
| JitReader.Reader.CheckSeqlock | libunwindstack/GlobalDebugImpl.h:337-356 | Success means that the seqlock is the expected one at this moment, a race that it is not, and it fails otherwise only if the read fails |
| JitReader.Reader.ReadRound | libunwindstack/GlobalDebugImpl.h:303-334 | The address and then the seqlock of its target, each at a moment of the call; in a process that does not move it fails only if a read fails or the field leads to nothing valid |
| JitReader.Reader.ReadSymfile | libunwindstack/GlobalDebugImpl.h:248-277 | What is cached for an entry is the symfile of that very incarnation, and it is cached unless there is none or it does not load; if the process does not move and no read fails, the call succeeds |
| JitReader.Reader.ReadEntry | libunwindstack/GlobalDebugImpl.h:248-253 | The address and the size of the symfile, each at a moment of the call, in this order |
| JitReader.Reader.Visit | libunwindstack/GlobalDebugImpl.h:248-287 | One entry is handled, and its successor is that of one moment of the call; if the process does not move and no read fails, the call succeeds |
| JitReader.Reader.Walk | libunwindstack/GlobalDebugImpl.h:241-290 | The walk ends at the end of the list or at a cached entry with everything in between seen, and terminates although the list changes; in a process that does not move, what it adds is what `WalkIn` says |
| JitReader.Reader.ReadNewEntries | libunwindstack/GlobalDebugImpl.h:234-291 | After a pass everything still listed that was born when the head was read has been seen, and is cached if it has a symfile that loads; a pass that adds nothing leaves every symfile cached that was listed when the head was read, if that head has a symfile or is null; in a process that does not move the pass succeeds unless a read fails |
| JitReader.Reader.TryReadAllEntries | libunwindstack/GlobalDebugImpl.h:213-230 | On success every cached entry was listed during the call and has its own symfile. If nothing failed to load, every symfile that was listed at the last read of the head is cached, if that head has a symfile or is null, and otherwise every one that is still listed; if all entries have symfiles, all are cached. On failure the cache is unchanged. In a process that does not move the call succeeds unless a read or load fails |
| JitReader.Reader.ReadAllEntries | libunwindstack/GlobalDebugImpl.h:197-209 | The same with up to 16 attempts after races |
| JitReader.Reader.ForEachSymfile | libunwindstack/GlobalDebugImpl.h:132-168 | What is found is a cached symfile that is wanted and belongs to its incarnation, which was listed or had its seqlock checked during the call unless a reread failed; nothing is found only if no cached symfile is wanted, where after a reread in which nothing failed the cache is as complete as `TryReadAllEntries` says, whatever failed before the reread |
| JitReader.Reader.FindLive | libunwindstack/GlobalDebugImpl.h:132-168 | A cached symfile that is wanted and whose seqlock is unchanged; in a process that does not move, and if no read fails, nothing is found only if every wanted one has changed |
| JitReader.Reader.FindCached | libunwindstack/GlobalDebugImpl.h:132-168 | A cached symfile that is wanted, exactly if there is one |
| JitReader.PassIsComplete | libunwindstack/GlobalDebugImpl.h:213-246 | A pass that adds nothing, and in which everything loaded, leaves a cache with every symfile listed when the head was read, if that head has one or is null |
| JitSnapshot.HeadDecides | libunwindstack/GlobalDebugImpl.h:213-246 | Whatever a reader has cached in passes in which nothing failed, the process can go on after the read of a head so that a walk adds nothing while a listed symfile is missing, if and only if the head has no symfile and something listed has one that is not cached |
| JitSnapshot.HeadWithoutSymfileMisses | libunwindstack/GlobalDebugImpl.h:213-246 | Such a history, for every cache and every state of the list with such a head |
| JitSnapshot.List | libunwindstack/GlobalDebugImpl.h:80-89 | A process that is not in the middle of a change can list an entry in three writes, which leaves all others listed |
| JitSnapshot.MissingExample | libunwindstack/GlobalDebugImpl.h:213-246 | A history from a process that has listed nothing, by listing an entry with a symfile and then one without, in which a reader with an empty cache misses the first |
| JitSnapshot.Predecessor | libunwindstack/GlobalDebugImpl.h:241-288 | The head or a next field leads to every listed entry |
| FdeIndex.LeadingFde | libunwindstack/DwarfSection.cpp:787-812 | An FDE that comes first after pc in the table contains pc if any FDE does |
| FdeIndex.LeadingFill | libunwindstack/DwarfSection.cpp:787-803 | A gap filling that comes first after pc stands for an FDE that contains pc if any FDE does |
| FdeIndex.LeadingRow | libunwindstack/DwarfSection.cpp:741-757 | One probe is enough: the first row after pc leads to an FDE that contains pc if any does |
| FdeIndex.DwarfSection.ScanFdes | libunwindstack/DwarfSection.cpp:769-782 | Collects exactly the non-empty FDEs up to the end, an unreadable entry or a jump back |
| FdeIndex.PathScanned | libunwindstack/DwarfSection.cpp:769-782 | Every FDE that can be reached from the start of the section and holds some pc is collected |
| FdeIndex.ScannedPath | libunwindstack/DwarfSection.cpp:769-782 | Whatever is collected can be reached |
| FdeIndex.DwarfSection.FillGaps | libunwindstack/DwarfSection.cpp:787-803 | One filling for each gap that an earlier starting FDE reaches over, for any overlapping or nested ranges |
| FdeIndex.DwarfSection.BuildFdeIndex | libunwindstack/DwarfSection.cpp:765-813 | The table is sorted and has a row for each FDE and each filling |
| FdeIndex.DwarfSection.UpperBound | libunwindstack/DwarfSection.cpp:747-752 | The first row that ends after pc |
| FdeIndex.DwarfSection.GetFdeFromPc | libunwindstack/DwarfSection.cpp:741-757 | Returns an FDE if and only if one that holds pc can be reached from the start of the section, entry by entry; what is returned is such an entry, with its range |
| CallFrameLaws.RestoreUndoes | libunwindstack/DwarfCfa.cpp:402-417 | A run that gets from a remembered to the restored state goes on as if only the location had moved, with the start of the row where the state was remembered; otherwise it fails or stops on the way |
| CallFrameLaws.BalancedKeepsStack | libunwindstack/DwarfCfa.cpp:402-417 | A run that gets through balanced instructions finds the remembered states below them as they were |
| CallFrameLaws.OthersKept | libunwindstack/DwarfCfa.cpp:323-547 | An instruction leaves the rules of all registers but the one it names, unless it restores the state |
| CallFrameLaws.OffsetLeadsTo | libunwindstack/DwarfCfa.cpp:469-513 | The scaled operand leads from the frame address to the operand times the data alignment factor, in the arithmetic of the address type |
| CallFrameLaws.OffsetsExactly | libunwindstack/DwarfCfa.cpp:81-529 | For each of DW_CFA_offset, offset_extended, offset_extended_sf, val_offset, val_offset_sf and GNU_negative_offset_extended the register gets a rule of the right kind with the factored offset, modulo the address size, if and only if the code scales the operand or the operand times the factor less one is a multiple of the address size |
| CallFrameLaws.OffsetExtendedIsOff | libunwindstack/DwarfCfa.cpp:357-361 | With a factor of -8, DW_CFA_offset_extended of register 16 and operand 1 does not give that rule |
| FrameLaws.ScaledExactly | libunwindstack/DwarfCfa.cpp:469-529 | What is recorded of a factored operand is its multiple, as 64 bits, if and only if that multiple is one of the address type |
| FrameLaws.DefCfaLaw | libunwindstack/DwarfCfa.cpp:419-483 | After def_cfa and def_cfa_sf the frame address is that register plus the offset, factored in the second case |
| FrameLaws.DefCfaRegisterLaw | libunwindstack/DwarfCfa.cpp:425-436 | The frame address is the new register plus the offset from before |
| FrameLaws.DefCfaOffsetLaw | libunwindstack/DwarfCfa.cpp:438-497 | The frame address is the register from before plus the new offset, factored for def_cfa_offset_sf |
| FrameLaws.NoBaseLaw | libunwindstack/DwarfCfa.cpp:425-497 | Changing the register or the offset alone fails exactly if the frame address is not based on a register |
| FrameLaws.DefCfaExpressionLaw | libunwindstack/DwarfCfa.cpp:451-459 | The frame address is what the expression computes |
| FrameLaws.OffsetLaw | libunwindstack/DwarfCfa.cpp:356-529 | A register whose bytes stand in memory at the frame address plus the offset of offset, offset_extended, offset_extended_sf or GNU_negative_offset_extended is restored to their value |
| FrameLaws.ValOffsetLaw | libunwindstack/DwarfCfa.cpp:499-513 | The register is restored to the frame address plus the factored offset |
| FrameLaws.RegisterLaw | libunwindstack/DwarfCfa.cpp:394-400 | The register is restored to the value of the other one, whose number is cut to 32 bits, and to nothing if there is no such register |
| FrameLaws.KeptLaw | libunwindstack/DwarfCfa.cpp:380-392 | A register that has the same value, or is undefined, is left as it is; the second is marked as undefined and the first is not |
| FrameLaws.RestoreLaw | libunwindstack/DwarfCfa.cpp:363-378 | The register is restored to what it would be by the rules of the CIE, and the instruction fails exactly while those are not known |
| FrameLaws.ExpressionLaw | libunwindstack/DwarfCfa.cpp:461-521 | The register is restored to the bytes at the address that the expression computes, or to its value |
| FrameLaws.LocationLaw | libunwindstack/DwarfCfa.cpp:323-354 | The location is set, or advanced by the factored operand, modulo the address space; nothing else changes, and an unknown instruction fails |
| FrameLaws.SigningLaw | libunwindstack/DwarfCfa.cpp:531-547 | The signing state flips, on the machine that has one |
| FrameLaws.SavedIsRead | libunwindstack/DwarfSection.cpp:437-495 | A word of which all bytes can be read is read as the number they encode |
| FrameLaws.UnreadableFails | libunwindstack/DwarfSection.cpp:437-495 | A word of which a byte cannot be read is not read |
| FrameTable.TableMeans | libunwindstack/DwarfCfa.cpp:43-145 | In an FDE whose lines advance, the rules at a pc are those of the CIE after the changes of exactly the lines that start up to the pc, and there are none exactly if one of these fails |
| Unwinding.SimpleApplied | libunwindstack/DwarfCfa.cpp:323-547 | After any list of instructions that set rules, the frame address is the last register plus the last offset said of it, and each register is restored to what the last instruction on it provides |
| Unwinding.StepUp | libunwindstack/DwarfSection.cpp:498-588 | From a pc up to which the instructions say where the registers of the caller are, and they are there, interpretation and evaluation give them all back: sp is the frame address, and pc the return address, or zero if that is undefined |
| Unwinding.Step | libunwindstack/DwarfSection.cpp:46-73 | The same through the cache of rows, after any lookups |
| Prologues.AlwaysInv | libunwindstack/DwarfSection.cpp:498-588 | After each instruction of a prologue its directives say where every register of the caller is, and it is there |
| Prologues.StepOut | libunwindstack/DwarfSection.cpp:498-588 | For any prologue that pushes registers, allocates and sets a frame pointer, with the directives of a compiler, a step up from any of its pcs restores all registers of the caller |
| CieRuns.EndsSo | libunwindstack/DwarfCfa.cpp:43-145 | For whatever FDE and pc the instructions of a CIE run, they end in one of the ways that can be listed from the CIE alone |
| CieRuns.QuietMeans | libunwindstack/DwarfSection.cpp:591-611 | If all these endings are failures, or give the same rules and remember nothing, the CIE gives the same rules for every FDE and pc |
| CieRuns.PlainIsQuiet | libunwindstack/DwarfSection.cpp:591-611 | This is so for a CIE without location moves and remembered states |
| CieRuns.CachedCie | libunwindstack/DwarfSection.cpp:591-611 | Then starting from the cached rules of the CIE, from whatever FDE and pc, is the same as running its instructions again |
| CieRuns.CacheableExactly | libunwindstack/DwarfSection.cpp:591-611 | Of a CIE that only advances the location: for all FDEs that name it and all pcs, starting from its cached rules is the same as running its instructions again, if and only if its endings are like that |
| CieRuns.MovingExample | libunwindstack/DwarfSection.cpp:591-611 | There is a CIE that cannot be cached: it advances the location and then defines the CFA |
| CfaRows.RowIsUniform | libunwindstack/DwarfCfa.cpp:57-66 | Unless a remembered state is restored at the very end, every pc from the start to the end of a row gets the same rules and the same start |
| CfaRows.RowStarts | libunwindstack/DwarfCfa.cpp:57-66 | Unless a remembered state is restored at the very end, a row starts no earlier than where the search began, no later than its pc, and ends after it inside the FDE |
| CfaRows.UsualRow | libunwindstack/DwarfCfa.cpp:43-145 | In an FDE whose location only grows, every row is right for all its pcs, except the last one after a state restored at the end |
| CfaRows.RowForward | libunwindstack/DwarfCfa.cpp:57-66 | The row of a pc is also the row of every later pc up to its end, for all instructions |
| CfaRows.RowInFde | libunwindstack/DwarfCfa.cpp:57-66 | A row lies in its FDE and holds its pc, if the location stays in the FDE |
| CfaRows.RowsHoldExactly | libunwindstack/DwarfCfa.cpp:402-417 | In an FDE whose location only grows, with a CIE whose endings are alike, all recorded ranges are right if and only if, should the instructions end with a restored state, the rules are the remembered ones whenever the location moves on from the remembered start |
| CfaRows.BareMeans | libunwindstack/DwarfCfa.cpp:43-145 | That check of the instructions holds if and only if all pcs from the remembered start to the last location get the remembered rules |
| CfaRows.RestoredInPlace | libunwindstack/DwarfCfa.cpp:402-417 | The condition holds if the state is restored where it was remembered |
| CfaRows.TrailingExample | libunwindstack/DwarfCfa.cpp:402-417 | There is an FDE for which it does not hold |
| CfaRows.TrailingRestoreIsStale | libunwindstack/DwarfCfa.cpp:402-417 | In every FDE for which the condition of `RowsHoldExactly` fails, the row found at the last location is recorded for an earlier pc that has other rules |
| RowCache.FoundAgrees | libunwindstack/DwarfSection.cpp:49-67 | A row that was found for any pc has the rules of each of its pcs if the rows of the FDE hold, and their start unless a state is restored at the end |
| RowCache.EndsApart | libunwindstack/DwarfSection.cpp:49-67 | A row that ends after the pc of another, and not after its end, is that other row |
| RowCache.DwarfSection.GetLocationInfo | libunwindstack/DwarfCfa.cpp:43-145 | The loop over the instructions gives the state of the interpreter that `FrameLaws` and `FrameTable.TableMeans` say the meaning of, or fails where it fails |
| RowCache.DwarfSection.GetCfaLocationInfo | libunwindstack/DwarfSection.cpp:591-611 | For every CIE: without a cached CIE the rules are those of interpretation from scratch, with one those that follow from what is cached; if the endings of the CIE are alike, they are those of interpretation from scratch in both cases; the rules of the CIE are cached |
| RowCache.DwarfSection.MissIsNew | libunwindstack/DwarfSection.cpp:49-67 | A lookup that misses computes a row whose end is not in the cache |
| RowCache.DwarfSection.HitAgrees | libunwindstack/DwarfSection.cpp:49-67 | A row that is found in the cache belongs to the FDE that covers the pc, and has the rules of interpretation from scratch if the rows of that FDE hold |
| RowCache.DwarfSection.GetFdeFromPc | libunwindstack/DwarfSection.cpp:741-757 | The FDE that the search table finds: one that covers the pc, if there is one |
| RowCache.DwarfSection.Emplace | libunwindstack/DwarfSection.cpp:65-66 | The row is cached under its end unless something is there, and the cache keeps agreeing with interpretation |
| RowCache.DwarfSection.Step | libunwindstack/DwarfSection.cpp:46-73 | A lookup that the cache answers gives the cached row, and any other gives what interpretation from scratch finds and caches that and nothing else. After any sequence of lookups, for every FDE whose rows hold, the rules used at a pc are those that interpretation from scratch finds, and there are none exactly if it finds none; the start of the row is also the same unless a state is restored at the end; no FDE, no rules; what was cached stays. `Unwinding.Step` says what these rules restore |
| RowCache.DwarfSection.Fill | libunwindstack/DwarfSection.cpp:51-66 | On a miss the row is that of interpretation from scratch, and it is cached under an end that was free |
| RowCache.DwarfSection.NoHit | libunwindstack/DwarfSection.cpp:49-50 | As long as no row of an FDE is cached, no lookup of its pcs is answered from the cache |
| RowCache.DwarfSection.LookUpLast | libunwindstack/DwarfSection.cpp:46-73 | For every FDE whose rows do not all hold and of which nothing is cached, a lookup of its last location leaves a cache that answers another pc with rules that interpretation from scratch does not give |
| RegisterEval.RegsInfo.Save | libunwindstack/RegsInfo.h:42-51 | Saves the present value of the register and no other |
| RegisterEval.RegsInfo.View | libunwindstack/RegsInfo.h:35-40 | Each register as expressions see it: the saved value if there is one |
| RegisterEval.RuleFollowed | libunwindstack/DwarfSection.cpp:550-571 | Overwriting one register with the value of its rule keeps all others as their rules say |
| RegisterEval.EvalExpression | libunwindstack/DwarfSection.cpp:396-424 | The value on top of the stack after the expression, or why there is none, and whether it is marked as a dex pc |
| RegisterEval.EvalRegister | libunwindstack/DwarfSection.cpp:437-495 | The register gets the value of its rule in the registers of the callee, although others were overwritten before; the address of an offset rule is a sum of 64 bits. `FrameLaws` says what the value is for each kind of rule, in bytes of memory and integers |
| RegisterEval.EvalCfa | libunwindstack/DwarfSection.cpp:525-548 | The frame address comes from the registers of the callee |
| RegisterEval.Visit | libunwindstack/DwarfSection.cpp:550-571 | Following one more rule keeps what is known of all registers, the dex pc and the pseudo registers |
| RegisterEval.VisitAll | libunwindstack/DwarfSection.cpp:550-571 | In any order of the rules, all succeed or the step fails |
| RegisterEval.Eval | libunwindstack/DwarfSection.cpp:498-588 | Succeeds exactly if every rule can be followed; then each register has the value of its rule in the registers of the callee, pc is the restored return address or zero, sp is the frame address, the dex pc is one that a rule sets, and finished means pc is zero outside a signal frame. `Unwinding.StepUp` says what the registers are then |
| DwarfMemory.UlebRoundTrip | libunwindstack/DwarfMemory.cpp:47-60 | The encoding of every 64-bit number is read back, and exactly its bytes are consumed, whatever follows them |
| DwarfMemory.SlebRoundTrip | libunwindstack/DwarfMemory.cpp:62-79 | The same for signed numbers from -2^62 up to 2^63 |
| DwarfMemory.WrongBelow | libunwindstack/DwarfMemory.cpp:73-78 | Where a shift looks only at the low bits of its amount, no number below -2^62 is read back |
| DwarfMemory.SlebExactly | libunwindstack/DwarfMemory.cpp:62-79 | A 64-bit number is read back whatever a too long shift gives if and only if it is at least -2^62 |
| DwarfMemory.DwarfMemory.ReadULEB128 | libunwindstack/DwarfMemory.cpp:47-60 | The loop computes the groups' value and ends after them, or fails at an unreadable byte |
| DwarfMemory.DwarfMemory.ReadByte | libunwindstack/DwarfMemory.cpp:29-35 | The byte at the offset, which moves on exactly if it can be read |
| DwarfMemory.DwarfMemory.ReadSLEB128 | libunwindstack/DwarfMemory.cpp:62-79 | The same with the sign filled in |
| DwarfOp.TableIsSafe | libunwindstack/DwarfOp.cpp:100-1435 | For every operation byte the table asks for every stack slot and operand that its handler looks at, and a push has one operand |
| DwarfOp.HandleKeepsWords | libunwindstack/DwarfOp.cpp:1612-1934 | No handler adds more than one value, and all values are words |
| DwarfOp.PerformedKeepsWords | libunwindstack/DwarfOp.cpp:1534-1567 | The same of one decoded operation, for every byte string, memory and register file |
| DwarfOp.MarkSeen | libunwindstack/DwarfOp.cpp:1488-1516 | The first two operations look like the mark of a dex pc exactly if the bytes are its pattern |
| DwarfOp.DwarfOp.Decode | libunwindstack/DwarfOp.cpp:1534-1567 | Performs the operation that the bytes encode, or reports the error and leaves the stack with what the operation has popped taken off. `Evaluates`, `Copies`, `Drops`, `Exchanges` and `Names` say what each operation gives, and `FailureLeaves` what is left |
| DwarfOp.DwarfOp.ReadAll | libunwindstack/DwarfOp.cpp:1556-1565 | All operands in their formats, one after the other, or failure |
| DwarfOp.LittleEndianIs | libunwindstack/DwarfMemory.cpp:37-45 | A fixed operand is read as the number that its bytes encode |
| DwarfOp.DwarfOp.Eval | libunwindstack/DwarfOp.cpp:1482-1531 | Ends after at most 1001 operations with the result of performing them one by one; at every moment the stack has at most as many values as operations were performed, and all are words; the dex pc is set exactly if the expression starts with the pattern. `ExpressionMeansTree` says what the result is |
| DwarfOp.DwarfOp.EvalRest | libunwindstack/DwarfOp.cpp:1518-1530 | The loop after the first two operations, with its bound |
| DwarfOpLaws.StackOpsUndo | libunwindstack/DwarfOp.cpp:1654-1697 | Dropping undoes duplicating and over, a swap undoes itself, and three rotations give the stack back |
| DwarfOpLaws.SecondComesFirst | libunwindstack/DwarfOp.cpp:1666-1697 | Over, swap and rotation bring the second value to the front, and the first is next, or third after a rotation |
| DwarfOpLaws.DivisionTruncates | libunwindstack/DwarfOp.cpp:1717-1727 | Division is signed and rounds toward zero, except for the one overflow that C++ leaves open |
| DwarfOpLaws.DerefReads | libunwindstack/DwarfOp.cpp:1612-1623 | Dereferencing gives the little-endian word that stands at the address |
| TreeValues.ApplyIs | libunwindstack/DwarfOp.cpp:1710-1870 | Each operation on two words is the one on integers, cut to the width: sum, difference, product, bitwise operations, signed quotient toward zero, remainder, shifts by less than the width, and comparisons; division and remainder by zero fail |
| TreeValues.ComparesAsSigned | libunwindstack/DwarfOp.cpp:1831-1870 | A comparison is the one of signed numbers if and only if it tests for equality or both numbers have the same sign |
| TreeValues.ComparesOtherwise | libunwindstack/DwarfOp.cpp:1831-1870 | Of zero and minus one the code takes the second for the larger |
| TreeValues.NegatedIs | libunwindstack/DwarfOp.cpp:1755-1759 | Negation is that of integers, cut to the width, except of the most negative word where C++ leaves it open |
| TreeValues.AbsoluteIs | libunwindstack/DwarfOp.cpp:1700-1707 | The absolute value likewise |
| ExpressionTrees.LoadedIs | libunwindstack/DwarfOp.cpp:1612-1643 | Memory is read as the number that its bytes encode, and exactly if all of them can be read |
| ExpressionTrees.BranchIs | libunwindstack/DwarfOp.cpp:1817-1878 | A branch goes by its signed operand, forward or back, from the end of the operation |
| ExpressionTrees.SkipLands | libunwindstack/DwarfOp.cpp:1873-1878 | A skip by any signed 16-bit displacement goes there, and leaves the stack |
| ExpressionTrees.BraLands | libunwindstack/DwarfOp.cpp:1817-1828 | A bra takes the value off, and goes there exactly if it is not zero |
| ExpressionTrees.Evaluates | libunwindstack/DwarfOp.cpp:1482-1567 | The operations of a tree push its value on whatever is on the stack, in as many steps as it has operations on the way taken, or fail with its error |
| ExpressionTrees.ExpressionMeansTree | libunwindstack/DwarfOp.cpp:1482-1567 | The encoding of any tree over literals, all constants, addresses, registers with signed offsets, all operations on one and two values, reads of memory of any size, and choices evaluates to exactly the value of the tree modulo 2^w, or fails with its error, or for more than 1000 operations |
| ExpressionTrees.Copies | libunwindstack/DwarfOp.cpp:1654-1680 | Dup, over and pick push a copy of the first, second or any value, and fail exactly if there is none |
| ExpressionTrees.Drops | libunwindstack/DwarfOp.cpp:1660-1663 | Drop takes the first value off |
| ExpressionTrees.Exchanges | libunwindstack/DwarfOp.cpp:1683-1697 | Swap and rot put the first two or three values in their places, and fail exactly if there are fewer |
| ExpressionTrees.Names | libunwindstack/DwarfOp.cpp:1887-1901 | The operations that name a register push its number and mark it as one |
| ExpressionTrees.SupportedExactly | libunwindstack/DwarfOp.cpp:100-1435 | Exactly the listed operation bytes have a handler; all others fail |
| ExpressionTrees.FailureLeaves | libunwindstack/DwarfOp.cpp:1612-1746 | An operation that fails leaves the stack as it was, but for reads of memory and divisions, which have taken one value off |
| Bits.BitwiseMod | libunwindstack/DwarfOp.cpp:1710-1814 | Bitwise operations on words are those on integers in two's complement, cut to the width |
| ArmExidx.EntryDataSize | libunwindstack/ArmExidx.cpp:45-175 | An entry that is extracted has 2 to 24 bytes, of which the last is finish |
| ArmExidx.ParseShortens | libunwindstack/ArmExidx.cpp:775-823 | Every instruction takes at least one byte |
| ArmExidx.PopUndoesPush | libunwindstack/ArmExidx.cpp:237-246 | Popping registers that were stored in ascending order gives them their values back, leaves the others, and moves the address by 4 for each, modulo 2^32 |
| ArmExidx.PopInstruction | libunwindstack/ArmExidx.cpp:237-257 | A pop undoes the push of the same registers; the stack pointer is where it was before the push unless r13 is among them |
| ArmExidx.AscendingIs | libunwindstack/ArmExidx.cpp:237-246 | The registers of a mask are exactly those whose bits are set, in ascending order |
| ArmLaws.AddLaw | libunwindstack/ArmExidx.cpp:775-799 | 00xxxxxx adds 4 to 256 to the stack pointer, modulo 2^32 |
| ArmLaws.SubLaw | libunwindstack/ArmExidx.cpp:800-815 | 01xxxxxx subtracts as much |
| ArmLaws.SetLaw | libunwindstack/ArmExidx.cpp:260-289 | 1001nnnn sets the stack pointer to that register, and is reserved for r13 and r15 |
| ArmLaws.FinishLaw | libunwindstack/ArmExidx.cpp:350-364 | 10110000 finishes |
| ArmLaws.RefuseLaw | libunwindstack/ArmExidx.cpp:187-213 | 10000000 00000000 refuses to unwind |
| ArmLaws.SpareLaw | libunwindstack/ArmExidx.cpp:503-773 | Exactly the spare codes are refused as spare, apart from second bytes |
| ArmLaws.TruncatedLaw | libunwindstack/ArmExidx.cpp:177-185 | Instructions are truncated exactly if there is no byte, or not the second that the first asks for |
| ArmLaws.SkipLaw | libunwindstack/ArmExidx.cpp:474-753 | Floating point and coprocessor pops move the stack pointer by 8 for each register, and by 4 more in the older format |
| ArmLaws.UlebIs | libunwindstack/ArmExidx.cpp:443-456 | The encoding of every number of 32 bits is read back |
| ArmLaws.LargeAddLaw | libunwindstack/ArmExidx.cpp:443-472 | 10110010 and the encoding of a number add 0x204 and four times the number, modulo 2^32 |
| ArmLaws.MaskGivesBack | libunwindstack/ArmExidx.cpp:237-246 | The registers of a mask are exactly those it was made of |
| ArmLaws.PopLaw | libunwindstack/ArmExidx.cpp:187-258 | The encoding of a pop of registers from r4 to r15 gives back what stands on the stack, from the lowest up, and moves the stack pointer past it unless r13 is popped |
| ArmLaws.PopFailsLaw | libunwindstack/ArmExidx.cpp:187-258 | It fails exactly if one of the words cannot be read |
| ArmLaws.PopLowLaw | libunwindstack/ArmExidx.cpp:366-441 | The same of r0 to r3 |
| ArmLaws.PopUpToLaw | libunwindstack/ArmExidx.cpp:291-348 | The same of r4 up to a register, with or without r14 |
| ArmLaws.SkipWordsLaw | libunwindstack/ArmExidx.cpp:567-640 | 11000111 0000iiii moves the stack pointer by 4 for each bit |
| ArmPrologues.UnwindsPrologue | libunwindstack/ArmExidx.cpp:775-829 | For any prologue of pushes, stack adjustments and setting a frame pointer, the encoded instructions lead from its end to the registers and the stack pointer at its entry |
| ArmPrologues.EntryReadsBack | libunwindstack/ArmExidx.cpp:45-175 | Bytes that were packed into an inline entry, a compact one of personality 0, 1 or 2, or a generic one are read back, with a finish added if there is none |
| ArmPrologues.EntryRefused | libunwindstack/ArmExidx.cpp:45-103 | The entries that say that there is nothing to unwind, or cannot be read |
| ArmPrologues.TableRefused | libunwindstack/ArmExidx.cpp:104-175 | The table entries that are refused, with the reason |
| ArmPrologues.Unwind | libunwindstack/ArmExidx.cpp:45-829 | Reading the entry of a function and evaluating it from the end of its prologue restores registers and stack pointer |
| ArmExidx.ArmExidx.ExtractEntryData | libunwindstack/ArmExidx.cpp:45-175 | The bytes are those of the inline, compact or generic form, with a finish added if there is none; otherwise the status says why not |
| ArmExidx.ArmExidx.ExtractFromTable | libunwindstack/ArmExidx.cpp:104-175 | The bytes of a table entry of personality 0, 1 or 2 or of the generic form, or why there are none |
| ArmExidx.ArmExidx.ExtractTable | libunwindstack/ArmExidx.cpp:148-175 | Up to five words are added in order, and a finish if there is none |
| ArmExidx.ArmExidx.PopMasked | libunwindstack/ArmExidx.cpp:237-246 | Reads the registers of the mask from the lowest to the highest, up to a word that cannot be read |
| ArmExidx.ArmExidx.PopRange | libunwindstack/ArmExidx.cpp:331-348 | Reads r4 up to a register in ascending order, up to a word that cannot be read |
| ArmExidx.ArmExidx.PopOne | libunwindstack/ArmExidx.cpp:239-244 | Reads one register and moves the address by 4 |
| ArmExidx.ArmExidx.GetByte | libunwindstack/ArmExidx.cpp:177-185 | Takes the first byte, or reports that there is none |
| ArmExidx.ArmExidx.DecodePrefix_10_00 | libunwindstack/ArmExidx.cpp:187-258 | Performs the instruction of the ABI: refuse to unwind, or pop r4 to r15 under a mask |
| ArmExidx.ArmExidx.DecodePrefix_10_10 | libunwindstack/ArmExidx.cpp:291-348 | Performs the instruction of the ABI: pop r4 up to a register, and r14 |
| ArmExidx.ArmExidx.ReadUleb | libunwindstack/ArmExidx.cpp:443-456 | The value of the seven-bit groups, or truncated |
| ArmExidx.ArmExidx.DecodePrefix_10_11 | libunwindstack/ArmExidx.cpp:350-565 | Performs the instruction of the ABI: finish, pop r0 to r3, large and floating point stack adjustments, spare |
| ArmExidx.ArmExidx.DecodePrefix_10_11_0001 | libunwindstack/ArmExidx.cpp:366-432 | Performs the instruction of the ABI: pop r0 to r3 under a mask, or spare |
| ArmExidx.ArmExidx.DecodePrefix_11 | libunwindstack/ArmExidx.cpp:567-773 | Performs the instruction of the ABI: coprocessor and floating point pops, which only move the stack pointer, and spare |
| ArmExidx.ArmExidx.DecodePrefix_11_000_0111 | libunwindstack/ArmExidx.cpp:596-640 | Performs the instruction of the ABI: a pop under a mask that only moves the stack pointer, or spare |
| ArmExidx.ArmExidx.Decode | libunwindstack/ArmExidx.cpp:775-823 | Takes exactly the first instruction of the table of the ABI from the bytes and performs it. The laws of `ArmLaws` say for each what that does |
| ArmExidx.ArmExidx.Eval | libunwindstack/ArmExidx.cpp:825-829 | Ends after no more instructions than there are bytes, in the state that performing them one by one defines, also when a read fails; success means finish. `UnwindsPrologue` says what it is for |
| MapList.Relink | libunwindstack/Maps.cpp:192-205 | Putting an old object in the place of a new one keeps the previous and next links along the list |
| MapList.Parse | libunwindstack/include/unwindstack/MapInfo.h:57-65 | Maps created one after the other are linked in order |
| MapList.DeleteStep | libunwindstack/Maps.cpp:216-224 | An old map is cleared only if it is not the same as any new one |
| MapList.MatchStep | libunwindstack/Maps.cpp:189-209 | An old map takes the place of exactly the new map that is the same |
| MapList.SkipStep | libunwindstack/Maps.cpp:210-214 | A new map is passed over only if no old map is the same |
| MapList.SortedResult | libunwindstack/Maps.cpp:236-246 | Sorting moves the cleared entries to the end and leaves the list in order |
| MapList.LocalMaps.Compare | libunwindstack/Maps.cpp:187-225 | Stops at the old map that is the same as the new one, or at the first that lies after it |
| MapList.LocalMaps.Merge | libunwindstack/Maps.cpp:178-229 | Settles every new map, with links and counters right at every step |
| MapList.LocalMaps.ClearRest | libunwindstack/Maps.cpp:231-234 | Clears and counts the old maps that are left |
| MapList.LocalMaps.Reparse | libunwindstack/Maps.cpp:170-253 | If parsing fails nothing changes; else the result has start, end, flags and name of the new parse in order, a map of which all four are those of an old one is the old object, all others are new objects, also with the parsed offset, the links form one chain, and the change flag is set exactly if the list of objects changed |
| MapList.LocalMaps.Find | libunwindstack/Maps.cpp:42-60 | The map that holds pc, if and only if there is one, in a list of maps that do not overlap |
| Symbols.CachedIsExact | libunwindstack/Symbols.cpp:64-71 | A cached symbol answers for exactly its addresses if and only if its size is below 2^32 |
| Symbols.NeighboursNarrow | libunwindstack/Symbols.cpp:61-74 | The cached neighbours of an address never exclude the symbol that contains it |
| Symbols.RemapIsDisjoint | libunwindstack/Symbols.cpp:105-146 | The remapped functions do not overlap if the functions of the table overlap only where they are the same |
| Symbols.RemapCovers | libunwindstack/Symbols.cpp:105-146 | A function of the table that contains an address is represented in the remapped list |
| Symbols.ListFunctions | libunwindstack/Symbols.cpp:111-138 | Exactly the non-empty functions up to the first symbol that cannot be read |
| Symbols.LinearScanFinds | libunwindstack/Symbols.cpp:59-102 | The reference: the first symbol that contains the address, or none if none does |
| Symbols.UniquedIsRemap | libunwindstack/Symbols.cpp:139-145 | Sorted and without duplicates, the list has one function for each address, the first one, by increasing address |
| Symbols.Symbols.BinarySearch | libunwindstack/Symbols.cpp:59-102 | If the sizes of the symbols fit 32 bits, what is found contains the address at the offset given; if the symbols also do not overlap, it is what a linear scan finds, with nothing found exactly if the scan finds nothing |
| Symbols.Symbols.BuildRemapTable | libunwindstack/Symbols.cpp:105-146 | Makes the list of functions that the search needs |
| Symbols.Symbols.GetName | libunwindstack/Symbols.cpp:149-192 | If the sizes fit, a name that is returned is that of a function that contains the address, at the offset given; after any sequence of lookups there is one exactly if there is such a function, provided that functions overlap only where they are the same and no other symbol contains the address |
| Symbols.Symbols.ClearCache | libunwindstack/Symbols.h:51-54 | Forgets cache and remapping |
| PageCache.PrefixIs | libunwindstack/include/unwindstack/Memory.h:52 | A read gives the bytes up to the first one that cannot be read |
| PageCache.MemoryCache.Page | libunwindstack/Memory.cpp:480-492 | The page from the cache or the memory, cached exactly if it can be read in full |
| PageCache.MemoryCache.InternalCachedRead | libunwindstack/Memory.cpp:478-518 | A small read, also across a page boundary into a page that cannot be read, gives what the memory gives |
| PageCache.MemoryCache.Read | libunwindstack/MemoryCache.h:40-46 | Reads of any size give what the memory gives |
| PageCache.MemoryCache.Clear | libunwindstack/Memory.cpp:520-523 | After a clear the cache is right whatever the memory has become |
| PageCache.Replay | libunwindstack/Memory.cpp:478-531 | In every run of reads, clears and changes, with a clear after each change, all reads give what they would without a cache |
| Handshake.StepKeepsInv | libunwindstack/ThreadUnwinder.cpp:54-192 | Every step of every requester and handler keeps the invariant |
| Handshake.RunKeepsInv | libunwindstack/ThreadUnwinder.cpp:54-192 | The invariant holds at every moment of every run |
| Handshake.NeverUsedAfterDelete | libunwindstack/ThreadEntry.cpp:42-75 | In no run does a step use an entry that has been deleted |
| Handshake.HandlerFindsEntry | libunwindstack/ThreadUnwinder.cpp:54-60 | A handler that starts finds the entry, owned by the requester that sent its signal |
| Handshake.UnwindsStoppedThread | libunwindstack/ThreadUnwinder.cpp:172-191 | While a requester unwinds, the thread waits in its handler, its context was copied in this session, and no other requester is in a session |
| Handshake.WakesInOrder | libunwindstack/ThreadEntry.cpp:88-105 | The wakes of a session find the values 0, 1 and 2, in this order |
| Handshake.WaitValueMoves | libunwindstack/ThreadEntry.cpp:99-105 | The value is reset by locking, counted up by waking, and changed by nothing else |
| Handshake.DeletedOnlyIfUnused | libunwindstack/ThreadEntry.cpp:59-75 | Only removing by the sole holder deletes the entry, and only if no handler ever acquired it |
| Handshake.AcquiredStays | libunwindstack/ThreadUnwinder.cpp:54-76 | An entry that a handler has once acquired is never deleted in any later step |
| Handshake.NeverStuck | libunwindstack/ThreadUnwinder.cpp:54-192 | As long as there is a requester, some step other than a new request, a failed signal and the return of a handler is possible |
| Handshake.StepDescends | libunwindstack/ThreadUnwinder.cpp:54-192 | Every step but a new request leaves fewer steps to be made |
| Handshake.RunsEnd | libunwindstack/ThreadUnwinder.cpp:54-192 | However steps interleave, a run without new requests has no more of them than were left at its start |
| Handshake.AllServed | libunwindstack/ThreadUnwinder.cpp:54-192 | In a run that can go on only with a new request, no requester, no handler and no signal is left |
| HashSets.HashSet.constructor | libartbase/base/hash_set.h:225-243 | An empty set with the given load factors |
| HashSets.HashSet.FindSlot | libartbase/base/hash_set.h:717-736 | Probing ends, and finds the element if and only if it is stored, or else the first empty slot on its way |
| HashSets.FoundBeforeEmpty | libartbase/base/hash_set.h:717-736 | An element that is not met before the first empty slot is not stored |
| HashSets.PutKeepsProbed | libartbase/base/hash_set.h:533-536 | Filling the first empty slot leaves no gap on the way of any element |
| HashSets.HashSet.Find | libartbase/base/hash_set.h:704-715 | The slot of the element, or the number of buckets exactly if it is not stored |
| HashSets.HashSet.FirstAvailableSlot | libartbase/base/hash_set.h:802-811 | The first empty slot from the ideal one |
| HashSets.HashSet.Resize | libartbase/base/hash_set.h:775-800 | All elements are moved to a table of at least 1000 buckets with no gap on the way of any |
| HashSets.HashSet.Store | libartbase/base/hash_set.h:785-789 | The element is stored in a free slot with no gap on the way of any |
| HashSets.HashSet.ExpandIfFull | libartbase/base/hash_set.h:523-526 | There is room for one more element |
| HashSets.HashSet.Insert | libartbase/base/hash_set.h:521-538 | Adds the element exactly if it was not stored, and nothing else changes |
| HashSets.HashSet.Put | libartbase/base/hash_set.h:549-559 | Adds the element, and nothing else changes |
| HashSets.ShiftMoves | libartbase/base/hash_set.h:461-468 | Moving an element into the hole leaves no gap on the way of any other |
| HashSets.ShiftEnds | libartbase/base/hash_set.h:441-445 | When the shift comes to an empty slot, no element is separated from its ideal slot |
| HashSets.Unwrapped | libartbase/base/hash_set.h:448-462 | The comparison of unwrapped indices decides exactly whether the ideal slot is not after the hole |
| HashSets.HashSet.ShiftBack | libartbase/base/hash_set.h:432-470 | Exactly the named element is removed, and probing still finds all others |
| HashSets.HashSet.ExamineNext | libartbase/base/hash_set.h:446-468 | The next element moves into the hole exactly if that keeps it on its way; nothing is lost |
| HashSets.HashSet.Erase | libartbase/base/hash_set.h:421-476 | Removes exactly the named element; the result is the next slot of an iteration |
| HashSets.HashSet.NextNonEmptySlot | libartbase/base/hash_set.h:813-820 | The next slot that is not empty, or the number of buckets |
| HashSets.HashSet.Iterate | libartbase/base/hash_set.h:386-392 | An iteration visits every element once |
| HashSets.ExpandMakesRoom | libartbase/base/hash_set.h:768-772 | Expanding makes room at every size if and only if the minimum load factor is at most 999/1001 |
| HashSets.ExpandBelowLimit | libartbase/base/hash_set.h:523-526 | For all load factors, a set of every size is below its limit after expanding if and only if for each table size from 1000 up to a bound that the load factors give, one bucket more at minimum load holds no more elements than the limit |
| HashSets.MarginIsEnough | libartbase/base/hash_set.h:523-526 | It is enough that 1001 buckets at minimum load hold one element less than 1000 at maximum load |
| HashSets.TooClose | libartbase/base/hash_set.h:523-526 | With load factors 0.699 and 0.7 a set of 700 elements is at its limit after expanding |
| HashSets.ShrinkLeavesRoom | libartbase/base/hash_set.h:581-583 | Shrinking to the maximum load leaves an empty slot at every size if and only if that load is at most 1000/1001 |
| HashSets.DefaultsExpandBelowLimit | libartbase/base/hash_set.h:523-526 | With the default load factors a set that has expanded is below its limit at every size |
| HashSets.MeanLeavesRoom | libartbase/base/hash_set.h:658-663 | Resizing to the mean of the load factors never shrinks the table |
| HashSets.LimitLeavesRoom | libartbase/base/hash_set.h:799 | The limit for expanding is below the number of buckets |
| HashSets.HashSet.Reserve | libartbase/base/hash_set.h:587-596 | Elements are kept, and none of the insertions up to the count expands the table |
| HashSets.HashSet.BucketsFor | libartbase/base/hash_set.h:587-592 | A number of buckets whose limit is above the count by more than one |
| HashSets.HashSet.ShrinkToMaximumLoad | libartbase/base/hash_set.h:581-583 | Elements are kept, and the table stays searchable if a slot stays empty |
| HashSets.HashSet.SetLoadFactor | libartbase/base/hash_set.h:651-664 | Elements are kept under the new load factors |
| CdEntryMap.RoundUpPower2 | libziparchive/zip_cd_entry_map.h:38-48 | The least power of two that is not below the number |
| CdEntryMap.PackLosesNothing | libziparchive/zip_cd_entry_map.h:89-105 | Offset and length of a name come back from the packed slot, in 20 and 12 bits or in 32 and 16 |
| CdEntryMap.CdEntryMapZip32.constructor | libziparchive/zip_cd_entry_map.h:119-132 | The size is a power of two above the number of entries, and the table is empty |
| CdEntryMap.CdEntryMapZip32.Probe | libziparchive/zip_cd_entry_map.cc:30-46 | Probing with a mask ends, and finds the name if and only if it was added, or else the first empty slot on its way |
| CdEntryMap.CdEntryMapZip32.GetCdEntryOffset | libziparchive/zip_cd_entry_map.cc:30-46 | The offset of the name, if and only if it was added |
| CdEntryMap.CdEntryMapZip32.AddToMap | libziparchive/zip_cd_entry_map.cc:48-71 | Adds the name with its offset, exactly if there was none like it |
| CdEntryMap.CdEntryMapZip32.Next | libziparchive/zip_cd_entry_map.cc:78-91 | The next entry of the table |
| CdEntryMap.CdEntryMapZip32.ResetIteration | libziparchive/zip_cd_entry_map.cc:73-76 | The iteration begins again |
| CdEntryMap.CdEntryMapZip32.IterateAll | libziparchive/zip_cd_entry_map.cc:73-91 | An iteration gives every entry exactly once, with its offset |
| EntryNames.IsValidEntryName | libziparchive/entry_name_utils-inl.h:28-63 | True exactly of names of at most 65535 bytes that are runs of whole sequences of one to six bytes without NUL |
| ZipWriter.PaddingIs | libziparchive/zip_writer.cc:258-269 | The padding makes the data start at a multiple of the alignment |
| ZipWriter.ZipWriter.StartAlignedEntryWithTime | libziparchive/zip_writer.cc:201-293 | Succeeds exactly between entries, below 65535 entries and 4 GiB, with a valid name and an alignment that is zero or a power of two up to 65535, and otherwise returns the error of the first of these that fails; on success the entry is open with its name and time, empty and aligned |
| ZipWriter.ZipWriter.StartEntry | libziparchive/zip_writer.cc:133-140 | The same with alignment 4 or none |
| ZipWriter.ZipWriter.WriteBytes | libziparchive/zip_writer.cc:347-384 | Appends to the data of the open entry and continues its checksum, exactly if there is one and all stays below 4 GiB; any failure is final |
| ZipWriter.ZipWriter.FinishEntry | libziparchive/zip_writer.cc:464-510 | The entry is added to those that are finished, with a descriptor or with its header rewritten |
| ZipWriter.ZipWriter.DiscardLastEntry | libziparchive/zip_writer.cc:295-307 | The last finished entry is gone, and those before it are untouched |
| ZipWriter.ZipWriter.WriteDirectory | libziparchive/zip_writer.cc:517-545 | One record for each finished entry is written, in order |
| ZipWriter.ZipWriter.Finish | libziparchive/zip_writer.cc:512-580 | The file is exactly the entries, the directory and the end record; this succeeds exactly between entries and if entries and directory fit 4 GiB |
| ZipWriter.ZipWriter.HandleError | libziparchive/zip_writer.cc:127-131 | The writer is in error from now on |
| ZipArchive.MapCentralDirectory | libziparchive/zip_archive.cc:273-428 | The directory that the last end record of the file points to, or what is wrong with it |
| ZipArchive.ScanRange | libziparchive/zip_archive.cc:295-304 | The scan finds the last place in its range where an end record could start |
| ZipArchive.VerifyDirectory | libziparchive/zip_archive.cc:549-618 | Walks over all records and reports the first error. `WalkMeets` and `WalkDecodes` say what the records are then |
| ZipArchive.FillMap | libziparchive/zip_archive.cc:620-638 | The table maps each name to its offset, exactly if no name comes up twice |
| ZipArchive.ZipArchive.Open | libziparchive/zip_archive.cc:538-659 | Accepts the file exactly if it has no error, and then the table holds its names. `OpensExactly` says which files these are |
| ZipArchive.ZipArchive.FindEntry | libziparchive/zip_archive.cc:1100-1115 | What the directory and the local header say of the name. `LookupAnswers` says when something is found, and what |
| ZipLayout.InfoIs | libziparchive/zip_archive.cc:273-428 | In a file laid out as an archive the end record is found, and leads to the directory |
| ZipLayout.EndingRefused | libziparchive/zip_archive.cc:306-407 | Of a file with a last end record: the directory it points to, or which of its numbers is wrong: the comment does not end the file, the directory does not fit before it, or there are no entries |
| ZipLayout.WithoutEnding | libziparchive/zip_archive.cc:273-304 | A file without an end record is refused |
| ZipLayout.CutOff | libziparchive/zip_archive.cc:549-618 | Where a directory that ends too early is cut off, in the header, the name, the extra field or the comment of its last record, and what is wrong with that record, decides the error |
| ZipLayout.RecordIsRead | libziparchive/zip_archive.cc:549-618 | A record is accepted exactly if its name is valid, and the walk goes on after its name, extra field and comment |
| ZipLayout.WalkMeets | libziparchive/zip_archive.cc:549-618 | The walk over the directory meets exactly the names that are there, up to the first that is not valid |
| ZipLayout.OpensIf | libziparchive/zip_archive.cc:538-659 | An archive is opened if and only if its names are valid and distinct and it starts with an entry; otherwise the error says which of these fails |
| ZipReading.WalkDecodes | libziparchive/zip_archive.cc:549-618 | Records without errors are the encodings of members |
| ZipReading.Decodes | libziparchive/zip_archive.cc:273-659 | Every file that is opened is laid out as an archive |
| ZipReading.OpensExactly | libziparchive/zip_archive.cc:273-659 | A file is opened if and only if it is laid out as an archive with valid and distinct names, and starts with an entry |
| ZipReading.Locates | libziparchive/zip_archive.cc:778-1026 | An entry that stands where its record says is found with what its record says of it and the offset of its data, if its local header agrees or leaves sizes and checksum to a descriptor, and is refused as inconsistent otherwise |
| ZipReading.Refuses | libziparchive/zip_archive.cc:848-1010 | A record that leads to an entry of another name is inconsistent, and one that leads into the directory, or to data that reach into it, has an invalid offset |
| ZipReading.LocatesOnly | libziparchive/zip_archive.cc:778-1026 | Whatever is found stands where its record says, before the directory, and agrees with it |
| ZipReading.FindsMember | libziparchive/zip_archive.cc:778-1115 | A name of the archive is found if and only if its entry stands where the directory says and agrees with it, and then with the offset and length of exactly its data |
| ZipReading.LookupAnswers | libziparchive/zip_archive.cc:1100-1115 | The same of any name: one of no entry is not found, and one of a length that is not allowed is refused |
| ZipReading.DescriptorExactly | libziparchive/zip_archive.cc:726-776 | A data descriptor, with or without signature and with sizes of 4 or 8 bytes, is accepted if and only if it agrees with the directory, unless its checksum is the signature and it has none |
| ZipReading.DescriptorMistaken | libziparchive/zip_archive.cc:726-776 | Such a descriptor is refused though it is right |
| ZipReading.Read | libziparchive/zip_archive.cc:538-1115 | Opening any file and looking up any name: opened exactly if the file is an archive, and found exactly what is in it |
| ZipRoundTrip.IsLaid | libziparchive/zip_writer.cc:170-580 | What the writer leaves behind is laid out as an archive |
| ZipRoundTrip.Opens | libziparchive/zip_archive.cc:538-659 | A finished archive with at least one entry is accepted exactly if its names are distinct |
| ZipRoundTrip.FindsEntry | libziparchive/zip_archive.cc:778-1115 | Each entry with a name is found under it, with its time, checksum and the offset and length of exactly the bytes that were written, at the alignment that was asked for |
| ZipRoundTrip.DescriptorAccepted | libziparchive/zip_archive.cc:726-776 | In a finished archive with data descriptors, the comparison with the directory accepts every descriptor |
| ZipRoundTrip.FindsNothingElse | libziparchive/zip_archive.cc:1100-1115 | Any other name of a length that is allowed is not found |
| ZipRoundTrip.EmptyIsRefused | libziparchive/zip_archive.cc:402-407 | An archive without entries is refused as empty |
| ZipReplay.Replay | libziparchive/zip_writer.cc:201-580 | For any sequence of starting, writing, finishing and discarding, what each call returns, whether finishing succeeds and whether the reader opens the archive are what the requests alone say: entries and directory fit 4 GiB, entries were kept and their names are distinct. Every kept entry with a name is found as it was written, with time, checksum, bytes and alignment, and its descriptor is accepted |
| ZipReplay.Perform | libziparchive/zip_writer.cc:201-510 | Each call returns what the requests so far say, and changes what the writer has recorded as the caller notes it |
| ZipReplay.EndIs | libziparchive/zip_writer.cc:201-510 | The finished entries end at the offset that follows from names, data, alignments and the use of descriptors |
| ZipReplay.DirectoryIs | libziparchive/zip_writer.cc:517-545 | The directory has the size that follows from the names |
| ZipReplay.OffsetIs | libziparchive/zip_writer.cc:201-510 | Between entries the writer stands at that offset |
| ZipReplay.Accepts | libziparchive/zip_archive.cc:354-659 | An archive is opened exactly if it has entries with distinct names; otherwise it is refused as empty or for a duplicate |
| ZipReplay.FindsItem | libziparchive/zip_archive.cc:778-1115 | What is found for a name is what its entry was written with |

## Left out

- The version 1 JIT descriptor without seqlocks: the walk over a changing list need not end.
- Seqlocks that wrap around, memory effects of weakly ordered processors, and address tags in the JIT list.
- Reading the bytes of CIEs, FDEs and call frame instructions: entries and instructions are given decoded.
- CieRuns.CacheableExactly: of a CIE that sets the location, or advances it around the address space, `CachedCie` proves only that it can be cached if its endings are alike.
- RowCache.DwarfSection.Step: takes sections in which FDEs do not overlap, locations stay in their FDE and the endings of CIEs are alike; of an FDE whose location goes back it says nothing.
- RegisterEval.Eval: does not say which registers have changed when a step fails, because that depends on the order in which the rules are visited; for the same reason it does not say which error is reported.
- RegisterEval.Eval: of several rules that set the dex pc, or the same pseudo register, it only says that one of them prevails.
- DwarfOp.DwarfOp.Eval: does not model the address that goes with an error.
- All logging, and the summary of register locations that ArmExidx keeps for it.
- Symbols.ListFunctions: reads symbols one by one; the source reads them in batches of 1024 bytes.
- Symbols.Symbols.GetName: the global variable lookup beside it is a linear scan with a map in front.
- MapList.LocalMaps.Reparse: takes the parsed list as given, in order of start addresses as the kernel writes it; reading the maps file and its lock are not modelled.
- Timeouts of the handshake, and the disposition of signals: a signal that is sent is delivered to the handler at any later time.
- HashSets: sets over a caller's buffer, serialised sets, copying and moving; floating point load factors are reals.
- Compressed entries, and CRC-32 as a function: a checksum is whatever the function given to the writer returns.
- ZipWriter.ZipWriter.Finish: input and output succeed; on a real pipe the truncation at the end fails.
- ZipArchive.ZipArchive.Open: zip64 archives are reported as an error of their own.
- ZipArchive.MapCentralDirectory: a zip64 end record is one error value.
- ZipArchive.VerifyDirectory: a zip64 offset is one error value.
- ZipArchive.ZipArchive.FindEntry: zip64 records are reported as an error of their own; version, flags, attributes and mode, which are copied to the result, are not modelled.
- The zip64 name table, extraction, and iteration with prefix and suffix.
- Unwinder, Elf, MapInfo.GetElf, the register files of the processors, DexFile, XZ: mostly case distinctions around foreign code.
