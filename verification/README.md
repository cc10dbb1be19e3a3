# Verified models of the Whoop driver environment

Whoop analyses Linux device drivers against a model of the kernel they run in. Most of that
model is declarations; a few headers hold real algorithms, and two Python scripts drive the tools
and the tests. This project models those algorithms in Dafny and proves what they are for.
`dafny verify dfyconfig.toml` checks everything.

- **Reader/writer semaphore** (`RwSem.dfy`, `RwSemProtocol.dfy`). One signed word of 32 or 64 bits,
  changed by single locked instructions. `RwSem` is the semaphore object with its two
  compare-and-exchange loops; `RwSemProtocol` interleaves any set of threads on it. A locker whose
  fast path fails stays pending with its bias in the count, and may take on the form the header
  gives a waiting locker (upper half only). In every reachable state the tests on
  the count do what a lock that looks at its lockers would do; mutual exclusion is proved for all
  runs, and the number of threads up to which it holds is determined exactly: it is two more than
  the header promises.
- **Page tables** (`PageTable.dfy`, `AddressSpace.dfy`, `Pte.dfy`). The four-level tree lives in one
  memory of 64-bit words. Whatever sequence of populate, clear and set operations built it, with table
  pages taken out, zeroed and used again anywhere, the walk agrees with a reference that knows only
  page numbers. The physical address width is a parameter;
  `__pa` and `__va` are not part of the repository and are taken to invert each other on
  page-aligned addresses that fit the physical mask. Paravirtualisation is off.
- **CRC-32** (`Crc32.dfy`). The bit loop, the three table loops, the checksum as a polynomial
  remainder, and an exact burst-detection theorem.
- **Code-page conversion and string transfers** (`Codepage.dfy`, `RawIo.dfy`). Loops whose counters
  are narrower than their arguments, with the exact range of arguments they are right for.
- **Atari interrupt registers** (`Mfp.dfy`). Bits packed into memory-mapped bytes refine thirty-two
  independent interrupt sources.
- **Test runner and tool driver** (`TestPool.dfy`, `TestRuns.dfy`, `Toolchain.dfy`). The worker pool,
  one test's verdict, the comparison of two test runs, the time budget of repeated tool runs, and the
  staged pipeline with its exit code.

`Words.dfy` holds machine words as bit strings, least significant bit first; `Options.dfy` the
usual option type. Device input, process outcomes, elapsed times, regular expression matches and
the stores of other processors are parameters.

What the code does where it differs from what one might expect of it:

- The semaphore header promises 32767 (2147483647) lockers. Mutual exclusion holds up to 32769
  (2147483649) threads, and with one more a run lets a reader in beside a writer. The count itself is
  exact up to 32768 (2147483648) threads and wraps with one more.
- A writer that releases over a reader whose fast path has failed, but which has not put its waiting
  bias into the count, calls no wake routine (`PendingReaderIsNotWoken`).
- A walk ignores the upper sixteen bits of an address, so addresses that differ only there share an
  entry.
- `codepage_convert` is right up to 2^31 + 256 bytes: the branch it uses is also taken on overflow.
- `raw_insw_swapw` and `raw_outsw_swapw` move 524288 words when asked for none.
- With `--timeout` but without `--time`, `whoop.py` gives every invocation of a tool the full timeout.
- The stop options of `whoop.py` for the first three stages end the chain even when the stage is
  skipped, those of the later stages only when it runs.
- The MFP bit helpers use only the lower five bits of an interrupt number.
- A test object that is run twice keeps the mismatches of the first run, and the second run raises
  because the first deleted the file to print to.
- `tester.py` does not return from `waitForCompletion` once a worker has died in a test, and a test
  does that when the tool returns a code it has no name for.
- `tester.py` clears the queue after an interrupt with a `get` that blocks: if a worker takes the last
  test in between, the main thread waits for ever, although the code provides for that race
  (`CanRaiseIff`, `InterruptMayBlock`).
- `whoop.py` rejects inputs ending in `.re.c`, because it looks for `re.c` without the dot; such an
  input is `Unknown` here.

## Model

| member | source | states |
|---|---|---|
| RwSem.RwSemaphore.DownRead | Model/asm/rwsem.h:63-75 | adds the read bias in one step and acquires exactly if the result is not negative |
| RwSem.RwSemaphore.DownWrite | Model/asm/rwsem.h:102-117 | adds the write bias in one step and acquires exactly if no active locker was counted before |
| RwSem.RwSemaphore.UpRead | Model/asm/rwsem.h:153-166 | takes the read bias back and wakes exactly if the count left is negative |
| RwSem.RwSemaphore.UpWrite | Model/asm/rwsem.h:171-184 | takes the write bias back and wakes exactly if the count left is negative |
| RwSem.RwSemaphore.DowngradeWrite | Model/asm/rwsem.h:189-204 | keeps the active bias, drops the waiting bias, wakes exactly if the count left is negative |
| RwSem.RwSemaphore.AtomicUpdate | Model/asm/rwsem.h:219-222 | the new count, truncated to the word, is returned |
| RwSem.RwSemaphore.DownReadTrylock | Model/asm/rwsem.h:80-97 | under any stores of other processors: success is one add of the read bias, at the last access, while the count was non-negative; failure writes nothing |
| RwSem.RwSemaphore.DownWriteTrylock | Model/asm/rwsem.h:127-148 | the same for writing, the guard being that no active locker is counted |
| RwSemProtocol.Execute | Model/asm/rwsem.h:63-222 | the object's operations are the protocol's steps, count, outcome and wake call alike, and leave every locker where a lock that looks at its lockers would |
| RwSemProtocol.StepKeepsEncoding | Model/asm/rwsem.h:8-24 | every step of any thread keeps the count equal to lockers plus WAITING_BIAS times writers and waiters, modulo the word |
| RwSemProtocol.Admission | Model/asm/rwsem.h:63-148 | a reader is let in exactly when no writer holds or awaits the lock, a writer exactly when nobody holds it, on all four lock paths |
| RwSemProtocol.StepIsNext | Model/asm/rwsem.h:63-222 | every step is open to exactly the threads in the right role and leaves them where a lock defined on the lockers alone does |
| RwSemProtocol.ActsAsLock | Model/asm/rwsem.h:63-222 | the same in every reachable state |
| RwSemProtocol.LoadTells | Model/asm/rwsem.h:80-148 | in every reachable state the count a trylock loads tells it exactly whether a reader, or a writer, may go in |
| RwSemProtocol.MutualExclusion | Model/asm/rwsem.h:63-204 | no reachable state has two active writers, or an active reader beside an active writer |
| RwSemProtocol.ExclusionThreshold | Model/asm/rwsem.h:42-46 | exclusion holds of all runs if and only if there are at most two threads more than promised |
| RwSemProtocol.OneTooMany | Model/asm/rwsem.h:42-46 | beyond that bound, for any set of threads, a run ends with a reader beside the writer |
| RwSemProtocol.CountIsExact | Model/asm/rwsem.h:42-58 | up to one thread more than promised the count never wraps, is negative exactly if a writer or waiter exists, and is 0 exactly if there is nobody |
| RwSemProtocol.ExactnessThreshold | Model/asm/rwsem.h:42-58 | the count is the exact encoding in all runs if and only if there is at most one thread more than promised |
| RwSemProtocol.WakesIffSomebodyWaits | Model/asm/rwsem.h:153-204 | a release or downgrade calls the wake routine if and only if another locker's waiting bias remains |
| RwSemProtocol.PendingReaderIsNotWoken | Model/asm/rwsem.h:171-184 | a reachable state in which a writer releases over a pending reader without a wake call |
| RwSemProtocol.TrylockLinearizes | Model/asm/rwsem.h:80-148 | in every run a successful exchange is one atomic add at an instant when the guard holds of the actual lockers; otherwise the count is untouched |
| PageTable.PopulatedEntry | Model/asm/pgalloc.h:62-124 | a stored directory entry decodes to its table, is present and not bad at every level |
| PageTable.EntryBits | Model/asm/pgalloc.h:62-124 | a stored directory entry is the table's physical address with exactly the bits 0, 1, 2, 5 and 6 |
| PageTable.PresentFlags | Model/asm/pgtable.h:460-602 | the bits that make an entry present, at each level |
| PageTable.BadFlags | Model/asm/pgtable.h:543-629 | the bits that make an entry bad, at each level |
| PageTable.PageNumberOfPath | Model/asm/pgtable.h:513-536 | the indices are the page number's base-512 digits, lowest level first |
| PageTable.PathIsPageNumber | Model/asm/pgtable.h:513-536 | the four indices agree for two addresses exactly if bits 12 to 47 do |
| PageTable.OnePath | Model/asm/pgtable.h:496-541 | two walks that arrive at the same table took the same entries |
| PageTable.StepKeepsInv | Model/asm/pgalloc.h:62-124 | each operation keeps every table in its place: its entries lead one level down, to the tables of their indices |
| PageTable.StepKeepsOneParent | Model/asm/pgalloc.h:62-124 | each operation keeps it so that no two entries lead to the same table |
| PageTable.ZeroIsInvisible | Model/asm/pgalloc.h:81-129 | zeroing a page that no entry leads to changes no walk |
| PageTable.StepRefines | Model/asm/pgtable_64.h:47-117 | an operation changes the walk of the pages under the entry it writes as the reference says, and of no others |
| PageTable.RunRefines | Model/asm/pgtable.h:496-651 | after any sequence of stores, and of allocations that zero a page outside the tree, never used or taken out of it, the walk of every page equals the reference computed from the stores alone |
| PageTable.LastSetWins | Model/asm/pgtable_64.h:53-56 | in any run the walk of an address returns the last entry set for its page unless a later operation touched its path |
| AddressSpaces.SetPteOnAllAddresses | Model/asm/pgtable_64.h:53-56 | setting an entry changes the look-up of the addresses of that page and of no other address |
| AddressSpaces.AddressSpace.WalkTo | Model/asm/pgtable.h:538-651 | the walk with its none checks returns the look-up and a pointer to the entry |
| AddressSpaces.AddressSpace.Populate | Model/asm/pgalloc.h:62-124 | stores the one entry, present and not bad at every level and leading to the table; pages under it become empty at the next level, all others keep their look-up |
| AddressSpaces.AddressSpace.OffsetsAreTargets | Model/asm/pgtable.h:496-651 | the four offset functions, each fed the one above, point at the entries the operations write, down to the first level that is not there |
| AddressSpaces.AddressSpace.GetZeroedPage | Model/asm/pgalloc.h:81-129 | the page is zeroed and stays outside the tree, and no look-up changes |
| AddressSpaces.AddressSpace.ClearEntry | Model/asm/pgtable_64.h:68-117 | pages under the cleared entry lose their mapping at that level, all others keep their look-up |
| AddressSpaces.AddressSpace.SetPte | Model/asm/pgtable_64.h:53-61 | the page's look-up becomes the entry, every other page's is unchanged |
| AddressSpaces.AddressSpace.GetAndClear | Model/asm/pgtable.h:739-745 | returns the entry the look-up had and leaves the page empty, every other page unchanged |
| AddressSpaces.AddressSpace.SetWriteProtect | Model/asm/pgtable.h:766-771 | clears the write bit of that page's entry and changes nothing else |
| Pte.ModifyAbsorbs | Model/asm/pgtable.h:326-360 | changing protection keeps the frame and the preserved bits, and only the last change counts |
| Pte.ModifyBits | Model/asm/pgtable.h:326-358 | every bit of the result: the frame and the six preserved flags are the old ones, all others the new protection's, masked by what is supported if it is present |
| Pte.PresentBits | Model/asm/pgtable.h:437-440 | an entry is present exactly if bit 0 or bit 8 is up |
| Pte.MovesPatUp | Model/asm/pgtable_types.h:340-349 | bit 7 moves to bit 12 and nothing else changes |
| Pte.MovesPatDown | Model/asm/pgtable_types.h:351-360 | bit 12 moves to bit 7 and nothing else changes |
| Pte.SwpEntryBits | Model/asm/pgtable_64.h:144-156 | the type starts at bit 1 and the offset at bit 9 |
| Pte.PatRoundTrip | Model/asm/pgtable_types.h:340-360 | conversion between small and large page PAT bits is undone exactly if the target bit was clear |
| Pte.SwapRoundTrip | Model/asm/pgtable_64.h:144-156 | type and offset come back if and only if the type is below 32 and the offset fits 55 bits |
| Pte.SwapPresence | Model/asm/pgtable.h:437-440 | a swap entry looks present exactly if its type has bit 7 set |
| Pte.SoftDirtyIsOneBit | Model/asm/pgtable.h:861-874 | any sequence of soft-dirty marks amounts to writing the last one into bit 7 |
| Pte.SoftDirtyKeepsSwapEntry | Model/asm/pgtable.h:861-874 | soft-dirty marks change neither type, offset nor presence |
| Crc32.Crc32LeBits1 | Model/linux/crc32.h:8-14 | the bit loop computes the checksum of the message |
| Crc32.Crc32LeBits2 | Model/linux/crc32.h:15-22 | the two-bit table loop computes the same checksum for every polynomial |
| Crc32.Crc32LeBits4 | Model/linux/crc32.h:23-28 | the four-bit table loop computes the same checksum for every polynomial |
| Crc32.Crc32LeBits8 | Model/linux/crc32.h:29-34 | the byte table loop computes the same checksum for every polynomial |
| Crc32.Crc32Le | Model/linux/crc32.h:43-46 | the checksum for the IEEE polynomial |
| Crc32.GeneratorIsStandard | Model/linux/crc32.h:4 | the generator has exactly the coefficients of the IEEE polynomial, reflected |
| Crc32.CrcIsRemainder | Model/linux/crc32.h:4-14 | the checksum is the remainder of schoolbook polynomial division of the message by the generator |
| Crc32.SeveralAtATime | Model/linux/crc32.h:15-34 | n single-bit steps are a shift by n and one table entry, for every n up to 32 |
| Crc32.TableOfIsTable | Model/linux/crc32.h:6 | for every polynomial a table as the loops need it exists |
| Crc32.CrcConcat | Model/linux/crc32.h:8-14 | a message may be checksummed in pieces |
| Crc32.SelfCancels | Model/linux/crc32.h:8-14 | appending the checksum in little-endian order gives zero |
| Crc32.OnlyTheChecksumCancels | Model/linux/crc32.h:8-14 | with the generator's top coefficient set no other four bytes give zero |
| Crc32.DetectsBurstsIff | Model/linux/crc32.h:4-14 | every error confined to 32 consecutive bits is detected if and only if the generator's top coefficient is set |
| Crc32.FourByteBurstDetected | Model/linux/crc32.h:4-14 | messages of equal length that differ only within four consecutive bytes have different checksums |
| Codepage.CodepageConvert | Model/asm/ebcdic.h:23-38 | each of the first Reach(nr) bytes becomes its entry in the table, all others are left alone |
| Codepage.ReachIsExactIff | Model/asm/ebcdic.h:23-38 | that is nr bytes if and only if nr is at most 2^31 + 256, never more, and only the tail from there to 2^32 |
| Codepage.ReachStartsOver | Model/asm/ebcdic.h:23-38 | and it depends on the lower 32 bits of the count only |
| Codepage.RoundTripIff | Model/asm/ebcdic.h:40-45 | converting forth and back restores every buffer if and only if one table undoes the other |
| RawIo.StringIn | Model/asm/raw_io.h:131-168 | reads Moved(nr) items into consecutive slots in order, leaving the rest of the buffer alone |
| RawIo.StringOut | Model/asm/raw_io.h:170-208 | sends the first Moved(nr) items of the buffer in order |
| RawIo.MovedIsExactIff | Model/asm/raw_io.h:131-287 | that is nr items if and only if nr >> 4 is at most 65536 |
| RawIo.StringInSwapped | Model/asm/raw_io.h:290-341 | reads SwapMoved(nr) words, bytes exchanged, into consecutive slots |
| RawIo.StringOutSwapped | Model/asm/raw_io.h:343-394 | sends SwapMoved(nr) words, bytes exchanged |
| RawIo.SwapMovedIsExactIff | Model/asm/raw_io.h:290-394 | that is nr words if and only if nr is positive and within the counter of its branch |
| RawIo.SwapTwice | Model/asm/raw_io.h:299-301 | the rotation exchanges the two bytes, and done twice restores the word |
| RawIo.Relay | Model/asm/raw_io.h:290-394 | swapping in and out again passes on exactly the words that were read |
| Mfp.AddressInjective | Model/asm/atariints.h:115-149 | two interrupt numbers share a register bit exactly if their lower five bits and the register kinds agree |
| Mfp.NoAliases | Model/asm/atariints.h:157-203 | among the interrupts the header's functions let through no two share a bit |
| Mfp.AddressMatchesLayout | Model/asm/atarihw.h:519-575 | the computed address is the struct offset of the register of that kind, A or B, on the right chip, and the bit is the source's own in it |
| Mfp.MfpPair.GetMfpBit | Model/asm/atariints.h:115-123 | reads that interrupt's bit, for every interrupt number |
| Mfp.MfpPair.SetMfpBit | Model/asm/atariints.h:125-134 | sets that enable or mask bit, under all its numbers, and no other; on pending and in-service registers it has no effect |
| Mfp.MfpPair.ClearMfpBit | Model/asm/atariints.h:136-149 | clears that interrupt's bit, under all its numbers, and no other, on all four kinds of register |
| Mfp.MfpPair.Perform | Model/asm/atariints.h:157-196 | the header's operations, and arriving requests, leave the registers the step function gives |
| Mfp.MfpPair.AtariIrqPending | Model/asm/atariints.h:198-203 | reports the source's pending state, and false for other interrupts |
| Mfp.StepRefines | Model/asm/atariints.h:157-196 | an operation changes the one source it names and no other |
| Mfp.RunRefines | Model/asm/atariints.h:115-203 | any run on the registers is thirty-two separate runs |
| Mfp.PendingIff | Model/asm/atariints.h:151-196 | a request is pending at the end exactly if it came while turned on and was not cleared since, whatever was masked between |
| Mfp.MaskedRequestSurvives | Model/asm/atariints.h:151-169 | a request to a source that is on stays pending through any enabling and disabling around it, and is pending and unmasked once the source is enabled |
| Mfp.TurnedOffStaysQuiet | Model/asm/atariints.h:171-189 | requests arriving while turned off are not stored |
| Mfp.VectorsRoundTrip | Model/asm/atariints.h:37-41 | source and vector numbers invert each other exactly outside vectors 0x20 to 0x3f |
| TestPool.Execute | tester.py:545-599 | the shared queue behaves as the pool's steps say, and no report raises |
| TestPool.StepKeepsInv | tester.py:553-599 | every step keeps the task count and the whereabouts of every test exact |
| TestPool.CountIsExact | tester.py:553-587 | in every reachable state the count is queued plus in flight plus abandoned, and the poll returns exactly if nothing is left |
| TestPool.ReturnMeansAllRan | tester.py:576-588 | after a normal return every added test has run to completion exactly as often as it was added |
| TestPool.DeathPreventsReturn | tester.py:553-588 | once a worker has died inside a test no continuation returns normally |
| TestPool.DieMeansNoReturn | tester.py:553-588 | no run in which a worker died in a test returns normally |
| TestPool.CanReturnIff | tester.py:553-588 | while the poll runs, some continuation returns normally exactly if no worker has died and there is a worker for what is queued |
| TestPool.AnyTestsCanRun | tester.py:570-588 | with at least one worker any list of tests can be added and run to a normal return |
| TestPool.InterruptedForGood | tester.py:589-599 | after an interrupt no continuation returns normally or adds to the queue |
| TestPool.InterruptDrains | tester.py:589-599 | left alone, the main thread discards the queued tests in order and raises |
| TestPool.CanRaiseIff | tester.py:592-599 | an interrupted main thread can get to raise exactly if it is not in the blocking get on an empty queue |
| TestPool.InterruptMayBlock | tester.py:592-599 | with at least one worker such a state is reachable |
| TestRuns.TestCase.Run | tester.py:187-266 | from any state: passed exactly if the code is the expected one and all expressions match; what each expression, the two codes and the file become; a killed process changes nothing; an unnamed code and a second run raise |
| TestRuns.KeyIsName | tester.py:404-446 | the key is the path from the first occurrence of the prefix on with every backslash turned, or the whole path if there is none, and nothing else |
| TestRuns.SameKeyIff | tester.py:404-422 | two paths share a key exactly if from the prefix on they are equal up to the direction of the slashes |
| TestRuns.KeyIgnoresDirectory | tester.py:404-422 | a test's key does not depend on the directory before the prefix |
| TestRuns.IndexHoldsLast | tester.py:437-448 | the dictionary holds exactly the keys of the list, each with its last test's verdict |
| TestRuns.ListsDecide | tester.py:437-508 | the dictionaries are worse, or equal, exactly as the lists say: some name is gone or passed and no longer does, or every name keeps its verdict |
| TestRuns.DoComparison | tester.py:424-508 | 1 exactly if the name of an old test is missing from the new list or passed and no longer does, 0 exactly if both lists give every name the same verdict, -1 otherwise |
| TestRuns.NotWorseIsReflexive | tester.py:493-508 | no run is worse than itself |
| TestRuns.NotWorseIsTransitive | tester.py:493-508 | "not worse" is transitive |
| TestRuns.NotWorseBothWays | tester.py:453-508 | two runs are each not worse than the other exactly if they have the same tests and pass the same ones |
| Toolchain.Driver.RunTool | whoop.py:556-590 | the limit is what is left of the timeout, rounded up, and a second once it is used up; the time is charged to this tool and to no other; and for each way to end, the exit code or that the chain goes on |
| Toolchain.Driver.RunCorral | whoop.py:592-607 | runs up to the first invocation that does not complete with code 0, and ends with its exit code; with timing on each run is handed what is left of the shared budget, which is overdrawn by less than a second a run; with timing off every run gets the full timeout |
| Toolchain.BudgetHolds | whoop.py:556-586 | after n invocations at most T + n - 1 seconds are charged, and each limit is between 1 and T |
| Toolchain.BudgetIsTight | whoop.py:556-586 | that bound is attained for every n |
| Toolchain.FairShare | whoop.py:556-586 | invocations that together take no longer than the timeout each stay within the limit they are handed |
| Toolchain.GetSourceFiles | whoop.py:293-308 | rejects exactly empty and unknown inputs; otherwise a prefix of the stages is skipped |
| Toolchain.ProcessSkipOptions | whoop.py:402-428 | the skip flags stay a prefix, as long as the deepest option asks |
| Toolchain.OneOutcome | whoop.py:821-895 | the description of a run leaves one outcome for each input: stages run, runs of Corral and exit code |
| Toolchain.Driver.RunStages | whoop.py:821-895 | the outcome is the one described: the stages not skipped, in order, up to the first that fails or has a stop option; only tools that ran are charged time |
| Toolchain.ExitCode | whoop.py:556-590 | zero exactly if every tool that ran completed, with code 0 unless it is the race checker under find-bugs; else 8 if the last one timed out, and otherwise 3, 3, 4, 5, 5, 6 or 7 by tool |
| Toolchain.AllStages | whoop.py:821-882 | the stages there are to run are those not skipped, in the order of the chain, the cruncher only with inference |
| Toolchain.StopOption | whoop.py:830-882 | nothing runs after a stop option: of the first three stages always, of a later one if that stage is to run |
| Toolchain.CorralComesLast | whoop.py:884-886 | Corral runs only under find-bugs, after all stages not skipped ran and let the chain go on |
| Toolchain.UndisturbedRun | whoop.py:821-895 | with no failure and no stop option exactly the stages not skipped run, and Corral on all its files under find-bugs |
| Toolchain.StagesFromCommandLine | whoop.py:293-428 | a stage is to run exactly if no input extension and no skip option passes over it, and it is not the cruncher under no-infer |
| Toolchain.StartToolChain | whoop.py:662-895 | the outcome from inputs and options, a rejected input giving the command line error; no tool runs that an input or option passes over |

## Left out

- The semaphore's slow paths and wait queue, which are not in the repository: no fairness or liveness is claimed, and a pending locker is never granted the lock.
- RwSem.RwSemaphore.DownReadTrylock: the other processors' stores are a finite list, so a loop that retries for ever is not modelled; the same holds for DownWriteTrylock.
- The `#else` branch of `crc32_le_generic`: `crc32_body` is not part of this model.
- Page-table code that depends on `likely` and `unlikely`, which the repository defines as constants; large-page walks; TLB flushing; freeing of table pages.
- `pmd_modify`, `pgprot_modify` and the single-flag `pte_mk*` helpers: one-line uses of what is modelled.
- PageTable.RunRefines: a new table must be a zeroed page that no directory entry leads to, which the source's allocators provide; a page still referenced from a detached table is not detached until that table is zeroed.
- RawIo.StringIn: the sixteen copies of the move instruction are one counted inner loop, and one generic method stands for the word and the long variant.
- `raw_insb`, `raw_outsb` and the cartridge-port transfers: plain loops.
- TestRuns.TestCase.Run: parsing of the test file and of the tool's output.
- `summariseTests` and the printing, logging, pickling and file handling of both scripts.
- The options of `whoop.py` that only build command lines, and those whose arguments can be rejected.
