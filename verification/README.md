# NSX Manager: verified models of its hard core

Dafny models of seven parts of NSX Manager and of the RCM payload it ships, and proofs of
what they promise.  Each module follows one source file; methods follow the source's loops
and branches, and the theorems are about the specifications those methods meet.
`dafny verify dfyconfig.toml` checks everything.

| module | models | main results |
|---|---|---|
| `Heap`, `HeapTheorems` | `bdk/mem/heap.c`: malloc, calloc, free, heap_monitor over in-band headers | every run keeps a gapless, fully coalesced, doubly linked arena; live contents survive every run; the block list is determined by the live blocks, so free undoes malloc and frees commute |
| `Handoff`, `Swap`, `SwapTheorems` | `apps/forwarder/src/swap.cpp` and the recovery decision | a binary survives every history of failures and power cuts; retries are bounded; on a sound card one undisturbed run always completes the recovery, and a run with one failed operation never leaves the target missing |
| `Smmu` | `bdk/mem/smmu.c`, `smmu.h` | lazy table expansion preserves every translation; a mapping changes exactly its range |
| `Rtc` | `bdk/rtc/max77620-rtc.c` | both conversions are exact, inverse to each other, and agree with a day-by-day calendar and with section 4.16 of POSIX.1-2017 |
| `CardTree`, `CleanupRules`, `CleanupMove`, `CleanupWalk`, `Cleanup` | `bootloader/main.c`: the clean-install tree walk | protected files, and the staged files that are not in their way, survive every step; the walk ends, restores its path buffer and enters no skipped folder; exactly when every protected file has been moved aside and nothing else is left |
| `LowPower` | `bdk/mem/sdram_lp0.c`: `pack` and the T210 table | last writer wins on every bit of any table; disjoint tables read back and commute; what twelve registers hold afterwards |
| `JoyConCrc`, `JoyConPad` | `bdk/input/joycon.c`: CRC-8 and the report merge | the CRC is the remainder of polynomial division and sees every burst of eight bits; each side shows its own latest report |

How the world outside is modelled:

- **Memory** is a function from addresses to words; headers and page tables live in it.  Heap
  addresses are u32, so the heap's methods require that the arena still ends at or below 2^32.
- **Power cuts.**  `Swap` and `Cleanup` keep a ghost set `seen` of every state the card has been in.
  Their contracts speak about all of `seen`, so about every point at which power may go.  A
  half-written chunk needs no state of its own: the contracts allow any contents in the two files
  that are being written.
- **Failures.**  Every file operation may fail: `Swap` counts the ones that did, `Cleanup` has a flag
  `reliable` that rules them out.  `sound` says that copying a file reads the bytes that hashing it read.  SHA-256 and the JSON form of the handoff are arbitrary
  functions, of which only "decoding undoes encoding" is used.
- **FAT names.**  `Cleanup` compares paths in lower case, and a directory spells its names as it likes.
- Time, pins and UART packets are parameters of the Joy-Con methods.

## Where the code and its promises part

Each of these is a lemma below that says exactly when the promise holds.

- `malloc` covers a request exactly up to 2^32 - 32 bytes; above, rounding up wraps.  `calloc`'s
  product wraps first (`AlignCovers`, `CallocCovers`).
- Without a handoff `runSwap` never looks for the binaries.  It then reports Unrecoverable even where
  `docs/reference/handoff-format.md` says "Nothing", and the decision "restore a backup without a
  handoff" cannot be reached (`NoHandoffRow`).
- A roll-back keeps an existing target and deletes the backup.  The same document says that the backup
  is restored (`RollBackRestores`).
- A spent retry budget still installs when neither target nor backup exists; then only the limit of
  1000 attempts in the handoff's range check ends the tries (`ExhaustedInstalls`, `SwapRunsFinite`).
- A binary that was there or matches the digest is not always kept at target or backup.  When the
  target is bad and the backup good, a retry clears the backup for the bad target and a roll-back deletes
  it.  One run keeps a good binary exactly when the target is good or absent, or the run will touch
  nothing (`RunKeepsGood`).  A history of runs keeps one exactly when no run will act, or the target is good
  or absent and either copies are sound, or the budget is spent, or the staged file does not verify
  (`AlwaysGoodIff`).  One unnoticed bad copy and a power cut make a good target bad (`CorruptCopyLosesOld`).
- A protected file is not always moved aside.  One that could not be moved on the card as it was at the
  start stays where it is, at every moment (`BlockedStays`); without a staging folder that is so exactly below a
  folder with a dot in its path (`FreshCanMove`).  Such a file can also keep others back: for
  `/switch/edizon/saves/v1.0/game/x` the piece `v1.0` is dropped and directories are made at the staged places of
  `/switch/edizon/saves/game` and of `x` below it, so that a file `/switch/edizon/saves/game` can no longer be moved
  (`DroppedPieceBlocks`).  If the staging folder is not a file and holds no dotted directory of theirs, all protected
  files outside the skipped folders are moved aside, and nothing else is left there, exactly when each of them could
  be moved at the start (`PerformCleanup`); without a staging folder that is when none is below a dotted folder
  (`FreshAllCanMove`).
- The root's own branch for protected files is never taken (`RootUnprotected`).
- Not every scratch register is written in full: scratch6 is only for LPDDR2 and LPDDR4 memory, scratch8 not for
  a memory type that the switch does not know (`Scratch6Filled`, `Scratch8Filled`); the remaining bits are what they were.
- The T210 table is not free of overlaps: scratch2, 35, 3, 36 and 4 are set to zero before their fields are
  packed.  Exchanging the two gives zero, which is the same only if all fields are zero (`ResetOrder`).
- The two sides of the gamepad are independent as long as no report arrives on the other rail from a device that
  counts as this side (`SidesIndependent`).  Such a report changes this side's bits exactly when they are not
  those already shown, and no other event on that rail does (`StrangerChanges`).

## Model

| member | source | states |
|---|---|---|
| `Heap.FirstFit` | apps/rcm-payload/bdk/mem/heap.c:48-87 | the index found is the lowest free block that fits, or none fits |
| `Heap.TilesDisjoint` | apps/rcm-payload/bdk/mem/heap.c:29-98 | in a gapless arena an earlier block ends before a later one begins |
| `Heap.TilesAligned` | apps/rcm-payload/bdk/mem/heap.c:33-34 | every node is 32-aligned and lies inside the arena |
| `Heap.CoalesceCanonical` | apps/rcm-payload/bdk/mem/heap.c:104-119 | one forward pass over any tiling leaves no two free neighbours, the same extent and the same live blocks |
| `Heap.AllocPlaces` | apps/rcm-payload/bdk/mem/heap.c:29-98 | an allocation adds exactly one live block, new and large enough; the arena grows by size + 32 exactly when nothing fits |
| `Heap.Heap.constructor` | apps/rcm-payload/bdk/mem/heap.c:22-26 | an empty heap is valid |
| `Heap.Heap.Search` | apps/rcm-payload/bdk/mem/heap.c:48-87 | walking the in-band links finds the first fit, or the last node if there is none |
| `Heap.Heap.Split` | apps/rcm-payload/bdk/mem/heap.c:54-77 | the words of both headers and of the following one after a split; nothing else changes |
| `Heap.Heap.Take` | apps/rcm-payload/bdk/mem/heap.c:54-79 | the headers describe the carved list, and no live payload changes |
| `Heap.Heap.Extend` | apps/rcm-payload/bdk/mem/heap.c:89-97 | one new block at the old end; the heap stays valid and live payloads stay |
| `Heap.Heap.Place` | apps/rcm-payload/bdk/mem/heap.c:36-97 | refines the first-fit allocation on block lists, address and live contents included |
| `Heap.Heap.Malloc` | apps/rcm-payload/bdk/mem/heap.c:134-137 | one allocation step of a run, with the u32 rounding |
| `Heap.Heap.Visit` | apps/rcm-payload/bdk/mem/heap.c:107-118 | one turn of the pass merges a free node into its free predecessor in memory as on the list |
| `Heap.Heap.CoalescePass` | apps/rcm-payload/bdk/mem/heap.c:104-119 | the pass over the links computes the coalesced list from any list and keeps live payloads |
| `Heap.Heap.FreeNode` | apps/rcm-payload/bdk/mem/heap.c:100-120 | refines freeing on block lists; every remaining payload is unchanged |
| `Heap.Heap.Free` | apps/rcm-payload/bdk/mem/heap.c:146-150 | a release step, or nothing at all for a pointer below the heap |
| `Heap.Heap.Calloc` | apps/rcm-payload/bdk/mem/heap.c:139-144 | an allocation step whose block is zero, and only that block is cleared |
| `Heap.Heap.Poke` | apps/rcm-payload/bdk/mem/heap.c:134-144 | a caller that stores inside its own block leaves the heap valid |
| `Heap.Heap.Monitor` | apps/rcm-payload/bdk/mem/heap.c:152-177 | total is the extent of the arena, used the bytes of live nodes |
| `HeapTheorems.AlignCovers` | apps/rcm-payload/bdk/mem/heap.c:33-34 | the rounded size covers the request if and only if the request is at most 2^32 - 32 |
| `HeapTheorems.CallocCovers` | apps/rcm-payload/bdk/mem/heap.c:139-144 | the same for the product of calloc |
| `HeapTheorems.AllocReuses` | apps/rcm-payload/bdk/mem/heap.c:51-80 | the lowest free node that is large enough is used, and split if and only if at least 128 bytes are left: the resulting list in bytes |
| `HeapTheorems.AllocGrows` | apps/rcm-payload/bdk/mem/heap.c:89-97 | if there is none, one node of the size is added at the end |
| `HeapTheorems.AllocUsed` | apps/rcm-payload/bdk/mem/heap.c:152-177 | an allocation raises the used bytes by the block's size and 32 |
| `HeapTheorems.FreeUsed` | apps/rcm-payload/bdk/mem/heap.c:152-177 | freeing a block lowers them by the same |
| `HeapTheorems.LiveDisjoint` | apps/rcm-payload/bdk/mem/heap.c:29-98 | live payloads are 32-aligned, inside the arena and pairwise disjoint |
| `HeapTheorems.LinksInverse` | apps/rcm-payload/bdk/mem/heap.c:62-71 | prev and next are inverse to each other, and null exactly at the ends |
| `HeapTheorems.FreeRemoves` | apps/rcm-payload/bdk/mem/heap.c:100-120 | free removes exactly its block from the live ones, keeps the extent and leaves no two free neighbours |
| `HeapTheorems.AllocCanonical` | apps/rcm-payload/bdk/mem/heap.c:51-97 | splitting and extending keep "no two free neighbours" |
| `HeapTheorems.CanonicalUnique` | apps/rcm-payload/bdk/mem/heap.c:100-120 | two coalesced heaps with the same extent and live blocks are the same list |
| `HeapTheorems.FreeUndoesMalloc` | apps/rcm-payload/bdk/mem/heap.c:29-120 | freeing what malloc just returned restores the block list if and only if malloc did not grow the arena |
| `HeapTheorems.FreeCommutes` | apps/rcm-payload/bdk/mem/heap.c:100-120 | the order in which two blocks are freed does not matter |
| `HeapTheorems.StepGood` | apps/rcm-payload/bdk/mem/heap.c:29-150 | every step keeps the tiling, the coalesced form and the links in memory, and the arena never shrinks |
| `HeapTheorems.RunGood` | apps/rcm-payload/bdk/mem/heap.c:29-150 | every state of every run from an empty heap tiles the arena, has no two free neighbours and is linked in memory |
| `HeapTheorems.RunKeepsContents` | apps/rcm-payload/bdk/mem/heap.c:55-144 | over any run, a block that is neither freed nor stored into keeps its place and every word |
| `Swap.Forwarder.CopyFile` | apps/forwarder/src/swap.cpp:81-115 | at every moment only the destination differs; success means an equal copy on a sound card |
| `Swap.Forwarder.WriteHandoff` | apps/forwarder/src/swap.cpp:55-79 | at every moment the handoff is the old document, the whole new one, or absent |
| `Swap.Forwarder.RenameOver` | apps/forwarder/src/swap.cpp:141-145 | the file moves, or at worst the destination has been cleared |
| `Swap.Forwarder.CleanUp` | apps/forwarder/src/swap.cpp:147-152 | at every moment only backup, staged file and handoff may have gone |
| `Swap.Forwarder.Prepare` | apps/forwarder/src/swap.cpp:223-252 | the attempt is recorded, then the staged file verified, then copied, or nothing but handoff and copy has changed |
| `Swap.Forwarder.Exchange` | apps/forwarder/src/swap.cpp:254-269 | throughout the two renames the old binary is at target or backup; after a single failure it is back at the target and the copy is gone |
| `Swap.Forwarder.Confirm` | apps/forwarder/src/swap.cpp:271-282 | Installed implies that the target matches the digest; only then is anything deleted; if nothing fails, a target that does not match is replaced by the backup and nothing else changes; on a sound card one failure is made good too |
| `Swap.Forwarder.Install` | apps/forwarder/src/swap.cpp:223-282 | every crash point of an install; its result and card when nothing fails, also for a corrupted copy |
| `Swap.Forwarder.RollBackNow` | apps/forwarder/src/swap.cpp:160-169 | every crash point of a roll-back; RolledBack implies a target; the exact card when nothing fails |
| `Swap.Forwarder.RestoreNow` | apps/forwarder/src/swap.cpp:210-215 | every crash point of a restore; Restored implies a target; the exact card when nothing fails |
| `Swap.Forwarder.Decide` | apps/forwarder/src/swap.cpp:175-198 | the action is the recovery decision on the card, or Unrecoverable if the handoff cannot be read; what each action presupposes of the files |
| `Swap.Forwarder.RunSwap` | apps/forwarder/src/swap.cpp:173-283 | every state a run ever puts on the card is one of its crash points; what each result implies; the exact result and card when nothing fails; with a corrupted copy, or on a sound card one failed operation, the target is the old binary or the installed one |
| `SwapTheorems.DecisionTable` | src/nsx/core/update/handoff.cpp:166-247 | which attempts and files lead to each of the seven actions, both ways |
| `SwapTheorems.HandoffRead` | src/nsx/core/update/handoff.cpp:108-121 | a handoff is accepted if and only if it decodes, attempts are 0 to 1000 and the limit 1 to 1000 |
| `SwapTheorems.NoHandoffResult` | apps/forwarder/src/swap.cpp:175-188 | without a readable handoff: Unrecoverable, and nothing changes |
| `SwapTheorems.SpentBudgetResult` | apps/forwarder/src/swap.cpp:160-169 | attempts at the limit and a binary left: RolledBack, the target or else the backup at the target, handoff, staged file and backup gone |
| `SwapTheorems.LostTargetResult` | apps/forwarder/src/swap.cpp:210-215 | budget left, target missing, backup there: Restored, the backup at the target, the rest gone |
| `SwapTheorems.NothingStagedResult` | apps/forwarder/src/swap.cpp:204-205 | nothing staged and nothing to restore or roll back: Unrecoverable, and nothing changes |
| `SwapTheorems.StagedResult` | apps/forwarder/src/swap.cpp:223-282 | a staged file that matches is installed and everything else deleted; one that does not costs one attempt and changes nothing else |
| `SwapTheorems.BadCopyResult` | apps/forwarder/src/swap.cpp:271-279 | a corrupted copy that does not verify leaves the old target, the staged file and one attempt more |
| `SwapTheorems.OldBinaryKept` | apps/forwarder/src/swap.cpp:254-281 | until the new target verifies, the pre-run binary is byte-identical at target or backup |
| `SwapTheorems.TouchedIsRecorded` | apps/forwarder/src/swap.cpp:223-251 | once a swap touches a binary its attempt is on record, and staged or target matches the digest |
| `SwapTheorems.MismatchTouchesNothing` | apps/forwarder/src/swap.cpp:236-245 | on a digest mismatch nothing but the handoff changes, at any moment |
| `SwapTheorems.AlwaysPresent` | apps/forwarder/src/swap.cpp:141-281 | over every history, once a binary is at target or backup there is one in every later state |
| `SwapTheorems.BudgetStep` | apps/forwarder/src/swap.cpp:223-231 | no run raises the remaining budget, and a swap that touches a binary lowers it |
| `SwapTheorems.SwapRunsBounded` | apps/forwarder/src/swap.hpp:43-49 | in any crash history the swaps that touched a binary are at most the budget at the start |
| `SwapTheorems.ExhaustedInstalls` | src/nsx/core/update/handoff.cpp:192-215 | with a spent budget the decision still installs if and only if staged is there and target and backup are not |
| `SwapTheorems.SwapRunsFinite` | src/nsx/core/update/handoff.cpp:114-119 | from any card at all the tries are bounded |
| `SwapTheorems.AlwaysRecoverable` | apps/forwarder/src/swap.cpp:173-283 | on a sound card every state of every history is recoverable, with only original or verified binaries at target and backup |
| `SwapTheorems.RecoveryCompletes` | apps/forwarder/src/swap.cpp:173-283 | after any such history one undisturbed run leaves an original or verified binary at the target |
| `SwapTheorems.RunKeepsGood` | apps/forwarder/src/swap.cpp:160-282 | a run keeps an original or verified binary at target or backup at every moment if and only if the target is good or absent, or the run ends without touching a binary |
| `SwapTheorems.AlwaysGoodIff` | apps/forwarder/src/swap.cpp:173-283 | every history keeps one if and only if no run will act, or the target is good or absent and copies are sound, the budget is spent or the staged file does not verify |
| `SwapTheorems.CorruptCopyLosesOld` | apps/forwarder/src/swap.cpp:247-276 | two runs and one corrupt copy that lose the old binary, operation by operation |
| `SwapTheorems.NoHandoffRow` | apps/forwarder/src/swap.cpp:190-198 | without a handoff the action is Unrecoverable, which agrees with the recovery table if and only if target and backup are absent |
| `SwapTheorems.RollBackRestores` | apps/forwarder/src/swap.cpp:160-169 | a roll-back restores the backup if and only if no other binary is at the target |
| `Smmu.VacantIsIdentity` | apps/rcm-payload/bdk/mem/smmu.h:64-66 | a vacant entry translates its address to itself with full access |
| `Smmu.VacantSection` | apps/rcm-payload/bdk/mem/smmu.h:64-66 | a vacant directory entry and a vacant table entry say the same of every address |
| `Smmu.TableRoundTrip` | apps/rcm-payload/bdk/mem/smmu.h:53-68 | a directory entry made for a table decodes to that table |
| `Smmu.NeverVacant` | apps/rcm-payload/bdk/mem/smmu.h:60-68 | and is never mistaken for a vacant one |
| `Smmu.MappedEntry` | apps/rcm-payload/bdk/mem/smmu.c:152-152 | an entry decodes to its page and its attributes |
| `Smmu.OrBit` | apps/rcm-payload/bdk/mem/smmu.h:64-68 | the or of the encodings, bit by bit |
| `Smmu.WalkIs` | apps/rcm-payload/bdk/mem/smmu.c:126-144 | the word that governs an address, in addresses: the directory word, or the table word if it has the next bit |
| `Smmu.WordsAre` | apps/rcm-payload/bdk/mem/smmu.h:53-68 | the words of vacant directory and table entries and of an entry for a table, as numbers |
| `Smmu.ExpandedDirectory` | apps/rcm-payload/bdk/mem/smmu.c:134-142 | expansion keeps the directory well formed: every table aligned, allocated, and owned by one section |
| `Smmu.ExpansionPreserves` | apps/rcm-payload/bdk/mem/smmu.c:134-142 | expanding a vacant section changes the entry of no 32-bit address |
| `Smmu.StorePte` | apps/rcm-payload/bdk/mem/smmu.c:151-152 | storing one entry changes the translation of its page and of no other |
| `Smmu.MapTranslates` | apps/rcm-payload/bdk/mem/smmu.c:147-157 | inside the range an address goes to its page's counterpart with attr, outside where it went, across directory boundaries and wrap-around |
| `Smmu.Smmu.PageAlloc` | apps/rcm-payload/bdk/mem/smmu.c:48-54 | the next num pages, zeroed; nothing else changes; both sizes in u32 arithmetic |
| `Smmu.Smmu.AllocPdir` | apps/rcm-payload/bdk/mem/smmu.c:56-62 | a well-formed directory in which every address is vacant; word k of it is 0xE0000000 + 1024 k |
| `Smmu.Smmu.FillTable` | apps/rcm-payload/bdk/mem/smmu.c:137-139 | every entry of the new table is its page's identity mapping; word k of it is 0xE0000000 + 1024 pdn + k |
| `Smmu.Smmu.Expand` | apps/rcm-payload/bdk/mem/smmu.c:134-142 | the section has a table of its own, whose address and words are given; the directory stays well formed |
| `Smmu.Smmu.GetPte` | apps/rcm-payload/bdk/mem/smmu.c:126-145 | the address of the entry that governs iova, in the table that was there or in a new page, with every translation as before |
| `Smmu.Smmu.Map` | apps/rcm-payload/bdk/mem/smmu.c:147-157 | after cnt pages exactly the range is remapped, the directory is well formed, and each page's table word is its frame number or attr |
| `Rtc.RunningYearIs` | apps/rcm-payload/bdk/rtc/max77620-rtc.c:92-97 | the scaled division finds the March-based year that contains the day |
| `Rtc.DayRoundTrip` | apps/rcm-payload/bdk/rtc/max77620-rtc.c:92-117 | day to date and back is the identity, through a valid date |
| `Rtc.NextDayIs` | apps/rcm-payload/bdk/rtc/max77620-rtc.c:131-141 | the day count of the next calendar day is one more |
| `Rtc.CalendarAgrees` | apps/rcm-payload/bdk/rtc/max77620-rtc.c:92-117 | the closed formulas agree with counting days one at a time from 1970-01-01 |
| `Rtc.EpochToDateExact` | apps/rcm-payload/bdk/rtc/max77620-rtc.c:80-120 | no sum, difference or product leaves the u32 range, for any epoch, so the result is that of the integer formulas |
| `Rtc.EpochToDateValid` | apps/rcm-payload/bdk/rtc/max77620-rtc.c:80-120 | the date is valid and is the calendar's |
| `Rtc.EpochToDateSeconds` | apps/rcm-payload/bdk/rtc/max77620-rtc.c:80-120 | the POSIX expression of the date is the epoch |
| `Rtc.DateToEpochPosix` | apps/rcm-payload/bdk/rtc/max77620-rtc.c:122-147 | equals the POSIX.1-2017 expression modulo 2^32 |
| `Rtc.EpochRoundTrip` | apps/rcm-payload/bdk/rtc/max77620-rtc.c:80-147 | for every u32 epoch, to date and back is the identity |
| `Rtc.DateRoundTrip` | apps/rcm-payload/bdk/rtc/max77620-rtc.c:80-147 | a valid date from 1970 on survives to epoch and back if and only if its POSIX time fits a u32 |
| `Rtc.PosixInjective` | apps/rcm-payload/bdk/rtc/max77620-rtc.c:122-147 | different valid times have different POSIX times |
| `CardTree.LowerLetters` | apps/rcm-payload/bootloader/main.c:424-428 | the capital letters become the small ones |
| `CardTree.LowerOthers` | apps/rcm-payload/bootloader/main.c:424-428 | no other character changes |
| `CleanupRules.ContainsIs` | apps/rcm-payload/bootloader/main.c:492-493 | strstr finds a string if and only if it lies somewhere inside |
| `CleanupRules.ProtectedNames` | apps/rcm-payload/bootloader/main.c:461-473 | the protected files by name |
| `CleanupRules.NamedFilesKept` | apps/rcm-payload/bootloader/main.c:459-559 | at every moment each of these files has its contents at its path or below /apgtmppackfolder |
| `CleanupWalk.SkippedNames` | apps/rcm-payload/bootloader/main.c:432-443 | the skipped folders at the root by name; the two deeper entries never match there |
| `CleanupWalk.NamedFoldersKept` | apps/rcm-payload/bootloader/main.c:589-607 | everything below backup, emummc, emutendo, jksv, nintendo, retroarch and roms is unchanged |
| `CleanupWalk.FitsBufferIs` | apps/rcm-payload/bootloader/main.c:542-596 | the paths fit if and only if none is longer than 238 characters |
| `CleanupRules.CanDeleteFolder` | apps/rcm-payload/bootloader/main.c:430-457 | the search loop decides membership in the skip list |
| `CleanupRules.CanDeleteFile` | apps/rcm-payload/bootloader/main.c:459-501 | the two search loops decide whether a file is protected |
| `CardTree.JoinTokens` | apps/rcm-payload/bootloader/main.c:397-416 | the pieces that strtok finds make up the path again |
| `CleanupRules.UnlinkSafe` | apps/rcm-payload/bootloader/main.c:535-556 | deleting an unprotected file or an empty directory keeps every protected file and the staged files |
| `CleanupRules.UnlinkCopySafe` | apps/rcm-payload/bootloader/main.c:376-378 | so does deleting what is at the staged place of a protected file that is in place |
| `CleanupRules.RenameSafe` | apps/rcm-payload/bootloader/main.c:379-381 | so does moving a file to its place in the staging folder |
| `CleanupRules.RootUnprotected` | apps/rcm-payload/bootloader/main.c:608-625 | no file at the root is protected |
| `CleanupMove.DirAtIs` | apps/rcm-payload/bootloader/main.c:404-416 | a directory that is made is a dot-free staged path, and the path itself if that has no dot |
| `CleanupMove.WayMade` | apps/rcm-payload/bootloader/main.c:404-416 | if the file can be moved, the directories made complete the way to its place |
| `CleanupMove.RenameNeeds` | apps/rcm-payload/bootloader/main.c:392-422 | and only then |
| `CleanupMove.MovedCouldMove` | apps/rcm-payload/bootloader/main.c:372-422 | a file that is at its staged place at any moment could be moved when the cleanup started |
| `CleanupMove.BlockedStays` | apps/rcm-payload/bootloader/main.c:503-631 | a protected file that could not be moved at the start is at its path at every moment |
| `CleanupMove.FreshCanMove` | apps/rcm-payload/bootloader/main.c:404-421 | without a staging folder a file can be moved if and only if no directory on its path has a dot |
| `CleanupMove.DroppedPieceBlocks` | apps/rcm-payload/bootloader/main.c:376-416 | the directories made for a path with a dotted piece can block another, dot-free file |
| `CleanupMove.MirrorCanMove` | apps/rcm-payload/bootloader/main.c:503-559 | while the staging folder holds only old contents and copies, what could be moved at the start still can |
| `CleanupMove.MirrorMoved` | apps/rcm-payload/bootloader/main.c:392-422 | and moving such a file keeps it so |
| `CleanupWalk.MovedOnlyIf` | apps/rcm-payload/bootloader/main.c:561-631 | the protected files have all been moved aside only if each of them could be moved at the start |
| `CleanupWalk.EndsEmpty` | apps/rcm-payload/bootloader/main.c:561-631 | a walk that leaves only non-empty directories leaves nothing, and every protected file is at its staged place |
| `CleanupWalk.FreshAllCanMove` | apps/rcm-payload/bootloader/main.c:561-631 | without a staging folder each of them can be moved if and only if none is below a dotted folder |
| `Cleanup.Cleaner.EasyRename` | apps/rcm-payload/bootloader/main.c:372-384 | only the file and its place change; it moves with its contents or stays, and if nothing fails it moves if and only if its directories exist and no non-empty directory is in its place |
| `Cleanup.Cleaner.MakeDirs` | apps/rcm-payload/bootloader/main.c:396-416 | only the directories named by the dot-free pieces are added; if nothing fails, each of them that no file keeps from being made is there |
| `Cleanup.Cleaner.EasyMove` | apps/rcm-payload/bootloader/main.c:392-422 | if nothing fails the file moves if and only if, on the card it finds, each directory on the way is there or is absent and dot-free, and no non-empty directory is in its place |
| `Cleanup.Cleaner.HandleFile` | apps/rcm-payload/bootloader/main.c:534-548 | an unprotected file goes, a protected one is moved aside or stays |
| `Cleanup.Cleaner.DeleteMembers` | apps/rcm-payload/bootloader/main.c:520-550 | every member of the directory is dealt with and nothing outside it changes |
| `Cleanup.Cleaner.DeleteNode` | apps/rcm-payload/bootloader/main.c:503-559 | the recursion ends, the buffer names the same path again, nothing outside the directory changes, and if nothing fails only protected files and non-empty directories are left inside; in an orderly walk nothing |
| `Cleanup.Cleaner.PerformCleanup` | apps/rcm-payload/bootloader/main.c:561-631 | at every moment each protected file has its contents at its path or at its staged path, and other staged files stay; skipped folders are unchanged; if nothing fails, all protected files have been moved aside if and only if each could be at the start, and then nothing else is left |
| `LowPower.PackBit` | apps/rcm-payload/bdk/mem/sdram_lp0.c:22-26 | each bit of a packed register is the source's bit inside the range and the old bit outside |
| `LowPower.LastWrite` | apps/rcm-payload/bdk/mem/sdram_lp0.c:28-32 | the index found is the last operation to cover the bit, or none covers it |
| `LowPower.SaveBit` | apps/rcm-payload/bdk/mem/sdram_lp0.c:22-32 | after any table every bit is what its last writer says, or what it was |
| `LowPower.FieldBit` | apps/rcm-payload/bdk/mem/sdram_lp0.c:22-26 | bit d of a field that begins at bit n is bit n + d of the word |
| `LowPower.ReadBack` | apps/rcm-payload/bdk/mem/sdram_lp0.c:22-32 | with disjoint destinations every field reads back its source field |
| `LowPower.OrderIndependent` | apps/rcm-payload/bdk/mem/sdram_lp0.c:22-32 | and every permutation of the table gives the same registers |
| `LowPower.SaveOnReg` | apps/rcm-payload/bdk/mem/sdram_lp0.c:28-32 | a register depends on its own operations only, wherever in the table they are |
| `LowPower.FilledRegister` | apps/rcm-payload/bdk/mem/sdram_lp0.c:144-866 | a register that its operations fill exactly holds their fields and nothing of what it held before |
| `LowPower.Pmc.Pack` | apps/rcm-payload/bdk/mem/sdram_lp0.c:22-26 | the two updates of the macro on one register |
| `LowPower.Pmc.SaveAll` | apps/rcm-payload/bdk/mem/sdram_lp0.c:45-866 | the registers after a table of packs |
| `LowPower.Scratch6Filled` | apps/rcm-payload/bdk/mem/sdram_lp0.c:144-913 | its packs, from two places of the table, write each bit of scratch6 exactly once if and only if the memory is LPDDR2 or LPDDR4 |
| `LowPower.Scratch8Filled` | apps/rcm-payload/bdk/mem/sdram_lp0.c:803-913 | the same of scratch8 if and only if it is LPDDR2, LPDDR4 or DDR3 |
| `LowPower.Scratch58Filled` | apps/rcm-payload/bdk/mem/sdram_lp0.c:198-822 | the same of scratch58 |
| `LowPower.Scratch59Filled` | apps/rcm-payload/bdk/mem/sdram_lp0.c:203-824 | the same of scratch59 |
| `LowPower.Scratch60Filled` | apps/rcm-payload/bdk/mem/sdram_lp0.c:204-826 | the same of scratch60 |
| `LowPower.Scratch61Filled` | apps/rcm-payload/bdk/mem/sdram_lp0.c:207-828 | the same of scratch61 |
| `LowPower.Scratch62Filled` | apps/rcm-payload/bdk/mem/sdram_lp0.c:209-829 | the same of scratch62 |
| `LowPower.Scratch6Holds` | apps/rcm-payload/bdk/mem/sdram_lp0.c:144-913 | after any table with these packs, which bits of which parameter each bit of scratch6 is; its old bits 7:0 if they are not written |
| `LowPower.Scratch8Holds` | apps/rcm-payload/bdk/mem/sdram_lp0.c:803-913 | the same of scratch8, with its old bits 29:0 |
| `LowPower.Scratch58Holds` | apps/rcm-payload/bdk/mem/sdram_lp0.c:198-822 | after the table, which bits of which parameter each bit of scratch58 is |
| `LowPower.Scratch59Holds` | apps/rcm-payload/bdk/mem/sdram_lp0.c:203-824 | after the table, which bits of which parameter each bit of scratch59 is |
| `LowPower.Scratch60Holds` | apps/rcm-payload/bdk/mem/sdram_lp0.c:204-826 | after the table, which bits of which parameter each bit of scratch60 is |
| `LowPower.Scratch61Holds` | apps/rcm-payload/bdk/mem/sdram_lp0.c:207-828 | after the table, which bits of which parameter each bit of scratch61 is |
| `LowPower.Scratch62Holds` | apps/rcm-payload/bdk/mem/sdram_lp0.c:209-829 | after the table, which bits of which parameter each bit of scratch62 is |
| `LowPower.ResetBit` | apps/rcm-payload/bdk/mem/sdram_lp0.c:37-38 | after a reset and fields each bit is that of the last field that covers it, else zero, whatever came before |
| `LowPower.ResetOrder` | apps/rcm-payload/bdk/mem/sdram_lp0.c:1105-1126 | with the reset last the register is zero; the order does not matter if and only if every field is zero |
| `LowPower.Scratch2Holds` | apps/rcm-payload/bdk/mem/sdram_lp0.c:1105-1110 | after the table, which bits of which parameter or constant each bit of scratch2 is, whatever came before; zeros above |
| `LowPower.Scratch35Holds` | apps/rcm-payload/bdk/mem/sdram_lp0.c:1112-1113 | after the table, which bits of which parameter or constant each bit of scratch35 is, whatever came before; zeros above |
| `LowPower.Scratch3Holds` | apps/rcm-payload/bdk/mem/sdram_lp0.c:1115-1120 | after the table, which bits of which parameter or constant each bit of scratch3 is, whatever came before; zeros above |
| `LowPower.Scratch36Holds` | apps/rcm-payload/bdk/mem/sdram_lp0.c:1122-1123 | after the table, which bits of which parameter or constant each bit of scratch36 is, whatever came before; zeros above |
| `LowPower.Scratch4Holds` | apps/rcm-payload/bdk/mem/sdram_lp0.c:1125-1126 | after the table, which bits of which parameter or constant each bit of scratch4 is, whatever came before; zeros above |
| `JoyConCrc.JcCrc` | apps/rcm-payload/bdk/input/joycon.c:211-225 | the nested loops compute the CRC defined byte by byte |
| `JoyConCrc.CrcIsRemainder` | apps/rcm-payload/bdk/input/joycon.c:211-225 | which is the remainder of long division, bit by bit, of the message followed by eight zero bits |
| `JoyConCrc.CrcOfOne` | apps/rcm-payload/bdk/input/joycon.c:71-72 | the CRC of nothing is 0 and that of the byte 1 is 0x8D |
| `JoyConCrc.CrcLinear` | apps/rcm-payload/bdk/input/joycon.c:215-223 | the CRC of the xor of two messages is the xor of their CRCs |
| `JoyConCrc.SelfCheck` | apps/rcm-payload/bdk/input/joycon.c:211-225 | a message followed by a byte gives zero if and only if the byte is its CRC |
| `JoyConCrc.TwoByteError` | apps/rcm-payload/bdk/input/joycon.c:211-225 | exactly which errors within two neighbouring bytes go unnoticed |
| `JoyConCrc.ByteDetected` | apps/rcm-payload/bdk/input/joycon.c:211-225 | messages that differ in one byte have different CRCs, at any length |
| `JoyConCrc.BurstDetected` | apps/rcm-payload/bdk/input/joycon.c:211-225 | so have messages that differ only within eight consecutive bits |
| `JoyConPad.ReportShows` | apps/rcm-payload/bdk/input/joycon.c:358-394 | over any interleaving each side's bits are its latest report since its rail was cleared, else zero |
| `JoyConPad.NoStrayBits` | apps/rcm-payload/bdk/input/joycon.c:369-382 | no bit outside the two masks is ever set |
| `JoyConPad.ViewOnRail` | apps/rcm-payload/bdk/input/joycon.c:369-382 | if no report of a device of this side arrives on the other rail, a side's view is that of its own rail's events |
| `JoyConPad.SidesIndependent` | apps/rcm-payload/bdk/input/joycon.c:358-394 | two such runs that agree on one rail agree on that side's bits |
| `JoyConPad.StrangerChanges` | apps/rcm-payload/bdk/input/joycon.c:369-382 | an event on the other rail changes a side's bits if and only if it is a report of a device of this side with other bits than those shown |
| `JoyConPad.StrangerInterferes` | apps/rcm-payload/bdk/input/joycon.c:369-382 | a left device on the right rail sets left bits |
| `JoyConPad.Driver.ParseWiredHid` | apps/rcm-payload/bdk/input/joycon.c:358-394 | one report event, or none for other commands; the bits inside the mask 0xFF2900 or 0x0056FF of the device's side become those of the report, all others stay |
| `JoyConPad.ButtonBytes` | apps/rcm-payload/bdk/input/joycon.c:367-367 | the right, shared and left byte are bits 7:0, 15:8 and 23:16 of the report |
| `JoyConPad.InsideOutside` | apps/rcm-payload/bdk/input/joycon.c:371-372 | the two halves of the merge are the bits inside and outside the mask |
| `JoyConPad.Driver.ParseWiredInit` | apps/rcm-payload/bdk/input/joycon.c:426-438 | one identify event for the MAC reply; the type of that rail's device and nothing else changes |
| `JoyConPad.Driver.InitConn` | apps/rcm-payload/bdk/input/joycon.c:717-735 | one timeout event if and only if more than a second has passed, in u32 arithmetic; it clears exactly the bits of the rail's mask |
| `JoyConPad.Driver.ConnCheck` | apps/rcm-payload/bdk/input/joycon.c:771-805 | one detach event per empty rail, which clears exactly the bits of its mask |

## Left out

- Heap.Heap.Malloc: requires that the arena stays below 2^32, which the source never checks.
- Heap.Heap.Calloc: the zero fill is one step; the library's memset is not modelled word by word.
- Heap.Heap.Free: requires a live pointer or one below the heap; the source trusts its callers likewise.
- Heap.Heap.Monitor: leaves out the printing, and requires a heap that has been used, as the source does.
- Swap.Forwarder.RunSwap: leaves out messages, paths and the handoff's remaining fields; the six paths are distinct and `exists` is faithful.
- Smmu.Smmu.Map: requires a page-aligned address, at most 2^20 pages, and room for the tables that are still missing, which the source never checks; flushes of the hardware's caches are left out.
- Smmu.MapTranslates: requires attributes clear of the frame bits.
- Cleanup.Cleaner.DeleteNode: requires that every path fits the 256-byte buffers, so the overflow result is not modelled; directory listings are snapshots taken when the directory is opened.
- Cleanup.Cleaner.EasyMove: models the calls that the cleanup makes, for a protected file and its staged place.
- Cleanup.Cleaner.EasyRename: the same; the renames after an update are not modelled.
- Cleanup.Cleaner.PerformCleanup: paths fit the buffers here too.  Which files have moved is stated for a staging folder that is not a file and holds no dotted directory of a protected file; otherwise it depends on the order of the listing.  Printing and the sizes of its string buffers are left out.
- LowPower.Pmc.SaveAll: takes the table as a parameter; only the lines of scratch2 to 4, 6, 8, 35, 36 and 58 to 62 are written out, not the rest of the T210 table nor the T210B01 half of the file.
- JoyConPad.Driver.InitConn: the packets it receives while setting a rail up again are separate events; sticks, battery and connection flags are left out.
- `finishUpdate`: it ignores failed renames and then deletes the staging folder, so nothing is conserved.
- SHA-256, the JSON parser and serialiser, and the rest of the core library: they are used through their contracts only.
- `max7762x.c`: the voltage and enable codes of the PMIC regulators are not modelled.
- Clock, memory-controller and display register scripts, sensors, charger, touch, downloads and the user interface are not modelled: they are device access without a state of their own to reason about.
