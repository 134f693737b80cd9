# Verified model of the boot loader's algorithms

A Dafny model of the parts of `jbinit`, the boot loader used in palera1n, that compute: the patcher that rewrites `dyld` in memory, and the small
C library and tar extractor around it. Each part is modelled in the form its source has (loops over arrays, objects with
fields, or expressions) and proved against a specification of what it is for.
`dafny verify dfyconfig.toml` checks everything.

## The parts

**The dyld patcher** (`Bits`, `Machine`, `Templates`, `Slots`, `Shellcode`, `Ranges`, `MachO`, `Elf`, `Follow`, `Finder`,
`Patcher`, `PlatformPatch`, `Simulation`, `Targets`, `Limits`, `Sample`, `InCache`, `InCacheRun`, `InCacheWindow`).
`Patcher.DyldPatcher` is the object: the buffer, the templates that are edited in place, the allocator's globals. `Finder` and
`Shellcode` specify its methods on values. `Machine` is an interpreter for the part of A64 that the patched code is made of
(Arm Architecture Reference Manual, DDI 0487, section C6.2). A program says which words of the image it runs; a `World` gives
what other instructions and all other code do. The main results: the scan patches every site, touches nothing else and never its own copies
(`PlatformPatch.ScanPatches`), and the code it leaves simulates the original with x1 forced at each site
(`Simulation.PatchedRunSimulates`). In the simulation the program is the scanned function and the copies, and any other words
one likes; the rest of dyld, between them and around them, is foreign, and there is one world for the original and one for the patched
run, so that callees may call back. A site and its foreign callee are one step. What is asked of
the world is asked in the states of the run only: that the callee entered in this state returns in both worlds and leaves the same registers when there is one frame
record more on the stack (AAPCS64, section 6.1.1), and that nothing is read from the gap, the set of memory cells in which the
two runs differ at that moment. Stores close the gap again, so a run may push, pop and call as it likes. `Sample` has a run that meets all
of this, and a callee that cannot. `Targets` has the exact conditions on the registers. The second patch, `InCache`, is idempotent, changes
two words of each accepted window, and makes the last branch of the window taken on every run; `InCacheWindow` says which windows
those are, from the references and the strings at them.

**Searching and copying** (`Search`, `Memory`). Both forms of `memmem`, and `strstr`, are the leftmost occurrence;
`memcpy` is safe for overlapping ranges.

**Printing and parsing** (`PrintfText`, `PrintfFormat`, `Printf`, `PrintfOverrun`, `PrintfFacts`, `PrintfWidth`, `PrintfDirective`,
`PrintfLayout`, `PrintfMeaning`, `Strtoull`, `StrtoullFacts`, `Console`).
`PrintfFormat.Render` is the text a format denotes, without any buffer; `Printf.Printer` is the interpreter that writes it, one
character at a time, into a buffer of limited size. `Strtoull.Meaning` is the value a text denotes. `PrintfMeaning` says in
plain terms what each conversion prints, and `StrtoullFacts` what each text put together from its parts means. Printing and parsing undo
each other.

**Tar** (`Tar`, `TarFormat`, `TarRoundTrip`, `TarLimits`) against an encoder of ustar archives (IEEE Std 1003.1-1990, section 10.1.1), and
**directory creation** (`Directories`, `DirectoryFacts`) against a set of directories in which `mkdir` fails exactly on a
missing parent or an existing directory. `Bytes`, `Numbers` and `Wrappers` are shared.

## Where the code does less than its name, comment or interface says

The model follows the code, and each point is a proved condition or a concrete input.

- An address in a zero-fill section is given a pointer into the start of the file (`MachO.ComesBackExact`, `MachO.ZeroFillLost`).
- A `br` gets its own copy only when it is the first match; later ones share slot 0, whatever that holds (`Targets.JumpExact`). They still reach their targets when it goes through the same register (`Targets.TargetExact`).
- The branch displacement is or-ed in unmasked: it is right exactly from 0 to 2^25 - 1 words (`Limits.ReachExact`).
- A call through x1, fp or lr, and a jump through x1, do not reach the address the register held (`Targets.RegistersExact`).
- The shift of an ADD is not looked at when an address is followed (`Follow.ShiftExact`).
- The displacement of a `b.cond` is taken from the wrong bits, and right for one displacement of each condition only (`Follow.BCondExact`).
- `#` can print fewer digits than the value has (`PrintfWidth.HashExact`, `PrintfWidth.HashLosesSample`), and zero padding beyond 32 characters drops the sign (`PrintfWidth.SignExact`).
- `.*` with a negative argument is a precision of zero, so that a string is not printed at all, where C has it as no precision (`PrintfDirective.SaidExact`, `PrintfMeaning.StringField`).
- A left-justified number ignores its precision (`PrintfWidth.PrecisionExact`, `PrintfWidth.PrecisionLostSample`).
- A format that ends in a cut off directive is read past its end (`PrintfOverrun.OverrunExact`).
- The tar reader is documented to support the 1990 headers fully, but a name of exactly 100 bytes runs into the mode field, the prefix field is not read, so that such entries land in the wrong place (`TarRoundTrip.NameExact`, `TarRoundTrip.PrefixSample`), a link target of 100 bytes is not terminated (`TarRoundTrip.LinkTarget`), and a filtered name ends the extraction instead of skipping an entry (`TarRoundTrip.FilteredEnds`).
- `create_dir` on an absolute path that exists goes on to an empty path, and indexes in front of it (`DirectoryFacts.DefinedExact`).
- `create_dir` leaves paths with an empty component cut, unless a directory behind the last empty component could be made (`DirectoryFacts.MendsExact`).

## Model

| member | source | states |
|---|---|---|
| `Simulation.PatchedRunSimulates` | src/jbinit/patch_dyld/patch.c:13-63 | For every program, platform, pair of environments and proper run of the intended program (the original with x1 forced to the platform, unless it is 10, at each `br`/`blr` of the scanned function), the image that the scan leaves, run for some number of steps from the same state, ends with the same registers, sp and pc, and the same memory and flags outside the gap of the run, which is computed from the run: frame records and what callees put elsewhere because of them, less what stores and compares have overwritten since |
| `Simulation.PatchedRunAgrees` | src/jbinit/patch_dyld/shellcode.c:49-93 | When callees keep what differs below the sp they are entered with, the two runs end with the same registers, sp and pc, and memories that differ only on the stack below the highest such sp |
| `Simulation.RunSimulates` | src/jbinit/patch_dyld/shellcode.c:49-93 | The same for any image the scan can leave, by induction over the steps of the run; pushes, nested frames, jump tables and calls of code between the function and the copies are covered |
| `Simulation.StepSimulates` | src/jbinit/patch_dyld/shellcode.c:49-93 | One step of the intended program, site or not, is matched by finitely many steps of the patched one, and agreement is restored up to the new gap |
| `Simulation.CallSite` | src/jbinit/patch_dyld/shellcode.c:49-58 | A site whose copy makes a call (a `blr`, or a `br` that shares such a copy for its register) calls its target with x1 forced and, when the callee keeps sp, fp, lr and the sixteen saved bytes of the frame record in this state, goes on where the callee returns to, with sp, fp and lr restored |
| `Simulation.CallEntersDeeper` | src/jbinit/patch_dyld/shellcode.c:49-56 | There the callee is entered with all registers but fp and lr as in the intended program, x1 forced, and exactly one frame record more on the stack |
| `Simulation.JumpSite` | src/jbinit/patch_dyld/shellcode.c:42-47 | A site whose copy makes a jump enters its target, inside the function or outside, with only x1 (as intended) and the flags different |
| `Simulation.ExecAgrees` | src/jbinit/patch_dyld/patch.c:34 | Every instruction outside the sites that does not look into the gap treats both states alike; a store takes its two doublewords out of the gap, a compare the flags |
| `Simulation.GapInStack` | src/jbinit/patch_dyld/shellcode.c:50-56 | No instruction or callee of a tidy run carries the gap out of the dead stack |
| `Sample.FramedRun` | src/jbinit/patch_dyld/shellcode.c:49-58 | A whole function, from prologue to return, with a call through x8 of a callee that has a frame of its own and loads and stores through x0, and a load through x0 afterwards, meets the assumptions of the simulation from every state whose x0 and x8 point elsewhere, and computes what it should |
| `Sample.TouchIsCallable` | src/jbinit/patch_dyld/shellcode.c:49-58 | That callee can be called deeper in every state whose x0 points outside the gap and its own frame |
| `Sample.FollowIsSteady` | src/jbinit/patch_dyld/patch.c:34 | An instruction outside the machine that loads through x0 can be run wherever x0 points outside the gap |
| `Sample.StackArgumentIsNotCallable` | src/jbinit/patch_dyld/shellcode.c:50 | A callee that reads an argument relative to sp can never be called deeper: it finds the frame record |
| `Targets.TargetExact` | src/jbinit/patch_dyld/shellcode.c:42-93 | From every state at the site, the first indirect jump or call the patched code executes goes where the original went, if and only if the copy of the site goes through the same register, which is not x1, nor fp (nor lr, for a `blr`) where the copy makes a call |
| `Targets.JumpExact` | src/jbinit/patch_dyld/shellcode.c:70 | From every state, a patched `br` first jumps in the state of the original jump with x1 forced and the flags of the compare, if and only if the first match of the function is the same word and its register is not x1 |
| `Targets.SiteJumps` | src/jbinit/patch_dyld/shellcode.c:42-58 | The exact state in which the patched code first jumps or calls, whatever the registers and whatever the first copy was made for |
| `Targets.RegistersExact` | src/jbinit/patch_dyld/shellcode.c:49-58 | A copy goes where its register pointed at the site, from all states, if and only if the register is not x1, fp or lr for a call, and not x1 for a jump |
| `Slots.SiteBranches` | src/jbinit/patch_dyld/patch.c:28-34 | A patched site goes to its copy; `bl` sets lr to the next address, `b` changes nothing else |
| `Slots.CallEnters` | src/jbinit/patch_dyld/shellcode.c:49-55 | Machine-level run of a copy for a call: frame record, compare, forced x1, call; the exact state in which the callee is entered, for every register |
| `Slots.CallReturns` | src/jbinit/patch_dyld/shellcode.c:56-57 | When a callee comes back behind the call of the copy, two steps restore fp, lr and sp from the frame record and return to the saved link |
| `Slots.JumpLeaves` | src/jbinit/patch_dyld/shellcode.c:42-47 | Machine-level run of a copy for a jump: the exact state in which the target is reached |
| `Slots.CheckRuns` | src/jbinit/patch_dyld/shellcode.c:43-45 | The three-word check of both templates forces x1 to the platform unless it is 10, and changes only x1, the flags and pc, for either outcome of the compare |
| `Templates.StpDecodes` | src/jbinit/patch_dyld/shellcode.c:50 | The declared template word is `stp fp, lr, [sp, -16]!` under the architectural decoding |
| `Templates.MovFpDecodes` | src/jbinit/patch_dyld/shellcode.c:51 | The declared template word is `mov fp, sp` |
| `Templates.CmpDecodes` | src/jbinit/patch_dyld/shellcode.c:43 | The declared template word is `cmp x1, 10` |
| `Templates.BeqDecodes` | src/jbinit/patch_dyld/shellcode.c:44 | The declared template word is `b.eq` over the next word |
| `Templates.MovX1Decodes` | src/jbinit/patch_dyld/shellcode.c:45 | The template word with any 16-bit platform or-ed in at bit 5 is `movz x1, platform` |
| `Templates.LdpDecodes` | src/jbinit/patch_dyld/shellcode.c:56 | The declared template word is `ldp fp, lr, [sp], 16` |
| `Templates.RetDecodes` | src/jbinit/patch_dyld/shellcode.c:57 | The last template word is `ret` through lr |
| `Slots.BranchWordFields` | src/jbinit/patch_dyld/patch.c:28-34 | For displacements below 2^25 words the or-ed word keeps the opcode and its low 26 bits denote the displacement |
| `Slots.BranchDecodes` | src/jbinit/patch_dyld/patch.c:28-34 | ... and the machine decodes it as `b`/`bl` to exactly that displacement |
| `PlatformPatch.ScanPatches` | src/jbinit/patch_dyld/plooshfinder32.c:40-65 | For any image and range, with a region that has room and does not meet the range: every matching word becomes a branch to a copy that holds the check and (for `blr`) that very word, every other word outside the copies is unchanged, the scan never rewrites its own copies, and the number of copies is one for each `blr` plus one when the first match is a `br` |
| `PlatformPatch.ScanFrom` | src/jbinit/patch_dyld/plooshfinder32.c:40-65 | The invariant of that scan at every word: sites in front are patched, sites behind are as they were, the allocator has made as many copies as the count says, and no copy leaves the region |
| `PlatformPatch.NoRegionScan` | src/jbinit/patch_dyld/patch.c:14-19 | When no region is found the callbacks change nothing at all |
| `PlatformPatch.InjectExtends` | src/jbinit/patch_dyld/patch.c:13-39 | One callback at a still untouched site extends that invariant by one word, whatever was copied before |
| `PlatformPatch.DoneExtends` | src/jbinit/patch_dyld/shellcode.c:85-92 | A callback that writes one site and at most the next free slot leaves all earlier sites and their copies intact |
| `PlatformPatch.InjectBr` | src/jbinit/patch_dyld/shellcode.c:69-77 | The first copy, made for a `br`: four words at the region, and a `b` to them |
| `PlatformPatch.InjectBlr` | src/jbinit/patch_dyld/shellcode.c:77-92 | A `blr` with c copies made before: eight words at slot c, a `bl` to them, and c + 1 copies afterwards |
| `PlatformPatch.InjectShares` | src/jbinit/patch_dyld/shellcode.c:70 | A `br` after any copy makes none: it becomes a branch to slot 0, whatever that holds |
| `PlatformPatch.CopiesGrow` | src/jbinit/patch_dyld/shellcode.c:70 | The number of copies never shrinks along the scan, and grows strictly at each word that makes one |
| `Shellcode.FillAgain` | src/jbinit/patch_dyld/shellcode.c:75-82 | Or-ing the same platform into a template again changes nothing, so every copy carries exactly the platform |
| `Shellcode.BrCopy` | src/jbinit/patch_dyld/shellcode.c:69-92 | Whatever the template was filled with before by the same platform, a `br` copy is the check followed by its own jump word |
| `Shellcode.BlrCopy` | src/jbinit/patch_dyld/shellcode.c:76-92 | The same for the eight words of a `blr` copy, at slot 8 * (copies so far) |
| `Shellcode.FreshOk` | src/jbinit/patch_dyld/shellcode.c:42-58 | The templates as declared satisfy the allocator invariant |
| `Limits.NoSiteLeft` | src/jbinit/patch_dyld/patch.c:45-52 | After the scan no word of the range matches the pattern, so a second scan has nothing to do |
| `Limits.SiteExact` | src/jbinit/patch_dyld/patch.c:45-52 | A word matches the pattern if and only if the architecture decodes it to `br` or `blr` |
| `Limits.NoJumpLeft` | src/jbinit/patch_dyld/patch.c:45-52 | So no word of the range is a `br` or `blr` after the scan |
| `Finder.VisitOne` | src/jbinit/patch_dyld/plooshfinder32.c:45-62 | A patch that is disabled, or whose words do not all match, does nothing; any other is given to its callback |
| `Finder.VisitJoin` | src/jbinit/patch_dyld/plooshfinder32.c:45-63 | The patches of a set are tried one behind the other, each on what those in front of it have left |
| `Finder.ScanJoin` | src/jbinit/patch_dyld/plooshfinder32.c:44-64 | The words are visited in order, each in the image that the words in front of it have left |
| `Limits.SlotsApart` | src/jbinit/patch_dyld/shellcode.c:85-92 | The slots of any two `blr` sites are disjoint, in scan order, and inside the region |
| `Limits.SitesFollowed` | src/jbinit/patch_dyld/plooshfinder.c:78-98 | `pf_follow_branch` on any patched site gives the slot of that site, never a veneer |
| `Limits.SharingExact` | src/jbinit/patch_dyld/shellcode.c:70 | The region starts with a copy that ends in the word of a `br` site if and only if the first match of the range is that same word |
| `Limits.ReachExact` | src/jbinit/patch_dyld/patch.c:34 | The or-ed word is the intended `b` or `bl` if and only if the 32-bit displacement is in [0, 2^25) |
| `Limits.RoomIsEnough` | src/jbinit/patch_dyld/shellcode.c:24-33 | If 2 * size + 64 * copies fits between the start of `__unwind_info` and the end of `__TEXT`, and the function lies in front of it, the region the allocator picks satisfies everything the scan needs |
| `Patcher.DyldPatcher.CopyWords` | src/jbinit/patch_dyld/shellcode.c:87-89 | The copy loop puts the template at the offset and changes no other word |
| `Patcher.DyldPatcher.CopyShc` | src/jbinit/patch_dyld/shellcode.c:60-93 | The allocator with its globals and in-place templates does to image, counter and templates what the copy function specified by BrCopy and BlrCopy does |
| `Patcher.DyldPatcher.GetShcRegion` | src/jbinit/patch_dyld/shellcode.c:12-40 | The region, as a word index |
| `Patcher.DyldPatcher.InjectShc` | src/jbinit/patch_dyld/patch.c:13-39 | The callback, on the object, is the step that InjectBr, InjectBlr and InjectShares characterise |
| `Patcher.DyldPatcher.MatchCount` | src/jbinit/patch_dyld/plooshfinder32.c:48-58 | The count reaches the pattern length if and only if all words match under their masks |
| `Patcher.DyldPatcher.VisitWord` | src/jbinit/patch_dyld/plooshfinder32.c:45-63 | All patches are tried at one word in order, each on what the ones before it left |
| `Patcher.DyldPatcher.FindMaskmatch32` | src/jbinit/patch_dyld/plooshfinder32.c:40-65 | The nested loops visit each of size / 4 words once, in order, each on what the callbacks before it left |
| `Patcher.DyldPatcher.RunCallback` | src/jbinit/patch_dyld/plooshfinder32.c:58-61 | The callback of a patch, on the object |
| `Patcher.DyldPatcher.PatchPlatformCheck` | src/jbinit/patch_dyld/patch.c:41-63 | On the object: the postcondition of ScanPatches for the range of the function, or nothing changed when there is no region |
| `Patcher.DyldPatcher.PatchDyldInCache` | src/jbinit/patch_dyld_bridge.c:34-46 | Words 5 and 8 are written, and the flag set, if and only if the two references lead to the two strings |
| `Patcher.DyldPatcher.DyldInCachePatch` | src/jbinit/patch_dyld_bridge.c:48-91 | Only words 5 and 8 of accepted windows change; the answer is whether the original held an accepted window (or one had been found before) |
| `InCache.WindowsApart` | src/jbinit/patch_dyld_bridge.c:51-74 | Two matching windows never overlap |
| `InCache.WindowIntact` | src/jbinit/patch_dyld_bridge.c:34-46 | In an image under way, a window that matches has not been written to and is accepted exactly if it was at first |
| `InCache.CacheScan` | src/jbinit/patch_dyld/plooshfinder32.c:40-65 | For any image and range: exactly words 5 and 8 of the originally accepted windows change, to `nop` and `mov w0, 0`, and no window is accepted afterwards |
| `InCache.CacheScanTwice` | src/jbinit/patch_dyld/plooshfinder32.c:40-65 | A second scan changes nothing |
| `InCacheRun.PatchedWindowTaken` | src/jbinit/patch_dyld_bridge.c:34-91 | Scan and run together: from every entry state, an accepted window whose two calls leave the ten words and return in this run goes on, after the scan, where its last branch leads |
| `InCacheRun.AlwaysTaken` | src/jbinit/patch_dyld_bridge.c:42-43 | From every entry state of a rewritten window whose two calls return in this run, execution reaches the final `cbz w0` with w0 = 0 and takes it, whatever the calls return |
| `InCacheRun.AcceptedIsRewritten` | src/jbinit/patch_dyld_bridge.c:42-43 | The scan leaves every accepted window, as a program of ten words with everything else foreign to it, in the state AlwaysTaken needs, and its last branch as it was |
| `InCacheRun.OnlyOwnWrites` | src/jbinit/patch_dyld_bridge.c:42-43 | Within an accepted window, only its own two writes land, also when other windows are rewritten |
| `InCacheWindow.FitsExact` | src/jbinit/patch_dyld_bridge.c:51-74 | A word fits its place in the pattern if and only if it is the instruction that the comment beside it names |
| `InCacheWindow.FoundExact` | src/jbinit/patch_dyld_bridge.c:51-74 | A window matches if and only if it is those ten instructions |
| `InCacheWindow.AcceptsExact` | src/jbinit/patch_dyld_bridge.c:34-40 | When words 2-3 and 6-7 are the encodings of references within reach, the window is accepted if and only if the pointers of their targets are not null and the strings there are "DYLD_IN_CACHE" and "0", in this order |
| `InCacheWindow.WindowDecided` | src/jbinit/patch_dyld_bridge.c:34-46 | So the scan of any range writes `nop` and `mov w0, 0` over words 5 and 8 of such a window, and the flag is set, if and only if the strings are these; otherwise the window is left as it was |
| `InCacheWindow.WindowInsns` | src/jbinit/patch_dyld_bridge.c:51-62 | The first word of the window moves x19 to x0, and its two compares and branches look at 64 and 32 bits |
| `Follow.AdrpOffsetIsArchitectural` | src/jbinit/patch_dyld/plooshfinder.c:35-45 | The mask, shift and 33-bit sign extension give 4096 times the signed 21-bit immediate, for every word |
| `Follow.AdrpRoundTrip` | src/jbinit/patch_dyld/plooshfinder.c:35-45 | Encoding any signed 21-bit page distance and decoding it gives it back, negative ones included |
| `Follow.AddRoundTrip` | src/jbinit/patch_dyld/plooshfinder.c:105-111 | The ADD word encoding a page offset passes the check and gives the offset back |
| `Follow.XrefRoundTrip` | src/jbinit/patch_dyld/plooshfinder.c:100-136 | For every pc and target within reach, following an encoded ADRP and ADD gives the pointer of that target, for Mach-O and ELF |
| `Follow.XrefInElf` | src/jbinit/patch_dyld/plooshfinder.c:100-136 | In a well-formed ELF file the encoded pair leads to the place of its target in the part of the file that it is loaded from |
| `Follow.XrefInMachO` | src/jbinit/patch_dyld/plooshfinder.c:100-136 | In a well-formed Mach-O file it leads to its place in its section |
| `Follow.XrefReads` | src/jbinit/patch_dyld/plooshfinder.c:110-124 | Every ADRP and ADD is followed to the pointer of the address read from them |
| `Follow.MadeByRun` | src/jbinit/patch_dyld/plooshfinder.c:110-124 | That is the address in the register when the machine has run the two |
| `Follow.ShiftExact` | src/jbinit/patch_dyld/plooshfinder.c:105-124 | A shift by twelve in the ADD is not looked at: the address read is the one made if and only if there is no shift, or nothing to shift |
| `Follow.XrefNull` | src/jbinit/patch_dyld/plooshfinder.c:102-108 | Every pair that is not an ADRP and a 64-bit ADD (immediate) leads to null |
| `Follow.VeneerRoundTrip` | src/jbinit/patch_dyld/plooshfinder.c:47-76 | An encoded veneer within reach in the file is followed through its cell to the place of the address in it |
| `Follow.NoVeneer` | src/jbinit/patch_dyld/plooshfinder.c:48-55 | Three words are taken for a veneer if and only if they are `adrp x16`, `ldr x16, [x16, imm]` and `br x16` |
| `Follow.SignExtend26` | src/jbinit/patch_dyld/plooshfinder32.c:67-72 | The shift pair is the two's complement value of the low 26 bits |
| `Follow.FollowsToCopy` | src/jbinit/patch_dyld/plooshfinder.c:78-98 | The word written by the patcher is followed back to the chosen slot, which is not taken for a veneer |
| `Follow.BranchExact` | src/jbinit/patch_dyld/plooshfinder.c:78-98 | Every `b` and `bl` is followed to where the machine goes, and a word is said to be no branch if and only if it is no `b`, `bl` or `b.cond` |
| `Follow.BCondExact` | src/jbinit/patch_dyld/plooshfinder.c:82-84 | For every `b.cond` word, the displacement read from its low nineteen bits is the architectural one if and only if 31 times the displacement field plus the condition is a multiple of 2^19, that is, the field is 33825 times the condition: one displacement for each condition |
| `Follow.BCondMisread` | src/jbinit/patch_dyld/plooshfinder.c:82-84 | A word that fails it: `b.eq` two words ahead is followed to word 64 |
| `Bits.ValueOfPattern` | src/jbinit/patch_dyld/patch.c:34 | Casting an integer in range to a word and reading its low k bits gives the value modulo 2^k, for both signs |
| `Bits.ValueMasked` | src/jbinit/patch_dyld/plooshfinder.c:41-44 | Masking to the low k bits does not change the value of those bits |
| `MachO.VaPtrVa` | src/jbinit/patch_dyld/macho.c:214-224 | In a well-formed image (segments and their sections nested and disjoint in memory; those sections that are in the file nested and disjoint there, too) every address in a section of the file comes back from pointer translation, whatever zero-fill sections there are |
| `MachO.PtrVaPtr` | src/jbinit/patch_dyld/macho.c:293-303 | ... and every pointer into a section of the file from address translation, so the two are inverse bijections |
| `MachO.ComesBackExact` | src/jbinit/patch_dyld/macho.c:214-303 | The limit of the bijection, for every address in any section, zero-fill included: the pointer the code gives, and that it comes back from there if and only if the file part of its segment has that place and no section listed earlier claims it |
| `MachO.ZeroFillLost` | src/jbinit/patch_dyld/macho.c:214-224 | So no address in a zero-fill section at offset 0 comes back, unless its segment starts within that many bytes of the file; it is given a pointer into the start of the file |
| `MachO.CoverFound` | src/jbinit/patch_dyld/macho.c:196-212 | Both two-level lookups find the section that has the address, or the section of the file that has the pointer, whatever other load commands and zero-fill sections there are |
| `MachO.SectionStart` | src/jbinit/patch_dyld/macho.c:214-224 | The address of every section of a well-formed image, zero-fill or not, translates to the buffer plus the section offset |
| `MachO.NothingFound` | src/jbinit/patch_dyld/macho.c:196-212 | What no section covers is found in none: both lookups come back empty |
| `MachO.NamedSegmentExact` | src/jbinit/patch_dyld/macho.c:81-104 | The lookup by name finds the first segment whose name is that one, if and only if there is one |
| `MachO.NamedSectionExact` | src/jbinit/patch_dyld/macho.c:106-122 | The lookup by name finds the first section of the segment whose name is that one, if and only if there is one |
| `MachO.RegionIs` | src/jbinit/patch_dyld/shellcode.c:19-33 | The region lies half of the room between the start of `__unwind_info` and the end of `__TEXT`, rounded down to words, behind the end of `__unwind_info` |
| `MachO.NoRegion` | src/jbinit/patch_dyld/shellcode.c:19-22 | There is no region exactly when the segment or the section is missing |
| `MachO.GetSegment` | src/jbinit/patch_dyld/macho.c:149-175 | The loop over load commands returns the first segment that answers the query (by address; the loop by pointer, 226-253, likewise) |
| `MachO.GetSection` | src/jbinit/patch_dyld/macho.c:177-194 | The loop over sections returns the first one that answers the query |
| `MachO.GetShcRegion` | src/jbinit/patch_dyld/shellcode.c:12-40 | The region, or none when segment or section is missing |
| `MachO.RegionRoom` | src/jbinit/patch_dyld/shellcode.c:24-33 | n slots fit into `__TEXT` if and only if the room behind the halfway point suffices, for which 2 * size + 64 * n <= filesize - offset is enough |
| `Elf.VaPtrVa` | src/jbinit/patch_dyld/elf.c:52-102 | With disjoint PT_LOADs every covered address comes back from its pointer |
| `Elf.PtrVaPtr` | src/jbinit/patch_dyld/elf.c:52-102 | ... and every covered pointer from its address |
| `Elf.NothingHolds` | src/jbinit/patch_dyld/elf.c:52-102 | What no PT_LOAD holds translates to 0, in both directions |
| `Elf.ElfVaToPtr` | src/jbinit/patch_dyld/elf.c:52-74 | The loop translates with the first PT_LOAD that holds the address, and gives 0 when there is none |
| `Elf.ElfPtrToVa` | src/jbinit/patch_dyld/elf.c:76-102 | The loop translates with the first PT_LOAD that holds the pointer, and gives 0 when there is none |
| `Search.Memmem` | src/jbinit/lib/memmem.c:58-83 | Either path returns the leftmost occurrence, and none exactly when there is none, for all haystacks and needles |
| `Search.BoyerMooreHorspool` | src/jbinit/lib/memmem.c:3-56 | The skipping form returns the leftmost occurrence |
| `Search.Backtracking` | src/jbinit/lib/memmem.c:71-82 | The one-index form that steps back on a mismatch returns the leftmost occurrence |
| `Search.SkippedCannotMatch` | src/jbinit/lib/memmem.c:51-52 | No alignment that a shift passes over can match |
| `Search.FillSkip` | src/jbinit/lib/memmem.c:21-30 | The table gives every byte the distance of its last place in the needle, without the last byte, from the end |
| `Search.LeftmostUnique` | src/jbinit/lib/memmem.c:58-83 | There is one leftmost occurrence, so both paths agree wherever both apply |
| `Search.Strstr` | src/jbinit/lib/strstr.c:3-32 | The same for strings, up to their terminators |
| `Search.MatchHere` | src/jbinit/lib/strstr.c:21-28 | The inner loop matches if and only if the substring occurs there |
| `Memory.Memcpy` | src/jbinit/lib/memmove.c:3-20 | In place, for any two ranges of one array, overlapping either way: the result is the copy of the old source (MovedCells) |
| `Memory.Memmove` | src/jbinit/lib/memmove.c:22-25 | The same |
| `Memory.MovedCells` | src/jbinit/lib/memmove.c:3-20 | The destination holds the old source, and no other cell changes |
| `Memory.MovedBack` | src/jbinit/lib/memmove.c:3-20 | Copying disjoint ranges back changes nothing |
| `Strtoull.Strtoull` | src/jbinit/lib/strtoull.c:3-67 | Value and end are those of an independent reading of the text: spaces, sign, prefix, longest digit run, saturation at 2^64 - 1, negation modulo 2^64 without overflow, and the start of the string when there are no digits or the base is refused |
| `Strtoull.CutoffExact` | src/jbinit/lib/strtoull.c:40-58 | The division test holds if and only if the next accumulator would exceed 2^64 - 1, for all bases |
| `Strtoull.Accumulate` | src/jbinit/lib/strtoull.c:51-60 | One digit keeps the accumulator equal to the number so far, or saturated from the first overflow on |
| `Strtoull.Head` | src/jbinit/lib/strtoull.c:19-38 | Spaces, sign and prefix: where the digits begin, and the base they are in |
| `Strtoull.SkipSpaces` | src/jbinit/lib/strtoull.c:20-22 | Stops behind the first character that is not a space |
| `Strtoull.SkipSign` | src/jbinit/lib/strtoull.c:20-30 | At most one sign is taken |
| `StrtoullFacts.TextMeaning` | src/jbinit/lib/strtoull.c:3-67 | Spaces, a sign and digits of the base, up to something that is no digit: the number they denote with its sign, and the end of the digits, in every base; base 0 is 8 for a leading zero and 10 otherwise |
| `StrtoullFacts.HexMeaning` | src/jbinit/lib/strtoull.c:31-37 | The same behind `0x` or `0X` in base 16, and in base 0 |
| `StrtoullFacts.DecimalMeaning` | src/jbinit/lib/strtoull.c:38 | Decimal text that does not start with a zero means the same in base 0 and in base 10 |
| `StrtoullFacts.BarePrefix` | src/jbinit/lib/strtoull.c:31-65 | A prefix without digits is no number, and the end is the start |
| `StrtoullFacts.NoDigits` | src/jbinit/lib/strtoull.c:60-65 | Nor are spaces and a sign alone |
| `StrtoullFacts.Refused` | src/jbinit/lib/strtoull.c:13-18 | Bases other than 0 and 2 to 36 are refused |
| `StrtoullFacts.DigitExact` | src/jbinit/lib/strtoull.c:51-57 | The digits are 0 to 9 and the letters in either case, and nothing else |
| `StrtoullFacts.NumberJoin` | src/jbinit/lib/strtoull.c:58 | Digits weigh the base to the number of digits behind them |
| `PrintfFacts.IntegerPrintParse` | src/jbinit/lib/printf.c:685-756 | Every 64-bit value printed by `%lld`, `%lli` or `%llu` is parsed back, with the whole text consumed |
| `PrintfFacts.PrintParse` | src/jbinit/lib/printf.c:306-326 | For every 64-bit value, sign, case and base from 8 to 36, what is printed is parsed back |
| `PrintfFacts.PrefixedPrintParse` | src/jbinit/lib/printf.c:242-262 | With `#`, octal and hexadecimal text is parsed back in base 0 |
| `PrintfFacts.HashPlain` | src/jbinit/lib/printf.c:242-262 | Without a width `#` puts the prefix of the base in front of the unchanged digits |
| `PrintfFacts.DigitsValue` | src/jbinit/lib/printf.c:291-298 | With a scratch buffer of any size, the digits denote the value modulo base^size |
| `PrintfFacts.DigitsExact` | src/jbinit/lib/printf.c:316-323 | From base 8 on, 64-bit values need at most 22 digits, and these denote the value |
| `PrintfWidth.SpacePadded` | src/jbinit/lib/printf.c:199-223 | Without zero padding the field has length max(text, width) |
| `PrintfWidth.ZeroPadded` | src/jbinit/lib/printf.c:229-240 | Zero padding up to width 32 gives exactly max(text with sign, width) characters |
| `PrintfWidth.ZeroPaddedFull` | src/jbinit/lib/printf.c:237-239 | Beyond width 32 zero padding gives exactly 32 characters, all of them zeros and digits |
| `PrintfWidth.SignExact` | src/jbinit/lib/printf.c:264-274 | The minus sign is printed if and only if digits and padding do not fill the scratch buffer |
| `PrintfWidth.PrecisionExact` | src/jbinit/lib/printf.c:229-240 | Digits and zeros reach the precision if and only if the digits do by themselves, or the field is not left-justified and the precision is at most 32 |
| `PrintfWidth.PrecisionLostSample` | src/jbinit/lib/printf.c:230-240 | `%-5.3d` of 7 prints "7    ", `%5.3d` prints "  007" |
| `PrintfWidth.HashExact` | src/jbinit/lib/printf.c:242-262 | `#` keeps all digits of a nonzero value if and only if there is a precision, or the digit count avoids the widths that the prefix reclaims room from |
| `PrintfWidth.PrefixExact` | src/jbinit/lib/printf.c:250-262 | With a precision, the prefix itself is complete if and only if the padded digits leave room for it in the scratch buffer |
| `PrintfWidth.HashLosesSample` | src/jbinit/lib/printf.c:244-249 | `%#2x` of 0x12 prints "0x" |
| `PrintfMeaning.UnsignedMeaning` | src/jbinit/lib/printf.c:684-753 | For every argument and every length (none, h, hh, l, ll, t, j, z): `%u`, `%x`, `%X` and `%o` print the argument modulo the size of the type (2^32, 2^16, 2^8, 2^64) in base 10, 16, 16 and 8, without needless zeros, in letters of the case of the specifier |
| `PrintfMeaning.SignedMeaning` | src/jbinit/lib/printf.c:721-738 | `%d` and `%i` print it as a signed number of that type in base 10, behind a minus sign exactly when it is negative |
| `PrintfMeaning.BinaryMeaning` | src/jbinit/lib/printf.c:699-701 | `%b` prints at most 32 binary digits, which denote the value modulo 2^32 |
| `PrintfMeaning.ParsesBack` | src/jbinit/lib/printf.c:684-753 | All of these but `%b` parse back, the whole text, in their base, the decimal ones in base 0 as well |
| `PrintfMeaning.HashMeaning` | src/jbinit/lib/printf.c:242-262 | `#` puts `0x`, `0X`, `0` or `0b` in front of the same digits, and nothing in front of a zero |
| `PrintfMeaning.HashParses` | src/jbinit/lib/printf.c:242-262 | With it hexadecimal and octal text parses back in base 0 |
| `PrintfMeaning.IntegerField` | src/jbinit/lib/printf.c:197-278 | Any flags, width, precision and length: the digits of the plain text, or none for a zero with a precision, behind the sign that `-`, `+` or a space says, laid out at the left end, behind zeros or behind spaces, as long as they fit in the scratch buffer |
| `PrintfMeaning.StringField` | src/jbinit/lib/printf.c:796-820 | `%s` with any flags, width and precision: the string up to its terminator, cut at the precision, at the right end of a field of at least width places, or at the left end for `-` or a negative width, and spaces beside it |
| `PrintfMeaning.CharField` | src/jbinit/lib/printf.c:776-794 | The same for the character of `%c`, which is the argument modulo 256 |
| `PrintfMeaning.PointerMeaning` | src/jbinit/lib/printf.c:822-838 | `%p` prints sixteen hexadecimal digits in capitals, which parse back to the pointer |
| `PrintfMeaning.PointerField` | src/jbinit/lib/printf.c:822-838 | `%p` with any flags, width and precision: the width is ignored, zeros are not |
| `PrintfMeaning.ItselfPrinted` | src/jbinit/lib/printf.c:840-848 | A specifier that is none is printed as it is, whatever is in front of it |
| `PrintfMeaning.PercentPrinted` | src/jbinit/lib/printf.c:840-843 | Two percent signs print one |
| `PrintfMeaning.Unconverted` | src/jbinit/lib/printf.c:587-850 | No text is promised for an argument that is missing or of the wrong kind, nor for floating point |
| `PrintfMeaning.ArgumentTaken` | src/jbinit/lib/printf.c:683-849 | Each conversion takes exactly its own argument, behind those of its stars |
| `PrintfMeaning.Labelled` | src/jbinit/init_log.c:14 | A number between plain texts, as in the lines of the log: the texts as they are, and the number between them |
| `PrintfDirective.SaidExact` | src/jbinit/lib/printf.c:601-680 | From every directive that the grammar has, the loop reads the flags, width, precision and length that its parts say, stars from the arguments in order |
| `PrintfDirective.FlagsExact` | src/jbinit/lib/printf.c:601-612 | Each flag character sets its own flag, in any order and number |
| `PrintfDirective.NumberRead` | src/jbinit/lib/printf.c:188-195 | A digit run is read as the number it denotes, modulo 2^32 |
| `PrintfDirective.RenderJoin` | src/jbinit/lib/printf.c:587-850 | One complete format behind another prints one text behind the other, the second from the arguments that the first leaves |
| `PrintfDirective.PlainPrinted` | src/jbinit/lib/printf.c:589-595 | Text without a percent sign is printed as it is |
| `PrintfFormat.TruncatedReads` | src/jbinit/lib/printf.c:852-853 | What truncation leaves reads as the first min(n - 1, L) characters, and nothing behind the buffer changes |
| `PrintfOverrun.OverrunExact` | src/jbinit/lib/printf.c:587-848 | The loop reads on behind the terminator if and only if the format ends in a percent sign followed by flags, a width, a precision and a length, as a grammar has them, and nothing else, behind a part that is complete and defined by itself |
| `PrintfOverrun.CutOffExact` | src/jbinit/lib/printf.c:601-680 | The code reads a text to its end as the beginning of a directive if and only if the grammar has it: flags, then digits or a star, then a point with digits or a star, then a length, and an integer argument for each star |
| `PrintfOverrun.RenderExact` | src/jbinit/lib/printf.c:587-850 | A format has a defined output if and only if the loop stops exactly at the terminator |
| `PrintfOverrun.LonePercent` | src/jbinit/lib/printf.c:587-599 | So the loop reads on behind every format that ends in its only percent sign |
| `Printf.Printer.Vsnprintf` | src/jbinit/lib/printf.c:577-857 | For every rendered format and argument list and every n: the buffer holds the first min(n - 1, L) characters of the full text and a NUL, nothing is written when n = 0, and L is returned whatever n is |
| `Printf.Printer.EmitOne` | src/jbinit/lib/printf.c:589-849 | One round of the loop consumes one character or directive, a cut off one included, appends exactly its text at consecutive indices, and reads on where it ends, behind the terminator if need be |
| `Printf.Printer.Convert` | src/jbinit/lib/printf.c:683-849 | Each conversion appends its text, with the sign, width and length rules of the specifier |
| `Printf.Printer.FormatInteger` | src/jbinit/lib/printf.c:281-327 | Digits, prefix and sign of a value in any base are appended |
| `Printf.Printer.FormatNumber` | src/jbinit/lib/printf.c:227-277 | Padding zeros, prefix and sign in the 32-byte scratch buffer, never past its end |
| `Printf.Printer.PushPrefix` | src/jbinit/lib/printf.c:242-262 | The prefix arithmetic in the scratch buffer, never past its end |
| `Printf.Printer.WriteDigits` | src/jbinit/lib/printf.c:291-298 | The digits of the value, least significant first, and at most 32 |
| `Printf.Printer.OutRev` | src/jbinit/lib/printf.c:199-223 | The scratch buffer is appended in reverse, padded on the side the flags say |
| `Printf.Printer.FormatString` | src/jbinit/lib/printf.c:796-820 | At most precision characters of the string are appended, padded to the width |
| `Printf.Printer.FormatChar` | src/jbinit/lib/printf.c:776-794 | The character is appended, padded to the width |
| `Printf.Printer.StrnLen` | src/jbinit/lib/printf.c:171-176 | The length up to the terminator, limited |
| `Printf.Printer.GetFlags` | src/jbinit/lib/printf.c:601-612 | All leading flag characters are read, in any order and number |
| `Printf.Printer.Atoi` | src/jbinit/lib/printf.c:188-195 | The digit run is read modulo 2^32, and the position moves behind it |
| `Printf.Printer.GetWidth` | src/jbinit/lib/printf.c:614-629 | Width from digits or argument; a negative argument sets the left flag |
| `Printf.Printer.GetPrecision` | src/jbinit/lib/printf.c:631-644 | Precision from digits or argument; a negative argument is zero |
| `Printf.Printer.GetLength` | src/jbinit/lib/printf.c:646-680 | The length modifiers |
| `Printf.Printer.ReadSpec` | src/jbinit/lib/printf.c:601-680 | Flags, width, precision and length in this order, each from where the last one stopped |
| `Printf.Printer.Out` | src/jbinit/lib/printf.c:133-138 | One character more of the text is shown, if it fits |
| `Console.LineBuffer.Putchar` | src/jbinit/utils.c:45-55 | Written and pending characters together are all characters put, in order, and a newline leaves nothing pending |
| `Console.WritesCoverLines` | src/jbinit/utils.c:45-55 | There are at least as many writes as lines in what they wrote |
| `TarRoundTrip.RoundTripExact` | src/jbloader/helper/install_strap.c:45-115 | For every list of directories, files, hard and symbolic links, devices and fifos (fields in the range of their fields, prefixes included, sizes below 2^31, link targets shorter than 100 bytes, no filtered name) encoded as ustar and followed by a zero block and anything, extraction yields exactly the entries with their contents and targets, links as hard or symbolic as they were, and nothing for devices and fifos, under the paths they had, if and only if each entry has a name shorter than 100 bytes and no prefix |
| `TarRoundTrip.RoundTrip` | src/jbloader/helper/install_strap.c:45-115 | In any case it yields exactly those entries and contents in order, under the names of HeaderName, and ends at the zero block |
| `TarRoundTrip.ArchiveExtracted` | src/jbloader/helper/install_strap.c:45-115 | The same on every disk, under the names of HeaderName: failed creations and writes lose only the entry concerned (and the data behind the failed write), and extraction still ends at the zero block |
| `TarRoundTrip.EntriesExtracted` | src/jbloader/helper/install_strap.c:45-115 | Each entry consumes 1 + ceil(size / 512) blocks and has its own effect, whatever failed before and whatever follows |
| `TarRoundTrip.EntryExtracted` | src/jbloader/helper/install_strap.c:55-114 | One entry at any place of an archive: its effect, then extraction goes on right behind its last block |
| `TarRoundTrip.CopyExact` | src/jbloader/helper/install_strap.c:90-106 | The block loop delivers the data without the padding of the last block, and always moves on by ceil(size / 512) blocks |
| `TarRoundTrip.KeptPrefix` | src/jbloader/helper/install_strap.c:98-104 | What a file keeps is a prefix of its data, all of it when no write failed |
| `TarRoundTrip.HeaderChecksum` | src/jbloader/helper/install_strap.c:24-33 | The checksum field of an encoded header is accepted |
| `TarRoundTrip.HeaderNumbers` | src/jbloader/helper/install_strap.c:72-82 | uid, gid, size and time fields of an encoded header are read back |
| `TarRoundTrip.HeaderMode` | src/jbloader/helper/files.c:22-28 | ... and the mode field |
| `TarRoundTrip.HeaderName` | src/jbloader/helper/install_strap.c:79-86 | What the extractor takes for the path of an encoded entry: its name field, and on into the mode if that is full; never its prefix |
| `TarRoundTrip.HeaderKind` | src/jbloader/helper/install_strap.c:73-80 | An encoded header has the type flag of its entry at byte 156, and is not taken for the end |
| `TarRoundTrip.HeaderLink` | src/jbloader/helper/files.c:108 | The link field of an encoded header is at bytes 157 to 256 |
| `TarRoundTrip.LinkTarget` | src/jbloader/helper/files.c:105-112 | The target of a link is terminated if and only if it is shorter than its field, and is then read back |
| `TarRoundTrip.NameExact` | src/jbloader/helper/install_strap.c:71-86 | The path of an entry is read back if and only if its name is shorter than 100 bytes and its prefix is empty; a name of 100, allowed by the format, runs into the mode field |
| `TarRoundTrip.PrefixSample` | src/jbloader/helper/install_strap.c:71-86 | The entry `a` with prefix `d`, whose header is accepted, is taken for `a` |
| `TarRoundTrip.FilteredEnds` | src/jbloader/helper/install_strap.c:71 | A filtered name ends the extraction, with everything in front of it extracted and nothing behind |
| `TarLimits.FilteredExact` | src/jbloader/helper/install_strap.c:35-43 | A path is filtered if and only if its last component is `.DS_Store` or `__MACOSX`, slashes at the end aside |
| `TarLimits.BasenameExact` | src/jbloader/helper/install_strap.c:36 | The last component is what is behind the last slash in front of the slashes at the end |
| `TarLimits.ChecksumDetects` | src/jbloader/helper/install_strap.c:24-33 | A header of which one byte is changed, outside the checksum field, is refused |
| `TarLimits.HeaderRefused` | src/jbloader/helper/install_strap.c:66-69 | A refused header ends the extraction, with everything in front of it extracted and nothing behind |
| `TarLimits.EndMissing` | src/jbloader/helper/install_strap.c:58-61 | An archive without an end is extracted, and the missing end reported |
| `TarLimits.DataMissing` | src/jbloader/helper/install_strap.c:90-95 | A file whose data are cut off gets the whole blocks that are there, and the extraction ends |
| `TarLimits.SpecialSkipped` | src/jbloader/helper/install_strap.c:76-78 | Devices and fifos yield nothing, and are passed over with the blocks of whatever size they say |
| `TarLimits.DirectoryAlone` | src/jbloader/helper/install_strap.c:79 | A directory takes up its header only, whatever size that says |
| `TarLimits.LinkSkips` | src/jbloader/helper/install_strap.c:74-75 | A link of either kind, told apart by its type flag, is passed over with the blocks of the size it says |
| `TarLimits.BlanksPassed` | src/jbloader/helper/files.c:30-35 | Anything but digits in front of the number of a field is passed over |
| `TarLimits.FieldWraps` | src/jbloader/helper/files.c:30-35 | A number that does not fit the type is read modulo the size of the type, as a signed number |
| `TarLimits.ModeExact` | src/jbloader/helper/files.c:22-28 | The mode is read from its fourth digit to the end of the digits, and keeps sixteen bits |
| `TarFormat.FieldReads` | src/jbloader/helper/files.c:30-35 | An octal field written with any number of digits is read back |
| `Tar.UntarFile` | src/jbloader/helper/install_strap.c:45-115 | The loop with its buffer and handle produces the events and the outcome of the recursive form that the round trip is about |
| `Tar.CopyBlocks` | src/jbloader/helper/install_strap.c:90-106 | The same for the inner loop, short reads included |
| `Tar.VerifyChecksum` | src/jbloader/helper/install_strap.c:24-33 | Accepts if and only if the sum of the block with eight spaces for the checksum equals the field |
| `Tar.ArchiveEnd` | src/jbloader/helper/install_strap.c:18-22 | True if and only if all 512 bytes are zero |
| `Tar.Parseoct` | src/jbloader/helper/files.c:30-35 | Skips to the first octal digit and folds the run, inside the field and wrapping at the width of the type |
| `DirectoryFacts.MendsCreates` | src/jbloader/helper/files.c:61-87 | For a path, relative or absolute, with no empty component, or with a directory that can be made behind the last one: afterwards exactly the path and its ancestors have been added, and the path is as it was up to its trailing slash |
| `DirectoryFacts.MendsExact` | src/jbloader/helper/files.c:61-87 | The path is mended if and only if it is of that kind |
| `DirectoryFacts.OtherwiseCut` | src/jbloader/helper/files.c:71-80 | For every other path the buffer comes back different from what it should be |
| `DirectoryFacts.DefinedExact` | src/jbloader/helper/files.c:65-76 | The recursion never indexes in front of an empty path if and only if the number of slashes at the front is even (as in relative paths), or the directory is missing |
| `DirectoryFacts.RelativeIsDefined` | src/jbloader/helper/files.c:65-76 | So for every relative path |
| `DirectoryFacts.ComponentsExact` | src/jbloader/helper/files.c:61-87 | How a path is read, for every string: what is behind its last slash, and components in front of it; empty ones do not count |
| `DirectoryFacts.JoinedComponents` | src/jbloader/helper/files.c:61-87 | The components of a path put together from components are those, absolute or relative, with or without a slash at the end |
| `DirectoryFacts.TailKept` | src/jbloader/helper/files.c:65-66 | Nothing behind the terminator changes, and a trailing slash stays cut |
| `Directories.FileSystem.Create` | src/jbloader/helper/files.c:61-87 | The recursion on the in-place edited array does to path and directories what the recursive function on values does, and terminates |
| `Directories.FileSystem.Mkdir` | src/jbloader/helper/files.c:68 | Makes the directory if and only if it is missing and its parent is there |
| `Directories.Strlen` | src/jbinit/lib/strlen.c:3-11 | The length up to the terminator |

## Left out

- Simulation.PatchedRunSimulates: a callee is one step of the world; that one which calls back into the scanned function does the same in both worlds is a hypothesis (Callable), not proved by induction over the nesting; callees that find arguments on the stack relative to sp are excluded (Sample.StackArgumentIsNotCallable).
- Simulation.RunSimulates: the run does not itself go into the copies; memory is aligned doublewords, and no code reads or writes instruction words.
- PlatformPatch.ScanPatches: the region must have room and be apart from the scanned range; the source does not check either, and writes past the zero region otherwise. Limits.RoomIsEnough gives a condition on the headers.
- MachO.GetSegment: load commands and sections are values in order; parsing them from bytes with `cmdsize`, and the magic check, are not modelled. The unchecked use of a missing section is no result.
- MachO.GetShcRegion: the two pointers `shc_loc` and `_internal_shc_loc` are one field, and the region is a word index, which assumes that the last section ends on a word (MachO.RegionRoom says when).
- Follow.FollowsToCopy: round trips are for `b` and `bl` only.
- Patcher.DyldPatcher.PatchDyldInCache: the strings at the two references are given as a function of the pointer.
- Patcher.DyldPatcher.DyldInCachePatch: symbol lookup is not modelled, the range is a parameter; the buffer must reach nine words behind the range, as the scan reads there.
- Memory.Memcpy: lengths beyond the range of `int` (where the index would overflow) are excluded.
- Printf.Printer.Vsnprintf: float conversions are not part of this model; formats whose behaviour is undefined (missing or wrong arguments, and those that PrintfOverrun.OverrunExact says are read past their end) are excluded by the precondition; strings are shorter than 2^32 and the buffer has at least n characters; the null, function and console sinks are not modelled.
- PrintfFacts.PrintParse: base 2 is covered by PrintfFacts.DigitsValue (64-bit values have more digits than the scratch buffer), not by a round trip.
- Strtoull.Strtoull: strings have a terminator; characters are below 256.
- Search.Memmem: null pointers are not modelled.
- Tar.UntarFile: the archive is a byte sequence and the disk says which creations and writes succeed; the results of chown, chmod and set_time, and the fallback of create_file to create_dir, are folded into it; links are recorded only as events.
- TarRoundTrip.HeaderMode: the `strtol` of the mode field is modelled as its run of octal digits, without spaces, sign or saturation.
- Tar.Parseoct: signed overflow, undefined in C, is modelled as wrapping.
- Directories.FileSystem.Create: excludes only the paths on which the source indexes in front of the buffer (DirectoryFacts.DefinedExact); modes, owners and files in the way of a directory are not modelled.
- `pf_find_next`, `pf_find_prev`, `pf_find_maskmatch64`, symbol, kext and plist lookups: plain searches that the patch path does not need, or does not use.
- Boot sequence, mounting, XPC and system calls, `payload.c`: input and output or foreign calls.
- `memcmp`, `strcat`, `malloc` and the flag files: no property at the level of the rest.
