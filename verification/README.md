# OnyxZygisk: a model of the injector and its daemon

OnyxZygisk injects modules into Android app processes and `system_server`. A
ptrace monitor follows `init` to the exec of zygote and has a loader map a
library into it by remote system calls; a root daemon decides which modules are
served, and activates freshly installed ones without a reboot. This project
models the parts of it with unbounded state and proves what they promise.

The Dafny files follow the program's components.

- `Pages.dfy`, `Words.dfy`: page arithmetic, little-endian words, C strings, the four ABIs.
- `RemoteLoader.dfy`, `LoadedImage.dfy`, `Relocation.dfy`, `RelocatedImage.dfy`,
  `LibraryLoad.dfy`, `RefusedMappings.dfy`: the remote ELF loader. The library file is a byte sequence,
  the tracee a map from addresses to cells with a byte and a protection, and
  remote mmap, mprotect and writes are updates of it which may fail; an mmap
  answers with the raw word of the result register.
- `ElfSymbols.dfy`, `SymbolCount.dfy`, `EntryPoint.dfy`: the ELF hash functions, symbol lookup, the
  derived symbol count, and the entry found with it followed into the loaded image.
- `FrameworkRestart.dfy`, `FrameworkMarker.dfy`, `RestartGuard.dfy`, `StagedSwap.dfy`,
  `DeferredService.dfy`, `ServedModules.dfy`: the hot-plug protocol of the daemon.
  Processes are interleaved step by step; boots, deaths of `system_server`,
  dying daemons and failing file operations are steps of the environment.
- `InitMonitor.dfy`, `CrashLoopCounter.dfy`: the ptrace monitor and its crash-loop counter.
- `Atexit.dfy`, `Sanitize.dfy`, `SanitizeMaps.dfy`: algorithms that rewrite an array in place.
- `Texts.dfy`, `Order.dfy`, `FnNodes.dfy`, `FnScan.dfy`, `FnScope.dfy`, `ApatchCsv.dfy`,
  `MountArgv.dfy`, `ShellQuote.dfy`: functional nodes, and the codecs.

Code that changes state is a class or a method proved against a specification
function; the lemmas are about that function. Each marker read, write or removal
in the hot-plug protocol is one successful atomic step. A `char` of an ELF or C
string stands for a byte. `dafny verify dfyconfig.toml` checks everything.

## Where the code and its promises part

Each of these is stated by the member named with it; where a promise fails, the
condition under which it holds is proved in both directions.

- A segment with p_filesz larger than p_memsz is mapped beyond the reserved span (`LoadedImage.MappedPagesStayInSpan`).
- The loader compares the result of a remote mmap with 0 and -1 only
  (loader/src/ptracer/remote_csoloader.cpp:710, 770, 807), while a failed call
  returns its negated errno (loader/src/ptracer/utils.cpp:779-782): every errno but 1 passes
  for an address. Which refusals a load survives is `RefusedMappings.AnswersPassExactlyWhen`:
  those of mappings the loader has nothing to write to. What it then leaves is as linked
  exactly when the refused file parts are meant to be zeros
  (`RefusedMappings.ImageExactlyWhen`, `RefusedMappings.RefusalsShowExactlyWhen`): a refused mapping of zero pages
  does no harm up to the 64th segment, but a text segment whose mapping is refused with
  EACCES ends up as zeros, under its own protection, in a load that succeeds
  (`RefusedMappings.RefusedFilePasses`, `RefusedMappings.RefusedSegmentIsZero`).
- A 32-bit loader counts the file offset of a mapping in pages, and mmap2 in units of 4096 bytes:
  with 16 KiB pages every segment that does not begin in the first file page is
  mapped from the wrong offset (`RemoteLoader.OffsetArrivesExactlyWhen`).
- Segments after the 64th keep the mapping protection (`LoadedImage.ProtectionsExact`).
- A framework marker that is removed without the lock between the record of a
  restart and its kill lets two kills fall into one removal interval
  (`FrameworkRestart.BudgetAfterRemoval`).
- Overlapping scans can start any number of repairs for one heal
  (`FrameworkRestart.RepairsUnboundedWithOverlap`): each record written over a marker that
  changed since its scan read it loses the heals counted in between, and the bound
  holds exactly while no more heals are lost than are left
  (`FrameworkRestart.RepairsBoundedExactlyWhen`). With the count at zero and no new scans it holds
  exactly when at most two scans in flight may still start one (`FrameworkRestart.RepairsAfterRemoval`).
- A swap that finds its only old copy in a stale backup deletes it first, so a
  second failing rename loses the copy (`StagedSwap.OldCopyKept`).
- A swap does not look at `applying`: a worker of an earlier swap can run the new
  copy's service a second time (`DeferredService.OncePerSwapExactlyWhen`); and a
  claim whose worker died blocks the module until the next swap or boot
  (`DeferredService.RunsAgainExactlyWhen`).
- Only arm libraries make a deferred service due (zygiskd/src/zygiskd.rs:1970-1975):
  a module with x86 libraries alone is never scheduled by a scan (`DeferredService.Registry.RunPendingStagedServices`).
- A library that cannot be copied shifts the ids of all later modules and of every
  node (`ServedModules.ClassicIdsExactlyWhen`, `ServedModules.NodeIdsExactlyWhen`).
- A zygote that is handed to the injector stays among the candidates, although the
  comment at loader/src/ptracer/monitor_impl.cpp:591-592 says that it leaves them:
  the wait status looked at there is the one of the halt (`InitMonitor.CandidateLeavesExactlyWhen`).
- A process that is killed before its first stop is continued all the same and stays
  among the candidates (`InitMonitor.AnsweredExactlyWhen`).
- A crash loop in which the daemon is dead at a start is not counted further
  (`CrashLoopCounter.DeadDaemonStopsCounting`, `CrashLoopCounter.EveryStartCountsExactlyWhen`).
- A daemon that has reported an error is not replaced before its process exits: until then
  every zygote start is refused (`CrashLoopCounter.PreparedExactlyWhen`, `CrashLoopCounter.RefusedUntilExit`).
- The TracerPid pass is idempotent on every text but skips a key right behind an
  empty or zero value at which it stopped (`Sanitize.AdjacentKeyIsMissed`,
  `Sanitize.MissedExample`); what is left is characterised by `Sanitize.NoneLeftExactlyWhen`.
- The maps pass treats newline-terminated lines only; the comment at
  loader/src/injector/clean.cpp:296-299 also mentions the end of the file (`SanitizeMaps.EveryLineTreated`).
- A node whose directory name has a line break, or white space at an end, does not come back
  from the stream; only a malformed one can have such a name (`FnNodes.StreamComesBackExactlyWhen`).
- `list_contains` finds the empty needle in the empty list (`FnScope.WireMembership`),
  so a process name that begins with a colon counts as listed when no app is.
- An unquoted security context that ends with a carriage return loses it on the
  next read (`ApatchCsv.FileRoundTripExactlyWhen`).
- `recompact` only logs the answer of `needs_recompaction` and goes on (`Atexit.NeedsExactlyWhenDiscarding`).

## Model

| member | source | states |
|---|---|---|
| Pages.RoundsDown | loader/src/ptracer/remote_csoloader.cpp:57-63 | rounding an address down to its page is the address minus its remainder by the page size, for every page size |
| RemoteLoader.ComputeLoadLayout | loader/src/ptracer/remote_csoloader.cpp:78-122 | succeeds exactly when the highest wrapped segment end is above the lowest segment start; when no segment comes within a page of the end of the address space, that is when some PT_LOAD ends above the start of some PT_LOAD, and the answer is the smallest page-aligned span that contains every PT_LOAD segment |
| RemoteLoader.OffsetArrivesExactlyWhen | loader/src/ptracer/remote_csoloader.cpp:65-73 | the file offset handed to the remote mmap arrives as intended exactly on a 64-bit ABI, with 4096-byte pages, or for the first page of the file |
| RemoteLoader.VaddrToOffset | loader/src/ptracer/remote_csoloader.cpp:125-136 | the file offset of a vaddr is that of the first PT_LOAD whose file part, with its end wrapped, holds it, and none when no file part does |
| RemoteLoader.LoadSegments | loader/src/ptracer/remote_csoloader.cpp:744-827 | when it succeeds no mmap returned 0 or -1, each address holds what the mmaps that were honoured leave there in table order, a file mapping was refused only where nothing is zeroed behind it or the zeroing went through, and the records of the first 64 segments are kept for the protection loop; addresses no header touches keep their cells whatever the outcome |
| RemoteLoader.ApplyProtections | loader/src/ptracer/remote_csoloader.cpp:866-884 | when it succeeds every page has the protection of the last record that covers it, and bytes are untouched; when it fails the whole reservation is unmapped |
| LoadedImage.MappedPagesStayInSpan | loader/src/ptracer/remote_csoloader.cpp:744-810 | all MAP_FIXED pages lie inside the reserved span exactly when no segment's file part ends above the page-rounded top of the span (p_filesz <= p_memsz is sufficient) |
| LoadedImage.OwnSegmentOnly | loader/src/ptracer/remote_csoloader.cpp:755-810 | for page-disjoint segments no MAP_FIXED mapping overwrites another segment: an address is decided by its own header alone |
| LoadedImage.MemoryImage | loader/src/ptracer/remote_csoloader.cpp:744-827 | for well-formed page-disjoint segments every byte of a file part comes from the file page whose offset arrived, which is the file's byte at its vaddr_to_offset whenever the intended offset arrives, and the rest up to memsz is zero for a writable segment, for one without file contents, and on every page past the file pages |
| LoadedImage.FinalProtection | loader/src/ptracer/remote_csoloader.cpp:814-884 | a page of segment j ends with the segment's ELF flags when j < 64, and keeps the mapping protection otherwise |
| LoadedImage.ProtectionsExact | loader/src/ptracer/remote_csoloader.cpp:735-884 | all mapped pages end with their ELF flags exactly when there are at most 64 PT_LOADs or each later one that maps anything is plain read-write |
| LibraryLoad.LoadAt | loader/src/ptracer/remote_csoloader.cpp:700-884 | a load that returns success went through reservation, mapping, relocation and protection of one span with no mmap answering 0 or -1; on a 64-bit process its base is at least 4 GiB |
| LibraryLoad.PlacedExactlyWhen | loader/src/ptracer/remote_csoloader.cpp:700-827 | for every library with well-formed page-disjoint segments, in a load that returned success the mapping loop left the placed image, before relocation and protection, exactly when no mmap answered with an errno |
| RefusedMappings.ImageExactlyWhen | loader/src/ptracer/remote_csoloader.cpp:700-884 | a load that returned success leaves every byte of every segment outside the relocation targets as linked and under its ELF protection exactly when the reservation is no errno, each file part reads as meant from what arrived (as zeros, when its mapping was refused), and each segment after the 64th wants the protection its pages have anyway; a refused mapping of zero pages does no harm up to the 64th segment |
| RefusedMappings.RefusalsShowExactlyWhen | loader/src/ptracer/remote_csoloader.cpp:700-884 | with at most 64 segments whose file offsets arrive the final image is as linked exactly when every file part whose mapping was refused holds only zeros in the file |
| RefusedMappings.RunCell | loader/src/ptracer/remote_csoloader.cpp:744-884 | every byte of a segment's pages after any load that returned success: its protection is the ELF one up to the 64th segment, and outside the relocation targets it is what the honoured calls left over the zeros of the reservation |
| RefusedMappings.RefusedSegmentIsZero | loader/src/ptracer/remote_csoloader.cpp:755-810 | a segment whose file mapping was refused, in a load that returned success, reads as zero over its whole file part, under its ELF protection up to the 64th segment |
| RefusedMappings.RefusedOnlyWhenInert | loader/src/ptracer/remote_csoloader.cpp:452-587 | in a load that returned success a refused file mapping has no tail to zero and holds no relocation target, and refused zero pages hold none: the write would have failed |
| RefusedMappings.AnswersPassExactlyWhen | loader/src/ptracer/remote_csoloader.cpp:744-884 | over an honest reservation, the answers of the kernel with which a load can return success are exactly those whose refused file mappings have no tail to zero and on whose granted pages every relocation of the span lands, provided that every relocation has a value |
| RefusedMappings.RefusedFilePasses | loader/src/ptracer/remote_csoloader.cpp:755-777 | for every library that loads when everything is granted: the load also returns success when the kernel refuses with EACCES the file mappings of any segments the loader has nothing to write to, and the image is then not the linked one if one of them holds a byte other than zero |
| RefusedMappings.GrantedFilePasses | loader/src/ptracer/remote_csoloader.cpp:700-884 | a library whose relocations have values and land on its pages loads without an errno when the kernel grants every mapping |
| LibraryLoad.LoadedByte | loader/src/ptracer/remote_csoloader.cpp:700-884 | after a load that returned success with no errno among its mmaps every byte outside the relocation targets is as linked (file byte or zero), with its ELF protection while the segment table has room |
| LibraryLoad.WordsAsAsked | loader/src/ptracer/remote_csoloader.cpp:452-619 | after such a load with non-overlapping targets a RELATIVE word is load bias plus addend, a symbol word is the symbol's address (plus the addend where its type has one), and 0 for a symbol without an address and for the two EH-frame registration functions |
| LibraryLoad.LoadedTarget | loader/src/ptracer/remote_csoloader.cpp:452-619 | each relocated word of such a load is the one its entry asks for over the mapped image, whatever the order of the entries |
| Relocation.ResolveSymbolAddr | loader/src/ptracer/remote_csoloader.cpp:383-441 | local definitions give load bias plus value; undefined names are searched in the DT_NEEDED libraries in order, then in the linker for the dl* family; anything else fails |
| Relocation.ApplyRelocations | loader/src/ptracer/remote_csoloader.cpp:589-619 | when it succeeds every patched word was writable and the space is the one that applying RELA, REL and PLT entries in order leaves; mappings and protections are unchanged whatever the outcome |
| RelocatedImage.TargetWord | loader/src/ptracer/remote_csoloader.cpp:452-587 | with non-overlapping targets each target holds the word its entry asks for, computed from the original contents |
| RelocatedImage.OutsideTargets | loader/src/ptracer/remote_csoloader.cpp:452-587 | bytes outside every target keep their value |
| RelocatedImage.RebasedTargets | loader/src/ptracer/remote_csoloader.cpp:452-619 | the same file loaded at two bases: words of RELATIVE entries and locally defined symbols differ by exactly the difference of the load biases, except that a symbol whose address wraps to 0 at a base gives the word 0 there; all other relocated words are equal |
| RelocatedImage.RebasedElsewhere | loader/src/ptracer/remote_csoloader.cpp:589-884 | the same file loaded at two bases: outside the relocation targets the images are equal byte for byte |
| RelocatedImage.RebasedWord | loader/src/ptracer/remote_csoloader.cpp:452-587 | the words two biases give one entry over the same original word differ by the bias difference or not at all, except that a local symbol at address 0 gives the word 0 |
| ElfHash.CalculateGnuHash | loader/src/include/elf_parser.hpp:195-201 | the shift-and-add loop computes the GNU hash |
| ElfHash.GnuHashIsPolynomial | loader/src/include/elf_parser.hpp:195-201 | the hash is the polynomial in 33 over the whole name reduced once modulo 2^32: wrapping at every step loses nothing else |
| ElfHash.ResidueIsRemainder | loader/src/common/elf_parser.cpp:200-200 | the bucket a hash selects is its remainder by the number of buckets |
| ElfHash.CalculateSysvHash | loader/src/include/elf_parser.hpp:181-193 | the shift-and-fold loop computes the System V hash |
| ElfHash.SysvHashIs28Bits | loader/src/include/elf_parser.hpp:181-193 | the top four bits of the System V hash are always zero |
| ElfSymbols.FindSymbolByGnuHash | loader/src/common/elf_parser.cpp:185-218 | on a well-formed table the lookup terminates and returns the value of the first hashed symbol of that name, 0 when there is none: neither the Bloom test nor the chain walk loses a symbol |
| ElfSymbols.ChainReaches | loader/src/common/elf_parser.cpp:203-217 | a bucket's first index is at or before each of its symbols, with no symbol of another bucket in between |
| ElfSymbols.FindSymbolBySysvHash | loader/src/common/elf_parser.cpp:220-231 | the chain walk returns the first symbol of that name on the chain of its bucket |
| ElfSymbols.SysvAgrees | loader/src/common/elf_parser.cpp:220-231 | on a well-formed table with unique names the System V lookup agrees with the plain search of the symbol table |
| ElfSymbols.ElfImage.BuildSymbolCache | loader/src/common/elf_parser.cpp:233-245 | the cache holds, for each name, the first sized function or object of that name, and nothing else |
| ElfSymbols.ElfImage.FindSymbolByLinearScan | loader/src/common/elf_parser.cpp:247-253 | the cached scan returns the value of the first sized function or object of that name, 0 when there is none |
| ElfSymbols.ElfImage.FindSymbolOffset | loader/src/common/elf_parser.cpp:127-147 | the three lookups are tried in order and the first non-zero offset is returned |
| ElfSymbols.OffsetIsPlainSearch | loader/src/common/elf_parser.cpp:127-147 | with a System V table and unique names, the offset is the value the plain search of the dynamic symbols gives when that is not 0, and the linear scan's otherwise: trying the GNU table first changes nothing |
| SymbolCount.CountSymbols | loader/src/ptracer/remote_csoloader.cpp:305-345 | the bucket maximum and the chain walk compute the derived symbol count, also for a file that ends early, whenever the walk ends |
| SymbolCount.SmallFilesAreCountable | loader/src/ptracer/remote_csoloader.cpp:326-339 | below 4 GiB the chain walk ends whatever the file holds |
| SymbolCount.SymbolCountExact | loader/src/ptracer/remote_csoloader.cpp:305-345 | for a well-formed table the derived count is exactly one past the last hashed symbol |
| SymbolCount.FindDynsymValue | loader/src/ptracer/remote_csoloader.cpp:356-371 | the scan returns the value of the first defined symbol with a usable name equal to the one asked for |
| SymbolCount.LinearScanFinds | loader/src/ptracer/remote_csoloader.cpp:305-371 | with the derived count the scan finds every defined symbol: it returns the first of its name |
| SymbolCount.LinearScanAgreesWithHash | loader/src/ptracer/remote_csoloader.cpp:305-371 | for a name that is unique the scan returns what the GNU hash lookup returns |
| EntryPoint.EntryIsLinkedByte | loader/src/ptracer/remote_csoloader.cpp:977-1016 | after a load that returned success with no errno among its mmaps, load bias plus the value found for a defined symbol in a segment is an address of the reserved span, and it holds the byte that was linked there with the segment's protection |
| FrameworkRestart.SameBootMarkersRecordARestart | zygiskd/src/zygiskd.rs:639-687 | over every interleaving of restarts, scans and removals within one boot, a marker of that boot, on disk or about to be written, records at least one restart |
| FrameworkRestart.KillBudget | zygiskd/src/zygiskd.rs:639-687 | over any run of a boot system_server is killed for a module at most MAX_FRAMEWORK_RESTARTS times more than its marker is removed |
| FrameworkRestart.KillsBetweenRemovals | zygiskd/src/zygiskd.rs:639-687 | between two removals at most MAX_FRAMEWORK_RESTARTS restarts are recorded, and as many kills happen, plus one whose restart was recorded before the first removal |
| FrameworkRestart.BudgetAfterRemoval | zygiskd/src/zygiskd.rs:639-687 | right after a removal the kill budget holds for every continuation exactly when no recorded restart still waits for its kill |
| FrameworkRestart.UnlockedRemovalIsReachable | zygiskd/src/zygiskd.rs:1606-1611 | a removal without the lock between the record and the kill is reachable in every boot |
| FrameworkRestart.RepairBound | zygiskd/src/zygiskd.rs:724-804 | while scans do not overlap a framework transaction gets at most MAX_FRAMEWORK_DAEMON_STARTS repair starts |
| FrameworkRestart.RepairsBoundedExactlyWhen | zygiskd/src/zygiskd.rs:724-804 | over every run of a boot, scans overlapping or not: the repair starts since the last removal stay within MAX_FRAMEWORK_DAEMON_STARTS exactly when the heals lost by records written over a changed marker are no more than the heals that are left |
| FrameworkRestart.ExcessIsLost | zygiskd/src/zygiskd.rs:724-804 | over every run the repair starts beyond the heals on disk equal the heals lost: each record loses what the marker on disk counts beyond what its scan had read, and every removal starts the count over |
| FrameworkRestart.AlwaysCountedExactlyWhen | zygiskd/src/zygiskd.rs:724-804 | the marker counts every repair start in every state of a run exactly when each record finds the heals on disk that its scan had read |
| FrameworkRestart.RepairsAfterRemoval | zygiskd/src/zygiskd.rs:696-805 | whenever the count has just started over, the bound on repair starts holds for every continuation without new scans exactly when at most MAX_FRAMEWORK_DAEMON_STARTS scans in flight may still start a repair |
| FrameworkRestart.NeededRepair | zygiskd/src/zygiskd.rs:737-782 | a needed repair asks for one more start while starts are left and unplugs the module when none is; otherwise the scan adopts, removes or leaves the marker |
| FrameworkRestart.RepairsAreCounted | zygiskd/src/zygiskd.rs:724-804 | in an undisturbed transaction every repair start costs exactly one heal, so the remaining budget falls with each, and each recorded pid differs from the one recorded before |
| FrameworkRestart.RepairsUnboundedWithOverlap | zygiskd/src/zygiskd.rs:724-804 | when scans may overlap any number of repairs can start while the counter grows by one |
| FrameworkRestart.Daemon.RestartFrameworkOnce | zygiskd/src/zygiskd.rs:639-687 | run without interruption it records the running framework and kills it when there is no marker of this boot, and changes nothing otherwise |
| FrameworkRestart.Daemon.RunFrameworkActivations | zygiskd/src/zygiskd.rs:696-805 | run without interruption: no server or a marker of the running one changes nothing; a marker that is missing, of another boot or of a missing module is removed; a running daemon is adopted; otherwise one start with one more heal unless the claim is taken, or, with no heal left, an unplug |
| FrameworkMarker.MarkerRoundTrip | zygiskd/src/zygiskd.rs:507-522 | a marker written for any boot id the daemon reports is read back field by field |
| RestartGuard.ResolveIsIdempotent | zygiskd/src/zygiskd.rs:1751-1825 | re-running startup resolution in the same boot changes nothing, whatever the guard file holds |
| RestartGuard.UnpluggedExactlyWhen | zygiskd/src/zygiskd.rs:1751-1914 | over every run across boots a plugged module ends unplugged exactly when some daemon start of the run found a confirming or observing guard of another boot, or some SystemServerStarted event found the observed framework replaced within its boot |
| RestartGuard.GuardIsGoneBySecondBoot | zygiskd/src/zygiskd.rs:1751-1914 | over any sequence of daemon starts, events, checks and reboots: once the daemon has started in two later boots the guard is gone and the module was cleared as stable or unplugged |
| RestartGuard.FirstBootIsNeverBlamed | zygiskd/src/zygiskd.rs:1751-1825 | startup resolution never unplugs in the boot that armed the guard nor in the first later boot |
| RestartGuard.SkippedBootsDoNotCount | zygiskd/src/zygiskd.rs:1751-1825 | a later boot in which no daemon starts does not count: the module is then still being tried in the second one |
| RestartGuard.GuardKeeper.ResolveStaleRestartGuard | zygiskd/src/zygiskd.rs:1751-1825 | the branches of startup resolution lead to the state the specification gives |
| RestartGuard.GuardKeeper.HandleHotplugRestartGuard | zygiskd/src/zygiskd.rs:1829-1914 | the branches of the event handler lead to the state the specification gives |
| StagedSwap.ModuleDirs.SwapStagedModule | zygiskd/src/zygiskd.rs:835-914 | whatever file operations fail, the swap is an execution of the step relation that ends with the result it returns |
| StagedSwap.OldCopyKept | zygiskd/src/zygiskd.rs:835-914 | at every step of every execution a complete old copy is active or in the backup until the new one is active, exactly when the swap does not find its only old copy in a stale backup |
| StagedSwap.SwapOutcome | zygiskd/src/zygiskd.rs:835-914 | success makes the staged copy active with `disable` carried over; an error leaves both directories as before but for a `disable` flag on the staged copy, unless the restore failed too |
| StagedSwap.OneSuccessPerStagedCopy | zygiskd/src/zygiskd.rs:835-914 | of any number of concurrent swaps at most one succeeds per staged copy |
| DeferredService.ServiceAtMostOnce | zygiskd/src/zygiskd.rs:1437-1503 | when every swap finds the claim free service.sh runs at most once per swap, whether the activation worker, the event or a later scan reaches it |
| DeferredService.OncePerSwapExactlyWhen | zygiskd/src/zygiskd.rs:1948-2019 | after a swap the service runs at most once on every continuation exactly when each worker an earlier swap left in flight has run it and only has to record that |
| DeferredService.UnclaimedSwapIsSafe | zygiskd/src/zygiskd.rs:1948-2019 | in particular a swap that finds `applying` absent lets the service run at most once until the next swap |
| DeferredService.RunsAgainExactlyWhen | zygiskd/src/zygiskd.rs:1437-2019 | before the next swap service.sh can run again on some continuation exactly when a worker is on its way to it, or the module waits for it and is unclaimed or about to be released; so a claim whose worker died blocks it for good |
| DeferredService.Registry.RunPendingStagedServices | zygiskd/src/zygiskd.rs:1948-2019 | a scan after readiness schedules exactly the pending, unclaimed, ordinary modules with an arm library, each once, and claims those |
| ServedModules.EligibleModules | zygiskd/src/zygiskd.rs:941-1012 | whatever order directories are listed in, the result is strictly sorted by name and contains exactly the modules the rule over markers, flags and staged copies names, each from its newest copy |
| ServedModules.EnumerationDoesNotMatter | zygiskd/src/zygiskd.rs:941-1012 | two lists for one snapshot are equal |
| ServedModules.UnplugPass | zygiskd/src/zygiskd.rs:974-997 | on one snapshot the second unplug pass finds nothing and changes nothing |
| ServedModules.SwapKeepsNames | zygiskd/src/zygiskd.rs:941-1012 | a swap leaves the served names unchanged exactly when a new copy with a library is held back, by its own flags or the carried `disable`, just as the old library was by its flags, and a new copy without one replaces no enabled old library |
| ServedModules.SwapOfPlainCopiesKeepsNames | zygiskd/src/zygiskd.rs:941-1012 | for copies without `disable` or `remove` the names change only when the update drops the library an active copy has |
| ServedModules.ClassicIdsExactlyWhen | loader/src/injector/module.cpp:347-355 | the ids of classic modules resolve to the right modules exactly when no library was copied after one that failed |
| ServedModules.NodeIdsExactlyWhen | loader/src/injector/module.cpp:363-374 | FN ids, offset by the classic count, resolve to the right nodes exactly when every classic library was copied or no node was sent |
| ServedModules.NameSurvivesSwap | zygiskd/src/zygiskd.rs:2379-2416 | a module streamed from one snapshot still finds its directory by name after a swap: the active one for the swapped module, an unchanged one for the others |
| ServedModules.LiveLoader.Wake | loader/src/injector/module.cpp:498-540 | over any wake-ups no library is initialised twice, nor one that specialization loaded, and every listed library that can be loaded has been |
| InitMonitor.ValidRun | loader/src/ptracer/monitor_impl.cpp:217-249 | over every interleaving of commands and ptrace stops init is seized exactly in TRACING and STOPPING, EXITING is never left, the candidate and stub sets stay disjoint and without pid 1, and no job-control stop or stub SIGCHLD is passed on |
| InitMonitor.StopsAreAnswered | loader/src/ptracer/monitor_impl.cpp:453-605 | over every run each ptrace stop of each process is answered by exactly one continue or detach, plus one continue for every death reported of a process not yet followed, less the stops taken for a daemon's exit |
| InitMonitor.AnsweredExactlyWhen | loader/src/ptracer/monitor_impl.cpp:453-605 | an event answers the stops it consumes and no others exactly when it reports neither the death of a process not yet followed, which is continued and stays a candidate, nor the stop of a daemon |
| InitMonitor.SeizesAreReleased | loader/src/ptracer/monitor_impl.cpp:217-503 | over every run init has been seized once more than it has been detached exactly while it is seized: never seized twice nor detached twice in a row |
| InitMonitor.InitGetsItsSignals | loader/src/ptracer/monitor_impl.cpp:484-540 | over every run init is continued with each signal it stopped with that is not job control, once and in order, and with no other |
| InitMonitor.HandOverOnlyWhileTracing | loader/src/ptracer/monitor_impl.cpp:613-690 | over every run a process is left frozen for an injector only if in that run, as a candidate in TRACING, it exec'ed the zygote with its daemon ready |
| InitMonitor.CandidateLeavesExactlyWhen | loader/src/ptracer/monitor_impl.cpp:564-605 | a candidate's exec removes it from the candidates except when it is handed to the injector |
| InitMonitor.AppMonitor.Loop | loader/src/ptracer/monitor_impl.cpp:424-475 | handling any sequence of events keeps the monitor in the state the specification gives |
| InitMonitor.AppMonitor.HandleChildEvent | loader/src/ptracer/monitor_impl.cpp:453-475 | the dispatch by role and the handlers behind it make one step of the specification |
| CrashLoopCounter.ReportedExactlyWhen | loader/src/ptracer/zygote_abi.cpp:42-75 | a loop is reported exactly when the run of counted starts since the last injection, with successive gaps below 30 seconds, has reached five |
| CrashLoopCounter.ValidRun | loader/src/ptracer/zygote_abi.cpp:21-75 | over any sequence of starts, injections and daemon exits the counter is the length of that run, and a full counter keeps the injection flag |
| CrashLoopCounter.ReportSpan | loader/src/ptracer/zygote_abi.cpp:42-75 | the five starts that trigger a report span at most 116 seconds |
| CrashLoopCounter.HealthyDeviceNeverCountsTwo | loader/src/ptracer/zygote_abi.cpp:21-34 | a device that reports an injection between every two starts never reaches a count of two |
| CrashLoopCounter.DeadDaemonStopsCounting | loader/src/ptracer/zygote_abi.cpp:77-110 | a start that finds the daemon dead is the last one counted until the next injection |
| CrashLoopCounter.EveryStartCountsExactlyWhen | loader/src/ptracer/zygote_abi.cpp:42-122 | while no zygote reports an injection every start is counted exactly when each start before the last found the pid of a daemon recorded, or was reported as a crash loop itself |
| CrashLoopCounter.PreparedExactlyWhen | loader/src/ptracer/zygote_abi.cpp:36-122 | after any run from a state without a daemon a zygote start is prepared exactly when it is no crash loop and either there is no daemon and one can be forked, or the recorded daemon has reported no error since it was forked |
| CrashLoopCounter.RefusedUntilExit | loader/src/ptracer/zygote_abi.cpp:36-122 | once the recorded daemon has reported an error every start is refused until its exit is reaped |
| CrashLoopCounter.ZygoteAbiManager.CheckAndPrepareInjection | loader/src/ptracer/zygote_abi.cpp:112-122 | one start counts, reports a loop, or makes sure of a daemon, as the specification gives |
| Atexit.AtexitArray.Recompact | loader/src/injector/atexit.cpp:8-43 | in place, the table keeps exactly its entries with a callback, clears the slots they leave, touches nothing behind them, and sets the three counters to match |
| Atexit.KeptInOrder | loader/src/injector/atexit.cpp:15-29 | every entry with a callback is kept, behind exactly those that stood before it |
| Atexit.DiscardsNoKeptByte | loader/src/injector/atexit.cpp:31-36 | the pages given to madvise hold no byte of a kept entry and end where the old table's pages end |
| Atexit.RecompactionIsIdempotent | loader/src/injector/atexit.cpp:8-43 | a second recompaction changes nothing and discards nothing |
| Atexit.NeedsExactlyWhenDiscarding | loader/src/include/atexit.hpp:108-111 | needs_recompaction, which is only logged, tells whether pages are given back when extracted_count_ is the number of null entries |
| Sanitize.SanitizeTracerPid | loader/src/injector/clean.cpp:233-274 | the buffer becomes the rewritten text, bytes behind nbytes stay, and the length is returned |
| Sanitize.HiddenKeeps | loader/src/injector/clean.cpp:233-274 | the pass keeps the length and every newline position |
| Sanitize.HidingIsIdempotent | loader/src/injector/clean.cpp:233-274 | running the TracerPid pass again changes nothing, on any text |
| Sanitize.NoneLeftExactlyWhen | loader/src/injector/clean.cpp:233-274 | no non-zero value is left exactly when each key with one is a key the scan stops at (every second one of a chain of adjacent keys without a non-zero value in front of it) or lies in the overwritten rest of a rewritten line |
| Sanitize.LeftExactlyMissed | loader/src/injector/clean.cpp:233-274 | key by key: a non-zero value is left in the result exactly at the keys the scan of the original text neither stops at nor overwrites |
| Sanitize.StatusLinesAreClean | loader/src/injector/clean.cpp:233-274 | on a text with the key at line starts only no non-zero value is left |
| Sanitize.AdjacentKeyIsMissed | loader/src/injector/clean.cpp:253-258 | wherever the scan stops at a key with an empty or zero value, a key with a non-zero value right behind it is left |
| Sanitize.OnlyTracedLinesChange | loader/src/injector/clean.cpp:260-271 | only the value and the rest of the line of a key with a non-zero value change |
| SanitizeMaps.SanitizeMapsBuffer | loader/src/injector/clean.cpp:300-358 | the buffer becomes the rewritten text, bytes behind nbytes stay, and the length is returned |
| SanitizeMaps.HiddenKeeps | loader/src/injector/clean.cpp:300-358 | the pass keeps the length and every newline position |
| SanitizeMaps.EveryLineTreated | loader/src/injector/clean.cpp:300-358 | every line keeps its first five fields; its path is blanked exactly when the line is terminated and the path has a marker |
| SanitizeMaps.NoLineBetrays | loader/src/injector/clean.cpp:300-358 | no complete line of the result has a marker in its path |
| SanitizeMaps.HidingIsIdempotent | loader/src/injector/clean.cpp:300-358 | running the maps pass again changes nothing |
| FnNodes.StreamRoundTrip | zygiskd/src/fn.rs:373-400 | splitting the serialized stream at blank lines and parsing each record gives back exactly the nodes |
| FnNodes.RecordRoundTrip | zygiskd/src/fn.rs:373-400 | a record gives back every field of its node |
| FnNodes.LineRoundTrip | zygiskd/src/fn.rs:115-127 | a clean value comes back from its key=value line |
| FnNodes.ParseProps | zygiskd/src/fn.rs:115-127 | the line loop computes the property map in which later lines win |
| FnNodes.SerializeFnNodes | zygiskd/src/fn.rs:373-400 | the loop writes the records in order and the empty record at the end |
| FnNodes.AcceptedNodesAreWellFormed | zygiskd/src/fn.rs:145-258 | every node the daemon accepts has the valid id of its directory and only fields that survive the stream |
| FnNodes.StreamComesBackExactlyWhen | zygiskd/src/fn.rs:145-400 | serializing the nodes of any directories, accepted or malformed, and reading the stream gives back exactly those nodes if and only if no directory's name has a line break or white space at an end |
| Texts.ListRoundTrip | zygiskd/src/fn.rs:130-140 | parse_list reads back what join wrote for every list of trimmed, non-empty items without commas |
| FnScan.ScanFnNodes | zygiskd/src/fn.rs:262-323 | whatever order the two roots are listed in, the scan is strictly sorted by priority and id and contains exactly the nodes the rule names |
| FnScan.ScanIsUnique | zygiskd/src/fn.rs:262-323 | two scans of the same directories are equal |
| FnScan.IdsAreUnique | zygiskd/src/fn.rs:269-290 | no id is listed twice although there are two roots |
| FnScope.ListContains | loader/src/injector/module.cpp:307-323 | the token loop answers whether some comma-separated token, stripped of padding, is the needle |
| FnScope.WireMembership | loader/src/injector/module.cpp:307-323 | over the comma-joined wire string the search equals membership in the daemon's parsed list, for every needle but the empty one in the empty list |
| FnScope.ScopeAgreesExactlyWhen | loader/src/injector/module.cpp:329-335 | the loader's scope decision equals the declared scope exactly when the scope is `all`, or the process has a name whose part before the colon is not empty or some app is listed; a missing name is let through |
| FnScope.AppliesExactlyWhen | loader/src/injector/module.cpp:340-345 | a node applies exactly when its trigger list names the process type or `zygote` |
| ApatchCsv.ParseCsvLine | zygiskd/src/root_impl/apatch.rs:75-100 | the character loop computes the fields of a line |
| ApatchCsv.LineRoundTrip | zygiskd/src/root_impl/apatch.rs:75-114 | parsing undoes comma-joined escaping for every non-empty field list (section 2 of RFC 4180) |
| ApatchCsv.WritePackageConfig | zygiskd/src/root_impl/apatch.rs:221-239 | the loop writes the header and one row per entry |
| ApatchCsv.ParsePackageConfig | zygiskd/src/root_impl/apatch.rs:183-216 | the line loop skips the header and malformed rows and keeps the others in order |
| ApatchCsv.FileRoundTripExactlyWhen | zygiskd/src/root_impl/apatch.rs:183-239 | reading back a written file gives the same entries exactly when every package has a name, no text has a line break, and no unquoted context ends with a carriage return |
| ApatchCsv.SetPackageFlags | zygiskd/src/root_impl/apatch.rs:244-274 | the first entry of the package and uid gets the flags that are given, or a new one is appended; all other entries stay |
| ApatchCsv.PolicyAfterUpdate | zygiskd/src/root_impl/apatch.rs:244-308 | whatever the file held, after set_package_flags has rewritten it and it is read again the uids granted root or unmounted are those another entry of the old file covers and those the new entry covers; a grant takes effect |
| ApatchCsv.UpdateIsReadBackExactlyWhen | zygiskd/src/root_impl/apatch.rs:183-274 | a rewritten file is read back entry by entry, up to a carriage return at the end of an unquoted context, exactly when the updated package has a name without a line break |
| MountArgv.WriteToMemory | loader/src/injector/fossil.cpp:44-63 | the block of exactly m_fossil_size bytes holds the four terminated strings and the flags; other memory is unchanged |
| MountArgv.ParseFromMemory | loader/src/injector/fossil.cpp:123-164 | the moving pointer computes the parse of the memory below the limit |
| MountArgv.RoundTripExactlyWhen | loader/src/injector/fossil.cpp:15-63 | a written block is read back exactly when no field has a NUL and the block lies below the search limit |
| MountArgv.ParseUndoesWrite | loader/src/injector/fossil.cpp:123-164 | then the fields, the flags and the size come back |
| MountArgv.ParsedShape | loader/src/injector/fossil.cpp:123-155 | whatever memory holds, a valid parse has NUL-free fields, lies below the limit, and its size is the size formula of its fields |
| ShellQuote.QuotedIsOneWord | zygiskd/webui/src/cli_parse.ts:90-92 | a POSIX shell reads the quoted value as one word, the value itself, whatever characters it has |
| ShellQuote.ArgumentsAreKept | zygiskd/webui/src/cli_parse.ts:90-92 | a command line of quoted arguments is read back as exactly those arguments |

## Left out

- RemoteLoader.ComputeLoadLayout: does not decode the ELF header and program headers from bytes; they are given as records. Headers that wrap around the address space get only the computed numbers, as the span then contains nothing in particular.
- LibraryLoad.LoadAt: does not cover library constructors, the staging of the path on the tracee's stack, the remote open of the library, or pages behind the end of the file; whether a remote call succeeds is the environment's choice, noticing it is modelled.
- Relocation.ResolveSymbolAddr: takes the exports of the mapped libraries and of the linker as given maps; finding the libraries by their sonames is not part of the model.
- LibraryLoad.PlacedExactlyWhen: takes page sizes of at least 4096 bytes, the smallest of any Linux kernel, so that no page-aligned span fits among the words that are errnos.
- RefusedMappings.RefusedFilePasses: shows runs that satisfy everything LoadAt promises of a success; it says nothing about how often a kernel refuses a mapping.
- EntryPoint.EntryIsLinkedByte: stops at the address; calling constructors and the entry is not modelled.
- SymbolCount.CountSymbols: says nothing of a walk that goes round for ever, which only a file of 4 GiB or more can cause; such a call does not return.
- ElfSymbols.FindSymbolByGnuHash: promises nothing for tables that no linker writes; the code reads such tables without bounds.
- FrameworkRestart.KillBudget: counts the kills for one module; other modules' restarts are deaths of system_server.
- FrameworkRestart.RepairBound: models whether the daemon runs and which system_server is alive as inputs; starting and waiting for a daemon is not modelled.
- RestartGuard.GuardIsGoneBySecondBoot: follows one guard; nothing in the current code writes a new one, and the file's white space is not modelled.
- StagedSwap.ModuleDirs.SwapStagedModule: keeps of a directory its version, completeness and disable flag; symbolic links only as paths that are not real directories.
- DeferredService.ServiceAtMostOnce: takes the clearing of the markers and the new claim at a swap as one step; post_fs_data goes first and keeps every scan out until then.
- ServedModules.EligibleModules: does not model directory names that are not UTF-8.
- InitMonitor.StopsAreAnswered: takes ptrace calls to succeed and the program a process executes as an input.
- CrashLoopCounter.ReportedExactlyWhen: uses whole seconds, as the code compares tv_sec only.
- Atexit.AtexitArray.Recompact: does not model the contents of unused slots behind the table after madvise.
- FnScan.ScanFnNodes: takes each node's parsed priority and whether sweeping it succeeds as inputs.
- FnNodes.StreamRoundTrip: treats the status as its wire text.
- FnNodes.StreamComesBackExactlyWhen: takes the error text of an unreadable descriptor as an input that is one non-empty trimmed line.
- ShellQuote.QuotedIsOneWord: reads the quoting constructs only; expansions, operators and double quotes outside single quotes are not modelled.
- Torn and failed marker writes, and timing (sleeps, grace periods): every marker access succeeds in one step.
- MountArgv::find and its heuristics, cleanMemory, mountinfo parsing: easy scans over what is modelled.
- remove_package and uid_is_manager (zygiskd/src/root_impl/apatch.rs): a filter, and a directory query.
- Socket framing, file-descriptor passing, memfd sealing, companions, SELinux contexts, JNI hooks, lsplt and CSOLoader internals, solist offsets, root-manager queries, mount namespaces, the React user interface: input and output, or foreign code.
