# Bang, modelled and proved

Bang is a UEFI bootloader. It reads a configuration, shows a menu, loads an ELF or
Linux kernel, and tells a Multiboot kernel what it was loaded with. This project models
the parts of it that lay out bytes, claim memory, or keep state, and proves what they
are for.

| file | what it models |
|---|---|
| `Bytes.dfy` | little-endian words, alignment, NUL-terminated strings, writing into a block |
| `MemoryMap.dfy` | firmware memory descriptors, and the block boot information is written to |
| `Names.dfy` | the table of module names, and the records that point into it |
| `Modules.dfy` | loading a directory of modules: pages, contents, names and records |
| `Multiboot2.dfy`, `Multiboot2Builder.dfy` | the Multiboot2 tags and a reader of them; the writer, and what a reader recovers of its arguments |
| `Multiboot1.dfy`, `Multiboot1Builder.dfy` | the same for the Multiboot1 structure, with its memory totals |
| `BootInfo.dfy` | loaded modules to kernel: records and names written, and read back |
| `Launch.dfy` | a Multiboot kernel's whole boot on one machine, up to the jump |
| `Machine.dfy` | what the firmware gives: pages, and physical memory |
| `Elf.dfy`, `Kernel.dfy` | the segment loader with its table of earlier requests; header detection, program headers, the whole image |
| `Linux.dfy` | a bzImage's placement, its `boot_params` page, and what lies in memory at the handover |
| `Text.dfy`, `Config.dfy`, `ConfigLaws.dfy`, `ConfigText.dfy`, `ConfigLines.dfy` | `bang.cfg`: its parser, what every parse satisfies, the round trip, and what each line says |
| `Discover.dfy` | merging what was found into what was configured |
| `Menu.dfy`, `Choice.dfy` | the menu on a console of character cells; its loop as a state machine |

## How the model stands to the code

- Integers are unbounded and every width the code narrows or wraps at is written out:
  `Low32` and `Low64` are the casts and products of a release build, which is what the
  Makefile builds and which wraps silently.
- Code that writes into a buffer writes into an `array`; the loader's statics are the
  fields of classes; loops are loops. Functions say what the result is to be, and the
  methods' contracts tie the code to them, and further lemmas say what those functions
  mean in bytes, numbers and constructors alone. The two readers (`Multiboot2.Read`,
  `Multiboot1.Read`) know the formats and not the writers.
- Firmware is a contract: a set of free pages from which it grants a run or refuses
  (`Machine.Firmware`), a directory and a file that answer as they please, and a console
  that wraps and scrolls. Blocks asked for below 4 GiB lie wholly below it.
- The information block is an `array` while it is written; `Launch.BootMultiboot` puts its
  bytes where the block lies. The name table is memory of the loader's own, not the
  firmware's to give.
- Page addresses in the ELF loader are page numbers, so 64-bit wrap-around of an address
  is wrap-around at 2^52 pages.
- What a path may contain is decided by a crate the repository only names; `Usable` takes
  it to be every character but NUL that fits one 16-bit unit.
- The framebuffer tag's reserved field is one byte, as in the text of section 3.6.12 of
  the Multiboot2 specification and as in the code.

## What turned out not to hold

- A Multiboot2 reader is promised a terminating tag. It is left out exactly when the other
  tags fill the block to its last byte, which depends only on how many descriptors there are,
  how long the names are, and whether there is a framebuffer (`EndLostIffBlockFull`); 680
  descriptors and any framebuffer do it (`EndCanBeLost`).
- A segment is meant to have its pages claimed before it is copied. When rounding its end
  up to a page leaves 64 bits none of them are, and the copy goes ahead (`LoopEndExact`,
  `LoopCanMissEveryPage`).
- A segment over pages the loader already has is meant to load. It does unless the 32-entry
  table has dropped their record, and then never (`LoadSegment`, `FullTableForgets`). Which
  pages are remembered depends on the segments alone, so a load from fresh succeeds exactly
  when each segment is well formed, lies on free pages, and meets earlier segments only on
  remembered ones (`LoadTable`). That last condition holds whenever the segments before the
  last ask for no more than 32 runs of pages, and whatever they ask for if there are at most
  seventeen segments (`CompleteUnlessDropped`); eighteen can fail (`EighteenCanFail`).
- A module's end is told exactly unless it is 4 GiB itself, when it is told as zero
  (`ModuleToldExactly`), which a module put on the last page below 4 GiB meets
  (`EndCanBeToldAsZero`).
- `CODE32_START` is exact if and only if the kernel can be moved or asks for a place below
  4 GiB (`ParamsReadBack`); one that asks for 4 GiB is told zero (`HighKernelMistold`).
- Typing the number shown beside an entry picks that entry if and only if it is one of the
  first nine (`LabelPicksEntry`).

## Model

| member | source | states |
|---|---|---|
| Names.NameTable.StoreName | src/modules.rs:31-61 | every run of names leaves the table packed: position the sum of the lengths with terminators or 4096 if that is less, each name's slot still whole; the pointer returned is the new name's |
| Names.NameTable.NamesSurvive | src/modules.rs:31-61 | at any point of any run, every pointer ever returned still leads to its own name, cut to the room there was, with its NUL inside the buffer |
| Names.NewNameTakesItsSlot | src/modules.rs:43-60 | a name is stored up to its first NUL and cut to the room left; earlier names keep their slots |
| Names.FullTableKeepsSlots | src/modules.rs:36-41 | in a full table a further name is the empty string its last byte ends, and nothing else changes |
| Names.KeptWhole | src/modules.rs:45-56 | a non-empty name is kept whole exactly if it and those before it fit in 4096 bytes with their terminators |
| Names.CopyAscii | src/modules.rs:44-57 | the bytes copied are the 16-bit units up to a NUL, `?` for what is not ASCII, as many as leave room for the terminator written after them |
| Names.AsciiMeans | src/modules.rs:43-57 | a name is kept up to its first NUL, each ASCII unit as itself and any other as `?` |
| Modules.LoadModules | src/modules.rs:103-189 | each file to load gets pages below 4 GiB exactly if enough are left in one run; a failing read stops the bootloader; otherwise the modules are the files read whole, in directory order up to the first failing directory read, each with zeros to the end of its last page, in a block of its own, and nothing else in memory changes |
| Modules.ReadInto | src/modules.rs:149-173 | the pages hold what was read and zeros after it, and no other page is touched |
| Modules.LoadsMeans | src/modules.rs:128-174 | a file becomes a module exactly if it is no directory, not empty, opens, gets pages and is read to its full length; a failing read of such a file stops the load; its pages hold its bytes and zeros |
| Modules.RecordsPointAtNames | src/modules.rs:175-188 | record i points at the i-th loaded file's name in the finished run, and says where that file lies and how long it is |
| Multiboot2.WalkReadsBack | src/multiboot.rs:285-394 | a tag walker in steps of size rounded up to 8 finds exactly the tags laid one after another, every field intact, and says whether END followed |
| Multiboot2Builder.BuildInfo | src/multiboot.rs:271-401 | the code's block holds the specified structure and reads back as exactly the tags that fitted, the first of them telling the first 681 descriptors each at its place, length and kind; the block's address survives 32 bits |
| MemoryMap.RegionTold | src/multiboot.rs:158-169 | a descriptor is told by its start, its pages of 4096 bytes, and kind 1 for the five types a kernel may use, 3 and 4 for the two of ACPI, 2 for any other |
| Multiboot2Builder.RoundTrip | src/multiboot.rs:271-401 | a reader of any block holding the structure recovers exactly the written tags, stopping at total_size |
| Multiboot2Builder.WriteMmap | src/multiboot.rs:285-317 | the memory-map tag with its back-patched size, for the longest prefix of descriptors that fits |
| Multiboot2Builder.ModuleWrittenIffItFits | src/multiboot.rs:322-347 | module k is written if and only if its tag, after those of all earlier modules, ends inside the block |
| Multiboot2Builder.FitsExactly | src/multiboot.rs:304-394 | module k's tag, the framebuffer's 37 bytes, the root pointer's tag with 8 to spare and END are each there exactly if there is room after the bytes of the tags before |
| Multiboot2Builder.WriteModules | src/multiboot.rs:322-347 | the loop leaves exactly those modules' tags, each name followed to its NUL, and the position after them |
| Multiboot2Builder.WriteOptionalFramebuffer | src/multiboot.rs:349-373 | the framebuffer tag if it fits, and the aligned position after it either way |
| Multiboot2Builder.WriteOptionalAcpi | src/multiboot.rs:375-387 | the root pointer's tag, old or new by its length, if it and END fit |
| Multiboot2Builder.PlacesFit | src/multiboot.rs:304-394 | every group of tags starts 8-aligned and total_size never exceeds the block |
| Multiboot2Builder.EndLostIffBlockFull | src/multiboot.rs:389-394 | END is missing if and only if the tags end at the block's end; never after an ACPI tag, nor with the memory map alone |
| Multiboot2Builder.EndCanBeLost | src/multiboot.rs:352-394 | with 680 descriptors and a framebuffer there is no END tag |
| Multiboot1Builder.BuildInfo | src/multiboot.rs:177-263 | the code's block reads back, by following its pointers, as exactly what it was told: the first 573 descriptors each at its place, length and kind, and totals that are those of the map read |
| Multiboot1Builder.TotalsTold | src/multiboot.rs:185-217 | mem_lower is the KiB of the usable regions the kernel reads below 1 MiB, at most 640; mem_upper that of those at or above it from the first non-empty one at 1 MiB on, in 32 bits |
| Multiboot1Builder.PartsLie | src/multiboot.rs:91-97 | flags, counts and the addresses of the module table, the names and the map, in numbers |
| Multiboot1Builder.RoundTrip | src/multiboot.rs:177-263 | a pointer-following reader never leaves the block and recovers the first 32 modules and 573 regions |
| Multiboot1Builder.WriteMmap | src/multiboot.rs:189-213 | entries and running totals of the recorded prefix; the totals are the closed forms |
| Multiboot1Builder.MemUpperStep | src/multiboot.rs:206-213 | what one turn adds to mem_upper is what the closed form gains: usable KiB at or above 1 MiB from the first non-empty usable descriptor at exactly 1 MiB on |
| Multiboot1Builder.TotalsBounded | src/multiboot.rs:185-213 | neither 64-bit total can overflow over the recorded prefix |
| Multiboot1Builder.CopyName | src/multiboot.rs:226-235 | a slot holds the name cut to 63 bytes and zeros after it; the other parts are undisturbed |
| Multiboot1Builder.WriteModules | src/multiboot.rs:221-247 | module table and name slots for the first 32 modules, disjoint from the memory map already written |
| Multiboot1.ModuleReadsBack | src/multiboot.rs:239-244 | entry i's 32-bit pointer leads to slot i, which reads as module i's name cut to 63 bytes |
| BootInfo.TellMultiboot2 | src/main.rs:115-158 | module tag i of what the kernel reads carries the i-th loaded file's name, up to its first NUL, cut to the room left in the table |
| BootInfo.TellMultiboot1 | src/main.rs:115-153 | the same names in a Multiboot1 structure, cut further to 63 bytes |
| BootInfo.ModuleToldExactly | src/multiboot.rs:338-339 | the bytes from the start a loaded module is told with up to its end are its file's; the end is exact if and only if below 4 GiB, and zero if and only if at it |
| BootInfo.EndCanBeToldAsZero | src/modules.rs:149-160 | a module of one page, loaded on the last page below 4 GiB, whose end is told as zero |
| Launch.BootMultiboot | src/main.rs:107-183 | exactly when a boot stops, finds no memory, or jumps; at the jump kernel, modules and information block share no page, the image is as loaded, each module whole, and the block at the address passed reads as what the kernel is to be told |
| Launch.KernelIntact | src/main.rs:107-183 | at the jump every byte of the kernel's image is still the last segment's over it, neither modules nor information having touched it; other memory is as before |
| Launch.KernelAsTold | src/main.rs:107-183 | at the jump memory still holds what the file's own headers tell, and the entry is theirs |
| Launch.ModulesFound2 | src/main.rs:107-158 | following module tag i to where it points, a Multiboot2 kernel finds the i-th loaded file's bytes, under that file's name |
| Launch.ModulesFound1 | src/main.rs:107-153 | so does a Multiboot1 kernel, for the first 32 and with names cut to 63 bytes |
| Elf.LoopEndExact | src/elf.rs:182-193 | the page loop visits exactly the segment's pages if the rounded end fits 64 bits, and none of them if not |
| Elf.VisitedAre | src/elf.rs:182-193 | a page is visited exactly if some of the segment lies in it and the segment does not end in the last page of the address space |
| Elf.LoopCanMissEveryPage | src/elf.rs:179-193 | a well-formed segment none of whose pages are visited |
| Elf.AppliedBytes | src/elf.rs:218-231 | file bytes for filesz, zeros to memsz, every other byte as it was |
| Elf.Loader.PageAllocated | src/elf.rs:141-153 | true exactly for pages the table covers |
| Elf.Loader.RecordAllocation | src/elf.rs:156-162 | the run is added, or dropped once 32 are held; recorded runs stay disjoint |
| Elf.Loader.ClaimPages | src/elf.rs:192-216 | succeeds exactly if each page is in the table or free; no page is lost or taken from elsewhere; it then took one grant for each gap between known pages, and the table knows those gaps that still found a record |
| Elf.Loader.LoadSegment | src/elf.rs:170-233 | succeeds if and only if well formed with every visited page known or free; the owned pages are then the old ones and exactly the visited ones, memory is the segment applied, otherwise untouched; owned pages are not asked for again while the table is complete |
| Elf.HoleFilled | src/elf.rs:192-213 | filling a hole between owned pages ends one stretch of them for each it starts |
| Elf.GapsAndStarts | src/elf.rs:192-213 | what a segment asks for and the stretches of pages then owned grow by at most two together |
| Elf.ImageBytes | src/elf.rs:218-231 | every byte of the image is decided by the last segment over it, or unchanged |
| Elf.LoadNext | src/elf.rs:137-233 | one more segment after any that loaded from fresh: it loads exactly if well formed, on pages that were free, those already owned being remembered; then owned pages, table and number of requests are what the segments alone determine |
| Elf.LoadTable | src/elf.rs:313-345 | the header loop leaves the in-order fold of its PT_LOAD segments; from fresh it succeeds exactly if all are loadable one after another, for any number of segments; no owned page is asked for again if it succeeds or no record was dropped |
| Elf.CompleteUnlessDropped | src/elf.rs:137-216 | unless a record was dropped before the last segment, segments are loadable exactly if each is well formed and visits only pages free to begin with, however they overlap |
| Elf.SeventeenLoad | src/elf.rs:137-162 | any seventeen segments load exactly if each is well formed on free pages |
| Elf.EighteenCanFail | src/elf.rs:137-162 | eighteen well-formed segments over free pages that do not load: the first seventeen do, taking 33 runs, and the last needs a page the table has dropped |
| Elf.GapPassed | src/elf.rs:192-213 | a run granted as long as can be accounts for one gap between known pages, so the loop's requests are counted exactly |
| Elf.FullTableForgets | src/elf.rs:137-162 | with a full table a fresh segment loads once and never again |
| Kernel.DetectMultibootVersion | src/elf.rs:100-133 | 2 if and only if some aligned offset holds a valid Multiboot2 header, else 1 for Multiboot1, else 0 |
| Kernel.WideningKeepsImage | src/elf.rs:366-398 | a 32-bit table and its widening name the same segments and make the same image |
| Kernel.LoadKernel | src/elf.rs:236-421 | a kernel comes of an executable file whose segments all load, with memory their image and the right entry, version and mode; from fresh, exactly if they are loadable one after another |
| Kernel.ExecutableMeans | src/elf.rs:274-362 | the accepted files, byte by byte |
| Kernel.LoadDescribed | src/elf.rs:236-421 | for a file of either class by the fields of its headers: loaded exactly if each program header of kind 1 can be, unless a record is dropped; memory is then, byte by byte, what the headers tell and otherwise as before, and the entry the header's |
| Linux.ReadFile | src/linux.rs:95-116 | the whole file if it opens and the reads deliver it all, otherwise nothing |
| Linux.ReadsAddUp | src/linux.rs:103-115 | non-empty reads add up however short, and an empty or failed one before the end leaves the file short |
| Linux.BootableMeans | src/linux.rs:144-175 | the accepted images, byte by byte |
| Linux.RefusalMeans | src/linux.rs:144-175 | which status any other image is refused with, byte by byte |
| Linux.AllocLow | src/linux.rs:124-133 | exactly as many pages as the bytes need and at least one, below 4 GiB; none if and only if there is no such run |
| Linux.NextMultipleIs | src/linux.rs:198 | the least multiple at or above: aligned, and less than one alignment away |
| Linux.PlaceKernel | src/linux.rs:191-219 | the whole needed region lies in the granted block, aligned and below 4 GiB if relocatable, at the one address asked for if not; it fails exactly when there is no such place, and then takes nothing |
| Linux.PatchedPage | src/linux.rs:226-281 | the zeroed, copied and patched page is the byte-by-byte specification of boot_params |
| Linux.PageMeans | src/linux.rs:226-281 | every byte of boot_params by its number: patched, copied from the header, or zero |
| Linux.ParamsReadBack | src/linux.rs:257-281 | however things are placed at a handover, the kernel reads the true command-line and ramdisk addresses; the kernel's own is true if and only if it can be moved or asks for a place below 4 GiB |
| Linux.HighKernelMistold | src/linux.rs:206-219 | an image that is handed over at 4 GiB and told it lies at zero |
| Linux.CommandLineReads | src/linux.rs:242-256 | the string there is the command line, cut to what the kernel allows |
| Linux.Boot | src/linux.rs:136-312 | from reading the files on: unreadable and bad files are refused in the code's order with nothing touched; a good one is refused exactly if one of its three allocations finds no room in what is left, and the ramdisk is there exactly if it was read whole and fits; every handover leaves kernel, page, command line and ramdisk pairwise disjoint, each exactly its contents, all other memory as it was, with the entry the header names |
| Linux.KernelExtent | src/linux.rs:166-219 | of every handover, in bytes of the image: the file's part and zeros up to init_size at the kernel's address, that larger extent covered by its block and apart from everything else, below 4 GiB and aligned if it can be moved, entered at the offset the header names |
| Config.Parse | src/config.rs:146-237 | the code computes the fold over lines and its resolution at the end |
| ConfigLines.CommentDropped | src/config.rs:153 | anything from a line's first `#` on may be left off |
| ConfigLines.SpaceDropped | src/config.rs:127-133 | so may white space, of whatever kind, at either end |
| ConfigLines.BlankDeleted | src/config.rs:153-156 | a line of white space, with or without a comment, may be deleted |
| ConfigLines.AnyLine | src/config.rs:126-157 | a line says its first word and the rest, whatever the white space before, between and after and whatever comment follows |
| ConfigLines.OneLineFiles | src/config.rs:146-171 | an empty file, and each directive for the whole menu with any argument: five seconds unless a number is given, looking around unless one of four words |
| ConfigLines.OwnDirectives | src/config.rs:178-213 | what each of an entry's own directives makes of the entry before it, and of no other: a new kind of entry started afresh, or a part of its own kind filled in |
| ConfigLines.NoEntryYet | src/config.rs:173-177 | before the first entry such a line says nothing |
| ConfigLines.KeptOne | src/config.rs:220-224 | only a Multiboot entry without a kernel is dropped |
| ConfigLines.DefaultMeans | src/config.rs:162-170 | the default is the first entry of the title named, else the number given if there are so many, else the first, whichever line comes first |
| Text.NumberReads | src/config.rs:159-168 | a number is a decimal of at most 64 bits, with or without noughts and a plus sign before it |
| Text.LinesMean | src/config.rs:152 | lines end at a line feed or at one with a carriage return before it, the last one also without |
| ConfigLaws.DeleteIgnored | src/config.rs:152-216 | deleting a blank, comment, unrecognised or misapplied line changes nothing |
| ConfigLines.IgnoredLine | src/config.rs:172-216 | which lines those are, by their words: no known directive, an entry's own before any entry, a part of another kind of entry, or a path that cannot be held |
| ConfigLaws.DefaultStandsAnywhere | src/config.rs:148-170 | the only default line may stand anywhere |
| ConfigLines.DefaultLine | src/config.rs:157-162 | a default line is one whose first word is `default`, however it is spaced |
| ConfigLaws.KeptInOrder | src/config.rs:220-224 | kept entries stand in the order written |
| ConfigLaws.ParsedIsSound | src/config.rs:220-234 | no empty Multiboot kernel, a default in range whenever there is an entry, a title default the first kept entry of that title |
| ConfigText.LineReadsBack | src/config.rs:126-157 | a directive and argument written on a line are read from it, whatever the indentation |
| ConfigText.RenderParses | src/config.rs:146-237 | every configuration a file can say parses back to itself from its canonical text |
| ConfigLines.ParsedIsSayable | src/config.rs:146-237 | whatever the file, what is parsed of it is such a configuration: they are exactly what parsing comes to |
| ConfigLines.ParsedSettles | src/config.rs:146-237 | writing out what was parsed and parsing that comes to the same again |
| Discover.Merge | src/main.rs:68-87 | the loop computes the merge |
| Discover.ConfiguredStay | src/main.rs:65-87 | configured entries stay an unchanged prefix; what is added is a finding's entry |
| Discover.FoundAreOffered | src/main.rs:69-86 | for every finding there is a chainload entry of its path, with its device or none |
| Discover.AddedIfNew | src/main.rs:69-86 | a finding is added under its title and on its device exactly if no entry boots that path from that device or from none |
| Discover.AddedDistinct | src/main.rs:69-86 | no file on a device is added twice |
| Discover.MergedOnce | src/main.rs:69-86 | merging the same findings again adds nothing |
| Menu.Console.Print | src/menu.rs:58-77 | text stopping short of the last column fills its row's cells and scrolls nothing |
| Menu.PushNum | src/menu.rs:248-264 | the decimal number is appended, within twenty digits |
| Menu.WriteLine | src/menu.rs:64-77 | one row is overwritten up to its last cell, and nothing else |
| Menu.Draw | src/menu.rs:215-222 | all rows of the menu, each once |
| Menu.DrawnCells | src/menu.rs:214-246 | every cell of the drawn menu: which text stands on which row, `>` on the selected entry's alone, cut or filled with spaces up to the last column |
| Menu.OverlayAgain | src/menu.rs:224-246 | rewriting some rows gives what writing them so at first would have |
| Menu.Repaint | src/menu.rs:149-162 | after a move, the incremental repaint equals a fresh drawing |
| Choice.SelectionFollowsKeys | src/menu.rs:149-162 | while waiting the selection is (default + downs - ups) mod n |
| Choice.ChosenInRange | src/menu.rs:163-176 | every choice is an entry |
| Choice.QuietRun | src/menu.rs:181-198 | with no key the default is chosen on turn 10 times the timeout exactly |
| Choice.CountsUntilKey | src/menu.rs:138-147 | the clock runs exactly as long as no key was seen |
| Choice.KeyStopsClock | src/menu.rs:138-198 | after a key, turns without one change nothing |
| Choice.TimedOutBootsDefault | src/menu.rs:181-187 | a choice made without a key means there never was one, and is the default |
| Choice.LabelPicksEntry | src/menu.rs:163-176 | each row shows its entry's number and title; typing the first digit shown picks that entry if and only if it is one of the first nine, and another otherwise |
| Choice.EnterBootsSelection | src/menu.rs:164-167 | Enter boots (default + downs - ups) mod n |
| Choice.OnlyTheseChoose | src/menu.rs:136-198 | a turn chooses only by Enter, by the digit of an entry, or by the clock running out with no key ever seen; any other key stops the clock |
| Choice.StatusSays | src/menu.rs:225-246 | the status row in full: the countdown of the selected entry, or that it was cancelled |
| Choice.Choose | src/menu.rs:104-212 | the loop chooses what the state machine does; where the menu fits, while it waits the screen equals a fresh drawing of its selection and status, and rows outside the menu are never written |

## Left out

- The assembly that enters a kernel (`src/trampoline.rs`, `src/handoff.rs`), chainloading, the GOP query and the banner: thin or machine-specific.
- Finding the ACPI root pointer: it is a value of twenty or thirty-six bytes here.
- Enumerating volumes and directories, opening files, leaving boot services: their answers are arguments.
- Choose: where the menu does not fit, the code prints a scrolling one; the model writes nothing and promises nothing of the screen.
- The caret's visibility, and control or double-width characters in titles: every character is one cell.
- A command line whose cut would fall inside a character stops the bootloader; the model takes its bytes as ASCII.
- The order in which single bytes of one field or of the nine colour bytes of a framebuffer tag are stored: they are stored together.
- Memory beyond a kernel's own segments that a failed load has claimed: the bootloader stops there.
- Panics are an outcome (`Stopped`) without their message.
