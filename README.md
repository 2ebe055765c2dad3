# ELF32 loader, modelled and verified in Dafny

This project models the loader in `group-106/without-bonus/loader.c`: the
function `load_and_run_elf`, its cleanup `loader_cleanup` and the command-line
check in `main`. Given the path of a 32-bit ELF executable, the loader:

1. opens the file and reads the 52-byte ELF header into a heap block;
2. allocates `e_phentsize * e_phnum` bytes, seeks to `e_phoff` and reads the
   program-header table into that block;
3. walks `phdr[0 .. e_phnum - 1]` in index order. For every `PT_LOAD` entry it
   maps `p_memsz` fresh zero bytes at `p_vaddr` (`MAP_FIXED | MAP_ANONYMOUS`),
   seeks to `p_offset` and reads `p_filesz` bytes into the start of the
   mapping;
4. jumps to `e_entry`.

Every failure frees what was allocated, closes the file and exits. After a
successful run, `main` calls `loader_cleanup`.

The model has three layers:

- **Data and host** (`bytes.dfy`, `elf32.dfy`, `host.dfy`).
  - Bytes and little-endian fields.
  - The two ELF32 records, decoded at the field offsets of the System V gABI
    (chapter 4 "ELF Header", chapter 5 "Program Header"), with encoders and
    round-trip lemmas.
  - An abstract host:
    - a read-only file with a cursor;
    - an address space `map<int, uint8>`;
    - a mapping policy that says which fixed-address mappings the host grants;
    - a log of every call the loader makes to the host (open, malloc, read,
      lseek, mmap, free, close and the final jump).
- **Specification** (`loader_spec.dfy`): the pipeline as pure functions.
  - `Load` is `load_and_run_elf` up to the jump.
  - `Run` is `main`, built on `Load`.
  - `LoadSegments` is the segment loop, iteration by iteration.
  - Its properties are proved in `loader_properties.dfy` and
    `run_properties.dfy`.
- **Program** (`loader.dfy`): a class `Loader` holding the file-scope globals
  (`ehdr`, `phdr`, `file_desc`), the cursor, the address space and the log.
  - There is one method per host primitive, plus the loader's own steps.
  - `LoadAndRunElf` makes the same host calls in the same order as the C
    code, with a `while` loop over the table, and is proved to produce
    exactly the state `Load` describes. It groups the steps into
    `ReadElfHeader`, `ReadProgramHeaders` and `MapAndDispatch` (the loop
    `MapSegments`, then release or jump). Two error paths
    are arranged differently, with the same calls in the same order:
    - The table step's two error paths call `LoaderCleanup`; the C writes
      out `free(phdr); free(ehdr); close(file_desc)` at each.
    - A segment failure ends `MapSegments`, and `MapAndDispatch` then calls
      `LoaderCleanup`; the C releases inside the loop body (loader.c:98-100,
      :108-110, :117-119).
  - `RunMain` is proved to produce exactly what `Run` describes.

Points where the code differs from what the gABI or its own comments say:

- **Stride.** `e_phentsize` declares the size of one table entry, and the
  code sizes the table by `e_phentsize * e_phnum`. It indexes `phdr[i]`,
  however, which is a fixed 32-byte stride. The model follows the code.
- **Which entries are loaded.** The comment at loader.c:14-15 speaks of finding
  the one segment that contains the entry point. The code loads every
  `PT_LOAD` entry, and so does the model.
- **Cleanup.** The code repeats the release calls on each error branch and
  calls `loader_cleanup` only on success. The model's logs record the same
  calls in the same order. It proves that each path releases the phdr block
  (once it was allocated), the ehdr block and the descriptor, once each.

## Model

| member | source | states |
|---|---|---|
| Elf32.DecodeEhdr | group-106/without-bonus/loader.c:51-64 | what `ehdr->` reads from the first 52 bytes: e_entry (32-bit at 24), e_phoff (32-bit at 28), e_phentsize (16-bit at 42), e_phnum (16-bit at 44), all little-endian and unsigned; ensures each field fits its width |
| Elf32.DecodePhdr | group-106/without-bonus/loader.c:87-115 | what `phdr[i].` reads: the 32-bit little-endian p_type, p_offset, p_vaddr, p_filesz and p_memsz at `32 * i` plus 0, 4, 8, 16 and 20; ensures each fits 32 bits |
| Elf32.DecodeTable | group-106/without-bonus/loader.c:86-87 | the array `phdr[0 .. n - 1]` read from the table buffer with the fixed 32-byte stride; ensures it has `n` entries |
| Host.SeekRejected | group-106/without-bonus/loader.c:65-66 | lseek to an Elf32_Off fails exactly when the offset is 2^31 or more, which a signed 32-bit off_t turns negative (also used for :105-106) |
| LoaderSpec.LoadEntry | group-106/without-bonus/loader.c:87-122 | one pass of the loop body for entry `i`. A non-PT_LOAD entry leaves everything as it is. A PT_LOAD entry logs mmap(p_vaddr, p_memsz) and fails with MapError(i) if refused. Otherwise it zero-fills the range and logs lseek(p_offset), failing with SegmentSeekError(i) if refused. Otherwise it reads p_filesz bytes from p_offset into memory at p_vaddr, moves the cursor past them, and fails with SegmentShort(i) if fewer arrived |
| LoaderSpec.LoadSegments | group-106/without-bonus/loader.c:85-124 | the loop's first `k` iterations, entries taken in index order, the first failure ending the loop |
| LoaderSpec.Load | group-106/without-bonus/loader.c:22-48 | load_and_run_elf. If open fails: OpenError, log `[open failed]`, memory untouched. If the file holds fewer than 52 bytes: HeaderShort, with the header read, then free(ehdr) and close. Otherwise it continues with LoadTable |
| LoaderSpec.LoadTable | group-106/without-bonus/loader.c:50-82 | the table step. If the seek to e_phoff is refused: TableSeekError. If the read of e_phentsize * e_phnum bytes is short: TableShort. Either way phdr, ehdr and the descriptor are released and nothing is mapped. Otherwise it continues with LoadAll |
| LoaderSpec.LoadAll | group-106/without-bonus/loader.c:84-131 | runs the loop over phdr[0 .. e_phnum - 1] from the cursor just past the table. A loop failure ends with its error, the memory the loop left and the three releases. Otherwise the run ends with a jump to e_entry |
| LoaderSpec.Run | group-106/without-bonus/loader.c:139-149 | main. If argc != 2: UsageError, with no call made. Otherwise Load, followed by loader_cleanup's three releases after a jump |
| Bytes.LE16RoundTrip | group-106/without-bonus/loader.c:51-52 | a 16-bit little-endian field decodes to the value encoded in it, and re-encoding a decoded field gives back its two bytes |
| Bytes.LE32RoundTrip | group-106/without-bonus/loader.c:127 | the same round trip, both ways, for 32-bit little-endian fields |
| Elf32.EhdrRoundTrip | group-106/without-bonus/loader.c:51-64 | the fields the loader reads from `ehdr` (e_entry at 24, e_phoff at 28, e_phentsize at 42, e_phnum at 44) decode back from their encoding |
| Elf32.PhdrRoundTrip | group-106/without-bonus/loader.c:87-115 | p_type, p_offset, p_vaddr, p_filesz and p_memsz (at 0, 4, 8, 16, 20) decode back from a 32-byte program header |
| Elf32.TableRoundTrip | group-106/without-bonus/loader.c:86-91 | indexing an encoded table as `phdr[i]`, stride 32, gives back entry `i`, for every `i` |
| Elf32.DecodeTableAt | group-106/without-bonus/loader.c:87 | element `i` of the decoded table is the 32 bytes at offset `32 * i` read as `phdr[i]` |
| Elf32.TableDecodesBack | group-106/without-bonus/loader.c:75-87 | decoding an encoded table gives back the whole list of entries, in order |
| Host.ReadAt | group-106/without-bonus/loader.c:42-43 | a read returns at most `n` bytes, exactly the file's bytes from the cursor; it is short exactly when it runs past end of file |
| Host.MapZero | group-106/without-bonus/loader.c:89-95 | a fixed anonymous mapping makes every address of `[vaddr, vaddr + len)` a zero, replacing what was there, and changes no other address |
| Host.Store | group-106/without-bonus/loader.c:114 | a read into memory puts each delivered byte at its address and changes no other address |
| LoaderProperties.FailureIsFinal | group-106/without-bonus/loader.c:96-121 | once an iteration fails, later iterations never run: the loop's state is fixed from then on |
| LoaderProperties.EntryOutcome | group-106/without-bonus/loader.c:87-122 | a non-PT_LOAD entry changes nothing: no memory, no seek, no read. For a PT_LOAD entry: the map error holds iff mmap is refused; the seek error iff mmap succeeded and lseek is refused; the short read iff both succeeded and the file lacks p_filesz bytes at p_offset; success iff none of these. The iteration only appends to the log, and only mmap, lseek and read events. On success it leaves the cursor at p_offset + p_filesz |
| LoaderProperties.EntryFrame | group-106/without-bonus/loader.c:87-122 | an iteration leaves every address its entry does not reach exactly as it was |
| LoaderProperties.EntryContents | group-106/without-bonus/loader.c:89-114 | after mmap and lseek succeed, each address of the segment holds the file byte the read delivered there, and zero elsewhere in p_memsz, even when the read is short |
| LoaderProperties.SegmentsSucceed | group-106/without-bonus/loader.c:85-124 | the loop gets through its first `k` entries iff each of them loads |
| LoaderProperties.SegmentFailureKinds | group-106/without-bonus/loader.c:96-121 | a loop failure is a map, seek or short-read error naming a PT_LOAD entry below `k` that does not load |
| LoaderProperties.SegmentFailureState | group-106/without-bonus/loader.c:105-121 | a failed loop stopped at the entry its error names: every earlier entry went through, and the final state is that entry's failed iteration |
| LoaderProperties.SegmentsFrame | group-106/without-bonus/loader.c:85-124 | an address none of the first `k` entries reaches is unchanged |
| LoaderProperties.SegmentLoaded | group-106/without-bonus/loader.c:85-124 | after a successful loop, an address in the reach of PT_LOAD entry `j` that no later entry reaches holds segment `j`'s byte. Later MAP_FIXED mappings win where segments overlap |
| LoaderProperties.SegmentLogIsIo | group-106/without-bonus/loader.c:86-124 | the loop only calls mmap, lseek and read |
| RunProperties.LoopErrorIsPerEntry | group-106/without-bonus/loader.c:96-121 | the loop over a readable table fails only with a per-entry error |
| RunProperties.UsageChecked | group-106/without-bonus/loader.c:140-143 | main fails with the usage error iff argc != 2. It then has made no call at all (empty log) and has left memory untouched |
| RunProperties.OpenAndHeaderExits | group-106/without-bonus/loader.c:24-48 | the open failure happens iff the file cannot be opened, and its log is only the failed open. The header failure happens iff the file is shorter than 52 bytes, and its log is exactly open, malloc(ehdr), the short read, free(ehdr) and close. Neither exit allocates phdr or maps anything |
| RunProperties.TableExits | group-106/without-bonus/loader.c:63-82 | the table seek fails iff e_phoff does not fit a signed 32-bit offset. The table read is short iff the table is non-empty and `e_phoff + e_phentsize * e_phnum` runs past end of file. An empty table at an e_phoff past EOF reads 0 bytes and the load goes on. Neither exit maps anything |
| RunProperties.EmptyTableDispatches | group-106/without-bonus/loader.c:84-130 | with e_phnum == 0 and a valid e_phoff, the loader jumps to e_entry with memory untouched |
| RunProperties.DispatchCondition | group-106/without-bonus/loader.c:126-131 | the loader jumps iff the table was read and every entry loads. The address is the 32-bit value at file offset 24 (e_entry), and the jump is the last call |
| RunProperties.SegmentsNeverDispatch | group-106/without-bonus/loader.c:85-124 | the segment loop never jumps |
| RunProperties.FailureNeverDispatches | group-106/without-bonus/loader.c:25-121 | a failed load never jumps to the entry point |
| RunProperties.LoadedSegmentContents | group-106/without-bonus/loader.c:89-121 | after a successful load, memory in the reach of PT_LOAD entry `j`, with no later overlapping entry, holds `file[p_offset + (a - p_vaddr)]` below p_filesz and zero in the rest of p_memsz |
| RunProperties.ShortReadKeepsMapping | group-106/without-bonus/loader.c:114-121 | a short segment read exits with that segment's whole p_memsz mapping still in place: the delivered file bytes, then zeros |
| RunProperties.UntouchedOutsideSegments | group-106/without-bonus/loader.c:85-124 | whatever the outcome, an address no PT_LOAD entry reaches is left as the process had it |
| RunProperties.SegmentsHoldNothing | group-106/without-bonus/loader.c:85-124 | the segment loop allocates, frees, opens and closes nothing |
| RunProperties.SeekExitResources | group-106/without-bonus/loader.c:65-72 | when e_phoff does not fit a signed 32-bit offset, `Load` ends with the table-seek error. Its log acquires the descriptor, ehdr and phdr, then frees phdr, then ehdr, then closes the file |
| RunProperties.LateExitResources | group-106/without-bonus/loader.c:50-124 | every run that got the header in acquires the descriptor, ehdr and phdr, then releases phdr, ehdr and the descriptor, once each (after a dispatch, on the assumption that the entry point returns) |
| RunProperties.ResourcesReleasedOnce | group-106/without-bonus/loader.c:6-11 | on every path of main with one argument and an openable file, the descriptor and ehdr are released once each, in reverse order of acquisition, and phdr too once it was allocated (loader_cleanup on success, on the assumption that the entry point returns; the inline copies on error). Cleanup leaves memory as loading left it |
| ElfLoader.Loader.constructor | group-106/without-bonus/loader.c:3-5 | a process starts with the file closed, no blocks held, the cursor at 0 and an empty log |
| ElfLoader.Loader.Open | group-106/without-bonus/loader.c:24-28 | open succeeds iff the file exists; success puts the cursor at 0 |
| ElfLoader.Loader.Read | group-106/without-bonus/loader.c:42 | read delivers the file bytes the host model says and advances the cursor past them |
| ElfLoader.Loader.ReadToMemory | group-106/without-bonus/loader.c:114 | a read into a mapping stores the delivered bytes at the target address |
| ElfLoader.Loader.Lseek | group-106/without-bonus/loader.c:105-106 | lseek fails iff the offset does not fit a signed 32-bit off_t; otherwise it moves the cursor there |
| ElfLoader.Loader.Mmap | group-106/without-bonus/loader.c:89-96 | mmap either is refused and changes nothing, or zero-fills the region |
| ElfLoader.Loader.MallocEhdr | group-106/without-bonus/loader.c:34 | allocates the 52-byte header block |
| ElfLoader.Loader.MallocPhdr | group-106/without-bonus/loader.c:55 | allocates the table block of the given size |
| ElfLoader.Loader.FreePhdr | group-106/without-bonus/loader.c:7 | releases the table block |
| ElfLoader.Loader.FreeEhdr | group-106/without-bonus/loader.c:8 | releases the header block |
| ElfLoader.Loader.Close | group-106/without-bonus/loader.c:9 | closes the descriptor |
| ElfLoader.Loader.LoaderCleanup | group-106/without-bonus/loader.c:6-11 | frees phdr, then ehdr, then closes the file; unmaps nothing |
| ElfLoader.Loader.MapEntry | group-106/without-bonus/loader.c:87-122 | the loop body for one entry does exactly one iteration of the specification's loop |
| ElfLoader.Loader.MapStep | group-106/without-bonus/loader.c:86-123 | reading `phdr[i]` from the buffer and running the body advances the loop by one iteration |
| ElfLoader.Loader.MapSegments | group-106/without-bonus/loader.c:85-124 | the `while (i < phdr_count)` loop produces the memory, cursor, log and first failure of the specification's loop over all entries, in index order |
| ElfLoader.Loader.ReadElfHeader | group-106/without-bonus/loader.c:33-48 | the header read succeeds iff the file holds 52 bytes. The block then holds them; otherwise ehdr is freed and the file closed |
| ElfLoader.Loader.ReadProgramHeaders | group-106/without-bonus/loader.c:50-82 | the table step succeeds iff the seek and the full read succeed. The block then holds the table; otherwise everything is released, exactly as the specification's exit says |
| ElfLoader.Loader.MapAndDispatch | group-106/without-bonus/loader.c:84-131 | once the table is in, the loop and what follows end with exactly the outcome, memory and log of the specification's `LoadAll`. A loop failure releases phdr, ehdr and the descriptor. A jump to e_entry leaves all three held |
| ElfLoader.Loader.LoadAndRunElf | group-106/without-bonus/loader.c:22-138 | the whole routine ends with exactly the outcome, memory and log the specification's `Load` describes. On failure the file is closed and no block is held; on success all three are still held |
| ElfLoader.Loader.RunMain | group-106/without-bonus/loader.c:139-149 | main ends with exactly the outcome, memory and log of the specification's `Run`, with every resource released (after a dispatch, on the assumption that the entry point returns) |

## Left out

- The call through the function pointer to `e_entry`, and printing its result (loader.c:130-134). That is a jump into loaded machine code. `Load` and `LoadAndRunElf` end at a `Dispatch(e_entry)` event.
- The message text of `perror` and `fprintf`, `errno`, and exit codes. Only failure versus success is modelled, with the error kind recorded as the outcome.
- Failure of `malloc` (loader.c:35-39 and :56-61), including `malloc(0)` returning NULL when `e_phnum == 0`. The model's allocations always succeed.
- Real `mmap` behaviour. Page alignment, protection bits and collisions with the loader's own memory are not modelled. Whether a fixed mapping is granted is a parameter (`MapPolicy`), and a length of 0 is left to it like any other.
- Integer widths. `off_t` stored into `int` at loader.c:65 and :105, and the signed `int` products `phdr_size * phdr_count` at :55 and :75, are modelled as exact arithmetic. The fields themselves are decoded as unsigned 16- and 32-bit values.
- LoaderSpec.Run: assumes that the entry point returns normally and leaves memory, `ehdr`, `phdr` and `file_desc` untouched. `main` then calls `loader_cleanup` (loader.c:146). If the loaded code exits or faults, nothing is released. If it writes memory, the process's memory differs from `Run`'s.
- ElfLoader.Loader.RunMain: rests on the same assumption: after a dispatch it releases everything and keeps the memory `LoadAndRunElf` left.
- RunProperties.LateExitResources: its release on the success path rests on the same assumption.
- RunProperties.ResourcesReleasedOnce: its release on the success path, and its "cleanup leaves memory as loading left it", rest on the same assumption.
- A 64-bit `off_t`. The seek model assumes the loader is built 32-bit (it calls 32-bit code), so offsets of 2^31 and above are rejected. With a 64-bit `off_t` the only `Elf32_Off` that fails is 0xFFFFFFFF. `lseek` returns it, storing it into `int` (loader.c:65, :105) gives -1, and the code takes the error path.
- Read errors other than end of file. A read delivers fewer bytes than asked only at end of file.
- A read of p_filesz bytes into a mapping of p_memsz < p_filesz bytes. The model stores the bytes past the end of the mapping into the address space; a real kernel could fault there.
- Wrap-around of `p_vaddr + p_memsz` past 2^32. Addresses are unbounded integers.
- Files whose table is readable but shorter than `32 * e_phnum` bytes, that is `e_phentsize < 32` when `e_phnum > 0`. `Load`, `Run`, `LoadAndRunElf` and `RunMain` require `Indexable` to exclude them, because the model decodes whole 32-byte entries. `Indexable` is a sufficient condition for in-bounds access, not the exact one. The loop reads entry `i` only if every earlier entry went through. It reads only `p_type` (bytes `32 * i .. 32 * i + 4`) of an entry that is not PT_LOAD, and up to p_memsz (`32 * i + 24`) of a PT_LOAD entry. For the last entry, `e_phnum - 1`, this means: below a table of `32 * (e_phnum - 1) + 4` bytes its `p_type` is read out of bounds if the loop reaches it. Between that and `32 * (e_phnum - 1) + 24` bytes, an out-of-bounds read happens only if that entry is PT_LOAD. C leaves those reads undefined. Files the C reads entirely in bounds are excluded too: for example e_phentsize = 28 with e_phnum = 1, or e_phentsize = 8 with e_phnum = 1 and a non-PT_LOAD entry.
- Magic, class and machine checks. The code does none, so the model does none.
