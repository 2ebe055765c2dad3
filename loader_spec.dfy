/**
  The loading pipeline of loader.c as functions of its inputs: the command-line
  argument count, the file named on the command line (None when it cannot be
  opened), the address space the process starts with, and the host's answer
  to each fixed-address mapping request. `Load` is load_and_run_elf up to the
  point where it calls the entry point; `Run` is main, which checks its
  arguments, loads, and on success calls loader_cleanup.
 */
module LoaderSpec {
  import opened Wrappers
  import opened Bytes
  import opened Elf32
  import opened Host

  datatype Error =
    | UsageError
    | OpenError
    | HeaderShort
    | TableSeekError
    | TableShort
    | MapError(index: nat)
    | SegmentSeekError(index: nat)
    | SegmentShort(index: nat)

  /** Either the process exited with a failure, or control was handed to `entry`. */
  datatype Outcome = Failed(error: Error) | Dispatched(entry: nat)

  /** Where the segment loop stands: memory, file cursor, events logged so far, and the failure that stopped it. */
  datatype Progress = Progress(mem: Memory, pos: nat, log: seq<Event>, failure: Option<Error>)

  /** What a run leaves behind: its outcome, the address space and the complete event log. */
  datatype Final = Final(outcome: Outcome, mem: Memory, log: seq<Event>)

  /** Whether the host grants a fixed, anonymous mapping of `len` bytes at `vaddr`. */
  type MapPolicy = (nat, nat) -> bool

  /** free(phdr); free(ehdr); close(file_desc) -- every late error path and loader_cleanup. */
  const RELEASE: seq<Event> := [FreePhdr, FreeEhdr, Close]

  /** The header as read from the first 52 bytes of the file. */
  function Header(f: seq<uint8>): Ehdr
    requires EHDR_SIZE <= |f|
  {
    DecodeEhdr(f[..EHDR_SIZE])
  }

  /** phdr_size * phdr_count: the size of the buffer and of the table read. */
  function TableSize(h: Ehdr): nat {
    h.phentsize * h.phnum
  }

  /** The bytes the table read delivers once the cursor is at e_phoff. */
  function Table(f: seq<uint8>): seq<uint8>
    requires EHDR_SIZE <= |f|
  {
    ReadAt(f, Header(f).phoff, TableSize(Header(f)))
  }

  /** The header read, the seek to the table and the table read all succeed. */
  predicate TableReadable(f: seq<uint8>) {
    EHDR_SIZE <= |f| && !SeekRejected(Header(f).phoff) && |Table(f)| == TableSize(Header(f))
  }

  /**
    The table buffer holds phdr_size * phdr_count bytes but the loop reads
    phdr[i] with a 32-byte stride for every i < phdr_count. The model decodes
    whole 32-byte entries, so it asks the buffer to cover all of them: a
    sufficient condition for the loop's reads to stay inside the heap block.
    The loop itself reads less: only the p_type of an entry that is not
    PT_LOAD, fields up to p_memsz of a PT_LOAD entry, and no entry after the
    first failure.
   */
  predicate Indexable(f: seq<uint8>) {
    TableReadable(f) ==> 32 * Header(f).phnum <= TableSize(Header(f))
  }

  /** The array phdr[0 .. e_phnum - 1] once the table was read. */
  function Phdrs(f: seq<uint8>): (ps: seq<Phdr>)
    requires TableReadable(f) && Indexable(f)
    ensures |ps| == Header(f).phnum
  {
    DecodeTable(Table(f), Header(f).phnum)
  }

  /** Whether loading entry `ph` may change address `a`: its mapping, or the bytes its read delivers. */
  predicate Writes(ph: Phdr, a: int) {
    ph.ptype == PT_LOAD && ph.vaddr <= a < ph.vaddr + Max(ph.memsz, ph.filesz)
  }

  /** The file holds all p_filesz bytes of the entry (trivially so when there are none). */
  predicate FileHolds(f: seq<uint8>, ph: Phdr) {
    ph.filesz == 0 || ph.offset + ph.filesz <= |f|
  }

  /** Entry `ph` goes through the loop body without an error: skipped, or mapped, sought and read in full. */
  predicate EntryLoads(f: seq<uint8>, ph: Phdr, mapOk: MapPolicy) {
    ph.ptype != PT_LOAD || (mapOk(ph.vaddr, ph.memsz) && !SeekRejected(ph.offset) && FileHolds(f, ph))
  }

  /** What a fully read PT_LOAD entry puts at `a`: file bytes for the first p_filesz bytes, then zeros. */
  function SegmentByte(f: seq<uint8>, ph: Phdr, a: int): uint8
    requires ph.vaddr <= a && FileHolds(f, ph)
  {
    if a - ph.vaddr < ph.filesz then f[ph.offset + (a - ph.vaddr)] else 0
  }

  /**
    One iteration of the loop body for entry `i`: a non-PT_LOAD entry is
    skipped; a PT_LOAD entry is mapped at p_vaddr with p_memsz zero bytes,
    then p_filesz bytes are read from p_offset into the start of the mapping.
   */
  function LoadEntry(p: Progress, f: seq<uint8>, ph: Phdr, i: nat, mapOk: MapPolicy): Progress
    requires p.failure.None?
  {
    if ph.ptype != PT_LOAD then p
    else if !mapOk(ph.vaddr, ph.memsz) then
      p.(log := p.log + [Mmap(ph.vaddr, ph.memsz, false)], failure := Some(MapError(i)))
    else
      var mapped := MapZero(p.mem, ph.vaddr, ph.memsz);
      var log := p.log + [Mmap(ph.vaddr, ph.memsz, true)];
      if SeekRejected(ph.offset) then
        Progress(mapped, p.pos, log + [Lseek(ph.offset, false)], Some(SegmentSeekError(i)))
      else
        var data := ReadAt(f, ph.offset, ph.filesz);
        Progress(Store(mapped, ph.vaddr, data), ph.offset + |data|,
                 log + [Lseek(ph.offset, true), Read(ph.filesz, |data|)],
                 if |data| == ph.filesz then None else Some(SegmentShort(i)))
  }

  /** The loop after its first `k` iterations, entries taken in index order; a failure ends it. */
  function LoadSegments(p0: Progress, f: seq<uint8>, phs: seq<Phdr>, k: nat, mapOk: MapPolicy): Progress
    requires p0.failure.None?
    requires k <= |phs|
  {
    if k == 0 then p0
    else
      var p := LoadSegments(p0, f, phs, k - 1, mapOk);
      if p.failure.Some? then p else LoadEntry(p, f, phs[k - 1], k - 1, mapOk)
  }

  /** The events up to the header read: open, malloc(sizeof(Elf32_Ehdr)), read of 52 bytes. */
  function HeaderLog(f: seq<uint8>): seq<Event> {
    [Open(true), AllocEhdr, Read(EHDR_SIZE, |ReadAt(f, 0, EHDR_SIZE)|)]
  }

  /** The events up to a table read that was not refused by lseek. */
  function TableLog(f: seq<uint8>): seq<Event>
    requires EHDR_SIZE <= |f|
  {
    HeaderLog(f) + [AllocPhdr, Lseek(Header(f).phoff, true), Read(TableSize(Header(f)), |Table(f)|)]
  }

  /** load_and_run_elf, stopping where it calls the entry point. */
  function Load(image: Option<seq<uint8>>, mem0: Memory, mapOk: MapPolicy): Final
    requires image.Some? ==> Indexable(image.value)
  {
    match image
    case None => Final(Failed(OpenError), mem0, [Open(false)])
    case Some(f) =>
      if |f| < EHDR_SIZE then Final(Failed(HeaderShort), mem0, HeaderLog(f) + [FreeEhdr, Close])
      else LoadTable(f, mem0, mapOk)
  }

  /** load_and_run_elf once the header is in: the table read, then the segment loop. */
  function LoadTable(f: seq<uint8>, mem0: Memory, mapOk: MapPolicy): Final
    requires EHDR_SIZE <= |f| && Indexable(f)
  {
    var h := Header(f);
    if SeekRejected(h.phoff) then
      Final(Failed(TableSeekError), mem0, HeaderLog(f) + [AllocPhdr, Lseek(h.phoff, false)] + RELEASE)
    else if |Table(f)| != TableSize(h) then
      Final(Failed(TableShort), mem0, TableLog(f) + RELEASE)
    else
      LoadAll(f, mem0, mapOk)
  }

  /** The segment loop over the whole table, started with the cursor just past the table read. */
  function Segments(f: seq<uint8>, mem0: Memory, mapOk: MapPolicy): Progress
    requires TableReadable(f) && Indexable(f)
  {
    var h := Header(f);
    LoadSegments(Progress(mem0, h.phoff + TableSize(h), [], None), f, Phdrs(f), h.phnum, mapOk)
  }

  /** load_and_run_elf once the table is in: the segment loop decides between failure and dispatch. */
  function LoadAll(f: seq<uint8>, mem0: Memory, mapOk: MapPolicy): Final
    requires TableReadable(f) && Indexable(f)
  {
    var h := Header(f);
    var p := Segments(f, mem0, mapOk);
    match p.failure
    case Some(e) => Final(Failed(e), p.mem, TableLog(f) + p.log + RELEASE)
    case None => Final(Dispatched(h.entry), p.mem, TableLog(f) + p.log + [Dispatch(h.entry)])
  }

  /** main: the argument check, then load_and_run_elf, then loader_cleanup when loading returned. */
  function Run(argc: int, image: Option<seq<uint8>>, mem0: Memory, mapOk: MapPolicy): Final
    requires argc == 2 && image.Some? ==> Indexable(image.value)
  {
    if argc != 2 then Final(Failed(UsageError), mem0, [])
    else
      var r := Load(image, mem0, mapOk);
      if r.outcome.Dispatched? then r.(log := r.log + RELEASE) else r
  }
}
