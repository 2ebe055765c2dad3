/**
  loader.c as a program over state: the file-scope globals `ehdr`, `phdr`
  and `file_desc`, the open file and its cursor, the address space, and the
  log of calls into the host. Each host primitive is a method whose effect is
  the corresponding function of Host; `LoadAndRunElf`, `LoaderCleanup` and
  `RunMain` make the C code's calls in its order (error releases go through
  `LoaderCleanup` where the C writes the three calls out) and are proved to
  produce exactly what LoaderSpec.Load and LoaderSpec.Run describe.
 */
module ElfLoader {
  import opened Wrappers
  import opened Bytes
  import opened Elf32
  import opened Host
  import opened LoaderSpec
  import opened LoaderProperties

  /** The loop over the table as read is the specification's loop over phdr[0 .. e_phnum - 1]. */
  lemma SegmentsFromTable(f: seq<uint8>, table: seq<uint8>, count: nat, mem0: Memory, pos0: nat, mapOk: MapPolicy)
    requires TableReadable(f) && Indexable(f)
    requires table == Table(f) && count == Header(f).phnum && pos0 == Header(f).phoff + TableSize(Header(f))
    ensures 32 * count <= |table|
    ensures LoadSegments(Progress(mem0, pos0, [], None), f, DecodeTable(table, count), count, mapOk)
            == Segments(f, mem0, mapOk)
  {
  }

  class Loader {
    /** The file named by exe[1], or None when open() fails on it. */
    const image: Option<seq<uint8>>
    /** How the host answers fixed-address mapping requests. */
    const mapOk: MapPolicy

    /** The contents behind `file_desc` once it is open, and its cursor. */
    const file: seq<uint8> := if image.Some? then image.value else []
    var pos: nat
    var mem: Memory
    var log: seq<Event>

    /** The globals of loader.c: `file_desc` is open, and the blocks `ehdr` and `phdr` point to while held. */
    var fileOpen: bool
    var ehdr: Option<seq<uint8>>
    var phdr: Option<seq<uint8>>

    /** The state of a process that has done nothing yet. */
    ghost predicate Initial()
      reads this
    {
      pos == 0 && log == [] && !fileOpen && ehdr.None? && phdr.None?
    }

    constructor (image: Option<seq<uint8>>, mapOk: MapPolicy, mem0: Memory)
      ensures this.image == image && this.mapOk == mapOk && mem == mem0 && Initial()
    {
      this.image := image;
      this.mapOk := mapOk;
      pos, mem, log := 0, mem0, [];
      fileOpen, ehdr, phdr := false, None, None;
    }

    /** open(exe[1], O_RDONLY). */
    method Open() returns (ok: bool)
      requires !fileOpen
      modifies this`fileOpen, this`pos, this`log
      ensures ok == image.Some? && fileOpen == ok
      ensures ok ==> file == image.value && pos == 0
      ensures !ok ==> pos == old(pos)
      ensures log == old(log) + [Event.Open(ok)]
    {
      ok := image.Some?;
      if ok {
        pos := 0;
      }
      fileOpen := ok;
      log := log + [Event.Open(ok)];
    }

    /** read(file_desc, buf, n): the bytes delivered, the cursor moved past them. */
    method Read(n: nat) returns (data: seq<uint8>)
      requires fileOpen
      modifies this`pos, this`log
      ensures data == ReadAt(file, old(pos), n) && pos == old(pos) + |data|
      ensures log == old(log) + [Event.Read(n, |data|)]
    {
      data := ReadAt(file, pos, n);
      pos := pos + |data|;
      log := log + [Event.Read(n, |data|)];
    }

    /** read(file_desc, mapped_mem, n): the bytes delivered land in memory at `addr`. */
    method ReadToMemory(addr: nat, n: nat) returns (got: nat)
      requires fileOpen
      modifies this`pos, this`log, this`mem
      ensures got == |ReadAt(file, old(pos), n)| && pos == old(pos) + got
      ensures mem == Store(old(mem), addr, ReadAt(file, old(pos), n))
      ensures log == old(log) + [Event.Read(n, got)]
    {
      var data := Read(n);
      mem := Store(mem, addr, data);
      got := |data|;
    }

    /** lseek(file_desc, off, SEEK_SET). */
    method Lseek(off: nat) returns (ok: bool)
      requires fileOpen
      modifies this`pos, this`log
      ensures ok == !SeekRejected(off)
      ensures pos == if ok then off else old(pos)
      ensures log == old(log) + [Event.Lseek(off, ok)]
    {
      ok := !SeekRejected(off);
      if ok {
        pos := off;
      }
      log := log + [Event.Lseek(off, ok)];
    }

    /** mmap(vaddr, len, PROT_READ | PROT_WRITE | PROT_EXEC, MAP_ANONYMOUS | MAP_PRIVATE | MAP_FIXED, -1, 0). */
    method Mmap(vaddr: nat, len: nat) returns (ok: bool)
      modifies this`mem, this`log
      ensures ok == mapOk(vaddr, len)
      ensures mem == if ok then MapZero(old(mem), vaddr, len) else old(mem)
      ensures log == old(log) + [Event.Mmap(vaddr, len, ok)]
    {
      ok := mapOk(vaddr, len);
      if ok {
        mem := MapZero(mem, vaddr, len);
      }
      log := log + [Event.Mmap(vaddr, len, ok)];
    }

    /** ehdr = malloc(sizeof(Elf32_Ehdr)); the block's initial contents are modelled as zeros. */
    method MallocEhdr()
      requires ehdr.None?
      modifies this`ehdr, this`log
      ensures ehdr == Some(Zeros(EHDR_SIZE)) && log == old(log) + [AllocEhdr]
    {
      ehdr := Some(Zeros(EHDR_SIZE));
      log := log + [AllocEhdr];
    }

    /** phdr = malloc(size). */
    method MallocPhdr(size: nat)
      requires phdr.None?
      modifies this`phdr, this`log
      ensures phdr == Some(Zeros(size)) && log == old(log) + [AllocPhdr]
    {
      phdr := Some(Zeros(size));
      log := log + [AllocPhdr];
    }

    /** free(phdr). */
    method FreePhdr()
      requires phdr.Some?
      modifies this`phdr, this`log
      ensures phdr.None? && log == old(log) + [Event.FreePhdr]
    {
      phdr := None;
      log := log + [Event.FreePhdr];
    }

    /** free(ehdr). */
    method FreeEhdr()
      requires ehdr.Some?
      modifies this`ehdr, this`log
      ensures ehdr.None? && log == old(log) + [Event.FreeEhdr]
    {
      ehdr := None;
      log := log + [Event.FreeEhdr];
    }

    /** close(file_desc). */
    method Close()
      requires fileOpen
      modifies this`fileOpen, this`log
      ensures !fileOpen && log == old(log) + [Event.Close]
    {
      fileOpen := false;
      log := log + [Event.Close];
    }

    /** loader_cleanup: releases the table, then the header, then the file; leaves every mapping in place. */
    method LoaderCleanup()
      requires phdr.Some? && ehdr.Some? && fileOpen
      modifies this`phdr, this`ehdr, this`fileOpen, this`log
      ensures phdr.None? && ehdr.None? && !fileOpen
      ensures log == old(log) + RELEASE
    {
      FreePhdr();
      FreeEhdr();
      Close();
    }

    /** The memory, cursor and log are those of `p`, whose events follow `prefix`. */
    ghost predicate Reflects(prefix: seq<Event>, p: Progress)
      reads this
    {
      mem == p.mem && pos == p.pos && log == prefix + p.log
    }

    /**
      The body of the loop for entry `i`: a PT_LOAD entry is mapped, then
      its file bytes are read into the start of the mapping; any other entry
      is skipped. The loop's progress so far is `q`.
     */
    method MapEntry(ph: Phdr, i: nat, ghost prefix: seq<Event>, ghost q: Progress) returns (failure: Option<Error>)
      requires fileOpen && q.failure.None? && Reflects(prefix, q)
      modifies this`mem, this`pos, this`log
      ensures Reflects(prefix, LoadEntry(q, file, ph, i, mapOk))
      ensures failure == LoadEntry(q, file, ph, i, mapOk).failure
    {
      failure := None;
      if ph.ptype == PT_LOAD {
        var mapped := Mmap(ph.vaddr, ph.memsz);
        if !mapped {
          assert log == prefix + (q.log + [Event.Mmap(ph.vaddr, ph.memsz, false)]);
          return Some(MapError(i));
        }
        var sought := Lseek(ph.offset);
        if !sought {
          assert log == prefix + (q.log + [Event.Mmap(ph.vaddr, ph.memsz, true)] + [Event.Lseek(ph.offset, false)]);
          return Some(SegmentSeekError(i));
        }
        var got := ReadToMemory(ph.vaddr, ph.filesz);
        assert log == prefix + (q.log + [Event.Mmap(ph.vaddr, ph.memsz, true)]
                                + [Event.Lseek(ph.offset, true), Event.Read(ph.filesz, got)]);
        if got != ph.filesz {
          return Some(SegmentShort(i));
        }
      }
    }

    /** Iteration `i` of the loop: phdr[i] is read from the table buffer with the fixed 32-byte stride. */
    method MapStep(table: seq<uint8>, i: nat, ghost count: nat, ghost prefix: seq<Event>, ghost p0: Progress)
      returns (failure: Option<Error>)
      requires fileOpen && p0.failure.None? && i < count && 32 * count <= |table|
      requires LoadSegments(p0, file, DecodeTable(table, count), i, mapOk).failure.None?
      requires Reflects(prefix, LoadSegments(p0, file, DecodeTable(table, count), i, mapOk))
      modifies this`mem, this`pos, this`log
      ensures Reflects(prefix, LoadSegments(p0, file, DecodeTable(table, count), i + 1, mapOk))
      ensures failure == LoadSegments(p0, file, DecodeTable(table, count), i + 1, mapOk).failure
    {
      ghost var phs := DecodeTable(table, count);
      ghost var q := LoadSegments(p0, file, phs, i, mapOk);
      DecodeTableAt(table, count, i);
      failure := MapEntry(DecodePhdr(table, i), i, prefix, q);
    }

    /**
      The loop `while (i < phdr_count)`, entries taken in index order; it
      stops at the first failure. Its effect is the first `count` iterations
      of LoadSegments, started from the current memory and cursor.
     */
    method MapSegments(table: seq<uint8>, count: nat) returns (failure: Option<Error>)
      requires fileOpen && 32 * count <= |table|
      modifies this`mem, this`pos, this`log
      ensures Reflects(old(log), LoadSegments(Progress(old(mem), old(pos), [], None), file, DecodeTable(table, count), count, mapOk))
      ensures failure == LoadSegments(Progress(old(mem), old(pos), [], None), file, DecodeTable(table, count), count, mapOk).failure
    {
      ghost var p0 := Progress(mem, pos, [], None);
      ghost var phs := DecodeTable(table, count);
      var i := 0;
      while i < count
        invariant 0 <= i <= count
        invariant LoadSegments(p0, file, phs, i, mapOk).failure.None?
        invariant Reflects(old(log), LoadSegments(p0, file, phs, i, mapOk))
      {
        failure := MapStep(table, i, count, old(log), p0);
        if failure.Some? {
          FailureIsFinal(p0, file, phs, i + 1, count, mapOk);
          return;
        }
        i := i + 1;
      }
      failure := None;
    }

    /** Neither block is held and the file is closed. */
    ghost predicate Released()
      reads this
    {
      !fileOpen && ehdr.None? && phdr.None?
    }

    /** The state right after the header read succeeded. */
    ghost predicate HeaderHeld()
      reads this
    {
      EHDR_SIZE <= |file| && fileOpen && pos == EHDR_SIZE && ehdr == Some(file[..EHDR_SIZE]) && phdr.None?
      && log == HeaderLog(file)
    }

    /** The state right after the table read succeeded. */
    ghost predicate TableHeld()
      reads this
    {
      TableReadable(file) && fileOpen && ehdr == Some(file[..EHDR_SIZE]) && phdr == Some(Table(file))
      && pos == Header(file).phoff + TableSize(Header(file)) && log == TableLog(file)
    }

    /**
      The header step of load_and_run_elf: ehdr = malloc(sizeof(Elf32_Ehdr)),
      then one read of 52 bytes into it; a short read frees the block and
      closes the file.
     */
    method ReadElfHeader() returns (ok: bool)
      requires fileOpen && pos == 0 && ehdr.None? && phdr.None? && log == [Event.Open(true)]
      modifies this`ehdr, this`pos, this`log, this`fileOpen
      ensures ok == (EHDR_SIZE <= |file|)
      ensures ok ==> HeaderHeld()
      ensures !ok ==> Released() && log == HeaderLog(file) + [Event.FreeEhdr, Event.Close]
    {
      MallocEhdr();
      var hdr := Read(EHDR_SIZE);
      ehdr := Some(hdr + ehdr.value[|hdr|..]);
      if |hdr| != EHDR_SIZE {
        FreeEhdr();
        Close();
        return false;
      }
      assert ehdr.value == file[..EHDR_SIZE];
      return true;
    }

    /**
      The table step of load_and_run_elf: phdr = malloc(phdr_size * phdr_count),
      lseek to e_phoff, then one read of phdr_size * phdr_count bytes into the
      block; either failure releases the table, the header and the file.
     */
    method ReadProgramHeaders(phdrSize: nat, phdrCount: nat) returns (failure: Option<Error>)
      requires HeaderHeld() && Indexable(file)
      requires phdrSize == Header(file).phentsize && phdrCount == Header(file).phnum
      modifies this`phdr, this`pos, this`log, this`fileOpen, this`ehdr
      ensures failure.None? <==> TableReadable(file)
      ensures failure.None? ==> TableHeld()
      ensures failure.Some? ==> Released() && Final(Failed(failure.value), mem, log) == LoadTable(file, mem, mapOk)
    {
      var tableSize := phdrSize * phdrCount;  // computed alike for the malloc and the read
      assert tableSize == TableSize(Header(file));
      MallocPhdr(tableSize);
      var phdrOffset := DecodeEhdr(ehdr.value).phoff;
      var sought := Lseek(phdrOffset);
      if !sought {
        LoaderCleanup();  // free(phdr); free(ehdr); close(file_desc);
        return Some(TableSeekError);
      }
      var table := Read(tableSize);
      phdr := Some(table + phdr.value[|table|..]);
      if |table| != tableSize {
        LoaderCleanup();  // free(phdr); free(ehdr); close(file_desc);
        return Some(TableShort);
      }
      assert phdr.value == table;
      return None;
    }

    /**
      load_and_run_elf. Every failure releases what was acquired and ends
      the process (the C code calls exit); success leaves the file open and
      both blocks held, and hands e_entry to the dispatcher.
     */
    method LoadAndRunElf() returns (outcome: Outcome)
      requires Initial()
      requires image.Some? ==> Indexable(image.value)
      modifies this
      ensures Final(outcome, mem, log) == Load(image, old(mem), mapOk)
      ensures outcome.Failed? ==> !fileOpen && ehdr.None? && phdr.None?
      ensures outcome.Dispatched? ==> fileOpen && ehdr.Some? && phdr.Some?
    {
      var isOpen := Open();
      if !isOpen {
        outcome := Failed(OpenError);
        return;
      }

      var ok := ReadElfHeader();
      if !ok {
        outcome := Failed(HeaderShort);
        return;
      }

      var h := DecodeEhdr(ehdr.value);
      var phdrCount := h.phnum;
      var phdrSize := h.phentsize;
      var failure := ReadProgramHeaders(phdrSize, phdrCount);
      if failure.Some? {
        outcome := Failed(failure.value);
        return;
      }

      outcome := MapAndDispatch();
      assert Load(image, old(mem), mapOk) == LoadAll(file, old(mem), mapOk);
    }

    /**
      The rest of load_and_run_elf once the table is in: the segment loop,
      then either the release of everything on a failure or the jump to
      e_entry with every resource still held.
     */
    method MapAndDispatch() returns (outcome: Outcome)
      requires TableHeld() && Indexable(file)
      modifies this`mem, this`pos, this`log, this`phdr, this`ehdr, this`fileOpen
      ensures Final(outcome, mem, log) == LoadAll(file, old(mem), mapOk)
      ensures outcome.Failed? ==> Released()
      ensures outcome.Dispatched? ==> fileOpen && ehdr.Some? && phdr.Some?
    {
      var phdrCount := DecodeEhdr(ehdr.value).phnum;
      SegmentsFromTable(file, phdr.value, phdrCount, mem, pos, mapOk);
      var failure := MapSegments(phdr.value, phdrCount);
      if failure.Some? {
        LoaderCleanup();  // the same three calls, in the same order, as every error path
        outcome := Failed(failure.value);
        return;
      }
      outcome := Dispatched(DecodeEhdr(ehdr.value).entry);
      log := log + [Dispatch(outcome.entry)];
    }

    /** main: exactly one argument, then load_and_run_elf, then loader_cleanup. */
    method RunMain(argc: int) returns (outcome: Outcome)
      requires Initial()
      requires argc == 2 && image.Some? ==> Indexable(image.value)
      modifies this
      ensures Final(outcome, mem, log) == Run(argc, image, old(mem), mapOk)
      ensures !fileOpen && ehdr.None? && phdr.None?
    {
      if argc != 2 {
        outcome := Failed(UsageError);
        return;
      }
      outcome := LoadAndRunElf();
      if outcome.Dispatched? {
        LoaderCleanup();
      }
    }
  }
}
