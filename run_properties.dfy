/**
  What a whole run of loader.c promises, proved about LoaderSpec.Load and
  LoaderSpec.Run from the properties of the segment loop.
 */
module RunProperties {
  import opened Wrappers
  import opened Bytes
  import opened Elf32
  import opened Host
  import opened LoaderSpec
  import opened LoaderProperties

  /** The segment loop of a readable table fails only with a per-entry error. */
  lemma LoopErrorIsPerEntry(f: seq<uint8>, mem0: Memory, mapOk: MapPolicy)
    requires TableReadable(f) && Indexable(f)
    ensures var e := Segments(f, mem0, mapOk).failure;
      e.Some? ==> e.value.MapError? || e.value.SegmentSeekError? || e.value.SegmentShort?
  {
    var h := Header(f);
    SegmentFailureKinds(Progress(mem0, h.phoff + TableSize(h), [], None), f, Phdrs(f), h.phnum, mapOk);
  }

  /** main refuses any argument count but one, before doing anything else. */
  lemma UsageChecked(argc: int, image: Option<seq<uint8>>, mem0: Memory, mapOk: MapPolicy)
    requires argc == 2 && image.Some? ==> Indexable(image.value)
    ensures Run(argc, image, mem0, mapOk).outcome == Failed(UsageError) <==> argc != 2
    ensures argc != 2 ==> Run(argc, image, mem0, mapOk).mem == mem0 && Run(argc, image, mem0, mapOk).log == []
  {
    if argc == 2 && image.Some? && TableReadable(image.value) {
      LoopErrorIsPerEntry(image.value, mem0, mapOk);
    }
  }

  /**
    open() failing and a short header read are the first two exits: each
    happens exactly in its own case, maps nothing, and logs exactly the
    calls made up to it.
   */
  lemma OpenAndHeaderExits(image: Option<seq<uint8>>, mem0: Memory, mapOk: MapPolicy)
    requires image.Some? ==> Indexable(image.value)
    ensures Load(image, mem0, mapOk).outcome == Failed(OpenError) <==> image.None?
    ensures image.None? ==> Load(image, mem0, mapOk) == Final(Failed(OpenError), mem0, [Open(false)])
    ensures image.Some? ==> (Load(image, mem0, mapOk).outcome == Failed(HeaderShort) <==> |image.value| < EHDR_SIZE)
    ensures image.Some? && |image.value| < EHDR_SIZE ==>
              Load(image, mem0, mapOk).mem == mem0
              && Load(image, mem0, mapOk).log == [Open(true), AllocEhdr, Read(EHDR_SIZE, |image.value|), FreeEhdr, Close]
  {
    if image.Some? {
      var f := image.value;
      if |f| < EHDR_SIZE {
        var got := ReadAt(f, 0, EHDR_SIZE);
        assert |got| == |f|;
      } else if TableReadable(f) {
        LoopErrorIsPerEntry(f, mem0, mapOk);
      }
    }
  }

  /**
    The table exits: the seek fails exactly when e_phoff does not fit the
    signed 32-bit file offset, the read comes up short exactly when the
    table runs past the end of the file; either way nothing is mapped.
   */
  lemma TableExits(f: seq<uint8>, mem0: Memory, mapOk: MapPolicy)
    requires EHDR_SIZE <= |f| && Indexable(f)
    ensures Load(Some(f), mem0, mapOk).outcome == Failed(TableSeekError) <==> SeekRejected(Header(f).phoff)
    ensures Load(Some(f), mem0, mapOk).outcome == Failed(TableShort)
            <==> !SeekRejected(Header(f).phoff) && 0 < TableSize(Header(f)) && |f| < Header(f).phoff + TableSize(Header(f))
    ensures !TableReadable(f) ==> Load(Some(f), mem0, mapOk).mem == mem0
    ensures !TableReadable(f) ==>
              forall n :: 0 <= n < |Load(Some(f), mem0, mapOk).log| ==> !Load(Some(f), mem0, mapOk).log[n].Mmap?
  {
    if TableReadable(f) {
      LoopErrorIsPerEntry(f, mem0, mapOk);
    }
  }

  /** With no program headers there is nothing to map: the loader hands e_entry over with memory untouched. */
  lemma EmptyTableDispatches(f: seq<uint8>, mem0: Memory, mapOk: MapPolicy)
    requires EHDR_SIZE <= |f| && Header(f).phnum == 0 && !SeekRejected(Header(f).phoff)
    ensures Indexable(f)
    ensures Load(Some(f), mem0, mapOk) == Final(Dispatched(Header(f).entry), mem0, TableLog(f) + [Dispatch(Header(f).entry)])
  {
    assert TableSize(Header(f)) == 0;
  }

  /**
    The loader reaches the entry point exactly when the table was read and
    every entry loads; it then hands over e_entry (the 32-bit value at
    offset 24 of the file) as its last call.
   */
  lemma DispatchCondition(f: seq<uint8>, mem0: Memory, mapOk: MapPolicy)
    requires Indexable(f)
    ensures Load(Some(f), mem0, mapOk).outcome.Dispatched?
            <==> TableReadable(f) && forall j :: 0 <= j < Header(f).phnum ==> EntryLoads(f, Phdrs(f)[j], mapOk)
    ensures Load(Some(f), mem0, mapOk).outcome.Dispatched? ==>
              Load(Some(f), mem0, mapOk).outcome.entry == LE32(f, E_ENTRY)
              && Load(Some(f), mem0, mapOk).log == TableLog(f) + Segments(f, mem0, mapOk).log + [Dispatch(LE32(f, E_ENTRY))]
  {
    if TableReadable(f) {
      var h := Header(f);
      SegmentsSucceed(Progress(mem0, h.phoff + TableSize(h), [], None), f, Phdrs(f), h.phnum, mapOk);
      assert h.entry == LE32(f, E_ENTRY);
    }
  }

  /** The log holds no call of an entry point. */
  predicate NoDispatch(log: seq<Event>) {
    forall n :: 0 <= n < |log| ==> !log[n].Dispatch?
  }

  lemma NoDispatchConcat(a: seq<Event>, b: seq<Event>)
    requires NoDispatch(a) && NoDispatch(b)
    ensures NoDispatch(a + b)
  {
    forall n | 0 <= n < |a + b|
      ensures !(a + b)[n].Dispatch?
    {
      if n >= |a| {
        assert (a + b)[n] == b[n - |a|];
      }
    }
  }

  /** The segment loop of a readable table calls no entry point. */
  lemma SegmentsNeverDispatch(f: seq<uint8>, mem0: Memory, mapOk: MapPolicy)
    requires TableReadable(f) && Indexable(f)
    ensures NoDispatch(Segments(f, mem0, mapOk).log)
  {
    var h := Header(f);
    SegmentLogIsIo(Progress(mem0, h.phoff + TableSize(h), [], None), f, Phdrs(f), h.phnum, mapOk);
  }

  /** A load that fails never calls the entry point. */
  lemma FailureNeverDispatches(f: seq<uint8>, mem0: Memory, mapOk: MapPolicy)
    requires Indexable(f) && Load(Some(f), mem0, mapOk).outcome.Failed?
    ensures NoDispatch(Load(Some(f), mem0, mapOk).log)
  {
    if TableReadable(f) {
      SegmentsNeverDispatch(f, mem0, mapOk);
      NoDispatchConcat(TableLog(f), Segments(f, mem0, mapOk).log);
      NoDispatchConcat(TableLog(f) + Segments(f, mem0, mapOk).log, RELEASE);
    }
  }

  /**
    After a successful load, an address within the reach of PT_LOAD entry
    `j` that no later entry writes holds the segment's byte: the file byte
    at p_offset + (a - p_vaddr) within p_filesz, zero in the rest of
    p_memsz. The later entries win where segments overlap.
   */
  lemma LoadedSegmentContents(f: seq<uint8>, mem0: Memory, mapOk: MapPolicy, j: nat, a: int)
    requires TableReadable(f) && Indexable(f) && Load(Some(f), mem0, mapOk).outcome.Dispatched?
    requires j < Header(f).phnum && Phdrs(f)[j].ptype == PT_LOAD
    requires Phdrs(f)[j].vaddr <= a < Phdrs(f)[j].vaddr + Max(Phdrs(f)[j].memsz, Phdrs(f)[j].filesz)
    requires forall l :: j < l < Header(f).phnum ==> !Writes(Phdrs(f)[l], a)
    ensures FileHolds(f, Phdrs(f)[j])
    ensures a in Load(Some(f), mem0, mapOk).mem
            && Load(Some(f), mem0, mapOk).mem[a] == SegmentByte(f, Phdrs(f)[j], a)
  {
    var h := Header(f);
    SegmentLoaded(Progress(mem0, h.phoff + TableSize(h), [], None), f, Phdrs(f), j, h.phnum, mapOk, a);
  }

  /** Once the table is read, the run's outcome and memory are those the segment loop leaves. */
  lemma RunIsSegments(f: seq<uint8>, mem0: Memory, mapOk: MapPolicy)
    requires TableReadable(f) && Indexable(f)
    ensures var s := Segments(f, mem0, mapOk);
      && Load(Some(f), mem0, mapOk).outcome == (if s.failure.Some? then Failed(s.failure.value) else Dispatched(Header(f).entry))
      && Run(2, Some(f), mem0, mapOk).mem == s.mem
  {
  }

  /**
    A short segment read ends the run with that segment still mapped:
    every address of its p_memsz mapping is present, holding the file byte
    the read delivered there and zero elsewhere. Exiting releases the
    heap blocks and the descriptor but unmaps nothing.
   */
  lemma ShortReadKeepsMapping(f: seq<uint8>, mem0: Memory, mapOk: MapPolicy, j: nat, a: int)
    requires TableReadable(f) && Indexable(f) && j < Header(f).phnum
    requires Load(Some(f), mem0, mapOk).outcome == Failed(SegmentShort(j))
    requires Phdrs(f)[j].vaddr <= a < Phdrs(f)[j].vaddr + Phdrs(f)[j].memsz
    ensures !FileHolds(f, Phdrs(f)[j])
    ensures var m := Run(2, Some(f), mem0, mapOk).mem; var ph := Phdrs(f)[j]; var k := a - ph.vaddr;
      a in m && m[a] == if k < ph.filesz && ph.offset + k < |f| then f[ph.offset + k] else 0
  {
    var h := Header(f);
    var p0 := Progress(mem0, h.phoff + TableSize(h), [], None);
    var s := Segments(f, mem0, mapOk);
    RunIsSegments(f, mem0, mapOk);
    assert s.failure == Some(SegmentShort(j));
    SegmentFailureState(p0, f, Phdrs(f), h.phnum, mapOk);
    var q := LoadSegments(p0, f, Phdrs(f), j, mapOk);
    var ph := Phdrs(f)[j];
    assert s == LoadEntry(q, f, ph, j, mapOk);
    EntryOutcome(q, f, ph, j, mapOk);
    EntryContents(q, f, ph, j, mapOk, a);
    var k := a - ph.vaddr;
    if k < ph.filesz && ph.offset + k < |f| {
      assert a in s.mem && s.mem[a] == f[ph.offset + k];
    } else {
      assert a in s.mem && s.mem[a] == 0;
    }
  }

  /** Whatever the outcome, an address no PT_LOAD entry reaches is left as the process had it. */
  lemma UntouchedOutsideSegments(image: Option<seq<uint8>>, mem0: Memory, mapOk: MapPolicy, a: int)
    requires image.Some? ==> Indexable(image.value)
    requires image.Some? && TableReadable(image.value) ==>
               forall j :: 0 <= j < Header(image.value).phnum ==> !Writes(Phdrs(image.value)[j], a)
    ensures SameAt(Load(image, mem0, mapOk).mem, mem0, a)
  {
    if image.Some? && TableReadable(image.value) {
      var f := image.value;
      var h := Header(f);
      SegmentsFrame(Progress(mem0, h.phoff + TableSize(h), [], None), f, Phdrs(f), h.phnum, mapOk, a);
    }
  }

  /** Whether `e` acquires or releases one of the loader's resources: the descriptor and the two heap blocks. */
  predicate ResourceEvent(e: Event) {
    e == Open(true) || e.AllocEhdr? || e.AllocPhdr? || e.FreePhdr? || e.FreeEhdr? || e.Close?
  }

  /** The acquisitions and releases in `log`, in order. */
  function ResourceCalls(log: seq<Event>): (r: seq<Event>)
    ensures |r| <= |log|
  {
    if log == [] then []
    else ResourceCalls(log[..|log| - 1]) + (if ResourceEvent(log[|log| - 1]) then [log[|log| - 1]] else [])
  }

  lemma {:induction false} ResourceCallsAppend(a: seq<Event>, b: seq<Event>)
    ensures ResourceCalls(a + b) == ResourceCalls(a) + ResourceCalls(b)
    decreases |b|
  {
    if b == [] {
      assert a + b == a;
    } else {
      var n := |b| - 1;
      assert (a + b)[..|a + b| - 1] == a + b[..n];
      ResourceCallsAppend(a, b[..n]);
    }
  }

  /** A log of mmap, lseek and read calls acquires and releases nothing. */
  lemma {:induction false} IoLogHasNoResourceCalls(log: seq<Event>)
    requires forall n :: 0 <= n < |log| ==> IoEvent(log[n])
    ensures ResourceCalls(log) == []
    decreases |log|
  {
    if log != [] {
      IoLogHasNoResourceCalls(log[..|log| - 1]);
    }
  }

  /** The segment loop of a readable table acquires and releases nothing. */
  lemma SegmentsHoldNothing(f: seq<uint8>, mem0: Memory, mapOk: MapPolicy)
    requires TableReadable(f) && Indexable(f)
    ensures ResourceCalls(Segments(f, mem0, mapOk).log) == []
  {
    var h := Header(f);
    SegmentLogIsIo(Progress(mem0, h.phoff + TableSize(h), [], None), f, Phdrs(f), h.phnum, mapOk);
    IoLogHasNoResourceCalls(Segments(f, mem0, mapOk).log);
  }

  lemma HeaderLogResources(f: seq<uint8>)
    ensures ResourceCalls(HeaderLog(f)) == [Open(true), AllocEhdr]
  {
    var hl := HeaderLog(f);
    assert ResourceCalls(hl) == ResourceCalls(hl[..2]);
    assert hl[..2][..1] == [Open(true)];
    assert ResourceCalls(hl[..2]) == ResourceCalls([Open(true)]) + [AllocEhdr];
  }

  lemma TableLogResources(f: seq<uint8>)
    requires EHDR_SIZE <= |f|
    ensures ResourceCalls(TableLog(f)) == [Open(true), AllocEhdr, AllocPhdr]
  {
    var tl := [AllocPhdr, Lseek(Header(f).phoff, true), Read(TableSize(Header(f)), |Table(f)|)];
    assert ResourceCalls(tl) == ResourceCalls(tl[..2]);
    assert tl[..2][..1] == [AllocPhdr];
    assert ResourceCalls(tl[..2]) == ResourceCalls([AllocPhdr]);
    HeaderLogResources(f);
    ResourceCallsAppend(HeaderLog(f), tl);
  }

  lemma ReleaseResources()
    ensures ResourceCalls(RELEASE) == RELEASE
  {
    assert RELEASE[..2] == [FreePhdr, FreeEhdr];
    assert RELEASE[..2][..1] == [FreePhdr];
  }

  /** The acquisitions and releases of a run that got the header in, in order. */
  const HELD_AND_RELEASED: seq<Event> := [Open(true), AllocEhdr, AllocPhdr] + RELEASE

  /**
    A refused table seek ends the load with the table-seek error, after
    acquiring the descriptor, ehdr and phdr and releasing phdr, ehdr and
    the descriptor, in that order.
   */
  lemma SeekExitResources(f: seq<uint8>, mem0: Memory, mapOk: MapPolicy)
    requires EHDR_SIZE <= |f| && Indexable(f) && SeekRejected(Header(f).phoff)
    ensures Load(Some(f), mem0, mapOk).outcome == Failed(TableSeekError)
    ensures ResourceCalls(Load(Some(f), mem0, mapOk).log) == HELD_AND_RELEASED
  {
    var sl := [AllocPhdr, Lseek(Header(f).phoff, false)];
    assert sl[..1] == [AllocPhdr];
    assert ResourceCalls(sl) == [AllocPhdr];
    HeaderLogResources(f);
    ReleaseResources();
    ResourceCallsAppend(HeaderLog(f), sl);
    ResourceCallsAppend(HeaderLog(f) + sl, RELEASE);
    assert Load(Some(f), mem0, mapOk).log == HeaderLog(f) + sl + RELEASE;
  }

  lemma TailResources(f: seq<uint8>, seg: seq<Event>, tail: seq<Event>)
    requires EHDR_SIZE <= |f| && ResourceCalls(seg) == [] && ResourceCalls(tail) == RELEASE
    ensures ResourceCalls(TableLog(f) + seg + tail) == HELD_AND_RELEASED
  {
    TableLogResources(f);
    ResourceCallsAppend(TableLog(f), seg);
    ResourceCallsAppend(TableLog(f) + seg, tail);
  }

  lemma DispatchTailResources(entry: nat)
    ensures ResourceCalls([Dispatch(entry)] + RELEASE) == RELEASE
  {
    ReleaseResources();
    ResourceCallsAppend([Dispatch(entry)], RELEASE);
    assert ResourceCalls([Dispatch(entry)]) == ResourceCalls([Dispatch(entry)][..0]);
  }

  /** The ways a run can end once the header is in, each releasing table, header and file once. */
  lemma LateExitResources(f: seq<uint8>, mem0: Memory, mapOk: MapPolicy)
    requires EHDR_SIZE <= |f| && Indexable(f)
    ensures ResourceCalls(Run(2, Some(f), mem0, mapOk).log) == HELD_AND_RELEASED
  {
    var h := Header(f);
    if SeekRejected(h.phoff) {
      SeekExitResources(f, mem0, mapOk);
    } else if !TableReadable(f) {
      ReleaseResources();
      TailResources(f, [], RELEASE);
      assert TableLog(f) + [] == TableLog(f);
    } else {
      var p := Segments(f, mem0, mapOk);
      SegmentsHoldNothing(f, mem0, mapOk);
      ReleaseResources();
      if p.failure.Some? {
        TailResources(f, p.log, RELEASE);
      } else {
        DispatchTailResources(h.entry);
        TailResources(f, p.log, [Dispatch(h.entry)] + RELEASE);
        assert TableLog(f) + p.log + [Dispatch(h.entry)] + RELEASE == TableLog(f) + p.log + ([Dispatch(h.entry)] + RELEASE);
      }
    }
  }

  /**
    Every resource main acquires is released exactly once, in reverse order
    of acquisition, whichever way the run ends: the descriptor and the header
    block always, the table block whenever the header was read. The release
    after a successful load unmaps nothing.
   */
  lemma ResourcesReleasedOnce(f: seq<uint8>, mem0: Memory, mapOk: MapPolicy)
    requires Indexable(f)
    ensures Run(2, Some(f), mem0, mapOk).mem == Load(Some(f), mem0, mapOk).mem
    ensures ResourceCalls(Run(2, Some(f), mem0, mapOk).log)
            == if |f| < EHDR_SIZE then [Open(true), AllocEhdr, FreeEhdr, Close]
               else HELD_AND_RELEASED
  {
    if |f| < EHDR_SIZE {
      HeaderLogResources(f);
      ResourceCallsAppend(HeaderLog(f), [FreeEhdr, Close]);
    } else {
      LateExitResources(f, mem0, mapOk);
    }
  }
}
