/**
  What loader.c promises, proved about the pipeline functions of LoaderSpec.
 */
module LoaderProperties {
  import opened Wrappers
  import opened Bytes
  import opened Elf32
  import opened Host
  import opened LoaderSpec

  /** Address `a` holds the same thing (or nothing) in both address spaces. */
  predicate SameAt(m: Memory, m0: Memory, a: int) {
    (a in m <==> a in m0) && (a in m0 ==> m[a] == m0[a])
  }

  /** Once an iteration fails the loop is over: later counts of iterations change nothing. */
  lemma {:induction false} FailureIsFinal(p0: Progress, f: seq<uint8>, phs: seq<Phdr>, j: nat, k: nat, mapOk: MapPolicy)
    requires p0.failure.None? && j <= k <= |phs|
    requires LoadSegments(p0, f, phs, j, mapOk).failure.Some?
    ensures LoadSegments(p0, f, phs, k, mapOk) == LoadSegments(p0, f, phs, j, mapOk)
    decreases k
  {
    if k != j {
      FailureIsFinal(p0, f, phs, j, k - 1, mapOk);
    }
  }

  /** The events of the segment loop: mmap, lseek and read calls only. */
  predicate IoEvent(e: Event) {
    e.Mmap? || e.Lseek? || e.Read?
  }

  /**
    How one loop iteration ends: a non-PT_LOAD entry changes nothing; a
    PT_LOAD entry fails on a refused mapping, then on a refused seek, then
    on a short read, and otherwise succeeds, leaving the cursor just past
    the segment's file bytes and four more events in the log.
   */
  lemma EntryOutcome(p: Progress, f: seq<uint8>, ph: Phdr, i: nat, mapOk: MapPolicy)
    requires p.failure.None?
    ensures var r := LoadEntry(p, f, ph, i, mapOk);
      && (ph.ptype != PT_LOAD ==> r == p)
      && (r.failure.None? <==> EntryLoads(f, ph, mapOk))
      && (r.failure == Some(MapError(i)) <==> ph.ptype == PT_LOAD && !mapOk(ph.vaddr, ph.memsz))
      && (r.failure == Some(SegmentSeekError(i))
          <==> ph.ptype == PT_LOAD && mapOk(ph.vaddr, ph.memsz) && SeekRejected(ph.offset))
      && (r.failure == Some(SegmentShort(i))
          <==> ph.ptype == PT_LOAD && mapOk(ph.vaddr, ph.memsz) && !SeekRejected(ph.offset) && !FileHolds(f, ph))
      && |p.log| <= |r.log| && r.log[..|p.log|] == p.log
      && (forall n :: |p.log| <= n < |r.log| ==> IoEvent(r.log[n]))
      && (ph.ptype == PT_LOAD && r.failure.None? ==>
            r.pos == ph.offset + ph.filesz
            && r.log == p.log + [Mmap(ph.vaddr, ph.memsz, true), Lseek(ph.offset, true), Read(ph.filesz, ph.filesz)])
  {
  }

  /** An iteration leaves every address its entry does not write exactly as it was. */
  lemma EntryFrame(p: Progress, f: seq<uint8>, ph: Phdr, i: nat, mapOk: MapPolicy, a: int)
    requires p.failure.None? && !Writes(ph, a)
    ensures SameAt(LoadEntry(p, f, ph, i, mapOk).mem, p.mem, a)
  {
  }

  /**
    What a mapped PT_LOAD entry leaves at `a` within its reach, even when
    the read comes up short: the file byte where the read delivered one,
    otherwise zero anywhere inside the p_memsz mapping.
   */
  lemma EntryContents(p: Progress, f: seq<uint8>, ph: Phdr, i: nat, mapOk: MapPolicy, a: int)
    requires p.failure.None? && ph.ptype == PT_LOAD && mapOk(ph.vaddr, ph.memsz) && !SeekRejected(ph.offset)
    requires ph.vaddr <= a < ph.vaddr + Max(ph.memsz, ph.filesz)
    ensures var m := LoadEntry(p, f, ph, i, mapOk).mem; var k := a - ph.vaddr;
      && (k < ph.filesz && ph.offset + k < |f| ==> a in m && m[a] == f[ph.offset + k])
      && (!(k < ph.filesz && ph.offset + k < |f|) && k < ph.memsz ==> a in m && m[a] == 0)
  {
  }

  /** The loop gets through its first `k` entries exactly when each of them loads without an error. */
  lemma {:induction false} SegmentsSucceed(p0: Progress, f: seq<uint8>, phs: seq<Phdr>, k: nat, mapOk: MapPolicy)
    requires p0.failure.None? && k <= |phs|
    ensures LoadSegments(p0, f, phs, k, mapOk).failure.None? <==> forall j :: 0 <= j < k ==> EntryLoads(f, phs[j], mapOk)
    decreases k
  {
    if k != 0 {
      SegmentsSucceed(p0, f, phs, k - 1, mapOk);
      var p := LoadSegments(p0, f, phs, k - 1, mapOk);
      if p.failure.None? {
        EntryOutcome(p, f, phs[k - 1], k - 1, mapOk);
      }
    }
  }

  /** A loop failure names the PT_LOAD entry it stopped at, and only per-entry errors arise. */
  lemma {:induction false} SegmentFailureKinds(p0: Progress, f: seq<uint8>, phs: seq<Phdr>, k: nat, mapOk: MapPolicy)
    requires p0.failure.None? && k <= |phs|
    ensures var e := LoadSegments(p0, f, phs, k, mapOk).failure;
      e.Some? ==> (e.value.MapError? || e.value.SegmentSeekError? || e.value.SegmentShort?)
                  && e.value.index < k && phs[e.value.index].ptype == PT_LOAD
                  && !EntryLoads(f, phs[e.value.index], mapOk)
    decreases k
  {
    if k != 0 {
      SegmentFailureKinds(p0, f, phs, k - 1, mapOk);
      var p := LoadSegments(p0, f, phs, k - 1, mapOk);
      if p.failure.None? {
        EntryOutcome(p, f, phs[k - 1], k - 1, mapOk);
      }
    }
  }

  /**
    A failed loop stopped at the entry its error names: everything before
    that entry went through, and the loop's final state is that entry's
    failed iteration, with whatever it had mapped and read left in place.
   */
  lemma {:induction false} SegmentFailureState(p0: Progress, f: seq<uint8>, phs: seq<Phdr>, k: nat, mapOk: MapPolicy)
    requires p0.failure.None? && k <= |phs|
    ensures var e := LoadSegments(p0, f, phs, k, mapOk).failure;
      e.Some? && (e.value.MapError? || e.value.SegmentSeekError? || e.value.SegmentShort?) ==>
        e.value.index < k
        && LoadSegments(p0, f, phs, e.value.index, mapOk).failure.None?
        && LoadSegments(p0, f, phs, k, mapOk)
           == LoadEntry(LoadSegments(p0, f, phs, e.value.index, mapOk), f, phs[e.value.index], e.value.index, mapOk)
    decreases k
  {
    if k != 0 {
      SegmentFailureState(p0, f, phs, k - 1, mapOk);
      var p := LoadSegments(p0, f, phs, k - 1, mapOk);
      if p.failure.None? {
        EntryOutcome(p, f, phs[k - 1], k - 1, mapOk);
      }
    }
  }

  /** An address no entry among the first `k` writes is left exactly as it was. */
  lemma {:induction false} SegmentsFrame(p0: Progress, f: seq<uint8>, phs: seq<Phdr>, k: nat, mapOk: MapPolicy, a: int)
    requires p0.failure.None? && k <= |phs|
    requires forall j :: 0 <= j < k ==> !Writes(phs[j], a)
    ensures SameAt(LoadSegments(p0, f, phs, k, mapOk).mem, p0.mem, a)
    decreases k
  {
    if k != 0 {
      SegmentsFrame(p0, f, phs, k - 1, mapOk, a);
      var p := LoadSegments(p0, f, phs, k - 1, mapOk);
      if p.failure.None? {
        EntryFrame(p, f, phs[k - 1], k - 1, mapOk, a);
      }
    }
  }

  /**
    After a loop that got through its first `k` entries, an address inside
    the reach of PT_LOAD entry `j` that no later entry writes holds that
    segment's byte: the file byte within p_filesz, zero after it.
   */
  lemma {:induction false} SegmentLoaded(p0: Progress, f: seq<uint8>, phs: seq<Phdr>, j: nat, k: nat, mapOk: MapPolicy, a: int)
    requires p0.failure.None? && j < k <= |phs|
    requires LoadSegments(p0, f, phs, k, mapOk).failure.None?
    requires phs[j].ptype == PT_LOAD && phs[j].vaddr <= a < phs[j].vaddr + Max(phs[j].memsz, phs[j].filesz)
    requires forall l :: j < l < k ==> !Writes(phs[l], a)
    ensures FileHolds(f, phs[j])
    ensures var m := LoadSegments(p0, f, phs, k, mapOk).mem; a in m && m[a] == SegmentByte(f, phs[j], a)
    decreases k
  {
    var p := LoadSegments(p0, f, phs, k - 1, mapOk);
    if k - 1 == j {
      EntryOutcome(p, f, phs[j], j, mapOk);
      EntryContents(p, f, phs[j], j, mapOk, a);
    } else {
      SegmentLoaded(p0, f, phs, j, k - 1, mapOk, a);
      EntryFrame(p, f, phs[k - 1], k - 1, mapOk, a);
    }
  }

  /** The loop only maps, seeks and reads: it opens, allocates, frees, closes and dispatches nothing. */
  lemma {:induction false} SegmentLogIsIo(p0: Progress, f: seq<uint8>, phs: seq<Phdr>, k: nat, mapOk: MapPolicy)
    requires p0.failure.None? && p0.log == [] && k <= |phs|
    ensures forall n :: 0 <= n < |LoadSegments(p0, f, phs, k, mapOk).log| ==> IoEvent(LoadSegments(p0, f, phs, k, mapOk).log[n])
    decreases k
  {
    if k != 0 {
      SegmentLogIsIo(p0, f, phs, k - 1, mapOk);
      var p := LoadSegments(p0, f, phs, k - 1, mapOk);
      if p.failure.None? {
        var r := LoadEntry(p, f, phs[k - 1], k - 1, mapOk);
        EntryOutcome(p, f, phs[k - 1], k - 1, mapOk);
        forall n | 0 <= n < |p.log|
          ensures IoEvent(r.log[n])
        {
          assert r.log[n] == r.log[..|p.log|][n];
        }
      }
    }
  }
}
