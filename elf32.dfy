/**
  The two ELF32 records the loader reads, at the little-endian field offsets
  of the System V gABI (chapter 4, "ELF Header"; chapter 5, "Program Header").
  Only the fields the loader uses are decoded; every other byte is ignored,
  in particular the magic number, class and machine are never looked at.
 */
module Elf32 {
  import opened Bytes

  /** sizeof(Elf32_Ehdr) and sizeof(Elf32_Phdr). */
  const EHDR_SIZE: nat := 52
  const PHDR_SIZE: nat := 32

  const PT_LOAD: nat := 1

  const E_ENTRY: nat := 24
  const E_PHOFF: nat := 28
  const E_PHENTSIZE: nat := 42
  const E_PHNUM: nat := 44

  const P_TYPE: nat := 0
  const P_OFFSET: nat := 4
  const P_VADDR: nat := 8
  const P_FILESZ: nat := 16
  const P_MEMSZ: nat := 20

  /** The header fields the loader reads: e_entry, e_phoff, e_phentsize, e_phnum. */
  datatype Ehdr = Ehdr(entry: nat, phoff: nat, phentsize: nat, phnum: nat)

  /** p_type, p_offset, p_vaddr, p_filesz, p_memsz. */
  datatype Phdr = Phdr(ptype: nat, offset: nat, vaddr: nat, filesz: nat, memsz: nat)

  predicate EhdrFits(h: Ehdr) {
    h.entry < U32_LIMIT && h.phoff < U32_LIMIT && h.phentsize < U16_LIMIT && h.phnum < U16_LIMIT
  }

  predicate PhdrFits(p: Phdr) {
    p.ptype < U32_LIMIT && p.offset < U32_LIMIT && p.vaddr < U32_LIMIT
    && p.filesz < U32_LIMIT && p.memsz < U32_LIMIT
  }

  /** The header as the struct overlaying the first 52 bytes of `b` sees it. */
  function DecodeEhdr(b: seq<uint8>): (h: Ehdr)
    requires |b| >= EHDR_SIZE
    ensures EhdrFits(h)
  {
    Ehdr(LE32(b, E_ENTRY), LE32(b, E_PHOFF), LE16(b, E_PHENTSIZE), LE16(b, E_PHNUM))
  }

  /**
    Entry `i` of a program-header buffer indexed as an array of Elf32_Phdr,
    that is with a fixed stride of 32 bytes whatever e_phentsize says.
   */
  function DecodePhdr(table: seq<uint8>, i: nat): (p: Phdr)
    requires 32 * i + 32 <= |table|
    ensures PhdrFits(p)
  {
    var base := 32 * i;
    Phdr(LE32(table, base + P_TYPE), LE32(table, base + P_OFFSET), LE32(table, base + P_VADDR),
         LE32(table, base + P_FILESZ), LE32(table, base + P_MEMSZ))
  }

  /** The first `n` entries of a program-header buffer, as the array phdr[0 .. n - 1]. */
  function DecodeTable(table: seq<uint8>, n: nat): (ps: seq<Phdr>)
    requires 32 * n <= |table|
    ensures |ps| == n
  {
    if n == 0 then [] else DecodeTable(table, n - 1) + [DecodePhdr(table, n - 1)]
  }

  /** A 52-byte header holding `h`'s fields and zeros everywhere else. */
  function EncodeEhdr(h: Ehdr): (b: seq<uint8>)
    requires EhdrFits(h)
    ensures |b| == EHDR_SIZE
  {
    Zeros(E_ENTRY) + EncodeLE32(h.entry) + EncodeLE32(h.phoff) + Zeros(E_PHENTSIZE - 32)
    + EncodeLE16(h.phentsize) + EncodeLE16(h.phnum) + Zeros(EHDR_SIZE - 46)
  }

  /** A 32-byte program header holding `p`'s fields (p_paddr, p_flags and p_align zero). */
  function EncodePhdr(p: Phdr): (b: seq<uint8>)
    requires PhdrFits(p)
    ensures |b| == PHDR_SIZE
  {
    EncodeLE32(p.ptype) + EncodeLE32(p.offset) + EncodeLE32(p.vaddr) + Zeros(4)
    + EncodeLE32(p.filesz) + EncodeLE32(p.memsz) + Zeros(8)
  }

  function EncodeTable(ps: seq<Phdr>): (b: seq<uint8>)
    requires forall k :: 0 <= k < |ps| ==> PhdrFits(ps[k])
    ensures |b| == 32 * |ps|
  {
    if ps == [] then [] else EncodeTable(ps[..|ps| - 1]) + EncodePhdr(ps[|ps| - 1])
  }

  /** Decoding an encoded header gives back its fields. */
  lemma EhdrRoundTrip(h: Ehdr)
    requires EhdrFits(h)
    ensures DecodeEhdr(EncodeEhdr(h)) == h
  {
    var b := EncodeEhdr(h);
    LE32RoundTrip(h.entry, b, 0);
    LE32RoundTrip(h.phoff, b, 0);
    LE16RoundTrip(h.phentsize, b, 0);
    LE16RoundTrip(h.phnum, b, 0);
    assert b[E_ENTRY .. E_ENTRY + 4] == EncodeLE32(h.entry);
    assert b[E_PHOFF .. E_PHOFF + 4] == EncodeLE32(h.phoff);
    assert b[E_PHENTSIZE .. E_PHENTSIZE + 2] == EncodeLE16(h.phentsize);
    assert b[E_PHNUM .. E_PHNUM + 2] == EncodeLE16(h.phnum);
    LE32Window(b, E_ENTRY, 0);
    LE32Window(b, E_PHOFF, 0);
  }

  /** Decoding a single encoded program header gives back its fields. */
  lemma PhdrRoundTrip(p: Phdr)
    requires PhdrFits(p)
    ensures DecodePhdr(EncodePhdr(p), 0) == p
  {
    var b := EncodePhdr(p);
    LE32RoundTrip(p.ptype, b, 0);
    LE32RoundTrip(p.offset, b, 0);
    LE32RoundTrip(p.vaddr, b, 0);
    LE32RoundTrip(p.filesz, b, 0);
    LE32RoundTrip(p.memsz, b, 0);
    assert b[P_TYPE .. P_TYPE + 4] == EncodeLE32(p.ptype);
    assert b[P_OFFSET .. P_OFFSET + 4] == EncodeLE32(p.offset);
    assert b[P_VADDR .. P_VADDR + 4] == EncodeLE32(p.vaddr);
    assert b[P_FILESZ .. P_FILESZ + 4] == EncodeLE32(p.filesz);
    assert b[P_MEMSZ .. P_MEMSZ + 4] == EncodeLE32(p.memsz);
    LE32Window(b, P_OFFSET, 0);
    LE32Window(b, P_VADDR, 0);
    LE32Window(b, P_FILESZ, 0);
    LE32Window(b, P_MEMSZ, 0);
  }

  /** Entry `i` of a buffer only depends on the 32 bytes at `32 * i`. */
  lemma PhdrWindow(table: seq<uint8>, i: nat)
    requires 32 * i + 32 <= |table|
    ensures DecodePhdr(table, i) == DecodePhdr(table[32 * i .. 32 * i + 32], 0)
  {
    var w := table[32 * i .. 32 * i + 32];
    assert forall k :: 0 <= k < 32 ==> w[k] == table[32 * i + k];
  }

  /** Appending bytes to a buffer leaves the entries it already held unchanged. */
  lemma DecodeAppended(init: seq<uint8>, tail: seq<uint8>, i: nat)
    requires 32 * i + 32 <= |init|
    ensures DecodePhdr(init + tail, i) == DecodePhdr(init, i)
  {
    PhdrWindow(init + tail, i);
    PhdrWindow(init, i);
    assert (init + tail)[32 * i .. 32 * i + 32] == init[32 * i .. 32 * i + 32];
  }

  /** An entry encoded right after `i` full entries is entry `i`. */
  lemma DecodeLast(init: seq<uint8>, p: Phdr, i: nat)
    requires PhdrFits(p) && |init| == 32 * i
    ensures DecodePhdr(init + EncodePhdr(p), i) == p
  {
    var t := init + EncodePhdr(p);
    PhdrWindow(t, i);
    assert t[32 * i .. 32 * i + 32] == EncodePhdr(p);
    PhdrRoundTrip(p);
  }

  /** Indexing an encoded table with the fixed stride gives back every entry, in order. */
  lemma {:induction false} TableRoundTrip(ps: seq<Phdr>, i: nat)
    requires forall k :: 0 <= k < |ps| ==> PhdrFits(ps[k])
    requires i < |ps|
    ensures DecodePhdr(EncodeTable(ps), i) == ps[i]
  {
    var n := |ps| - 1;
    var init := EncodeTable(ps[..n]);
    assert EncodeTable(ps) == init + EncodePhdr(ps[n]);
    if i == n {
      DecodeLast(init, ps[n], n);
    } else {
      TableRoundTrip(ps[..n], i);
      DecodeAppended(init, EncodePhdr(ps[n]), i);
    }
  }

  /** Element `i` of the decoded table is phdr[i], read with the fixed stride. */
  lemma {:induction false} DecodeTableAt(table: seq<uint8>, n: nat, i: nat)
    requires 32 * n <= |table| && i < n
    ensures DecodeTable(table, n)[i] == DecodePhdr(table, i)
  {
    if i < n - 1 {
      DecodeTableAt(table, n - 1, i);
    }
  }

  /** Decoding an encoded table gives back the whole list of entries. */
  lemma TableDecodesBack(ps: seq<Phdr>)
    requires forall k :: 0 <= k < |ps| ==> PhdrFits(ps[k])
    ensures DecodeTable(EncodeTable(ps), |ps|) == ps
  {
    var t := EncodeTable(ps);
    forall i | 0 <= i < |ps|
      ensures DecodeTable(t, |ps|)[i] == ps[i]
    {
      DecodeTableAt(t, |ps|, i);
      TableRoundTrip(ps, i);
    }
  }
}
