/**
  An abstract model of the host facilities the loader calls: a read-only file
  with a cursor, a byte-addressed address space, and the log of the system
  calls and heap operations the loader performs, in order.
 */
module Host {
  import opened Bytes

  /** The process address space: an address is present once something maps or writes it. */
  type Memory = map<int, uint8>

  datatype Event =
    | Open(ok: bool)
    | AllocEhdr
    | AllocPhdr
    | Read(want: nat, got: nat)
    | Lseek(offset: nat, ok: bool)
    | Mmap(vaddr: nat, len: nat, ok: bool)
    | FreePhdr
    | FreeEhdr
    | Close
    | Dispatch(entry: nat)

  function Min(a: nat, b: nat): nat { if a <= b then a else b }

  function Max(a: nat, b: nat): nat { if a <= b then b else a }

  /**
    What read(fd, buf, n) delivers with the cursor at `pos`: the bytes from
    the cursor on, at most `n` of them, and fewer only at end of file. A
    cursor at or past end of file delivers nothing.
   */
  function ReadAt(file: seq<uint8>, pos: nat, n: nat): (data: seq<uint8>)
    ensures |data| <= n
    ensures |data| == n <==> n == 0 || pos + n <= |file|
    ensures |data| < n ==> pos + |data| >= |file|
    ensures forall k :: 0 <= k < |data| ==> pos + k < |file| && data[k] == file[pos + k]
  {
    if pos >= |file| then [] else file[pos .. Min(pos + n, |file|)]
  }

  /**
    Whether lseek(fd, off, SEEK_SET) reports failure for a 32-bit file
    offset. The loader is a 32-bit program (it calls into 32-bit code), so
    off_t is a signed 32-bit integer; an Elf32_Off at or above 2^31 turns
    negative on conversion and the kernel refuses a negative position.
    Seeking past end of file is allowed.
   */
  predicate SeekRejected(off: nat) {
    off >= 0x8000_0000
  }

  /** The addresses [start, start + len). */
  function Range(start: int, len: nat): (r: set<int>)
    ensures forall a :: a in r <==> start <= a < start + len
  {
    if len == 0 then {} else Range(start, len - 1) + {start + len - 1}
  }

  /**
    The effect of mmap(vaddr, len, ..., MAP_ANONYMOUS | MAP_PRIVATE | MAP_FIXED, -1, 0):
    every address of [vaddr, vaddr + len) now holds a fresh zero, whatever was
    mapped there before; every other address is untouched.
   */
  function MapZero(mem: Memory, vaddr: int, len: nat): (m: Memory)
    ensures forall a :: vaddr <= a < vaddr + len ==> a in m && m[a] == 0
    ensures forall a :: !(vaddr <= a < vaddr + len) ==> (a in m <==> a in mem)
    ensures forall a :: !(vaddr <= a < vaddr + len) && a in mem ==> m[a] == mem[a]
  {
    map a | a in mem.Keys + Range(vaddr, len) :: if vaddr <= a < vaddr + len then 0 else mem[a]
  }

  /** The effect of a read that delivered `data` into memory at `addr`. */
  function Store(mem: Memory, addr: int, data: seq<uint8>): (m: Memory)
    ensures forall a :: addr <= a < addr + |data| ==> a in m && m[a] == data[a - addr]
    ensures forall a :: !(addr <= a < addr + |data|) ==> (a in m <==> a in mem)
    ensures forall a :: !(addr <= a < addr + |data|) && a in mem ==> m[a] == mem[a]
  {
    map a | a in mem.Keys + Range(addr, |data|) ::
      if addr <= a < addr + |data| then data[a - addr] else mem[a]
  }
}
