/**
 32-bit words, the paging constants and the address macros
 (inc/types.h, inc/mmu.h, inc/memlayout.h, kern/helpers.h).

 The macros are written here with division and remainder; module BitForms shows
 that they are the shifts, masks and disjunctions of the C headers.
 */
module Words {

  const TWO32: nat := 0x1_0000_0000
  type Word = x: int | 0 <= x < 0x1_0000_0000
  type Frame = x: int | 0 <= x < 0x1_0000  // a frame number: at most 256 MB are mapped at KERNEL_BASE
  type Count = x: int | 0 <= x < 0x1_0000  // uint16
  type Byte = x: int | 0 <= x < 256
  type Int32 = x: int | -0x8000_0000 <= x < 0x8000_0000

  datatype Option<+T> = None | Some(value: T)

  const PAGE_SIZE: nat := 4096
  const WORDS: nat := 1024  // words in a frame: entries of a directory or of a table
  const PTSIZE: nat := 0x40_0000

  const PERM_PRESENT: nat := 1
  const PERM_WRITEABLE: nat := 2
  const PERM_USER: nat := 4

  const KERNEL_BASE: nat := 0xF000_0000
  const VPT: nat := KERNEL_BASE - PTSIZE
  const KERNEL_STACK_TOP: nat := VPT
  const KERNEL_STACK_SIZE: nat := 8 * PAGE_SIZE
  const USER_LIMIT: nat := KERNEL_STACK_TOP - PTSIZE
  const UVPT: nat := USER_LIMIT - PTSIZE
  const READ_ONLY_FRAMES_INFO: nat := UVPT - PTSIZE
  const UENVS: nat := READ_ONLY_FRAMES_INFO - PTSIZE
  const USER_TOP: nat := UENVS
  const PHYS_IO_MEM: nat := 0xA_0000
  const PHYS_EXTENDED_MEM: nat := 0x10_0000
  const USER_PDES: nat := 955  // PDX(USER_TOP)
  const NENV: nat := 1024

  // The addresses of the memory map in inc/memlayout.h.
  lemma MemoryLayout()
    ensures KERNEL_BASE == 0xF000_0000 && VPT == KERNEL_STACK_TOP == 0xEFC0_0000 && USER_LIMIT == 0xEF80_0000
    ensures UVPT == 0xEF40_0000 && READ_ONLY_FRAMES_INFO == 0xEF00_0000 && UENVS == USER_TOP == 0xEEC0_0000
    ensures KERNEL_STACK_TOP - KERNEL_STACK_SIZE == 0xEFBF_8000 && USER_PDES * PTSIZE == USER_TOP
  {
  }

  // Conversion to a 32-bit signed integer, in two's complement.
  function Wrap32(x: int): Int32 { (x + 0x8000_0000) % TWO32 - 0x8000_0000 }

  function PDX(la: Word): (i: nat)
    ensures i < WORDS
  {
    la / 0x40_0000
  }

  function PTX(la: Word): (i: nat)
    ensures i < WORDS
  {
    la / 4096 % 1024
  }

  function PGOFF(la: Word): nat { la % 4096 }

  function PPN(la: Word): nat { la / 4096 }

  // EXTRACT_ADDRESS
  function ExtractAddress(entry: Word): Word { entry - entry % 4096 }

  // The frame whose address an entry holds.
  function FrameOf(entry: Word): nat { entry / 4096 }

  // The low 12 bits of an entry.
  function Permissions(entry: Word): nat { entry % 4096 }

  predicate Present(entry: Word) { Permissions(entry) % 2 == 1 }

  // perm | PERM_PRESENT
  function WithPresent(perm: nat): (p: nat)
    ensures p % 2 == 1 && 0 < p && perm <= p <= perm + 1
    ensures perm < PAGE_SIZE ==> p < PAGE_SIZE
  {
    if perm % 2 == 1 then perm else perm + 1
  }

  // perm | PERM_USER
  function WithUser(perm: nat): (p: nat)
    ensures perm <= p && (perm < PAGE_SIZE ==> p < PAGE_SIZE) && p % 2 == perm % 2
  {
    if perm / 4 % 2 == 1 then perm else perm + 4
  }

  lemma PresentIsSet(entry: Word)
    requires Present(entry)
    ensures entry != 0
  {
  }

  lemma FrameOfAddress(f: nat)
    requires f < 0x10_0000
    ensures FrameOf(f * PAGE_SIZE) == f
  {
  }

  // CONSTRUCT_ENTRY for the page-aligned address of frame f
  function ConstructEntry(f: nat, perm: nat): (e: Word)
    requires f < 0x10_0000 && perm < 4096
    ensures FrameOf(e) == f && ExtractAddress(e) == f * 4096 && Permissions(e) == perm
    ensures perm > 0 ==> e != 0
  {
    f * 4096 + perm
  }

  function RoundDown(a: Word, n: nat): Word
    requires n > 0
  {
    a - a % n
  }

  // ROUNDUP: the addition wraps at 32 bits, as in C.
  function RoundUp(a: Word, n: nat): Word
    requires 0 < n < TWO32
  {
    RoundDown((a + n - 1) % TWO32, n)
  }

  lemma RoundUpPage(a: Word)
    requires a + PAGE_SIZE - 1 < TWO32
    ensures RoundUp(a, PAGE_SIZE) % PAGE_SIZE == 0 && a <= RoundUp(a, PAGE_SIZE) < a + PAGE_SIZE
  {
  }

  // PGADDR: any directory index, table index and offset make an address that has them.
  lemma PageAddress(d: nat, t: nat, o: nat)
    requires d < 1024 && t < 1024 && o < 4096
    ensures var la := d * 0x40_0000 + t * 4096 + o; la < TWO32 && PDX(la) == d && PTX(la) == t && PGOFF(la) == o
  {
    var la := d * 0x40_0000 + t * 4096 + o;
    assert la / 4096 == d * 1024 + t;
  }

  // The page number of an address is its directory index and its table index.
  lemma PageSplit(la: Word)
    ensures PPN(la) / 1024 == PDX(la)
    ensures PPN(la) % 1024 == PTX(la)
    ensures la < USER_TOP <==> PDX(la) < USER_PDES
  {
  }
}
