/**
 From power-on to a checked memory manager (kern/init.c:42-45): detect_memory,
 initialize_kernel_VM, initialize_paging and page_check in a row.
 */
module Initialize {
  import opened Words
  import opened ReferenceCounts
  import BootTables
  import KernelVM
  import Paging
  import MemoryManager
  import PageCheck

  // detect_memory: the frames that the CMOS reports, from kilobytes of extended memory.
  // Without extended memory the base memory is not counted either.
  function NumberOfFrames(kilobytes: Count): nat {
    var extended := RoundDown(kilobytes * 1024, PAGE_SIZE);
    (if extended != 0 then PHYS_EXTENDED_MEM + extended else extended) / PAGE_SIZE
  }

  // Memory is absent, or goes past 1 MB and ends below 66 MB.
  lemma NumberOfFramesBounds(kilobytes: Count)
    ensures NumberOfFrames(kilobytes) == 0 <==> kilobytes < 4
    ensures kilobytes >= 4 ==> 257 <= NumberOfFrames(kilobytes) <= 16639
    ensures kilobytes >= 4 ==> NumberOfFrames(kilobytes) == 256 + kilobytes / 4
  {
  }

  // What initialize_paging leaves satisfies the invariant: boot frames are
  // pinned, everything else is free, and no user page is mapped.
  lemma BootInv(s: Paging.State, d: nat, end: nat)
    requires Paging.Shape(s) && 256 <= d < end <= |s.refs|
    requires forall i: nat :: i < USER_PDES ==> s.mem[Paging.Slot(d, i)] == 0
    requires MemoryManager.IsBootCounts(s.refs, end)
    requires s.free == MemoryManager.Countdown(end, |s.refs|) + MemoryManager.Countdown(1, 160)
    ensures Inv(s, Roots({d}, s.refs))
  {
    var r := Roots({d}, s.refs);
    forall k: nat | k < |s.mem| && IsDirSlot(r, k) ensures s.mem[k] == 0 {
      assert k == Paging.Slot(d, k % 1024);
    }
    assert Tables(s, r) == {};
    forall f: nat ensures Naming(s, r, f) == {} {
    }
    CountdownsDistinct(end, |s.refs|);
    assert FreeListOk(s);
  }

  lemma CountdownAt(lo: nat, hi: nat, i: nat)
    requires lo <= hi && i < hi - lo
    ensures MemoryManager.Countdown(lo, hi)[i] == hi - 1 - i
  {
    if i > 0 { CountdownAt(lo, hi - 1, i - 1); }
  }

  lemma CountdownsDistinct(end: nat, n: nat)
    requires 256 <= end <= n
    ensures var q := MemoryManager.Countdown(end, n) + MemoryManager.Countdown(1, 160);
      && |q| == n - end + 159
      && (forall i :: 0 <= i < |q| ==> q[i] == if i < n - end then n - 1 - i else 159 - (i - (n - end)))
  {
    var q := MemoryManager.Countdown(end, n) + MemoryManager.Countdown(1, 160);
    forall i | 0 <= i < |q|
      ensures q[i] == if i < n - end then n - 1 - i else 159 - (i - (n - end))
    {
      if i < n - end { CountdownAt(end, n, i); } else { CountdownAt(1, 160, i - (n - end)); }
    }
  }

  // Frames taken when initialize_kernel_VM is done.
  function BootEnd(n: nat, end: Word): nat
    requires KERNEL_BASE <= end <= 0xFFFF_0000
  {
    (RoundUp(end, PAGE_SIZE) - KERNEL_BASE) / PAGE_SIZE + KernelVM.BootFrames(n)
  }

  lemma BootEndBound(n: nat, end: Word)
    requires KERNEL_BASE + PHYS_EXTENDED_MEM <= end <= 0xFFFF_0000
    ensures RoundUp(end, PAGE_SIZE) >= end
    ensures BootEnd(n, end) > 256
  {
    RoundUpPage(end);
  }

  lemma BootDirectoryEmpty(m: BootTables.Boot, d: nat, stack: Word, frames: Word, envs: Word)
    requires KernelVM.BootMapped(m, d, stack, frames, envs)
    ensures 256 <= d < m.used && forall i: nat :: i < USER_PDES ==> m.mem[Paging.Slot(d, i)] == 0
  {
    forall i: nat | i < USER_PDES ensures m.mem[Paging.Slot(d, i)] == 0 {
      assert BootTables.Entry(m.mem, d, i) == 0;
    }
  }

  // The kernel's address space stands: all that initialize_kernel_VM promised of
  // it, mem0 being memory at power-on.
  ghost predicate Stands(mem0: seq<Word>, m: BootTables.Boot, d: nat, stack: Word, frames: Word, envs: Word) {
    && |m.mem| == |mem0|
    && KernelVM.BootMapped(m, d, stack, frames, envs)
    && KernelVM.BehindImage(mem0, m.mem, d)
  }

  // Memory outside the boot frames may change as it likes.
  lemma StillStands(mem0: seq<Word>, m: BootTables.Boot, m': BootTables.Boot, d: nat, stack: Word, frames: Word, envs: Word)
    requires Stands(mem0, m, d, stack, frames, envs) && BootTables.SameBootFrames(m.mem, m'.mem, m.used) && m'.used == m.used
    ensures Stands(mem0, m', d, stack, frames, envs)
  {
    KernelVM.BootMappedKept(m, m', d, stack, frames, envs);
    assert BootTables.TableOk(m, d, BootTables.ENVS_INDEX);
    assert BootTables.Entry(m.mem, d, BootTables.ENVS_INDEX) != 0;
  }

  // Zeroing a frame outside the boot frames is such a change.
  lemma ZeroedElsewhere(mem: seq<Word>, f: nat, last: nat)
    requires f < 256 || last <= f
    ensures BootTables.SameBootFrames(mem, Paging.ZeroFrame(mem, f), last)
  {
  }

  // initialize_kernel_VM
  method BuildKernel(memory: array<Word>, n: nat, end: Word, stack: Word)
    returns (used: Word, d: nat, ghost last: nat, frames: Word, envs: Word)
    requires memory.Length == n * 1024 && n <= 16639
    requires KERNEL_BASE + PHYS_EXTENDED_MEM <= end <= 0xFFFF_0000
    requires KERNEL_BASE <= stack <= end && stack % PAGE_SIZE == 0
    requires BootEnd(n, end) <= n
    modifies memory
    ensures PHYS_EXTENDED_MEM <= used <= n * PAGE_SIZE && RoundUp(used, PAGE_SIZE) / PAGE_SIZE == last
    ensures last == BootEnd(n, end) <= n && Stands(old(memory[..]), BootTables.Boot(memory[..], last), d, stack, frames, envs)
  {
    var ptr;
    ptr, d, frames, envs := RunKernel(memory, n, end, stack);
    last := BootEnd(n, end);
    BootEndBound(n, end);
    UsedIsPhysical(ptr, last, n);
    used := ptr - KERNEL_BASE;
  }

  method RunKernel(memory: array<Word>, n: nat, end: Word, stack: Word)
    returns (ptr: Word, d: nat, frames: Word, envs: Word)
    requires memory.Length == n * 1024 && n <= 16639
    requires KERNEL_BASE + PHYS_EXTENDED_MEM <= end <= 0xFFFF_0000
    requires KERNEL_BASE <= stack <= end && stack % PAGE_SIZE == 0
    requires BootEnd(n, end) <= n
    modifies memory
    ensures KERNEL_BASE <= ptr <= KERNEL_BASE + n * PAGE_SIZE
    ensures (RoundUp(ptr, PAGE_SIZE) - KERNEL_BASE) / PAGE_SIZE == BootEnd(n, end)
    ensures Stands(old(memory[..]), BootTables.Boot(memory[..], BootEnd(n, end)), d, stack, frames, envs)
  {
    var kernel := new KernelVM.Kernel(memory, end, stack);
    assert kernel.Cursor() == end && kernel.Used() + KernelVM.BootFrames(n) == BootEnd(n, end);
    d, frames, envs := kernel.InitializeKernelVM();
    assert kernel.Used() == BootEnd(n, end);
    ptr := kernel.ptrFreeMem;
  }

  // initialize_kernel_VM and initialize_paging
  method BuildMemory(memory: array<Word>, n: nat, end: Word, stack: Word)
    returns (m: MemoryManager.Manager, d: nat, ghost last: nat, frames: Word, envs: Word)
    requires memory.Length == n * 1024 && n <= 16639
    requires KERNEL_BASE + PHYS_EXTENDED_MEM <= end <= 0xFFFF_0000
    requires KERNEL_BASE <= stack <= end && stack % PAGE_SIZE == 0
    requires BootEnd(n, end) <= n
    modifies memory
    ensures m.Valid() && m.mem == memory && m.refs.Length == n
    ensures fresh(m.refs) && fresh(m.freeList) && fresh(m.freeList.next) && fresh(m.freeList.prev)
    ensures last == BootEnd(n, end) <= n && Stands(old(memory[..]), BootTables.Boot(memory[..], last), d, stack, frames, envs)
    ensures MemoryManager.IsBootCounts(m.refs[..], last)
    ensures m.Abs().free == MemoryManager.Countdown(last, n) + MemoryManager.Countdown(1, 160)
  {
    var used;
    used, d, last, frames, envs := BuildKernel(memory, n, end, stack);
    m := new MemoryManager.Manager(memory, n, used);
  }

  // Physical and virtual end of the boot structures lie in the same frame.
  lemma UsedIsPhysical(a: Word, last: nat, n: nat)
    requires KERNEL_BASE <= a <= KERNEL_BASE + n * PAGE_SIZE && n <= 16639
    requires (RoundUp(a, PAGE_SIZE) - KERNEL_BASE) / PAGE_SIZE == last > 256
    ensures RoundUp(a - KERNEL_BASE, PAGE_SIZE) / PAGE_SIZE == last
    ensures PHYS_EXTENDED_MEM <= a - KERNEL_BASE
  {
    SameOffset(a - KERNEL_BASE + PAGE_SIZE - 1);
    assert RoundUp(a, PAGE_SIZE) == KERNEL_BASE + RoundUp(a - KERNEL_BASE, PAGE_SIZE);
  }

  lemma SameOffset(b: nat)
    ensures (KERNEL_BASE + b) % PAGE_SIZE == b % PAGE_SIZE
  {
    assert KERNEL_BASE == PAGE_SIZE * 0xF_0000;
  }

  lemma BootUnused(s: Paging.State, d: nat, end: nat)
    requires Paging.Shape(s) && 256 <= d < end <= |s.refs|
    requires forall i: nat :: i < USER_PDES ==> s.mem[Paging.Slot(d, i)] == 0
    requires MemoryManager.IsBootCounts(s.refs, end)
    requires s.free == MemoryManager.Countdown(end, |s.refs|) + MemoryManager.Countdown(1, 160)
    ensures PageCheck.Unused(s, Roots({d}, s.refs), d)
  {
    BootInv(s, d, end);
    CountdownsDistinct(end, |s.refs|);
  }

  // A frame that a block above 1 MB touches.
  lemma FrameOfBlock(start: nat, size: nat, ptr: Word, f: nat)
    requires start % PAGE_SIZE == 0 && KERNEL_BASE + PHYS_EXTENDED_MEM <= start && start + size <= ptr
    requires start < KERNEL_BASE + (f + 1) * PAGE_SIZE && KERNEL_BASE + f * PAGE_SIZE < start + size
    requires ptr - KERNEL_BASE + PAGE_SIZE - 1 < TWO32
    ensures 256 <= f < RoundUp(ptr - KERNEL_BASE, PAGE_SIZE) / PAGE_SIZE
  {
    RoundUpPage(ptr - KERNEL_BASE);
  }

  // No block of the boot allocator, whatever is asked of it, lies in a frame that
  // initialize_paging then puts on the free list.
  lemma BlocksAvoidFreeFrames(end: Word, sizes: seq<nat>, n: nat, i: nat, f: nat)
    requires KERNEL_BASE + PHYS_EXTENDED_MEM <= end && end + KernelVM.Total(sizes) + 4096 * |sizes| < TWO32
    requires n < 0x1_0000 && KernelVM.BumpEnd(end, sizes) <= KERNEL_BASE + n * PAGE_SIZE && i < |KernelVM.Blocks(end, sizes)|
    requires var b := KernelVM.Blocks(end, sizes)[i];
      b.0 < KERNEL_BASE + (f + 1) * PAGE_SIZE && KERNEL_BASE + f * PAGE_SIZE < b.0 + b.1
    ensures var used := KernelVM.BumpEnd(end, sizes) - KERNEL_BASE;
      && RoundUp(used, PAGE_SIZE) / PAGE_SIZE <= n
      && f !in MemoryManager.Countdown(RoundUp(used, PAGE_SIZE) / PAGE_SIZE, n) + MemoryManager.Countdown(1, 160)
  {
    KernelVM.BlocksDisjoint(end, sizes);
    FrameOfBlock(KernelVM.Blocks(end, sizes)[i].0, KernelVM.Blocks(end, sizes)[i].1, KernelVM.BumpEnd(end, sizes), f);
    var used := KernelVM.BumpEnd(end, sizes) - KERNEL_BASE;
    RoundUpPage(used);
    MemoryManager.CountdownMembers(RoundUp(used, PAGE_SIZE) / PAGE_SIZE, n);
    MemoryManager.CountdownMembers(1, 160);
  }

  // The kernel has the memory it needs when the boot structures fit behind it.
  // Then no assertion and no panic fires, the invariant of every later run holds,
  // the kernel's address space stands, and no free frame is one of its frames.
  method FosInitialize(memory: array<Word>, kilobytes: Count, end: Word, stack: Word)
    returns (m: MemoryManager.Manager, d: nat, frames: Word, envs: Word, ghost r: Roots)
    requires memory.Length == NumberOfFrames(kilobytes) * 1024
    requires KERNEL_BASE + PHYS_EXTENDED_MEM <= end <= 0xFFFF_0000
    requires KERNEL_BASE <= stack <= end && stack % PAGE_SIZE == 0
    requires BootEnd(NumberOfFrames(kilobytes), end) <= NumberOfFrames(kilobytes)
    modifies memory
    ensures m.Valid() && m.mem == memory
    ensures r.dirs == {d} && Inv(m.Abs(), r) && MemoryManager.IsBootCounts(r.pins, BootEnd(NumberOfFrames(kilobytes), end))
    ensures Stands(old(memory[..]), BootTables.Boot(memory[..], BootEnd(NumberOfFrames(kilobytes), end)), d, stack, frames, envs)
    ensures multiset(m.Abs().free) == multiset(
      MemoryManager.Countdown(BootEnd(NumberOfFrames(kilobytes), end), NumberOfFrames(kilobytes))
      + MemoryManager.Countdown(1, 160))
    ensures forall f :: f in m.Abs().free ==> f < 160 || BootEnd(NumberOfFrames(kilobytes), end) <= f
  {
    NumberOfFramesBounds(kilobytes);
    var n := NumberOfFrames(kilobytes);
    ghost var last;
    m, d, last, frames, envs := BuildMemory(memory, n, end, stack);
    r := Roots({d}, m.refs[..]);
    ghost var s := m.Abs();
    BootDirectoryEmpty(BootTables.Boot(memory[..], last), d, stack, frames, envs);
    BootUnused(s, d, last);
    PageCheck.Run(m, d, r);
    FreeIsElsewhere(s.free, m.Abs().free, last, n);
    ZeroedElsewhere(s.mem, s.free[0], last);
    StillStands(old(memory[..]), BootTables.Boot(s.mem, last), BootTables.Boot(memory[..], last), d, stack, frames, envs);
  }

  lemma SameMembers(q: seq<nat>, q': seq<nat>)
    requires multiset(q') == multiset(q)
    ensures forall f :: f in q' <==> f in q
  {
    forall f ensures f in q' <==> f in q {
      assert f in q' <==> f in multiset(q');
      assert f in q <==> f in multiset(q);
    }
  }

  lemma FreeIsElsewhere(free: seq<nat>, free': seq<nat>, last: nat, n: nat)
    requires 256 <= last <= n && free == MemoryManager.Countdown(last, n) + MemoryManager.Countdown(1, 160)
    requires multiset(free') == multiset(free)
    ensures forall f :: f in free ==> f < 160 || last <= f
    ensures forall f :: f in free' ==> f < 160 || last <= f
  {
    MemoryManager.CountdownMembers(last, n);
    MemoryManager.CountdownMembers(1, 160);
    SameMembers(free, free');
  }
}
