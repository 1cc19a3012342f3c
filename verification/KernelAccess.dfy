/**
 What the kernel may do in the address space that initialize_kernel_VM builds,
 page by page and in the addresses of inc/memlayout.h: turn_on_paging sets CR0_WP,
 so that read-only pages bind the kernel too (kern/memory_manager.c:50-129,
 kern/helpers.c:276-284).
 */
module KernelAccess {
  import opened Words
  import opened Paging
  import opened KernelVM
  import opened BootTables

  // The first address of page j of table i.
  function Address(i: nat, j: nat): nat { (i * 1024 + j) * PAGE_SIZE }

  // A page of a mapped range has the frame and the permissions of the range: the
  // directory entry takes nothing away.
  lemma RangeAccess(m: Boot, d: nat, r: Range, q: nat, i: nat, j: nat)
    requires BootOk(m, d) && Mapped(m, d, r, Span(955, 1024)) && q < r.k
    requires i < 1024 && j < 1024 && i * 1024 + j == r.p + q && !IsSelf(i)
    ensures PageWalks(m.mem, d, i, j) && Translate(m.mem, d, i, j) == (r.f + q) * PAGE_SIZE
    ensures KernelMay(m.mem, d, i, j, PERM_PRESENT)
    ensures KernelMay(m.mem, d, i, j, PERM_WRITEABLE) <==> r.perm / PERM_WRITEABLE % 2 == 1
  {
    MappedPage(m, d, r, Span(955, 1024), q, i, j);
    assert (r.p + q) / 1024 == i && (r.p + q) % 1024 == j;
    assert TableOk(m, d, i);
    TagWrites(d, i, Entry(m.mem, d, i));
    assert PageEntry(m.mem, d, r.p + q) == ConstructEntry(r.f + q, r.perm);
    EntryAddress(r.f + q, r.perm);
  }

  lemma TagWrites(d: nat, i: nat, e: Word)
    requires Tagged(d, i, e)
    ensures Present(e) && HasBit(e, PERM_PRESENT)
    ensures HasBit(e, PERM_WRITEABLE) <==> !(i == SELF_UVPT && FrameOf(e) == d)
  {
  }

  lemma RangesMapped(m: Boot, d: nat, stack: Word, frames: Word, envs: Word)
    requires BootMapped(m, d, stack, frames, envs)
    ensures Mapped(m, d, StackRange(stack), Span(955, 1024)) && Mapped(m, d, MemoryRange(), Span(955, 1024))
    ensures Mapped(m, d, FramesRange(|m.mem| / 1024, frames), Span(955, 1024)) && Mapped(m, d, EnvsRange(envs), Span(955, 1024))
  {
    var rs := [StackRange(stack), MemoryRange(), FramesRange(|m.mem| / 1024, frames), EnvsRange(envs)];
    assert rs[0] == StackRange(stack) && rs[1] == MemoryRange();
    assert rs[2] == FramesRange(|m.mem| / 1024, frames) && rs[3] == EnvsRange(envs);
  }

  // Physical memory is at KERNEL_BASE, all of it for the kernel to write.
  lemma KernelWritesMemory(m: Boot, d: nat, stack: Word, frames: Word, envs: Word, i: nat, j: nat)
    requires BootMapped(m, d, stack, frames, envs) && i < 1024 && j < 1024
    requires KERNEL_BASE <= Address(i, j)
    ensures PageWalks(m.mem, d, i, j) && Translate(m.mem, d, i, j) == Address(i, j) - KERNEL_BASE
    ensures KernelMay(m.mem, d, i, j, PERM_WRITEABLE)
  {
    RangesMapped(m, d, stack, frames, envs);
    MemoryRangeOk();
    MemoryPage(i, j);
    RangeAccess(m, d, MemoryRange(), i * 1024 + j - 0xF_0000, i, j);
  }

  lemma MemoryPage(i: nat, j: nat)
    requires i < 1024 && j < 1024 && KERNEL_BASE <= Address(i, j)
    ensures 0xF_0000 <= i * 1024 + j < 0x10_0000 && !IsSelf(i)
    ensures Address(i, j) - KERNEL_BASE == (i * 1024 + j - 0xF_0000) * PAGE_SIZE
    ensures MemoryRange().p == 0xF_0000 && MemoryRange().perm / PERM_WRITEABLE % 2 == 1
  {
  }

  // While turn_on_paging borrows entry 0, the first 4 MB are mapped to themselves.
  lemma LentIsIdentity(m: Boot, d: nat, stack: Word, frames: Word, envs: Word, j: nat)
    requires BootMapped(m, d, stack, frames, envs) && j < 1024
    ensures var mem := Lent(m.mem, d);
      PageWalks(mem, d, 0, j) && Translate(mem, d, 0, j) == Address(0, j) && KernelMay(mem, d, 0, j, PERM_WRITEABLE)
  {
    KernelWritesMemory(m, d, stack, frames, envs, 960, j);
    BootWalk(m, d, 960, j);
  }

  // The kernel stack lies below KERNEL_STACK_TOP and can be written.
  lemma KernelWritesStack(m: Boot, d: nat, stack: Word, frames: Word, envs: Word, i: nat, j: nat)
    requires BootMapped(m, d, stack, frames, envs) && stack % PAGE_SIZE == 0 && i < 1024 && j < 1024
    requires KERNEL_STACK_TOP - KERNEL_STACK_SIZE <= Address(i, j) < KERNEL_STACK_TOP
    ensures PageWalks(m.mem, d, i, j)
    ensures Translate(m.mem, d, i, j) == stack - KERNEL_BASE + (Address(i, j) - (KERNEL_STACK_TOP - KERNEL_STACK_SIZE))
    ensures KernelMay(m.mem, d, i, j, PERM_WRITEABLE)
  {
    RangesMapped(m, d, stack, frames, envs);
    StackRangeOk(stack);
    PhysicalAligned(stack);
    RangeAccess(m, d, StackRange(stack), i * 1024 + j - 0xE_FBF8, i, j);
  }

  // The images of the two arrays can be read there, and not written even by the kernel.
  lemma KernelReadsFrames(m: Boot, d: nat, stack: Word, frames: Word, envs: Word, i: nat, j: nat)
    requires BootMapped(m, d, stack, frames, envs) && i < 1024 && j < 1024
    requires READ_ONLY_FRAMES_INFO <= Address(i, j) < READ_ONLY_FRAMES_INFO + |m.mem| / 1024 * SIZEOF_FRAME_INFO
    requires |m.mem| / 1024 < 0x1_0000
    ensures PageWalks(m.mem, d, i, j)
    ensures Translate(m.mem, d, i, j) == frames - KERNEL_BASE + (Address(i, j) - READ_ONLY_FRAMES_INFO)
    ensures KernelMay(m.mem, d, i, j, PERM_PRESENT) && !KernelMay(m.mem, d, i, j, PERM_WRITEABLE)
  {
    RangesMapped(m, d, stack, frames, envs);
    FramesRangeOk(|m.mem| / 1024, frames);
    PhysicalAligned(frames);
    RangeAccess(m, d, FramesRange(|m.mem| / 1024, frames), i * 1024 + j - 956 * 1024, i, j);
  }

  lemma KernelReadsEnvs(m: Boot, d: nat, stack: Word, frames: Word, envs: Word, i: nat, j: nat)
    requires BootMapped(m, d, stack, frames, envs) && i < 1024 && j < 1024
    requires UENVS <= Address(i, j) < UENVS + NENV * SIZEOF_ENV
    ensures PageWalks(m.mem, d, i, j)
    ensures Translate(m.mem, d, i, j) == envs - KERNEL_BASE + (Address(i, j) - UENVS)
    ensures KernelMay(m.mem, d, i, j, PERM_PRESENT) && !KernelMay(m.mem, d, i, j, PERM_WRITEABLE)
  {
    RangesMapped(m, d, stack, frames, envs);
    EnvsRangeOk(envs);
    PhysicalAligned(envs);
    RangeAccess(m, d, EnvsRange(envs), i * 1024 + j - 955 * 1024, i, j);
  }

  // Through VPT the kernel may write the directory and every table; through UVPT nothing.
  lemma KernelWritesTables(m: Boot, d: nat, stack: Word, frames: Word, envs: Word, j: nat)
    requires BootMapped(m, d, stack, frames, envs) && j < 1024
    ensures PageWalks(m.mem, d, SELF_VPT, j) && PageWalks(m.mem, d, SELF_UVPT, j)
    ensures KernelMay(m.mem, d, SELF_VPT, j, PERM_WRITEABLE) <==> Entry(m.mem, d, j) != 0 && j != SELF_UVPT
    ensures !KernelMay(m.mem, d, SELF_UVPT, j, PERM_WRITEABLE)
  {
    WindowWrites(m, d, SELF_VPT, j, Entry(m.mem, d, SELF_VPT), Entry(m.mem, d, j));
    WindowWrites(m, d, SELF_UVPT, j, Entry(m.mem, d, SELF_UVPT), Entry(m.mem, d, j));
  }

  lemma WindowWrites(m: Boot, d: nat, b: nat, j: nat, self: Word, e: Word)
    requires BootOk(m, d) && IsSelf(b) && j < 1024 && Entry(m.mem, d, b) == self && FrameOf(self) == d && Entry(m.mem, d, j) == e
    ensures PageWalks(m.mem, d, b, j)
    ensures KernelMay(m.mem, d, b, j, PERM_WRITEABLE) <==> b == SELF_VPT && e != 0 && !(j == SELF_UVPT && FrameOf(e) == d)
  {
    assert TableOk(m, d, b) && TableOk(m, d, j);
    TagWrites(d, b, self);
    if e != 0 { TagWrites(d, j, e); } else { ZeroAbsent(e); }
  }

  lemma ZeroAbsent(e: Word)
    requires e == 0
    ensures !Present(e)
  {
  }
}
