/**
 Building the kernel's address space at boot (kern/memory_manager.c:50-233,
 kern/helpers.c:88-142, 254-321): the bump allocator, the loops that fill the
 boot page tables, and the self-check that follows.
 */
module KernelVM {
  import opened Words
  import opened BootTables
  import Paging

  const SIZEOF_FRAME_INFO: nat := 12
  const SIZEOF_ENV: nat := 100

  // Pages needed for size bytes.
  function Pages(size: nat): nat { (size + 4095) / 4096 }

  // After k of the pages of a range, i bytes are mapped and va and pa are the next addresses.
  predicate AtPage(va0: Word, f: nat, size: nat, k: nat, i: nat, va: Word, pa: Word) {
    && PPN(va0) + Pages(size) <= 0x10_0000 && f + Pages(size) <= 0x10_0000
    && k <= Pages(size) && i == k * PAGE_SIZE
    && (k < Pages(size) ==> va == va0 + k * PAGE_SIZE && pa == (f + k) * PAGE_SIZE)
  }

  // Only the step past the last page may wrap.
  function NextAddress(a: Word): Word { (a + PAGE_SIZE) % TWO32 }

  lemma NextPage(va0: Word, f: nat, size: nat, k: nat, i: nat, va: Word, pa: Word)
    requires AtPage(va0, f, size, k, i, va, pa) && i < size <= 0xFFFF_F000
    ensures k < Pages(size) && PPN(va) == PPN(va0) + k
    ensures i + PAGE_SIZE < TWO32
    ensures AtPage(va0, f, size, k + 1, i + PAGE_SIZE, NextAddress(va), NextAddress(pa))
  {
  }

  lemma LastPage(va0: Word, f: nat, size: nat, k: nat, i: nat, va: Word, pa: Word)
    requires AtPage(va0, f, size, k, i, va, pa) && i >= size
    ensures k == Pages(size)
  {
  }

  // ----- the bump allocator on values: the block returned and the new ptr_free_mem

  function BumpStart(ptr: Word): Word { RoundUp(ptr, PAGE_SIZE) }

  // The blocks that a sequence of calls returns.
  function Blocks(ptr: Word, sizes: seq<nat>): seq<(nat, nat)>
    requires ptr + Total(sizes) + 4096 * |sizes| < TWO32
    decreases |sizes|
  {
    if sizes == [] then []
    else [(BumpStart(ptr), sizes[0])] + Blocks(BumpStart(ptr) + sizes[0], sizes[1..])
  }

  function Total(sizes: seq<nat>): nat {
    if sizes == [] then 0 else sizes[0] + Total(sizes[1..])
  }

  // ptr_free_mem after these calls
  function BumpEnd(ptr: Word, sizes: seq<nat>): (e: Word)
    requires ptr + Total(sizes) + 4096 * |sizes| < TWO32
    ensures ptr <= e
    decreases |sizes|
  {
    if sizes == [] then ptr
    else
      RoundUpPage(ptr);
      BumpEnd(BumpStart(ptr) + sizes[0], sizes[1..])
  }

  // Blocks of these sizes, page-aligned, between ptr and end, each ending before the next begins.
  ghost predicate Laid(b: seq<(nat, nat)>, sizes: seq<nat>, ptr: nat, end: nat) {
    && |b| == |sizes|
    && (forall i :: 0 <= i < |b| ==> b[i].0 % PAGE_SIZE == 0 && b[i].1 == sizes[i] && ptr <= b[i].0)
    && (forall i :: 0 <= i < |b| ==> b[i].0 + b[i].1 <= end)
    && (forall i, j :: 0 <= i < j < |b| ==> b[i].0 + b[i].1 <= b[j].0)
  }

  // Any sequence of calls returns such blocks below the new ptr_free_mem.
  lemma {:induction false} BlocksDisjoint(ptr: Word, sizes: seq<nat>)
    requires ptr + Total(sizes) + 4096 * |sizes| < TWO32
    ensures Laid(Blocks(ptr, sizes), sizes, ptr, BumpEnd(ptr, sizes))
    decreases |sizes|
  {
    if sizes != [] {
      RoundUpPage(ptr);
      var next := BumpStart(ptr) + sizes[0];
      BlocksDisjoint(next, sizes[1..]);
      LaidBehind(Blocks(next, sizes[1..]), sizes, ptr, BumpStart(ptr), BumpEnd(ptr, sizes));
    }
  }

  lemma LaidBehind(rest: seq<(nat, nat)>, sizes: seq<nat>, ptr: nat, start: nat, end: nat)
    requires sizes != [] && start % PAGE_SIZE == 0 && ptr <= start && start + sizes[0] <= end
    requires Laid(rest, sizes[1..], start + sizes[0], end)
    ensures Laid([(start, sizes[0])] + rest, sizes, ptr, end)
  {
  }

  ghost function RangeOf(va: Word, size: nat, pa: Word, perm: nat): Range {
    Range(PPN(va), Pages(size), RoundUp(pa, PAGE_SIZE) / PAGE_SIZE, WithPresent(perm))
  }

  // The number of page tables that a range spans.
  ghost function Tables(r: Range): int { LastIndex(r.p, r.k) - r.p / 1024 }

  lemma EmptyRange(m: Boot, d: nat, rs: seq<Range>, idx: set<nat>, r: Range)
    requires Holds(m, d, rs, idx) && RangeOk(r) && Indices(r) !! idx
    ensures Missing(m.mem, d, r.p / 1024, LastIndex(r.p, r.k)) == Tables(r)
    ensures OffSelf(m.mem, d, r)
  {
    MissingAll(m.mem, d, r.p / 1024, LastIndex(r.p, r.k));
  }

  // ----- the four ranges of the boot directory

  const DIRECTORY_FRAMES: nat := 1
  const TABLE_FRAMES: nat := 67  // kernel stack, physical memory, frames_info, envs
  const ENV_FRAMES: nat := 25

  // All frames that initialize_kernel_VM takes, for n frames of memory.
  function BootFrames(n: nat): nat {
    DIRECTORY_FRAMES + TABLE_FRAMES + Pages(n * SIZEOF_FRAME_INFO) + ENV_FRAMES
  }

  ghost function StackRange(stack: Word): Range
    requires KERNEL_BASE <= stack
  {
    RangeOf(KERNEL_STACK_TOP - KERNEL_STACK_SIZE, KERNEL_STACK_SIZE, stack - KERNEL_BASE, PERM_WRITEABLE)
  }

  ghost function MemoryRange(): Range {
    RangeOf(KERNEL_BASE, 0xFFFF_FFFF - KERNEL_BASE, 0, PERM_WRITEABLE)
  }

  ghost function FramesRange(n: nat, frames: Word): Range
    requires KERNEL_BASE <= frames
  {
    RangeOf(READ_ONLY_FRAMES_INFO, n * SIZEOF_FRAME_INFO, frames - KERNEL_BASE, PERM_USER)
  }

  ghost function EnvsRange(envs: Word): Range
    requires KERNEL_BASE <= envs
  {
    RangeOf(UENVS, NENV * SIZEOF_ENV, envs - KERNEL_BASE, PERM_USER)
  }

  lemma StackRangeOk(stack: Word)
    requires KERNEL_BASE <= stack
    ensures RangeOk(StackRange(stack)) && StackRange(stack).k == 8
    ensures Indices(StackRange(stack)) == Span(958, 959) && Tables(StackRange(stack)) == 1
  {
  }

  lemma MemoryRangeOk()
    ensures RangeOk(MemoryRange()) && MemoryRange().k == 0x1_0000 && MemoryRange().f == 0
    ensures Indices(MemoryRange()) == Span(960, 1024) && Tables(MemoryRange()) == 64
  {
  }

  lemma FramesRangeOk(n: nat, frames: Word)
    requires 0 < n < 0x1_0000 && KERNEL_BASE <= frames
    ensures RangeOk(FramesRange(n, frames)) && FramesRange(n, frames).k == Pages(n * SIZEOF_FRAME_INFO) > 0
    ensures Indices(FramesRange(n, frames)) == Span(956, 957) && Tables(FramesRange(n, frames)) == 1
  {
    var r := FramesRange(n, frames);
    FramesInfoPages(n);
    PhysicalPage(frames - KERNEL_BASE);
    assert r.p == 956 * 1024 && LastIndex(r.p, r.k) == 957;
  }

  lemma FramesInfoPages(n: nat)
    requires 0 < n < 0x1_0000
    ensures 0 < Pages(n * SIZEOF_FRAME_INFO) <= 192
  {
  }

  lemma PhysicalPage(pa: Word)
    requires pa < 0x1000_0000
    ensures RoundUp(pa, PAGE_SIZE) / PAGE_SIZE <= 0x1_0000
  {
    RoundUpPage(pa);
  }

  lemma EnvsRangeOk(envs: Word)
    requires KERNEL_BASE <= envs
    ensures RangeOk(EnvsRange(envs)) && EnvsRange(envs).k == ENV_FRAMES
    ensures Indices(EnvsRange(envs)) == Span(955, 956) && Tables(EnvsRange(envs)) == 1
  {
  }

  lemma BootIndices()
    ensures Span(958, 959) + Span(960, 1024) + Span(956, 957) + {SELF_VPT} + {SELF_UVPT} == Span(956, 1024)
  {
  }

  lemma TwoRanges(a: Range, b: Range)
    ensures [a] + [b] == [a, b]
  {
  }

  lemma ThreeRanges(a: Range, b: Range, c: Range)
    ensures [a, b] + [c] == [a, b, c]
  {
  }

  lemma LastRange(a: Range, b: Range, c: Range, e: Range)
    ensures [a, b, c] + [e] == [a, b, c, e]
    ensures Span(956, 1024) + Span(955, 956) == Span(955, 1024)
  {
  }

  // Nothing but entries of the directory was written, and no entry got another frame but the directory's.
  ghost predicate OnlyDirectory(mem: seq<Word>, mem': seq<Word>, d: nat) {
    && |mem'| == |mem| && d * 1024 + 1024 <= |mem|
    && (forall k :: 0 <= k < |mem| && k / 1024 != d ==> mem'[k] == mem[k])
    && (forall i :: 0 <= i < 1024 ==> FrameOf(Entry(mem', d, i)) == FrameOf(Entry(mem, d, i)) || FrameOf(Entry(mem', d, i)) == d)
  }

  lemma ApartDirectory(m: Boot, m': Boot, d: nat, f: nat, k: nat)
    requires d * 1024 + 1024 <= |m.mem| && Apart(m, d, f, k) && OnlyDirectory(m.mem, m'.mem, d) && m.used <= m'.used
    ensures Apart(m', d, f, k)
  {
  }

  // The pages of UENVS behind the image of envs are translated by what their table's frame held in mem0.
  ghost predicate BehindImage(mem0: seq<Word>, mem: seq<Word>, d: nat)
    requires |mem0| == |mem| && d * 1024 + 1024 <= |mem|
  {
    var t := FrameOf(Entry(mem, d, ENVS_INDEX));
    t * 1024 + 1024 <= |mem| && forall j :: ENV_FRAMES <= j < 1024 ==> mem[Paging.Slot(t, j)] == mem0[Paging.Slot(t, j)]
  }

  lemma BehindFresh(m: Boot, m': Boot, d: nat, r: Range)
    requires BootOk(m', d) && d * 1024 + 1024 <= |m.mem| && d < m.used && Extends(m, m', d, r.p, r.p + r.k)
    requires r.p == 1024 * ENVS_INDEX && r.k == ENV_FRAMES
    requires Entry(m.mem, d, ENVS_INDEX) == 0 && Entry(m'.mem, d, ENVS_INDEX) != 0
    ensures BehindImage(m.mem, m'.mem, d) && FrameOf(Entry(m'.mem, d, ENVS_INDEX)) >= m.used
  {
    var t := FrameOf(Entry(m'.mem, d, ENVS_INDEX));
    assert EntryKept(m, m', d, r.p, r.p + r.k, ENVS_INDEX) && TableOk(m', d, ENVS_INDEX);
    forall j | ENV_FRAMES <= j < 1024 ensures m'.mem[Paging.Slot(t, j)] == m.mem[Paging.Slot(t, j)] {
      assert OnlyPages(m, m', d, r.p, r.p + r.k, Paging.Slot(t, j));
    }
  }

  lemma BehindTwice(mem0: seq<Word>, mem: seq<Word>, mem': seq<Word>, d: nat, used: nat)
    requires |mem| == |mem'| && d * 1024 + 1024 <= |mem|
    requires Unwritten(mem0, mem, used) && BehindImage(mem, mem', d) && FrameOf(Entry(mem', d, ENVS_INDEX)) >= used
    ensures BehindImage(mem0, mem', d)
  {
  }

  lemma BehindDirectory(mem0: seq<Word>, m: Boot, mem': seq<Word>, d: nat)
    requires BootOk(m, d) && Entry(m.mem, d, ENVS_INDEX) != 0 && |mem0| == |m.mem| && BehindImage(mem0, m.mem, d)
    requires OnlyDirectory(m.mem, mem', d) && FrameOf(Entry(mem', d, ENVS_INDEX)) == FrameOf(Entry(m.mem, d, ENVS_INDEX))
    ensures BehindImage(mem0, mem', d)
  {
    assert TableOk(m, d, ENVS_INDEX);
  }

  predicate OpenedToUser(mem: seq<Word>, d: nat)
    requires d * 1024 + 1024 <= |mem|
  {
    Permissions(Entry(mem, d, ENVS_INDEX)) == PERM_PRESENT + PERM_WRITEABLE + PERM_USER
  }

  // The boot directory maps the four ranges and itself, and has no other entry.
  ghost predicate BootMapped(m: Boot, d: nat, stack: Word, frames: Word, envs: Word) {
    && KERNEL_BASE <= stack && KERNEL_BASE <= frames && KERNEL_BASE <= envs
    && Holds(m, d, [StackRange(stack), MemoryRange(), FramesRange(|m.mem| / 1024, frames), EnvsRange(envs)], Span(955, 1024))
    && FrameOf(Entry(m.mem, d, SELF_VPT)) == d && FrameOf(Entry(m.mem, d, SELF_UVPT)) == d
    && OpenedToUser(m.mem, d)
    && ArraysApart(m, d, frames, envs)
  }

  // The arrays frames_info and envs lie behind the kernel, in frames of their own.
  ghost predicate ArraysApart(m: Boot, d: nat, frames: Word, envs: Word)
    requires d * 1024 + 1024 <= |m.mem| && KERNEL_BASE <= frames && KERNEL_BASE <= envs
  {
    var size := |m.mem| / 1024 * SIZEOF_FRAME_INFO;
    && Apart(m, d, PPN(frames - KERNEL_BASE), Pages(size))
    && Apart(m, d, PPN(envs - KERNEL_BASE), ENV_FRAMES)
    && frames % PAGE_SIZE == 0 && envs % PAGE_SIZE == 0 && frames + Pages(size) * PAGE_SIZE <= envs
  }

  lemma ArraysInOrder(m: Boot, d: nat, used: nat, frames: Word, envs: Word)
    requires d * 1024 + 1024 <= |m.mem| && frames == KERNEL_BASE + used * PAGE_SIZE
    requires envs == KERNEL_BASE + (used + Pages(|m.mem| / 1024 * SIZEOF_FRAME_INFO) + 1) * PAGE_SIZE
    requires Apart(m, d, PPN(frames - KERNEL_BASE), Pages(|m.mem| / 1024 * SIZEOF_FRAME_INFO))
    requires Apart(m, d, PPN(envs - KERNEL_BASE), ENV_FRAMES)
    ensures ArraysApart(m, d, frames, envs)
  {
    assert KERNEL_BASE % PAGE_SIZE == 0;
  }

  lemma PhysicalAligned(kva: Word)
    requires KERNEL_BASE <= kva && kva % PAGE_SIZE == 0
    ensures (kva - KERNEL_BASE) % PAGE_SIZE == 0 && RoundUp(kva - KERNEL_BASE, PAGE_SIZE) == kva - KERNEL_BASE
  {
  }

  lemma TaggedIsPresent(d: nat, i: nat, e: Word)
    requires Tagged(d, i, e)
    ensures Present(e)
  {
  }

  // Page q of a mapped range, which is page j of table i, is translated to the range's frame q.
  lemma MappedPage(m: Boot, d: nat, r: Range, idx: set<nat>, q: nat, i: nat, j: nat)
    requires BootOk(m, d) && Mapped(m, d, r, idx) && q < r.k && i < 1024 && j < 1024 && i * 1024 + j == r.p + q
    ensures Paging.PageWalks(m.mem, d, i, j) && Paging.Translate(m.mem, d, i, j) == (r.f + q) * PAGE_SIZE
  {
    assert (r.p + q) / 1024 == i && (r.p + q) % 1024 == j;
    assert TableOk(m, d, i) && FrameOf(Entry(m.mem, d, i)) != 0;
    TaggedIsPresent(d, i, Entry(m.mem, d, i));
    assert PageEntry(m.mem, d, r.p + q) == ConstructEntry(r.f + q, r.perm);
    EntryAddress(r.f + q, r.perm);
  }

  // check_va2pa on that page.
  lemma MappedVa2pa(m: Boot, d: nat, r: Range, idx: set<nat>, q: nat, va: Word)
    requires BootOk(m, d) && Mapped(m, d, r, idx) && q < r.k && PPN(va) == r.p + q
    ensures Paging.CanWalk(m.mem, d, va) && Paging.CheckVa2pa(m.mem, d, va) == (r.f + q) * PAGE_SIZE
  {
    PageSplit(va);
    MappedPage(m, d, r, idx, q, PDX(va), PTX(va));
  }

  lemma EntryAddress(f: nat, perm: nat)
    requires f < 0x10_0000 && perm < 4096 && perm % 2 == 1
    ensures Present(ConstructEntry(f, perm)) && ExtractAddress(ConstructEntry(f, perm)) == f * PAGE_SIZE
  {
  }

  // Who may do what in the address space that the kernel has built, page by page.
  // Nothing is writeable for a user program, and nothing readable but the image of
  // envs and, through UVPT, the directory and the table of UENVS.  In particular the
  // image of frames_info is not readable: its pages have PERM_USER, its directory entry
  // does not.  The rest of UENVS is the subject of BehindProtection.
  lemma BootProtection(m: Boot, d: nat, stack: Word, frames: Word, envs: Word, i: nat, j: nat)
    requires BootMapped(m, d, stack, frames, envs) && i < 1024 && j < 1024
    ensures Paging.PageWalks(m.mem, d, i, j)
    ensures i != ENVS_INDEX ==>
      && !Paging.UserMay(m.mem, d, i, j, PERM_WRITEABLE)
      && (Paging.UserMay(m.mem, d, i, j, PERM_PRESENT) <==> i == SELF_UVPT && (j == ENVS_INDEX || j == SELF_UVPT))
    ensures i == ENVS_INDEX && j < ENV_FRAMES ==>
      Paging.UserMay(m.mem, d, i, j, PERM_PRESENT) && !Paging.UserMay(m.mem, d, i, j, PERM_WRITEABLE)
  {
    BootWalk(m, d, i, j);
    if i == SELF_UVPT {
      WindowEntry(m, d, j);
    } else if i != ENVS_INDEX {
      KernelEntry(m, d, i, j);
    } else if j < ENV_FRAMES {
      EnvsMapped(m, d, stack, frames, envs);
      EnvsEntry(m, d, envs, j);
    }
  }

  // Behind the image of envs the user may do what the words that the table's
  // frame held at power-on grant: nothing, if memory was zero.
  lemma BehindProtection(mem0: seq<Word>, m: Boot, d: nat, j: nat, bit: nat, t: nat, w: Word)
    requires BootOk(m, d) && OpenedToUser(m.mem, d) && |mem0| == |m.mem| && BehindImage(mem0, m.mem, d)
    requires ENV_FRAMES <= j < 1024 && (bit == PERM_PRESENT || bit == PERM_WRITEABLE)
    requires FrameOf(Entry(m.mem, d, ENVS_INDEX)) == t && Paging.Slot(t, j) < |mem0| && mem0[Paging.Slot(t, j)] == w
    ensures Paging.PageWalks(m.mem, d, ENVS_INDEX, j)
    ensures Paging.UserMay(m.mem, d, ENVS_INDEX, j, bit) <==> Present(w) && Paging.Granted(w, bit)
    ensures w == 0 ==> !Paging.UserMay(m.mem, d, ENVS_INDEX, j, bit)
  {
    BootWalk(m, d, ENVS_INDEX, j);
    OpenGrants(Entry(m.mem, d, ENVS_INDEX));
  }

  lemma OpenGrants(e: Word)
    requires Permissions(e) == PERM_PRESENT + PERM_WRITEABLE + PERM_USER
    ensures Present(e) && Paging.Granted(e, PERM_PRESENT) && Paging.Granted(e, PERM_WRITEABLE)
  {
  }

  // The boot mappings live in the frames that were handed out, and nowhere else.
  lemma BootMappedKept(m: Boot, m': Boot, d: nat, stack: Word, frames: Word, envs: Word)
    requires BootMapped(m, d, stack, frames, envs) && SameBootFrames(m.mem, m'.mem, m.used) && m'.used == m.used
    ensures BootMapped(m', d, stack, frames, envs)
  {
    BootOkKept(m, m', d);
    HoldsKept(m, m', d, [StackRange(stack), MemoryRange(), FramesRange(|m.mem| / 1024, frames), EnvsRange(envs)],
              Span(955, 1024));
  }

  lemma EnvsMapped(m: Boot, d: nat, stack: Word, frames: Word, envs: Word)
    requires BootMapped(m, d, stack, frames, envs)
    ensures Mapped(m, d, EnvsRange(envs), Span(955, 1024))
  {
    var rs := [StackRange(stack), MemoryRange(), FramesRange(|m.mem| / 1024, frames), EnvsRange(envs)];
    assert rs[3] == EnvsRange(envs);
  }

  lemma KernelEntry(m: Boot, d: nat, i: nat, j: nat)
    requires BootOk(m, d) && i < 1024 && j < 1024 && i != SELF_UVPT && i != ENVS_INDEX
    ensures Paging.PageWalks(m.mem, d, i, j)
    ensures !Paging.UserMay(m.mem, d, i, j, PERM_WRITEABLE) && !Paging.UserMay(m.mem, d, i, j, PERM_PRESENT)
  {
    BootWalk(m, d, i, j);
    if Entry(m.mem, d, i) != 0 { TagGrants(d, i, Entry(m.mem, d, i)); }
  }

  // The pages of the UVPT window are the directory's tables.
  lemma WindowEntry(m: Boot, d: nat, j: nat)
    requires BootOk(m, d) && j < 1024 && FrameOf(Entry(m.mem, d, SELF_UVPT)) == d && OpenedToUser(m.mem, d)
    ensures Paging.PageWalks(m.mem, d, SELF_UVPT, j)
    ensures !Paging.UserMay(m.mem, d, SELF_UVPT, j, PERM_WRITEABLE)
    ensures Paging.UserMay(m.mem, d, SELF_UVPT, j, PERM_PRESENT) <==> j == ENVS_INDEX || j == SELF_UVPT
  {
    BootWalk(m, d, SELF_UVPT, j);
    assert TableOk(m, d, j);
    TagGrants(d, SELF_UVPT, Entry(m.mem, d, SELF_UVPT));
    if Entry(m.mem, d, j) != 0 { TagGrants(d, j, Entry(m.mem, d, j)); }
  }

  lemma BootWalk(m: Boot, d: nat, i: nat, j: nat)
    requires BootOk(m, d) && i < 1024 && j < 1024
    ensures Paging.PageWalks(m.mem, d, i, j) && TableOk(m, d, i)
  {
    assert TableOk(m, d, i);
  }

  // What the permissions of a directory entry grant.
  lemma TagGrants(d: nat, i: nat, e: Word)
    requires Tagged(d, i, e)
    ensures Present(e)
    ensures i != ENVS_INDEX ==> !Paging.Granted(e, PERM_WRITEABLE) && (Paging.Granted(e, PERM_PRESENT) <==> i == SELF_UVPT && FrameOf(e) == d)
    ensures i == ENVS_INDEX && Permissions(e) == PERM_PRESENT + PERM_WRITEABLE + PERM_USER ==> Paging.Granted(e, PERM_PRESENT)
  {
  }

  // The entry of a page of the image of envs.
  lemma EnvsEntry(m: Boot, d: nat, envs: Word, j: nat)
    requires BootOk(m, d) && KERNEL_BASE <= envs && OpenedToUser(m.mem, d)
    requires Mapped(m, d, EnvsRange(envs), Span(955, 1024)) && j < ENV_FRAMES
    ensures Paging.PageWalks(m.mem, d, ENVS_INDEX, j)
    ensures Paging.UserMay(m.mem, d, ENVS_INDEX, j, PERM_PRESENT) && !Paging.UserMay(m.mem, d, ENVS_INDEX, j, PERM_WRITEABLE)
  {
    BootWalk(m, d, ENVS_INDEX, j);
    EnvsRangeOk(envs);
    var r := EnvsRange(envs);
    assert r.p == 1024 * ENVS_INDEX && r.perm == PERM_PRESENT + PERM_USER;
    var pte := PageEntry(m.mem, d, r.p + j);
    assert pte == ConstructEntry(r.f + j, PERM_PRESENT + PERM_USER);
    assert Permissions(pte) == PERM_PRESENT + PERM_USER;
    assert pte == m.mem[Paging.Slot(FrameOf(Entry(m.mem, d, ENVS_INDEX)), j)];
    OpenGrants(Entry(m.mem, d, ENVS_INDEX));
    ReadOnlyGrants(pte);
  }

  lemma ReadOnlyGrants(e: Word)
    requires Permissions(e) == PERM_PRESENT + PERM_USER
    ensures Present(e) && Paging.Granted(e, PERM_PRESENT) && !Paging.Granted(e, PERM_WRITEABLE)
  {
  }

  // Memory while directory d has the first mapping of the kernel at address 0 too.
  function Lent(mem: seq<Word>, d: nat): seq<Word>
    requires d * 1024 + 1024 <= |mem|
  {
    mem[d * 1024 := Entry(mem, d, PDX(KERNEL_BASE))]
  }

  class Kernel {
    const mem: array<Word>  // physical memory
    const endOfKernel: Word  // placed by the linker
    const stackBottom: Word  // ptr_stack_bottom, forced to a page boundary in kern/entry.S
    var ptrFreeMem: Word  // 0 until the first allocation

    constructor (memory: array<Word>, end: Word, stack: Word)
      ensures mem == memory && endOfKernel == end && stackBottom == stack && ptrFreeMem == 0
    {
      mem, endOfKernel, stackBottom, ptrFreeMem := memory, end, stack, 0;
    }

    function Cursor(): Word
      reads this
    {
      if ptrFreeMem == 0 then endOfKernel else ptrFreeMem
    }

    ghost predicate Valid()
      reads this
    {
      && mem.Length % 1024 == 0 && mem.Length / 1024 < 0x1_0000
      && KERNEL_BASE <= Cursor() <= KERNEL_BASE + mem.Length * 4
    }

    // The first frame that no boot allocation has touched.
    ghost function Used(): nat
      requires Valid()
      reads this
    {
      (RoundUp(Cursor(), PAGE_SIZE) - KERNEL_BASE) / PAGE_SIZE
    }

    ghost function Abs(): Boot
      requires Valid()
      reads this, mem
    {
      Boot(mem[..], Used())
    }

    // The alignment argument is ignored: every block starts a page.
    method BootAllocateSpace(size: Word, align: Word) returns (kva: Word)
      requires Valid() && Used() + Pages(size) <= mem.Length / 1024
      modifies this
      ensures Valid() && kva == KERNEL_BASE + old(Used()) * PAGE_SIZE && kva % PAGE_SIZE == 0
      ensures kva == BumpStart(old(Cursor())) && ptrFreeMem == Cursor() == kva + size
      ensures Used() == old(Used()) + Pages(size)
    {
      if ptrFreeMem == 0 {
        ptrFreeMem := endOfKernel;
      }
      ptrFreeMem := RoundUp(ptrFreeMem, PAGE_SIZE);
      kva := ptrFreeMem;
      ptrFreeMem := (ptrFreeMem + size) % TWO32;
    }

    // The frame of the table for va.  A new table keeps whatever its frame held.
    method BootGetPageTable(d: nat, va: Word, create: bool) returns (t: Option<nat>)
      requires Valid() && BootOk(Abs(), d)
      requires create && FrameOf(Entry(mem[..], d, PDX(va))) == 0 ==> Used() < mem.Length / 1024
      modifies this, mem
      ensures Valid() && (old(ptrFreeMem) != 0 ==> ptrFreeMem != 0)
      ensures !create && FrameOf(old(Entry(mem[..], d, PDX(va)))) == 0 ==> t == None && Abs() == old(Abs())
      ensures create || FrameOf(old(Entry(mem[..], d, PDX(va)))) != 0 ==>
        t == Some(FrameOf(Entry(mem[..], d, PDX(va)))) && Abs() == WithTable(old(Abs()), d, PDX(va))
    {
      var f := FrameOf(mem[d * 1024 + PDX(va)]);
      if f == 0 {
        if !create {
          return None;
        }
        var kva := BootAllocateSpace(PAGE_SIZE, PAGE_SIZE);
        f := FrameOf(kva - KERNEL_BASE);
        mem[d * 1024 + PDX(va)] := ConstructEntry(f, PERM_PRESENT + PERM_WRITEABLE);
      }
      return Some(f);
    }

    // The body of boot_map_range's loop.
    method MapPage(d: nat, va: Word, pa: Word, perm: nat, ghost m0: Boot, ghost r: Range, ghost k: nat)
      requires Valid() && Progress(m0, Abs(), d, r, k) && k < r.k
      requires PPN(va) == r.p + k && pa == (r.f + k) * PAGE_SIZE && r.perm == WithPresent(perm)
      modifies this, mem
      ensures Valid() && Progress(m0, Abs(), d, r, k + 1)
      ensures old(ptrFreeMem) != 0 ==> ptrFreeMem != 0
    {
      ghost var m := Abs();
      FrameOfAddress(r.f + k);
      ProgressOne(m0, m, d, r, k);
      WriteEntry(d, va, ConstructEntry(FrameOf(pa), WithPresent(perm)));
    }

    // The table for va and the entry in it.
    method WriteEntry(d: nat, va: Word, e: Word)
      requires Valid() && BootOk(Abs(), d)
      requires FrameOf(Entry(mem[..], d, PPN(va) / 1024)) == 0 ==> Used() < mem.Length / 1024
      requires PageWord(WithTable(Abs(), d, PPN(va) / 1024).mem, d, PPN(va)) < mem.Length
      modifies this, mem
      ensures Valid() && Abs() == WithPage(old(Abs()), d, PPN(va), e)
      ensures old(ptrFreeMem) != 0 ==> ptrFreeMem != 0
    {
      PageSplit(va);
      var t := BootGetPageTable(d, va, true);
      mem[t.value * 1024 + PTX(va)] := e;
    }

    method BootMapRange(d: nat, va: Word, size: Word, pa: Word, perm: nat, ghost r: Range)
      requires Valid() && perm < 4096 && size <= 0xFFFF_F000 && pa <= 0xFFFF_F000 && r == RangeOf(va, size, pa, perm)
      requires BootOk(Abs(), d) && RangeOk(r) && OffSelf(mem[..], d, r)
      requires Used() + Missing(mem[..], d, r.p / 1024, LastIndex(r.p, r.k)) <= mem.Length / 1024
      modifies this, mem
      ensures Valid() && Progress(old(Abs()), Abs(), d, r, r.k)
      ensures old(ptrFreeMem) != 0 ==> ptrFreeMem != 0
    {
      ghost var m0, k := Abs(), 0;
      var i: Word, va': Word, pa': Word := 0, va, RoundUp(pa, PAGE_SIZE);
      RoundUpPage(pa);
      ProgressZero(m0, d, r);
      while i < size
        invariant AtPage(va, r.f, size, k, i, va', pa')
        invariant Valid() && Progress(m0, Abs(), d, r, k)
        invariant old(ptrFreeMem) != 0 ==> ptrFreeMem != 0
        decreases size - i
      {
        NextPage(va, r.f, size, k, i, va', pa');
        MapPage(d, va', pa', perm, m0, r, k);
        i, k := i + PAGE_SIZE, k + 1;
        pa', va' := NextAddress(pa'), NextAddress(va');
      }
      LastPage(va, r.f, size, k, i, va', pa');
    }

    // boot_map_range over directory entries that are all empty: each takes a table.
    method MapFresh(d: nat, va: Word, size: Word, pa: Word, perm: nat,
                    ghost r: Range, ghost rs: seq<Range>, ghost idx: set<nat>)
      requires Valid() && perm < 4096 && size <= 0xFFFF_F000 && pa <= 0xFFFF_F000
      requires Holds(Abs(), d, rs, idx)
      requires r == RangeOf(va, size, pa, perm) && RangeOk(r) && 0 < r.k && Indices(r) !! idx
      requires Used() + Tables(r) <= mem.Length / 1024
      modifies this, mem
      ensures Valid() && Holds(Abs(), d, rs + [r], idx + Indices(r))
      ensures Used() == old(Used()) + Tables(r)
      ensures old(ptrFreeMem) != 0 ==> ptrFreeMem != 0
      ensures Extends(old(Abs()), Abs(), d, r.p, r.p + r.k) && Unwritten(old(mem[..]), mem[..], Used())
      ensures forall i :: i in idx && i < 1024 ==> Entry(mem[..], d, i) == Entry(old(mem[..]), d, i)
    {
      ghost var m := Abs();
      EmptyRange(m, d, rs, idx, r);
      BootMapRange(d, va, size, pa, perm, r);
      HoldsOneMore(m, Abs(), d, rs, idx, r);
      ExtendsUnwritten(m, Abs(), d, r.p, r.p + r.k);
      forall i | i in idx && i < 1024 ensures Entry(mem[..], d, i) == Entry(m.mem, d, i) {
        assert EntryKept(m, Abs(), d, r.p, r.p + r.k, i) && TableOk(m, d, i);
      }
    }

    // The directory is inserted into itself at VPT and UVPT.
    method SetupListing(d: nat, ghost rs: seq<Range>, ghost idx: set<nat>)
      requires Valid() && Holds(Abs(), d, rs, idx) && SELF_VPT !in idx && SELF_UVPT !in idx
      modifies mem
      ensures Valid() && Used() == old(Used()) && Holds(Abs(), d, rs, idx + {SELF_VPT} + {SELF_UVPT})
      ensures OnlyDirectory(old(mem[..]), mem[..], d)
      ensures FrameOf(Entry(mem[..], d, SELF_VPT)) == d && FrameOf(Entry(mem[..], d, SELF_UVPT)) == d
    {
      ghost var m := Abs();
      mem[d * 1024 + PDX(VPT)] := ConstructEntry(d, PERM_PRESENT + PERM_WRITEABLE);
      SelfMapHolds(m, Abs(), d, rs, idx, SELF_VPT, ConstructEntry(d, PERM_PRESENT + PERM_WRITEABLE));
      m := Abs();
      mem[d * 1024 + PDX(UVPT)] := ConstructEntry(d, PERM_USER + PERM_PRESENT);
      SelfMapHolds(m, Abs(), d, rs, idx + {SELF_VPT}, SELF_UVPT, ConstructEntry(d, PERM_USER + PERM_PRESENT));
    }

    // The directory entry of UENVS also gets PERM_USER and PERM_PRESENT.
    method OpenToUser(d: nat, ghost rs: seq<Range>, ghost idx: set<nat>)
      requires Valid() && Holds(Abs(), d, rs, idx) && Entry(mem[..], d, ENVS_INDEX) != 0
      modifies mem
      ensures Valid() && Used() == old(Used()) && Holds(Abs(), d, rs, idx)
      ensures OnlyDirectory(old(mem[..]), mem[..], d) && FrameOf(Entry(mem[..], d, ENVS_INDEX)) == FrameOf(old(Entry(mem[..], d, ENVS_INDEX)))
      ensures forall j :: 0 <= j < 1024 && j != ENVS_INDEX ==> Entry(mem[..], d, j) == Entry(old(mem[..]), d, j)
      ensures OpenedToUser(mem[..], d)
    {
      ghost var m := Abs();
      var e := mem[d * 1024 + PDX(UENVS)];
      assert TableOk(m, d, ENVS_INDEX);
      mem[d * 1024 + PDX(UENVS)] := ConstructEntry(FrameOf(e), WithUser(WithPresent(Permissions(e))));
      RetaggedHolds(m, Abs(), d, rs, idx, ENVS_INDEX, ConstructEntry(FrameOf(e), WithUser(WithPresent(Permissions(e)))));
    }

    // initialize_kernel_VM: the directory's frame, and the addresses of frames_info and envs.
    method InitializeKernelVM() returns (d: nat, frames: Word, envs: Word)
      requires Valid() && ptrFreeMem == 0
      requires KERNEL_BASE + PHYS_EXTENDED_MEM <= endOfKernel
      requires KERNEL_BASE <= stackBottom <= endOfKernel && stackBottom % PAGE_SIZE == 0
      requires Used() + BootFrames(mem.Length / 1024) <= mem.Length / 1024
      modifies this, mem
      ensures Valid() && Used() == old(Used()) + BootFrames(mem.Length / 1024)
      ensures ptrFreeMem != 0 && d >= PHYS_EXTENDED_MEM / PAGE_SIZE
      ensures BootMapped(Abs(), d, stackBottom, frames, envs)
      ensures Unwritten(old(mem[..]), mem[..], Used()) && BehindImage(old(mem[..]), mem[..], d)
    {
      d := MapKernel();
      ghost var mem1, used := mem[..], Used();
      frames, envs := MapArrays(d);
      BehindTwice(old(mem[..]), mem1, mem[..], d, used);
      CheckBootPgdir(d, frames, envs);
      TurnOnPaging(d, [StackRange(stackBottom), MemoryRange(), FramesRange(mem.Length / 1024, frames), EnvsRange(envs)],
                   Span(955, 1024));
    }

    // The directory with the kernel stack and all of physical memory.
    method MapKernel() returns (d: nat)
      requires Valid() && ptrFreeMem == 0
      requires KERNEL_BASE + PHYS_EXTENDED_MEM <= endOfKernel && KERNEL_BASE <= stackBottom <= endOfKernel
      requires Used() + 66 <= mem.Length / 1024
      modifies this, mem
      ensures Valid() && Used() == old(Used()) + 66 && ptrFreeMem != 0 && d >= PHYS_EXTENDED_MEM / PAGE_SIZE
      ensures Holds(Abs(), d, [StackRange(stackBottom), MemoryRange()], Span(958, 959) + Span(960, 1024))
      ensures Unwritten(old(mem[..]), mem[..], Used())
    {
      d := BootDirectory();
      StackRangeOk(stackBottom);
      MapFresh(d, KERNEL_STACK_TOP - KERNEL_STACK_SIZE, KERNEL_STACK_SIZE, stackBottom - KERNEL_BASE, PERM_WRITEABLE,
               StackRange(stackBottom), [], {});
      assert {} + Span(958, 959) == Span(958, 959) && [] + [StackRange(stackBottom)] == [StackRange(stackBottom)];
      MemoryRangeOk();
      MapFresh(d, KERNEL_BASE, 0xFFFF_FFFF - KERNEL_BASE, 0, PERM_WRITEABLE,
               MemoryRange(), [StackRange(stackBottom)], Span(958, 959));
      TwoRanges(StackRange(stackBottom), MemoryRange());
    }

    // frames_info, the directory itself, and envs.
    method MapArrays(d: nat) returns (frames: Word, envs: Word)
      requires Valid() && ptrFreeMem != 0 && KERNEL_BASE <= stackBottom && mem.Length > 0
      requires Holds(Abs(), d, [StackRange(stackBottom), MemoryRange()], Span(958, 959) + Span(960, 1024))
      requires Used() + Pages(mem.Length / 1024 * SIZEOF_FRAME_INFO) + 2 + ENV_FRAMES <= mem.Length / 1024
      modifies this, mem
      ensures Valid() && ptrFreeMem != 0
      ensures Used() == old(Used()) + Pages(mem.Length / 1024 * SIZEOF_FRAME_INFO) + 2 + ENV_FRAMES
      ensures BootMapped(Abs(), d, stackBottom, frames, envs)
      ensures Unwritten(old(mem[..]), mem[..], Used()) && BehindImage(old(mem[..]), mem[..], d)
      ensures FrameOf(Entry(mem[..], d, ENVS_INDEX)) >= old(Used())
    {
      var n := mem.Length / 1024;
      frames := MapFramesInfo(d, n);
      ghost var m, r := Abs(), FramesRange(n, frames);
      envs := EnvsImage(d, [StackRange(stackBottom), MemoryRange(), r], Span(956, 1024),
                        PPN(frames - KERNEL_BASE), Pages(n * SIZEOF_FRAME_INFO));
      BehindTwice(old(mem[..]), m.mem, mem[..], d, m.used);
      UnwrittenTwice(old(mem[..]), m.mem, mem[..], m.used, Used());
      ArraysInOrder(Abs(), d, old(Used()), frames, envs);
      LastRange(StackRange(stackBottom), MemoryRange(), r, EnvsRange(envs));
    }

    // frames_info, and the directory in itself.
    method MapFramesInfo(d: nat, n: nat) returns (frames: Word)
      requires Valid() && ptrFreeMem != 0 && KERNEL_BASE <= stackBottom && n == mem.Length / 1024 > 0
      requires Holds(Abs(), d, [StackRange(stackBottom), MemoryRange()], Span(958, 959) + Span(960, 1024))
      requires Used() + Pages(n * SIZEOF_FRAME_INFO) + 1 <= n
      modifies this, mem
      ensures Valid() && Used() == old(Used()) + Pages(n * SIZEOF_FRAME_INFO) + 1
      ensures frames == KERNEL_BASE + old(Used()) * PAGE_SIZE && Unwritten(old(mem[..]), mem[..], Used())
      ensures Holds(Abs(), d, [StackRange(stackBottom), MemoryRange(), FramesRange(n, frames)], Span(956, 1024))
      ensures Apart(Abs(), d, PPN(frames - KERNEL_BASE), Pages(n * SIZEOF_FRAME_INFO))
      ensures FrameOf(Entry(mem[..], d, SELF_VPT)) == d && FrameOf(Entry(mem[..], d, SELF_UVPT)) == d
    {
      ghost var rs, idx := [StackRange(stackBottom), MemoryRange()], Span(958, 959) + Span(960, 1024);
      frames := FramesInfoImage(d, n, rs, idx);
      rs, idx := rs + [FramesRange(n, frames)], idx + Span(956, 957);
      ghost var m := Abs();
      SetupListing(d, rs, idx);
      ApartDirectory(m, Abs(), d, PPN(frames - KERNEL_BASE), Pages(n * SIZEOF_FRAME_INFO));
      BootIndices();
      ThreeRanges(StackRange(stackBottom), MemoryRange(), FramesRange(n, frames));
    }

    // The page directory, all zero.
    method BootDirectory() returns (d: nat)
      requires Valid() && ptrFreeMem == 0 && KERNEL_BASE + PHYS_EXTENDED_MEM <= endOfKernel
      requires Used() < mem.Length / 1024
      modifies this, mem
      ensures Valid() && Used() == old(Used()) + 1 && ptrFreeMem != 0 && d >= PHYS_EXTENDED_MEM / PAGE_SIZE
      ensures Holds(Abs(), d, [], {}) && Unwritten(old(mem[..]), mem[..], Used())
    {
      var kva := BootAllocateSpace(PAGE_SIZE, PAGE_SIZE);
      d := FrameOf(kva - KERNEL_BASE);
      Paging.ClearFrame(mem, d);
      assert forall i :: 0 <= i < 1024 ==> Entry(mem[..], d, i) == 0;
      assert forall i :: 0 <= i < 1024 ==> TableOk(Abs(), d, i);
    }

    // A block for an array while directory d stands.
    method AllocateArray(size: Word, ghost d: nat, ghost rs: seq<Range>, ghost idx: set<nat>) returns (kva: Word)
      requires Valid() && Holds(Abs(), d, rs, idx) && Used() + Pages(size) <= mem.Length / 1024
      modifies this
      ensures Valid() && Holds(Abs(), d, rs, idx) && Used() == old(Used()) + Pages(size)
      ensures kva == KERNEL_BASE + old(Used()) * PAGE_SIZE && (size > 0 ==> ptrFreeMem != 0)
      ensures Apart(Abs(), d, PPN(kva - KERNEL_BASE), Pages(size))
    {
      ghost var m := Abs();
      kva := BootAllocateSpace(size, PAGE_SIZE);
      HoldsAllocated(m, Abs(), d, rs, idx);
      AllocatedApart(m, Abs(), d, PPN(kva - KERNEL_BASE), Pages(size));
    }

    // The frames_info array and its image for the user.
    method FramesInfoImage(d: nat, n: nat, ghost rs: seq<Range>, ghost idx: set<nat>) returns (frames: Word)
      requires Valid() && n == mem.Length / 1024 > 0
      requires Holds(Abs(), d, rs, idx) && Span(956, 957) !! idx
      requires Used() + Pages(n * SIZEOF_FRAME_INFO) + 1 <= n
      modifies this, mem
      ensures Valid() && Used() == old(Used()) + Pages(n * SIZEOF_FRAME_INFO) + 1
      ensures frames == KERNEL_BASE + old(Used()) * PAGE_SIZE && Unwritten(old(mem[..]), mem[..], Used())
      ensures Apart(Abs(), d, PPN(frames - KERNEL_BASE), Pages(n * SIZEOF_FRAME_INFO))
      ensures Holds(Abs(), d, rs + [FramesRange(n, frames)], idx + Span(956, 957))
    {
      frames := AllocateArray(n * SIZEOF_FRAME_INFO, d, rs, idx);
      FramesRangeOk(n, frames);
      ghost var m, r := Abs(), FramesRange(n, frames);
      MapFresh(d, READ_ONLY_FRAMES_INFO, n * SIZEOF_FRAME_INFO, frames - KERNEL_BASE, PERM_USER, r, rs, idx);
      ApartKept(m, Abs(), d, r.p, r.p + r.k, PPN(frames - KERNEL_BASE), Pages(n * SIZEOF_FRAME_INFO));
    }

    // The envs array and its image for the user.
    method EnvsImage(d: nat, ghost rs: seq<Range>, ghost idx: set<nat>, ghost f: nat, ghost k: nat) returns (envs: Word)
      requires Valid() && Holds(Abs(), d, rs, idx) && Apart(Abs(), d, f, k) && Span(955, 956) !! idx && SELF_VPT in idx && SELF_UVPT in idx
      requires Used() + 1 + ENV_FRAMES <= mem.Length / 1024
      modifies this, mem
      ensures Valid() && Used() == old(Used()) + 1 + ENV_FRAMES && ptrFreeMem != 0
      ensures envs == KERNEL_BASE + old(Used()) * PAGE_SIZE && Unwritten(old(mem[..]), mem[..], Used())
      ensures Apart(Abs(), d, f, k) && Apart(Abs(), d, PPN(envs - KERNEL_BASE), ENV_FRAMES)
      ensures BehindImage(old(mem[..]), mem[..], d) && FrameOf(Entry(mem[..], d, ENVS_INDEX)) >= old(Used())
      ensures Holds(Abs(), d, rs + [EnvsRange(envs)], idx + Span(955, 956)) && OpenedToUser(mem[..], d)
      ensures FrameOf(Entry(old(mem[..]), d, SELF_VPT)) == d ==> FrameOf(Entry(mem[..], d, SELF_VPT)) == d
      ensures FrameOf(Entry(old(mem[..]), d, SELF_UVPT)) == d ==> FrameOf(Entry(mem[..], d, SELF_UVPT)) == d
    {
      ghost var m0 := Abs();
      envs := AllocateArray(NENV * SIZEOF_ENV, d, rs, idx);
      ghost var m := Abs();
      ApartDirectory(m0, m, d, f, k);
      MapEnvs(d, envs, rs, idx);
      ghost var m1, r := Abs(), EnvsRange(envs);
      EnvsRangeOk(envs);
      ApartKept(m, m1, d, r.p, r.p + r.k, f, k);
      ApartKept(m, m1, d, r.p, r.p + r.k, PPN(envs - KERNEL_BASE), ENV_FRAMES);
      OpenToUser(d, rs + [EnvsRange(envs)], idx + Span(955, 956));
      ApartDirectory(m1, Abs(), d, f, k);
      ApartDirectory(m1, Abs(), d, PPN(envs - KERNEL_BASE), ENV_FRAMES);
      BehindDirectory(m.mem, m1, mem[..], d);
    }

    method MapEnvs(d: nat, envs: Word, ghost rs: seq<Range>, ghost idx: set<nat>)
      requires Valid() && Holds(Abs(), d, rs, idx) && Span(955, 956) !! idx && KERNEL_BASE <= envs
      requires Used() + 1 <= mem.Length / 1024
      modifies this, mem
      ensures Valid() && Used() == old(Used()) + 1 && (old(ptrFreeMem) != 0 ==> ptrFreeMem != 0)
      ensures EnvsRange(envs).p == 1024 * ENVS_INDEX && EnvsRange(envs).k == ENV_FRAMES
      ensures Extends(old(Abs()), Abs(), d, EnvsRange(envs).p, EnvsRange(envs).p + EnvsRange(envs).k)
      ensures Unwritten(old(mem[..]), mem[..], Used()) && Holds(Abs(), d, rs + [EnvsRange(envs)], idx + Span(955, 956))
      ensures Entry(mem[..], d, ENVS_INDEX) != 0 && FrameOf(Entry(mem[..], d, ENVS_INDEX)) >= old(Used())
      ensures BehindImage(old(mem[..]), mem[..], d)
      ensures forall i :: i in idx && i < 1024 ==> Entry(mem[..], d, i) == Entry(old(mem[..]), d, i)
    {
      ghost var m, r := Abs(), EnvsRange(envs);
      EnvsRangeOk(envs);
      assert r.p == 1024 * ENVS_INDEX;
      MapFresh(d, UENVS, NENV * SIZEOF_ENV, envs - KERNEL_BASE, PERM_USER, r, rs, idx);
      assert 955 in Span(955, 956) && Entry(m.mem, d, 955) == 0 && Entry(mem[..], d, 955) != 0;
      assert TableOk(Abs(), d, 955);
      BehindFresh(m, Abs(), d, r);
    }

    // check_boot_pgdir: none of its assertions fails.
    method CheckBootPgdir(d: nat, frames: Word, envs: Word)
      requires Valid() && BootMapped(Abs(), d, stackBottom, frames, envs)
      requires stackBottom % PAGE_SIZE == 0 && frames % PAGE_SIZE == 0
    {
      ghost var rs := [StackRange(stackBottom), MemoryRange(), FramesRange(mem.Length / 1024, frames), EnvsRange(envs)];
      CheckFramesInfo(d, frames, rs);
      CheckPhysicalMemory(d, rs);
      CheckStack(d, rs);
      CheckEntries(d, rs);
    }

    method CheckFramesInfo(d: nat, frames: Word, ghost rs: seq<Range>)
      requires Valid() && Holds(Abs(), d, rs, Span(955, 1024)) && KERNEL_BASE <= frames && frames % PAGE_SIZE == 0
      requires 2 < |rs| && rs[2] == FramesRange(mem.Length / 1024, frames)
    {
      PhysicalAligned(frames);
      CheckRange(d, READ_ONLY_FRAMES_INFO, Pages(mem.Length / 1024 * SIZEOF_FRAME_INFO), frames - KERNEL_BASE, rs, 2);
    }

    method CheckPhysicalMemory(d: nat, ghost rs: seq<Range>)
      requires Valid() && Holds(Abs(), d, rs, Span(955, 1024)) && 1 < |rs| && rs[1] == MemoryRange()
    {
      MemoryRangeOk();
      CheckRange(d, KERNEL_BASE, 0x1_0000, 0, rs, 1);
    }

    method CheckStack(d: nat, ghost rs: seq<Range>)
      requires Valid() && Holds(Abs(), d, rs, Span(955, 1024)) && KERNEL_BASE <= stackBottom && stackBottom % PAGE_SIZE == 0
      requires 0 < |rs| && rs[0] == StackRange(stackBottom)
    {
      PhysicalAligned(stackBottom);
      CheckRange(d, KERNEL_STACK_TOP - KERNEL_STACK_SIZE, KERNEL_STACK_SIZE / PAGE_SIZE, stackBottom - KERNEL_BASE, rs, 0);
    }

    // The directory entries that are set are those of the kernel's part, without a gap.
    method CheckEntries(d: nat, ghost rs: seq<Range>)
      requires Valid() && Holds(Abs(), d, rs, Span(955, 1024))
    {
      for i := 0 to 1024 {
        if i == PDX(VPT) || i == PDX(UVPT) || i == PDX(KERNEL_STACK_TOP - 1) || i == PDX(UENVS)
          || i == PDX(READ_ONLY_FRAMES_INFO) || i >= PDX(KERNEL_BASE)
        {
          assert Entry(mem[..], d, i) != 0;
        } else {
          assert Entry(mem[..], d, i) == 0;
        }
      }
    }

    // One loop of check_boot_pgdir: page after page of a range is translated as it should be.
    method CheckRange(d: nat, va: Word, k: nat, pa: Word, ghost rs: seq<Range>, ghost j: nat)
      requires Valid() && Holds(Abs(), d, rs, Span(955, 1024)) && j < |rs|
      requires va % PAGE_SIZE == 0 && pa % PAGE_SIZE == 0
      requires rs[j].k == k && rs[j].p == PPN(va) && rs[j].f == PPN(pa)
    {
      for q := 0 to k {
        MappedVa2pa(Abs(), d, rs[j], Span(955, 1024), q, va + q * PAGE_SIZE);
        var t := Paging.Va2pa(mem, d, va + q * PAGE_SIZE);
        assert t == pa + q * PAGE_SIZE;
      }
    }

    // What turn_on_paging does to the directory: entry 0 lends the kernel its first mapping for a while.
    method TurnOnPaging(d: nat, ghost rs: seq<Range>, ghost idx: set<nat>)
      requires Valid() && Holds(Abs(), d, rs, idx) && 0 !in idx
      modifies mem
      ensures Valid() && Abs() == old(Abs())
    {
      LendEntry(d);
      mem[d * 1024] := 0;
      assert Entry(old(mem[..]), d, 0) == 0;
    }

    method LendEntry(d: nat)
      requires d * 1024 + 1024 <= mem.Length
      modifies mem
      ensures mem[..] == Lent(old(mem[..]), d)
    {
      mem[d * 1024] := mem[d * 1024 + PDX(KERNEL_BASE)];
    }
  }
}
