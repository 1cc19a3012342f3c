/**
 The kernel's own address space over runs of the memory manager: user mappings
 come and go in the same directory and in frames taken from the free list, but
 the kernel half of every directory and the kernel's frames stay as they are
 (kern/memory_manager.c:324-503).
 */
module KernelSpace {
  import opened Words
  import opened Paging
  import opened ReferenceCounts
  import opened Runs
  import BootTables
  import KernelVM
  import Initialize
  import MemoryManager

  // A word of a kernel frame, or of the kernel half of a directory.
  predicate IsKernelWord(r: Roots, kernel: set<nat>, k: nat) {
    k / 1024 in kernel || (k / 1024 in r.dirs && k % 1024 >= USER_PDES)
  }

  // The kernel keeps a reference to each of its frames, and none is a directory or a user page table.
  ghost predicate Held(s: State, r: Roots, kernel: set<nat>) {
    forall f :: f in kernel ==> f < |r.pins| && r.pins[f] > 0 && f !in r.dirs && f !in Tables(s, r)
  }

  // What the kernel itself owes: it neither gives up its frames nor stores into them.
  ghost predicate Spares(w: World, step: Step, kernel: set<nat>) {
    match step
    case Store(k, _) => !IsKernelWord(w.r, kernel, k)
    case Decrement(f) => f !in kernel
    case _ => true
  }

  ghost predicate SameKernel(mem: seq<Word>, mem': seq<Word>, r: Roots, kernel: set<nat>) {
    |mem'| == |mem| && forall k: nat :: k < |mem| && IsKernelWord(r, kernel, k) ==> mem'[k] == mem[k]
  }

  lemma FreeIsNotKernel(s: State, r: Roots, kernel: set<nat>)
    requires Inv(s, r) && Held(s, r, kernel)
    ensures forall f :: f in s.free ==> f !in kernel && f !in r.dirs
  {
    forall f | f in s.free ensures f !in kernel && f !in r.dirs {
      FreeIsUnused(s, r, f);
      assert s.refs[f] == r.pins[f] + |Naming(s, r, f)|;
    }
  }

  lemma GetPageTableKernel(s: State, r: Roots, d: nat, va: Word, kernel: set<nat>)
    requires Inv(s, r) && d in r.dirs && va < USER_TOP && Held(s, r, kernel)
    ensures var s' := GetPageTable(s, d, va, true).1;
      SameKernel(s.mem, s'.mem, r, kernel) && Held(s', r, kernel)
  {
    FreeIsNotKernel(s, r, kernel);
    GetPageTableKeepsInv(s, r, d, va);
    GetPageTableTables(s, r, d, va);
    if Pde(s, d, va) == 0 && s.free != [] {
      var t, k0 := s.free[0], Slot(d, PDX(va));
      assert k0 / 1024 == d && k0 % 1024 == PDX(va) < USER_PDES by { PageSplit(va); }
      var s' := GetPageTable(s, d, va, true).1;
      assert s'.mem == ZeroFrame(s.mem, t)[k0 := ConstructEntry(t, PERM_PRESENT + PERM_USER + PERM_WRITEABLE)];
    }
  }

  // Only the entry of the page is written.
  lemma MapInTableKernel(s: State, r: Roots, d: nat, f: nat, va: Word, perm: nat, kernel: set<nat>)
    requires Inv(s, r) && d in r.dirs && va < USER_TOP && Walkable(s, d, va) && Pde(s, d, va) != 0
    requires f < |s.refs| && f !in s.free && perm < 4096 && Held(s, r, kernel)
    ensures var s' := MapInTable(s, d, FrameOf(Pde(s, d, va)), f, va, perm);
      SameKernel(s.mem, s'.mem, r, kernel) && Held(s', r, kernel)
  {
    var t := FrameOf(Pde(s, d, va));
    InvWalkable(s, r, d, va);
    EntryPresent(s, r, t, va);
    MapInTableMemory(s, d, t, Pte(s, t, va), f, va, perm);
    TablesAreFrames(s, r, t);
    var k := Slot(t, PTX(va));
    assert k / 1024 == t;
    OneEntryKernel(s, r, k, MapInTable(s, d, t, f, va, perm), kernel);
  }

  lemma MapInTableMemory(s: State, d: nat, t: nat, e: Word, f: nat, va: Word, perm: nat)
    requires EntryIs(s, d, va, t, e) && f < |s.refs| && perm < 4096
    ensures var s' := MapInTable(s, d, t, f, va, perm);
      && |s'.mem| == |s.mem| && |s'.refs| == |s.refs| && t < |s.refs|
      && forall k :: 0 <= k < |s.mem| && k != Slot(t, PTX(va)) ==> s'.mem[k] == s.mem[k]
  {
  }

  lemma OneEntryKernel(s: State, r: Roots, k0: nat, s': State, kernel: set<nat>)
    requires Held(s, r, kernel) && k0 / 1024 in Tables(s, r) && k0 / 1024 !in r.dirs
    requires |s'.mem| == |s.mem| && |s'.refs| == |s.refs|
    requires forall k :: 0 <= k < |s.mem| && k != k0 ==> s'.mem[k] == s.mem[k]
    ensures SameKernel(s.mem, s'.mem, r, kernel) && Held(s', r, kernel)
  {
    SameDirectories(s, r, s');
  }

  lemma UnmapKernel(s: State, r: Roots, d: nat, va: Word, kernel: set<nat>)
    requires Inv(s, r) && d in r.dirs && va < USER_TOP && Walkable(s, d, va) && Held(s, r, kernel)
    ensures SameKernel(s.mem, UnmapFrame(s, d, va).mem, r, kernel) && Held(UnmapFrame(s, d, va), r, kernel)
  {
    InvWalkable(s, r, d, va);
    if Pde(s, d, va) != 0 {
      var t := FrameOf(Pde(s, d, va));
      assert Slot(t, PTX(va)) / 1024 == t;
      TablesAreFrames(s, r, t);
    }
    SameDirectories(s, r, UnmapFrame(s, d, va));
  }

  lemma MapKernel(s: State, r: Roots, d: nat, f: nat, va: Word, perm: nat, kernel: set<nat>)
    requires Inv(s, r) && d in r.dirs && va < USER_TOP && Walkable(s, d, va)
    requires f < |s.refs| && f !in s.free && perm < 4096 && Held(s, r, kernel)
    ensures var s' := MapFrame(s, d, f, va, perm).1;
      SameKernel(s.mem, s'.mem, r, kernel) && Held(s', r, kernel)
  {
    GetPageTableKeepsInv(s, r, d, va);
    GetPageTableKernel(s, r, d, va, kernel);
    var (tab, s1) := GetPageTable(s, d, va, true);
    if tab.Table? {
      InvWalkable(s1, r, d, va);
      assert f !in s1.free;
      MapInTableKernel(s1, r, d, f, va, perm, kernel);
    }
  }

  lemma SysAllocateKernel(s: State, r: Roots, d: nat, va: Word, perm: Word, kernel: set<nat>)
    requires Inv(s, r) && d in r.dirs && SysWalkable(s, d, va) && Held(s, r, kernel)
    ensures var s' := SysAllocatePage(s, d, va, perm).1;
      SameKernel(s.mem, s'.mem, r, kernel) && Held(s', RootsAfter(s, r, d, va, perm), kernel)
  {
    PinsDoNotName(SysAllocatePage(s, d, va, perm).1, r, RootsAfter(s, r, d, va, perm));
    if s.free != [] {
      var s1 := TakeZeroed(s);
      TakeZeroedKeepsInv(s, r);
      FreeIsNotKernel(s, r, kernel);
      SameMemory(s, r, AllocateFrame(s).1);
      if SysArguments(va, perm) {
        InvWalkable(s1, r, d, va);
        MapKernel(s1, r, d, s.free[0], va, perm, kernel);
        var s' := SysAllocatePage(s, d, va, perm).1;
        SameMemory(MapFrame(s1, d, s.free[0], va, perm).1, r, s');
      }
    }
  }

  lemma NextKeepsKernel(w: World, step: Step, kernel: set<nat>)
    requires Inv(w.s, w.r) && Safe(w, step) && Legal(w, step) && Held(w.s, w.r, kernel) && Spares(w, step, kernel)
    ensures var w' := Next(w, step);
      SameKernel(w.s.mem, w'.s.mem, w.r, kernel) && Held(w'.s, w'.r, kernel)
  {
    var s, r := w.s, w.r;
    match step
    case Map(d, f, va, perm) => MapKernel(s, r, d, f, va, perm, kernel);
    case Unmap(d, va) => UnmapKernel(s, r, d, va, kernel);
    case SysAllocate(d, va, bits) => SysAllocateKernel(s, r, d, va, bits, kernel);
    case Store(k, e) => SameDirectories(s, r, s.(mem := s.mem[k := e]));
    case Decrement(f) =>
      var w' := Next(w, step);
      SameMemory(s, r, w'.s);
      PinsDoNotName(w'.s, r, w'.r);
    case _ => SameMemory(s, r, Next(w, step).s);
  }

  // No step of the run stores into the kernel or gives up one of its frames.
  ghost predicate Sparing(w: World, steps: seq<Step>, w': World, kernel: set<nat>)
    requires Run(w, steps, w')
    decreases |steps|
  {
    steps == [] || (Spares(w, steps[0], kernel) && Sparing(Next(w, steps[0]), steps[1..], w', kernel))
  }

  // Over every such run the kernel's words stay.
  lemma {:induction false} RunKeepsKernel(w: World, steps: seq<Step>, w': World, kernel: set<nat>)
    requires Inv(w.s, w.r) && Held(w.s, w.r, kernel) && Run(w, steps, w') && Sparing(w, steps, w', kernel)
    ensures SameKernel(w.s.mem, w'.s.mem, w.r, kernel) && Held(w'.s, w'.r, kernel)
    decreases |steps|
  {
    if steps != [] {
      NextKeepsInv(w, steps[0]);
      NextKeepsKernel(w, steps[0], kernel);
      RunKeepsKernel(Next(w, steps[0]), steps[1..], w', kernel);
    }
  }

  // ----- from boot on

  // The frames that the boot allocator has handed out, but for the directory.
  ghost function BootFrames(d: nat, last: nat): set<nat> {
    set f: nat | f < last && BootTables.Between(256, f, last) && f != d
  }

  // FOS_initialize leaves the kernel holding these frames.
  lemma BootHeld(mem0: seq<Word>, m: BootTables.Boot, s: State, r: Roots, d: nat, stack: Word, frames: Word, envs: Word)
    requires Inv(s, r) && r.dirs == {d} && m.used <= |s.refs| && MemoryManager.IsBootCounts(r.pins, m.used)
    requires Initialize.Stands(mem0, m, d, stack, frames, envs) && m.mem == s.mem
    ensures Held(s, r, BootFrames(d, m.used)) && Tables(s, r) == {}
  {
    Initialize.BootDirectoryEmpty(m, d, stack, frames, envs);
    forall k: nat | k < |s.mem| && IsDirSlot(r, k) ensures s.mem[k] == 0 {
      assert k == Slot(d, k % 1024);
    }
    assert Tables(s, r) == {};
  }

  // Both entries that translate page j of table i are the kernel's.
  predicate IsKernelPage(i: nat, j: nat) {
    USER_PDES <= i < 1024 && j < 1024 && (i == BootTables.SELF_VPT || i == BootTables.SELF_UVPT ==> j >= USER_PDES)
  }

  lemma KernelEntries(m: BootTables.Boot, r: Roots, d: nat, i: nat, j: nat, t: nat)
    requires BootTables.BootOk(m, d) && IsKernelPage(i, j) && d in r.dirs
    requires BootTables.Entry(m.mem, d, i) != 0 && FrameOf(BootTables.Entry(m.mem, d, i)) == t
    ensures PageWalks(m.mem, d, i, j)
    ensures IsKernelWord(r, BootFrames(d, m.used), Slot(d, i)) && IsKernelWord(r, BootFrames(d, m.used), Slot(t, j))
  {
    KernelVM.BootWalk(m, d, i, j);
    assert Slot(d, i) / 1024 == d && Slot(d, i) % 1024 == i;
    assert Slot(t, j) / 1024 == t && Slot(t, j) % 1024 == j;
  }

  // Whatever user programs make the memory manager do, page j of table i of the
  // kernel's own address space is translated, and protected, as
  // initialize_kernel_VM built it.
  lemma KernelOverRuns(mem0: seq<Word>, m: BootTables.Boot, w: World, steps: seq<Step>, w': World,
                       d: nat, stack: Word, frames: Word, envs: Word, i: nat, j: nat, bit: nat)
    requires Inv(w.s, w.r) && w.r.dirs == {d} && m.used <= |w.s.refs| && MemoryManager.IsBootCounts(w.r.pins, m.used)
    requires Initialize.Stands(mem0, m, d, stack, frames, envs) && m.mem == w.s.mem
    requires Run(w, steps, w') && Sparing(w, steps, w', BootFrames(d, m.used)) && IsKernelPage(i, j) && bit > 0
    ensures PageWalks(w.s.mem, d, i, j) && PageWalks(w'.s.mem, d, i, j)
    ensures Translate(w'.s.mem, d, i, j) == Translate(w.s.mem, d, i, j)
    ensures UserMay(w'.s.mem, d, i, j, bit) <==> UserMay(w.s.mem, d, i, j, bit)
    ensures KernelMay(w'.s.mem, d, i, j, bit) <==> KernelMay(w.s.mem, d, i, j, bit)
  {
    BootHeld(mem0, m, w.s, w.r, d, stack, frames, envs);
    RunKeepsKernel(w, steps, w', BootFrames(d, m.used));
    assert BootTables.Entry(m.mem, d, i) != 0;
    KernelEntries(m, w.r, d, i, j, FrameOf(BootTables.Entry(m.mem, d, i)));
  }
}
