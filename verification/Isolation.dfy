/**
 What user programs may reach, over runs of the memory manager: exactly the pages
 of the flat map, no frame through two pages, and no page table, directory or
 kernel frame (kern/memory_manager.c:324-503, kern/syscall.c:91-131).
 */
module Isolation {
  import opened Words
  import opened Paging
  import opened ReferenceCounts
  import opened FlatMap
  import opened Runs
  import opened KernelSpace
  import BootTables
  import Initialize
  import MemoryManager
  import SelfMap

  // ----- access is what the flat map says

  lemma TableEntryGrants(e: Word)
    requires Permissions(e) == PERM_PRESENT + PERM_USER + PERM_WRITEABLE
    ensures Present(e) && Granted(e, PERM_PRESENT) && Granted(e, PERM_WRITEABLE)
  {
  }

  lemma ZeroGrants(e: Word)
    requires e == 0
    ensures !Present(e)
  {
  }

  // The user directory entries take nothing away: a user program may use a page
  // exactly as its entry in the flat map grants, and reaches the frame named there.
  lemma AccessIsFlat(s: State, r: Roots, d: nat, i: nat, j: nat, bit: nat)
    requires Inv(s, r) && d in r.dirs && i < USER_PDES && j < 1024 && (bit == PERM_PRESENT || bit == PERM_WRITEABLE)
    ensures PageWalks(s.mem, d, i, j)
    ensures UserMay(s.mem, d, i, j, bit) <==> (d, i * 1024 + j) in Flat(s, r) && Granted(Flat(s, r)[(d, i * 1024 + j)], bit)
    ensures (d, i * 1024 + j) in Flat(s, r) ==>
      Translate(s.mem, d, i, j) == ExtractAddress(Flat(s, r)[(d, i * 1024 + j)])
  {
    LeafOfPage(s, r, d, i, j);
    var pde := s.mem[Slot(d, i)];
    if pde == 0 {
      ZeroGrants(pde);
    } else {
      TableEntryGrants(pde);
      WalkGrants(s.mem, d, i, j, pde, s.mem[Slot(FrameOf(pde), j)], bit);
    }
    FlatOfLeaf(s, r, (d, i * 1024 + j));
  }

  lemma FlatOfLeaf(s: State, r: Roots, dp: Page)
    requires Shape(s) && RootsOk(s, r) && dp.0 in r.dirs && dp.1 < USER_PAGES
    ensures dp in Flat(s, r) <==> Leaf(s, dp.0, dp.1) != 0
    ensures dp in Flat(s, r) ==> Flat(s, r)[dp] == Leaf(s, dp.0, dp.1)
  {
  }

  lemma LeafOfPage(s: State, r: Roots, d: nat, i: nat, j: nat)
    requires Inv(s, r) && d in r.dirs && i < USER_PDES && j < 1024
    ensures Slot(d, i) < |s.mem|
    ensures var pde := s.mem[Slot(d, i)];
      if pde == 0 then Leaf(s, d, i * 1024 + j) == 0
      else
        && Slot(FrameOf(pde), j) < |s.mem| && Leaf(s, d, i * 1024 + j) == s.mem[Slot(FrameOf(pde), j)]
        && Permissions(pde) == PERM_PRESENT + PERM_USER + PERM_WRITEABLE
        && (s.mem[Slot(FrameOf(pde), j)] == 0 || Present(s.mem[Slot(FrameOf(pde), j)]))
  {
    var k := Slot(d, i);
    assert k / 1024 == d && k % 1024 == i && IsDirSlot(r, k);
    PageIndices(i, j);
    if s.mem[k] != 0 {
      TableOfEntry(s, r, k);
      assert Slot(FrameOf(s.mem[k]), j) / 1024 == FrameOf(s.mem[k]);
    }
  }

  lemma TableOfEntry(s: State, r: Roots, k: nat)
    requires k < |s.mem| && IsDirSlot(r, k) && s.mem[k] != 0
    ensures FrameOf(s.mem[k]) in Tables(s, r)
  {
  }

  lemma PageIndices(i: nat, j: nat)
    requires j < 1024
    ensures (i * 1024 + j) / 1024 == i && (i * 1024 + j) % 1024 == j
  {
  }

  // With an open directory entry, access is decided by the entry e in the table.
  lemma WalkGrants(mem: seq<Word>, d: nat, i: nat, j: nat, pde: Word, e: Word, bit: nat)
    requires Slot(d, i) < |mem| && mem[Slot(d, i)] == pde && Slot(FrameOf(pde), j) < |mem| && mem[Slot(FrameOf(pde), j)] == e
    requires bit > 0 && Present(pde) && Granted(pde, bit) && (e == 0 || Present(e))
    ensures PageWalks(mem, d, i, j)
    ensures UserMay(mem, d, i, j, bit) <==> e != 0 && Granted(e, bit)
    ensures e != 0 ==> Translate(mem, d, i, j) == ExtractAddress(e)
  {
    if e == 0 { ZeroGrants(e); }
  }

  // After sys_allocate_page the program may read the page asked for, and write it if
  // it asked for PERM_WRITEABLE; the page is the frame that was first on the free list.
  lemma SysAllocateGrants(s: State, r: Roots, d: nat, va: Word, perm: Word, s': State, i: nat, j: nat)
    requires Inv(s, r) && d in r.dirs && SysWalkable(s, d, va) && SysAllocatePage(s, d, va, perm) == (SysOk, s')
    requires PDX(va) == i && PTX(va) == j
    ensures s.free != [] && s.free[0] < 0x10_0000 && va < USER_TOP
    ensures PageWalks(s'.mem, d, i, j) && Translate(s'.mem, d, i, j) == s.free[0] * PAGE_SIZE
    ensures UserMay(s'.mem, d, i, j, PERM_PRESENT)
    ensures UserMay(s'.mem, d, i, j, PERM_WRITEABLE) <==> perm / PERM_WRITEABLE % 2 == 1
  {
    SysAllocateMaps(s, r, d, va, perm);
    SysAllocateAccepted(s, r, d, va, perm);
    UserPage(va);
    PageGrants(s', r, d, i, j, ConstructEntry(s.free[0], WithPresent(perm)));
    AllowedGrants(s.free[0], perm);
  }

  lemma SysAllocateAccepted(s: State, r: Roots, d: nat, va: Word, perm: Word)
    requires Inv(s, r) && d in r.dirs && SysWalkable(s, d, va) && SysAllocatePage(s, d, va, perm).0 == SysOk
    ensures PermAllowed(perm) && va < USER_TOP && s.free != []
  {
  }

  // What page j of table i grants and where it leads, e being its entry in the flat map.
  lemma PageGrants(s: State, r: Roots, d: nat, i: nat, j: nat, e: Word)
    requires Inv(s, r) && d in r.dirs && i < USER_PDES && j < 1024
    requires (d, i * 1024 + j) in Flat(s, r) && Flat(s, r)[(d, i * 1024 + j)] == e
    ensures PageWalks(s.mem, d, i, j) && Translate(s.mem, d, i, j) == ExtractAddress(e)
    ensures UserMay(s.mem, d, i, j, PERM_PRESENT) <==> Granted(e, PERM_PRESENT)
    ensures UserMay(s.mem, d, i, j, PERM_WRITEABLE) <==> Granted(e, PERM_WRITEABLE)
  {
    AccessIsFlat(s, r, d, i, j, PERM_PRESENT);
    AccessIsFlat(s, r, d, i, j, PERM_WRITEABLE);
  }

  lemma UserPage(va: Word)
    requires va < USER_TOP
    ensures PDX(va) < USER_PDES && PPN(va) == PDX(va) * 1024 + PTX(va)
  {
    PageSplit(va);
  }

  lemma AllowedGrants(f: nat, perm: Word)
    requires f < 0x10_0000 && PermAllowed(perm)
    ensures var e := ConstructEntry(f, WithPresent(perm));
      && Granted(e, PERM_PRESENT) && (Granted(e, PERM_WRITEABLE) <==> perm / PERM_WRITEABLE % 2 == 1)
      && ExtractAddress(e) == f * PAGE_SIZE
  {
    AllowedBits(perm, WithPresent(perm));
    assert Permissions(ConstructEntry(f, WithPresent(perm))) == WithPresent(perm);
  }

  lemma AllowedBits(perm: nat, p: nat)
    requires perm < 4096 && perm % 2 == 0 && perm / 4 % 128 == 1 && p == perm + 1
    ensures p / PERM_USER % 2 == 1 && p / PERM_PRESENT % 2 == 1 && p / PERM_WRITEABLE % 2 == perm / PERM_WRITEABLE % 2
  {
    assert perm / 4 == 128 * (perm / 4 / 128) + 1;
    assert p / 4 == perm / 4 && p / 2 == perm / 2;
  }

  // ----- no frame is shared

  // Every frame is mapped at one page at most, and no page maps a page table, a
  // directory or a frame of the kernel.
  ghost predicate Isolated(s: State, r: Roots, kernel: set<nat>)
    requires Shape(s) && RootsOk(s, r)
  {
    && (forall dp :: dp in Flat(s, r) ==> Ordinary(s, r, kernel, FrameOf(Flat(s, r)[dp])))
    && (forall dp, dq :: dp in Flat(s, r) && dq in Flat(s, r) && FrameOf(Flat(s, r)[dp]) == FrameOf(Flat(s, r)[dq]) ==> dp == dq)
  }

  ghost predicate Ordinary(s: State, r: Roots, kernel: set<nat>, f: nat) {
    f !in Tables(s, r) && f !in r.dirs && f !in kernel
  }

  // A frame without references is mapped nowhere, is no table and not the kernel's.
  lemma UnreferencedIsUnmapped(s: State, r: Roots, f: nat, kernel: set<nat>)
    requires Inv(s, r) && Held(s, r, kernel) && f < |s.refs| && s.refs[f] == 0
    ensures Ordinary(s, r, kernel, f)
    ensures forall dp :: dp in Flat(s, r) ==> FrameOf(Flat(s, r)[dp]) != f
  {
    assert s.refs[f] == r.pins[f] + |Naming(s, r, f)|;
    assert Naming(s, r, f) == {};
    forall k: nat | k < |s.mem| && IsDirSlot(r, k) && s.mem[k] != 0 ensures FrameOf(s.mem[k]) != f {
      assert k !in Naming(s, r, f);
    }
    forall dp | dp in Flat(s, r) ensures FrameOf(Flat(s, r)[dp]) != f {
      var k := Slot(dp.0, dp.1 / 1024);
      assert k / 1024 == dp.0 && IsDirSlot(r, k);
      var j := Slot(FrameOf(s.mem[k]), dp.1 % 1024);
      assert j / 1024 == FrameOf(s.mem[k]);
      assert j !in Naming(s, r, f);
    }
  }

  // Mapping an unreferenced frame: the one frame that becomes a table comes from the free list.
  lemma MapIsolated(s: State, r: Roots, d: nat, f: nat, va: Word, perm: nat, kernel: set<nat>)
    requires Inv(s, r) && d in r.dirs && va < USER_TOP && Walkable(s, d, va) && Held(s, r, kernel)
    requires f < |s.refs| && f !in s.free && s.refs[f] == 0 && perm < 4096 && Isolated(s, r, kernel)
    ensures var s' := MapFrame(s, d, f, va, perm).1; Shape(s') && RootsOk(s', r) && Isolated(s', r, kernel)
  {
    MapKeepsInv(s, r, d, f, va, perm);
    var (ok, s') := MapFrame(s, d, f, va, perm);
    if ok {
      UnreferencedIsUnmapped(s, r, f, kernel);
      MapIsFlatUpdate(s, r, d, f, va, perm);
      MapLeavesOthers(s, r, d, f, va, perm);
      FirstFreeIsUnmapped(s, r);
      FreshIsIsolated(s, s', r, d, PPN(va), f, perm, kernel);
    }
  }

  lemma FirstFreeIsUnmapped(s: State, r: Roots)
    requires Inv(s, r)
    ensures s.free != [] ==> forall dp :: dp in Flat(s, r) ==> FrameOf(Flat(s, r)[dp]) != s.free[0]
  {
    if s.free != [] { FreeNotInFlat(s, r, s.free[0]); }
  }

  lemma FreshIsIsolated(s: State, s': State, r: Roots, d: nat, p: nat, f: nat, perm: nat, kernel: set<nat>)
    requires Shape(s) && RootsOk(s, r) && Isolated(s, r, kernel) && Ordinary(s, r, kernel, f)
    requires Shape(s') && RootsOk(s', r) && f < 0x10_0000 && perm < 4096 && f !in s.free
    requires forall dp :: dp in Flat(s, r) ==> FrameOf(Flat(s, r)[dp]) != f
    requires s.free != [] ==> forall dp :: dp in Flat(s, r) ==> FrameOf(Flat(s, r)[dp]) != s.free[0]
    requires Flat(s', r) == FlatMapped(Flat(s, r), d, p, f, perm)
    requires forall t :: t in Tables(s', r) ==> t in Tables(s, r) || (s.free != [] && t == s.free[0])
    ensures Isolated(s', r, kernel)
  {
    var m, m' := Flat(s, r), Flat(s', r);
    assert m' == m[(d, p) := ConstructEntry(f, WithPresent(perm))];
    forall dp | dp in m' ensures Ordinary(s', r, kernel, FrameOf(m'[dp])) {
      if dp != (d, p) { assert Ordinary(s, r, kernel, FrameOf(m[dp])); }
    }
  }

  // Nothing that Isolated speaks of has changed.
  lemma SameMapIsolated(s: State, s': State, r: Roots, r': Roots, kernel: set<nat>)
    requires Shape(s) && RootsOk(s, r) && Isolated(s, r, kernel) && Shape(s') && RootsOk(s', r')
    requires r'.dirs == r.dirs && Tables(s', r') == Tables(s, r)
    requires forall dp :: dp in Flat(s', r') ==> dp in Flat(s, r) && Flat(s', r')[dp] == Flat(s, r)[dp]
    ensures Isolated(s', r', kernel)
  {
    forall dp | dp in Flat(s', r') ensures Ordinary(s', r', kernel, FrameOf(Flat(s', r')[dp])) {
      assert Ordinary(s, r, kernel, FrameOf(Flat(s, r)[dp]));
    }
  }

  lemma SysAllocateIsolated(s: State, r: Roots, d: nat, va: Word, perm: Word, kernel: set<nat>)
    requires Inv(s, r) && d in r.dirs && SysWalkable(s, d, va) && Held(s, r, kernel) && Isolated(s, r, kernel)
    ensures var (s', r') := (SysAllocatePage(s, d, va, perm).1, RootsAfter(s, r, d, va, perm));
      Shape(s') && RootsOk(s', r') && Isolated(s', r', kernel)
  {
    SysAllocateKeepsInv(s, r, d, va, perm);
    var (res, s') := SysAllocatePage(s, d, va, perm);
    if res == SysOk {
      SysAllocateKeepsInvIff(s, r, d, va, perm);
      TakeZeroedKeepsInv(s, r);
      FreeIsUnused(s, r, s.free[0]);
      SameMapIsolated(s, TakeZeroed(s), r, r, kernel);
      MapIsolated(TakeZeroed(s), r, d, s.free[0], va, perm, kernel);
    } else {
      FailureKeepsTables(s, r, d, va, perm);
      SameMapIsolated(s, s', r, RootsAfter(s, r, d, va, perm), kernel);
    }
  }

  lemma FailureKeepsTables(s: State, r: Roots, d: nat, va: Word, perm: Word)
    requires Inv(s, r) && d in r.dirs && SysWalkable(s, d, va) && SysAllocatePage(s, d, va, perm).0 != SysOk
    ensures Tables(SysAllocatePage(s, d, va, perm).1, RootsAfter(s, r, d, va, perm)) == Tables(s, r)
  {
    var s' := SysAllocatePage(s, d, va, perm).1;
    PinsDoNotName(s', r, RootsAfter(s, r, d, va, perm));
    if s.free != [] {
      SysAllocateKeepsInvIff(s, r, d, va, perm);
      if Starves(s, d, va, perm) {
        StarvedState(s, r, d, va, perm);
        TakeZeroedKeepsInv(s, r);
        SameMemory(TakeZeroed(s), r, s');
      } else {
        SameMemory(s, r, s');
      }
    }
  }

  // ----- over runs

  // The kernel maps only frames to which there is no reference, as its program
  // loader does with frames from allocate_frame.
  ghost predicate Discreet(w: World, step: Step) {
    step.Map? ==> step.f < |w.s.refs| && w.s.refs[step.f] == 0
  }

  ghost predicate DiscreetRun(w: World, steps: seq<Step>, w': World)
    requires Run(w, steps, w')
    decreases |steps|
  {
    steps == [] || (Discreet(w, steps[0]) && DiscreetRun(Next(w, steps[0]), steps[1..], w'))
  }

  lemma NextKeepsIsolation(w: World, step: Step, kernel: set<nat>)
    requires Inv(w.s, w.r) && Held(w.s, w.r, kernel) && Isolated(w.s, w.r, kernel)
    requires Safe(w, step) && Legal(w, step) && Discreet(w, step)
    ensures var w' := Next(w, step); Inv(w'.s, w'.r) && Isolated(w'.s, w'.r, kernel)
  {
    NextKeepsInv(w, step);
    var s, r, w' := w.s, w.r, Next(w, step);
    match step
    case Map(d, f, va, perm) => MapIsolated(s, r, d, f, va, perm, kernel);
    case SysAllocate(d, va, bits) => SysAllocateIsolated(s, r, d, va, bits, kernel);
    case Unmap(d, va) =>
      UnmapIsFlatRemove(s, r, d, va);
      UnmapKeepsTables(s, r, d, va);
      SameMapIsolated(s, w'.s, r, r, kernel);
    case _ =>
      NextRefinesFlat(w, step);
      OtherStepsKeepTables(w, step);
      SameMapIsolated(s, w'.s, r, w'.r, kernel);
  }

  lemma UnmapKeepsTables(s: State, r: Roots, d: nat, va: Word)
    requires Inv(s, r) && d in r.dirs && va < USER_TOP && Walkable(s, d, va)
    ensures Tables(UnmapFrame(s, d, va), r) == Tables(s, r)
  {
    if Pde(s, d, va) != 0 {
      var t := FrameOf(Pde(s, d, va));
      assert Slot(d, PDX(va)) / 1024 == d && Slot(d, PDX(va)) % 1024 == PDX(va) < USER_PDES by { PageSplit(va); }
      assert t in Tables(s, r) && Slot(t, PTX(va)) / 1024 == t;
      TablesAreFrames(s, r, t);
    }
    SameDirectories(s, r, UnmapFrame(s, d, va));
  }

  lemma OtherStepsKeepTables(w: World, step: Step)
    requires Inv(w.s, w.r) && Safe(w, step) && Legal(w, step)
    requires step.Allocate? || step.Free? || step.Decrement? || step.Store?
    ensures Tables(Next(w, step).s, Next(w, step).r) == Tables(w.s, w.r)
  {
    var w' := Next(w, step);
    if step.Store? {
      SameDirectories(w.s, w.r, w'.s);
    } else {
      SameMemory(w.s, w.r, w'.s);
      PinsDoNotName(w'.s, w.r, w'.r);
    }
  }

  lemma {:induction false} RunKeepsIsolation(w: World, steps: seq<Step>, w': World, kernel: set<nat>)
    requires Inv(w.s, w.r) && Held(w.s, w.r, kernel) && Isolated(w.s, w.r, kernel)
    requires Run(w, steps, w') && Sparing(w, steps, w', kernel) && DiscreetRun(w, steps, w')
    ensures Inv(w'.s, w'.r) && w'.r.dirs == w.r.dirs && Isolated(w'.s, w'.r, kernel)
    decreases |steps|
  {
    if steps != [] {
      NextKeepsInv(w, steps[0]);
      NextKeepsKernel(w, steps[0], kernel);
      NextKeepsIsolation(w, steps[0], kernel);
      RunKeepsIsolation(Next(w, steps[0]), steps[1..], w', kernel);
    }
  }

  // Nothing is mapped after boot.
  lemma NothingMappedIsIsolated(s: State, r: Roots, kernel: set<nat>)
    requires Inv(s, r) && Tables(s, r) == {}
    ensures Isolated(s, r, kernel)
  {
    forall k: nat | k < |s.mem| && IsDirSlot(r, k) ensures s.mem[k] == 0 {
      if s.mem[k] != 0 { TableOfEntry(s, r, k); }
    }
    forall dp: Page | dp.0 in r.dirs && dp.1 < USER_PAGES ensures Leaf(s, dp.0, dp.1) == 0 {
      assert Slot(dp.0, dp.1 / 1024) / 1024 == dp.0 && IsDirSlot(r, Slot(dp.0, dp.1 / 1024));
    }
  }

  lemma BootIsIsolated(mem0: seq<Word>, m: BootTables.Boot, s: State, r: Roots, d: nat, stack: Word, frames: Word, envs: Word)
    requires Inv(s, r) && r.dirs == {d} && m.used <= |s.refs| && MemoryManager.IsBootCounts(r.pins, m.used)
    requires Initialize.Stands(mem0, m, d, stack, frames, envs) && m.mem == s.mem
    ensures Held(s, r, BootFrames(d, m.used)) && Isolated(s, r, BootFrames(d, m.used))
  {
    BootHeld(mem0, m, s, r, d, stack, frames, envs);
    NothingMappedIsIsolated(s, r, BootFrames(d, m.used));
  }

  // Over every such run: two pages that user programs may use, of one directory or
  // of two, never reach the same frame, and none reaches a page table, a directory
  // or a frame of the kernel.
  lemma UsersAreIsolated(w: World, steps: seq<Step>, w': World, kernel: set<nat>,
                         d: nat, i: nat, j: nat, d': nat, i': nat, j': nat)
    requires Inv(w.s, w.r) && Held(w.s, w.r, kernel) && Isolated(w.s, w.r, kernel)
    requires Run(w, steps, w') && Sparing(w, steps, w', kernel) && DiscreetRun(w, steps, w')
    requires d in w.r.dirs && i < USER_PDES && j < 1024 && d' in w.r.dirs && i' < USER_PDES && j' < 1024
    ensures PageWalks(w'.s.mem, d, i, j) && PageWalks(w'.s.mem, d', i', j')
    ensures UserMay(w'.s.mem, d, i, j, PERM_PRESENT) ==>
      Ordinary(w'.s, w'.r, kernel, FrameOf(Translate(w'.s.mem, d, i, j)))
    ensures UserMay(w'.s.mem, d, i, j, PERM_PRESENT) && UserMay(w'.s.mem, d', i', j', PERM_PRESENT) ==>
      (Translate(w'.s.mem, d, i, j) == Translate(w'.s.mem, d', i', j') <==> d == d' && i == i' && j == j')
  {
    RunKeepsIsolation(w, steps, w', kernel);
    AccessIsFlat(w'.s, w'.r, d, i, j, PERM_PRESENT);
    AccessIsFlat(w'.s, w'.r, d', i', j', PERM_PRESENT);
    var m, dp, dq := Flat(w'.s, w'.r), (d, i * 1024 + j), (d', i' * 1024 + j');
    if dp in m { AddressOfEntry(m[dp]); }
    if dq in m { AddressOfEntry(m[dq]); }
  }

  lemma AddressOfEntry(e: Word)
    ensures FrameOf(ExtractAddress(e)) == FrameOf(e)
  {
  }

  // ----- the windows on the page tables

  // A directory that holds itself as complete_environment_initialization leaves it
  // keeps doing so: whatever the memory manager is asked, no user program may write
  // a page table or its directory through UVPT, or use VPT.
  lemma WindowsOverRuns(w: World, steps: seq<Step>, w': World, kernel: set<nat>, d: nat, j: nat)
    requires Inv(w.s, w.r) && Held(w.s, w.r, kernel) && d in w.r.dirs && j < 1024
    requires Run(w, steps, w') && Sparing(w, steps, w', kernel)
    requires d * 1024 + 1024 <= |w.s.mem| && SelfMap.MapItself(w.s.mem, d) == w.s.mem
    ensures PageWalks(w'.s.mem, d, BootTables.SELF_UVPT, j) && PageWalks(w'.s.mem, d, BootTables.SELF_VPT, j)
    ensures !UserMay(w'.s.mem, d, BootTables.SELF_UVPT, j, PERM_WRITEABLE)
    ensures !UserMay(w'.s.mem, d, BootTables.SELF_VPT, j, PERM_PRESENT)
  {
    RunKeepsKernel(w, steps, w', kernel);
    SelfEntriesStay(w.s.mem, w'.s.mem, w.r, kernel, d);
    SelfMap.WindowAccess(w'.s.mem, d, j, w'.s.mem[Slot(d, j)]);
  }

  lemma SelfEntriesStay(mem: seq<Word>, mem': seq<Word>, r: Roots, kernel: set<nat>, d: nat)
    requires SameKernel(mem, mem', r, kernel) && d in r.dirs && d < 0x10_0000 && d * 1024 + 1024 <= |mem|
    requires SelfMap.MapItself(mem, d) == mem
    ensures SelfMap.MapItself(mem', d) == mem'
  {
    SelfMap.SelfEntries(d);
    var u, v := Slot(d, BootTables.SELF_UVPT), Slot(d, BootTables.SELF_VPT);
    assert u / 1024 == d && u % 1024 >= USER_PDES && v / 1024 == d && v % 1024 >= USER_PDES;
    assert mem'[u] == mem[u] && mem'[v] == mem[v];
    assert SelfMap.MapItself(mem, d)[u] == mem[u] && SelfMap.MapItself(mem, d)[v] == mem[v];
  }
}
