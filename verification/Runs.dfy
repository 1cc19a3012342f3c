/**
 Whole runs of the memory manager: page allocation by system call
 (kern/syscall.c:91-131), frame accounting, and safety over every sequence of
 operations on any number of page directories.
 */
module Runs {
  import opened Words
  import opened Paging
  import opened ReferenceCounts
  import opened FlatMap

  // ----- frame accounting

  // va is mapped, but not to f.
  ghost predicate MapsOther(s: State, d: nat, va: Word, f: nat)
    requires Walkable(s, d, va)
  {
    Pde(s, d, va) != 0 && Pte(s, FrameOf(Pde(s, d, va)), va) != 0 && FrameOf(Pte(s, FrameOf(Pde(s, d, va)), va)) != f
  }

  // The mapping at va is the only reference to the frame it maps.
  ghost predicate LastReference(s: State, d: nat, va: Word)
    requires Walkable(s, d, va)
  {
    && Pde(s, d, va) != 0 && Pte(s, FrameOf(Pde(s, d, va)), va) != 0
    && s.refs[FrameOf(Pte(s, FrameOf(Pde(s, d, va)), va))] == 1
  }

  lemma UnmapAccounting(s: State, r: Roots, d: nat, va: Word)
    requires Inv(s, r) && d in r.dirs && va < USER_TOP && Walkable(s, d, va)
    ensures |UnmapFrame(s, d, va).free| == |s.free| + (if LastReference(s, d, va) then 1 else 0)
  {
    InvWalkable(s, r, d, va);
    if Pde(s, d, va) != 0 {
      var t := FrameOf(Pde(s, d, va));
      var k := Slot(t, PTX(va));
      assert k / 1024 == t;
      if s.mem[k] != 0 {
        assert Names(s, r, k, FrameOf(s.mem[k]));
        NamedIsCounted(s, r, k, FrameOf(s.mem[k]));
      }
    }
  }

  // A successful map_frame takes one frame for a new table and gives back the
  // frame it displaces when that was its last reference.
  lemma MapAccounting(s: State, r: Roots, d: nat, f: nat, va: Word, perm: nat)
    requires Inv(s, r) && d in r.dirs && va < USER_TOP && Walkable(s, d, va)
    requires f < |s.refs| && f !in s.free && perm < 4096
    requires MapFrame(s, d, f, va, perm).0
    ensures |MapFrame(s, d, f, va, perm).1.free| ==
      |s.free| - (if Pde(s, d, va) == 0 then 1 else 0)
               + (if MapsOther(s, d, va, f) && LastReference(s, d, va) then 1 else 0)
  {
    GetPageTableKeepsInv(s, r, d, va);
    var (tab, s1) := GetPageTable(s, d, va, true);
    InvWalkable(s1, r, d, va);
    EntryPresent(s1, r, tab.frame, va);
    MapInTableCases(s1, d, tab.frame, Pte(s1, tab.frame, va), f, va, perm);
    UnmapAccounting(s1, r, d, va);
  }

  // ----- memory that is no page table

  // Memory outside directories and page tables is free for anyone to write.
  lemma OtherMemoryKeepsInv(s: State, r: Roots, s': State)
    requires Inv(s, r) && s'.refs == s.refs && s'.free == s.free && |s'.mem| == |s.mem|
    requires forall k: nat :: k < |s.mem| && IsSlot(s, r, k) ==> s'.mem[k] == s.mem[k]
    ensures Inv(s', r) && Tables(s', r) == Tables(s, r) && Flat(s', r) == Flat(s, r)
  {
    SameDirectories(s, r, s');
    assert TableEntriesOk(s', r);
    forall f: nat ensures Naming(s', r, f) == Naming(s, r, f) {
      assert forall k: nat :: k < |s.mem| ==> (Names(s', r, k, f) <==> Names(s, r, k, f));
    }
    SlotsGiveLeaves(s, r, s');
  }

  lemma SlotsGiveLeaves(s: State, r: Roots, s': State)
    requires Shape(s) && RootsOk(s, r) && DirEntriesOk(s, r) && Shape(s') && RootsOk(s', r)
    requires |s'.mem| == |s.mem|
    requires forall k: nat :: k < |s.mem| && IsSlot(s, r, k) ==> s'.mem[k] == s.mem[k]
    ensures Flat(s', r) == Flat(s, r)
  {
    forall d', p' | d' in r.dirs && 0 <= p' < USER_PAGES
      ensures Leaf(s', d', p') == Leaf(s, d', p')
    {
      var k := Slot(d', p' / 1024);
      assert IsDirSlot(r, k) && IsSlot(s, r, k);
      if s.mem[k] != 0 {
        var j := Slot(FrameOf(s.mem[k]), p' % 1024);
        assert j / 1024 == FrameOf(s.mem[k]) && IsSlot(s, r, j);
      }
    }
    FlatOfSameLeaves(s, r, s');
  }

  // ----- sys_allocate_page

  datatype SysResult = SysOk | SysInvalid | SysNoMemory

  // perm holds PERM_USER and, besides, nothing but PERM_WRITEABLE (bit 1) and the
  // bits 9 to 11 left to software: bit 0 is clear, bits 2 to 8 are PERM_USER alone.
  predicate PermAllowed(perm: Word) {
    perm < 4096 && perm % 2 == 0 && perm / 4 % 128 == 1
  }

  // allocate_frame, and the frame zeroed.
  ghost function TakeZeroed(s: State): State
    requires Shape(s) && s.free != []
  {
    var s' := AllocateFrame(s).1;
    s'.(mem := ZeroFrame(s.mem, s.free[0]))
  }

  lemma TakeZeroedKeepsInv(s: State, r: Roots)
    requires Inv(s, r) && s.free != []
    ensures Inv(AllocateFrame(s).1, r) && Flat(AllocateFrame(s).1, r) == Flat(s, r)
    ensures Inv(TakeZeroed(s), r) && Flat(TakeZeroed(s), r) == Flat(s, r)
    ensures TakeZeroed(s).refs == s.refs && s.free[0] !in TakeZeroed(s).free
    ensures Tables(TakeZeroed(s), r) == Tables(s, r)
  {
    FreeIsUnused(s, r, s.free[0]);
    AllocateKeepsInv(s, r);
    var s1 := AllocateFrame(s).1;
    SameMemory(s, r, s1);
    FlatOfSameLeaves(s, r, s1);
    OtherMemoryKeepsInv(s1, r, TakeZeroed(s));
  }

  // The call meets no address outside physical memory.
  ghost predicate SysWalkable(s: State, d: nat, va: Word) {
    Shape(s) && d < |s.refs| && (s.free != [] && va < USER_TOP ==> Walkable(TakeZeroed(s), d, va))
  }

  lemma InvSysWalkable(s: State, r: Roots, d: nat, va: Word)
    requires Inv(s, r) && d in r.dirs
    ensures SysWalkable(s, d, va)
  {
    if s.free != [] && va < USER_TOP {
      TakeZeroedKeepsInv(s, r);
      InvWalkable(TakeZeroed(s), r, d, va);
    }
  }

  ghost function SysAllocatePage(s: State, d: nat, va: Word, perm: Word): (SysResult, State)
    requires SysWalkable(s, d, va)
  {
    if s.free == [] then (SysNoMemory, s)
    else if !SysArguments(va, perm) then (SysInvalid, AllocateFrame(s).1)
    else
      var (ok, s') := MapFrame(TakeZeroed(s), d, s.free[0], va, perm);
      if ok then (SysOk, s') else (SysNoMemory, DecrementReferences(s', s.free[0]))
  }

  // Success: va is mapped to the frame taken, as asked, and nothing else is.
  lemma SysAllocateMaps(s: State, r: Roots, d: nat, va: Word, perm: Word)
    requires Inv(s, r) && d in r.dirs && SysWalkable(s, d, va)
    requires SysAllocatePage(s, d, va, perm).0 == SysOk
    ensures perm < 4096 && s.free != [] && va < USER_TOP
    ensures var s' := SysAllocatePage(s, d, va, perm).1;
      && Inv(s', r)
      && Flat(s', r) == Flat(s, r)[(d, PPN(va)) := ConstructEntry(s.free[0], WithPresent(perm))]
  {
    var f := s.free[0];
    TakeZeroedKeepsInv(s, r);
    var s1 := TakeZeroed(s);
    InvWalkable(s1, r, d, va);
    FreeIsUnused(s, r, f);
    MapKeepsInv(s1, r, d, f, va, perm);
    MapIsFlatUpdate(s1, r, d, f, va, perm);
    FreeNotInFlat(s, r, f);
  }

  // A frame on the free list is mapped nowhere.
  lemma FreeNotInFlat(s: State, r: Roots, f: nat)
    requires Inv(s, r) && f in s.free
    ensures forall dp :: dp in Flat(s, r) ==> FrameOf(Flat(s, r)[dp]) != f
  {
    FreeIsUnused(s, r, f);
    forall dp | dp in Flat(s, r)
      ensures FrameOf(Flat(s, r)[dp]) != f
    {
      var k := Slot(dp.0, dp.1 / 1024);
      assert k / 1024 == dp.0 && IsDirSlot(r, k);
      var j := Slot(FrameOf(s.mem[k]), dp.1 % 1024);
      assert j / 1024 == FrameOf(s.mem[k]);
      assert j !in Naming(s, r, f);
    }
  }

  // The frame is all zero, counted once, and this page is the only one mapped to it.
  lemma SysAllocateIsPrivate(s: State, r: Roots, d: nat, va: Word, perm: Word)
    requires Inv(s, r) && d in r.dirs && SysWalkable(s, d, va)
    requires SysAllocatePage(s, d, va, perm).0 == SysOk
    ensures s.free != []
    ensures var (s', f) := (SysAllocatePage(s, d, va, perm).1, s.free[0]);
      && Shape(s') && RootsOk(s', r)
      && s'.refs[f] == 1
      && f !in Tables(s', r)
      && (forall dp :: dp in Flat(s', r) && FrameOf(Flat(s', r)[dp]) == f ==> dp == (d, PPN(va)))
      && (forall k :: 0 <= k < |s'.mem| && k / 1024 == f ==> s'.mem[k] == 0)
  {
    var f := s.free[0];
    TakeZeroedKeepsInv(s, r);
    var s1 := TakeZeroed(s);
    InvWalkable(s1, r, d, va);
    FreeIsUnused(s, r, f);
    SysAllocateMaps(s, r, d, va, perm);
    FreeNotInFlat(s, r, f);
    MapLeavesOthers(s1, r, d, f, va, perm);
    assert f !in Tables(SysAllocatePage(s, d, va, perm).1, r);
  }

  // Mapping a frame with count 0 that is no table counts it once, leaves its
  // contents alone, and makes a table of no frame but the first free one.
  lemma MapLeavesOthers(s: State, r: Roots, d: nat, f: nat, va: Word, perm: nat)
    requires Inv(s, r) && d in r.dirs && va < USER_TOP && Walkable(s, d, va)
    requires f < |s.refs| && f !in s.free && s.refs[f] == 0 && f !in Tables(s, r) && f !in r.dirs && perm < 4096
    requires MapFrame(s, d, f, va, perm).0
    ensures var s' := MapFrame(s, d, f, va, perm).1;
      && |s'.refs| == |s.refs| && |s'.mem| == |s.mem|
      && s'.refs[f] == 1
      && (forall t :: t in Tables(s', r) ==> t in Tables(s, r) || (s.free != [] && t == s.free[0]))
      && (forall k :: 0 <= k < |s.mem| && k / 1024 == f ==> s'.mem[k] == s.mem[k])
  {
    GetPageTableKeepsInv(s, r, d, va);
    var (tab, s1) := GetPageTable(s, d, va, true);
    InvWalkable(s1, r, d, va);
    GetPageTableTables(s, r, d, va);
    assert f !in s1.free && s1.refs[f] == 0;
    MapInTableLeavesOthers(s1, r, d, f, va, perm);
  }

  lemma GetPageTableTables(s: State, r: Roots, d: nat, va: Word)
    requires Inv(s, r) && d in r.dirs && va < USER_TOP
    ensures var s' := GetPageTable(s, d, va, true).1;
      && |s'.mem| == |s.mem|
      && (forall t :: t in Tables(s', r) ==> t in Tables(s, r) || (s.free != [] && t == s.free[0]))
      && (forall k :: 0 <= k < |s.mem| && k / 1024 != d && (s.free == [] || k / 1024 != s.free[0]) ==>
            s'.mem[k] == s.mem[k])
  {
    InvWalkable(s, r, d, va);
    if Pde(s, d, va) == 0 && s.free != [] {
      var t := s.free[0];
      FreeIsUnused(s, r, t);
      AllocateKeepsInv(s, r);
      var s1 := AllocateFrame(s).1;
      SameMemory(s, r, s1);
      TableInstallKeepsInv(s1, r, d, va, t, InstallTable(s1, d, va, t));
    }
  }

  lemma MapInTableLeavesOthers(s: State, r: Roots, d: nat, f: nat, va: Word, perm: nat)
    requires Inv(s, r) && d in r.dirs && va < USER_TOP && Walkable(s, d, va) && Pde(s, d, va) != 0
    requires f < |s.refs| && f !in s.free && s.refs[f] == 0 && f !in Tables(s, r) && perm < 4096
    ensures var s' := MapInTable(s, d, FrameOf(Pde(s, d, va)), f, va, perm);
      && |s'.refs| == |s.refs| && |s'.mem| == |s.mem|
      && s'.refs[f] == 1
      && Tables(s', r) == Tables(s, r)
      && (forall k :: 0 <= k < |s.mem| && k / 1024 == f ==> s'.mem[k] == s.mem[k])
  {
    var t := FrameOf(Pde(s, d, va));
    InvWalkable(s, r, d, va);
    EntryPresent(s, r, t, va);
    MapInTableCases(s, d, t, Pte(s, t, va), f, va, perm);
    var k := Slot(t, PTX(va));
    assert k / 1024 == t;
    if s.mem[k] == 0 {
      InstallLeavesOthers(s, r, t, va, f, perm);
    } else {
      if FrameOf(s.mem[k]) == f {
        assert Names(s, r, k, f);
        NamedIsCounted(s, r, k, f);
        assert false;
      }
      UnmapOther(s, d, t, s.mem[k], va, f);
      UnmapKeepsInv(s, r, d, va);
      InstallLeavesOthers(UnmapFrame(s, d, va), r, t, va, f, perm);
    }
  }

  lemma InstallLeavesOthers(s: State, r: Roots, t: nat, va: Word, f: nat, perm: nat)
    requires Inv(s, r) && t in Tables(s, r) && f < |s.refs| && t < |s.refs| && s.refs[f] == 0 && perm < 4096
    ensures var s' := InstallPage(s, t, va, f, perm);
      && |s'.refs| == |s.refs| && |s'.mem| == |s.mem| && s'.refs[f] == 1
      && Tables(s', r) == Tables(s, r)
      && (forall k :: 0 <= k < |s.mem| && k / 1024 != t ==> s'.mem[k] == s.mem[k])
  {
    var k := Slot(t, PTX(va));
    assert k / 1024 == t;
    TablesAreFrames(s, r, t);
    SameDirectories(s, r, InstallPage(s, t, va, f, perm));
  }

  // The arguments that sys_allocate_page accepts.
  predicate SysArguments(va: Word, perm: Word) {
    va < USER_TOP && va % PAGE_SIZE == 0 && PermAllowed(perm)
  }

  // A rejected call keeps the invariant, but the frame it took stays lost:
  // it is neither free nor counted nor mapped.
  lemma SysAllocateRejects(s: State, r: Roots, d: nat, va: Word, perm: Word)
    requires Inv(s, r) && d in r.dirs && SysWalkable(s, d, va)
    requires s.free != [] && !SysArguments(va, perm)
    ensures SysAllocatePage(s, d, va, perm).0 == SysInvalid
    ensures var (s', f) := (SysAllocatePage(s, d, va, perm).1, s.free[0]);
      && Inv(s', r) && Flat(s', r) == Flat(s, r) && s'.mem == s.mem
      && s'.free == s.free[1..] && f !in s'.free && s'.refs[f] == 0 && Naming(s', r, f) == {}
  {
    TakeZeroedKeepsInv(s, r);
    AllocateKeepsInv(s, r);
    FreeIsUnused(s, r, s.free[0]);
    SameMemory(s, r, AllocateFrame(s).1);
  }

  // The last free frame is taken for a page that still needs a table.
  ghost predicate Starves(s: State, d: nat, va: Word, perm: Word) {
    && SysArguments(va, perm) && |s.free| == 1
    && Slot(d, PDX(va)) < |s.mem| && s.mem[Slot(d, PDX(va))] == 0
  }

  // The call keeps the invariant in all cases but one, when the page table takes
  // the last frame.  Then the frame's count, which is 0, is decremented.
  lemma SysAllocateKeepsInvIff(s: State, r: Roots, d: nat, va: Word, perm: Word)
    requires Inv(s, r) && d in r.dirs && SysWalkable(s, d, va)
    ensures Inv(SysAllocatePage(s, d, va, perm).1, r) <==> !Starves(s, d, va, perm)
    ensures SysAllocatePage(s, d, va, perm).0 == SysOk <==>
      s.free != [] && SysArguments(va, perm) && !Starves(s, d, va, perm)
  {
    if s.free != [] {
      TakeZeroedKeepsInv(s, r);
      if SysArguments(va, perm) {
        var s1 := TakeZeroed(s);
        InvWalkable(s1, r, d, va);
        FreeIsUnused(s, r, s.free[0]);
        MapKeepsInv(s1, r, d, s.free[0], va, perm);
        assert Pde(s1, d, va) == Pde(s, d, va) by { assert Slot(d, PDX(va)) / 1024 == d; }
        if |s.free| == 1 && Pde(s, d, va) == 0 {
          LostFrame(s1, r, s.free[0]);
        }
      }
    }
  }

  // A starving call leaves the count 65535 to the frame it took, as if the kernel
  // held that many references to it.
  ghost function RootsAfter(s: State, r: Roots, d: nat, va: Word, perm: Word): (r': Roots)
    requires Shape(s) && |r.pins| == |s.refs|
    ensures r'.dirs == r.dirs && |r'.pins| == |r.pins|
  {
    if Starves(s, d, va, perm) then r.(pins := r.pins[s.free[0] := 0xFFFF]) else r
  }

  lemma StarvedState(s: State, r: Roots, d: nat, va: Word, perm: Word)
    requires Inv(s, r) && d in r.dirs && SysWalkable(s, d, va) && Starves(s, d, va, perm)
    ensures SysAllocatePage(s, d, va, perm) == (SysNoMemory, DecrementReferences(TakeZeroed(s), s.free[0]))
    ensures TakeZeroed(s).refs[s.free[0]] == 0
  {
    TakeZeroedKeepsInv(s, r);
    FreeIsUnused(s, r, s.free[0]);
    InvWalkable(TakeZeroed(s), r, d, va);
    assert Pde(TakeZeroed(s), d, va) == Pde(s, d, va) by { assert Slot(d, PDX(va)) / 1024 == d; }
    MapKeepsInv(TakeZeroed(s), r, d, s.free[0], va, perm);
  }

  // With these references counted, every call keeps the invariant, whatever its
  // arguments, and a call that does not succeed changes no translation.
  lemma SysAllocateKeepsInv(s: State, r: Roots, d: nat, va: Word, perm: Word)
    requires Inv(s, r) && d in r.dirs && SysWalkable(s, d, va)
    ensures var (res, s') := SysAllocatePage(s, d, va, perm);
      && Inv(s', RootsAfter(s, r, d, va, perm))
      && (res != SysOk ==> Flat(s', RootsAfter(s, r, d, va, perm)) == Flat(s, r))
  {
    SysAllocateKeepsInvIff(s, r, d, va, perm);
    if Starves(s, d, va, perm) {
      StarvedState(s, r, d, va, perm);
      TakeZeroedKeepsInv(s, r);
      StrandedKeepsInv(TakeZeroed(s), r, s.free[0]);
    } else if s.free != [] && !SysArguments(va, perm) {
      SysAllocateRejects(s, r, d, va, perm);
    }
  }

  lemma StrandedKeepsInv(s: State, r: Roots, f: nat)
    requires Inv(s, r) && f < |s.refs| && s.refs[f] == 0 && f !in s.free
    ensures var (s', r') := (DecrementReferences(s, f), r.(pins := r.pins[f := 0xFFFF]));
      Inv(s', r') && Flat(s', r') == Flat(s, r)
  {
    var s', r' := DecrementReferences(s, f), r.(pins := r.pins[f := 0xFFFF]);
    assert s.refs[f] == r.pins[f] + |Naming(s, r, f)|;
    SameMemory(s, r, s');
    PinsDoNotName(s', r, r');
    assert s'.free == s.free && FreeListOk(s');
    PinsDoNotMap(s, r, s', r');
  }

  lemma LostFrame(s: State, r: Roots, f: nat)
    requires CountsOk(s, r) && f < |s.refs| && s.refs[f] == 0
    ensures DecrementReferences(s, f).refs[f] == 0xFFFF && !CountsOk(DecrementReferences(s, f), r)
  {
    SameMemory(s, r, DecrementReferences(s, f));
  }

  // ----- runs

  // State and roots: giving up a pin changes the latter.
  datatype World = World(s: State, r: Roots)

  datatype Step =
    | Allocate
    | Free(f: nat)
    | Map(d: nat, f: nat, va: Word, perm: nat)
    | Unmap(d: nat, va: Word)
    | Decrement(f: nat)  // the kernel gives up a reference of its own
    | Store(k: nat, w: Word)  // any data written outside the page tables
    | SysAllocate(d: nat, va: Word, bits: Word)

  // What the caller owes.
  ghost predicate Legal(w: World, step: Step) {
    match step
    case Allocate => true
    case Free(f) => f < |w.s.refs| && w.s.refs[f] == 0 && f !in w.s.free
    case Map(d, f, va, perm) =>
      && d in w.r.dirs && va < USER_TOP && perm < 4096
      && f < |w.s.refs| && f !in w.s.free && w.s.refs[f] < 0xFFFF
    case Unmap(d, va) => d in w.r.dirs && va < USER_TOP
    case Decrement(f) => f < |w.s.refs| && f < |w.r.pins| && w.r.pins[f] > 0 && f !in w.r.dirs
    case Store(k, _) => k < |w.s.mem| && !IsSlot(w.s, w.r, k)
    case SysAllocate(d, _, _) => d in w.r.dirs
  }

  // The operation meets no address outside physical memory: the kernel does not panic.
  ghost predicate Safe(w: World, step: Step) {
    Shape(w.s) && |w.r.pins| == |w.s.refs| &&
    match step
    case Map(d, _, va, _) => Walkable(w.s, d, va)
    case Unmap(d, va) => Walkable(w.s, d, va)
    case SysAllocate(d, va, _) => SysWalkable(w.s, d, va)
    case _ => true
  }

  ghost function Next(w: World, step: Step): World
    requires Safe(w, step) && Legal(w, step)
  {
    var s, r := w.s, w.r;
    match step
    case Allocate => World(AllocateFrame(s).1, r)
    case Free(f) => World(FreeFrame(s, f), r)
    case Map(d, f, va, perm) => World(MapFrame(s, d, f, va, perm).1, r)
    case Unmap(d, va) => World(UnmapFrame(s, d, va), r)
    case Decrement(f) => World(DecrementReferences(s, f), r.(pins := r.pins[f := r.pins[f] - 1]))
    case Store(k, e) => World(s.(mem := s.mem[k := e]), r)
    case SysAllocate(d, va, bits) => World(SysAllocatePage(s, d, va, bits).1, RootsAfter(s, r, d, va, bits))
  }

  lemma DecrementKeepsInv(s: State, r: Roots, f: nat)
    requires Inv(s, r) && f < |s.refs| && r.pins[f] > 0 && f !in r.dirs
    ensures Inv(DecrementReferences(s, f), r.(pins := r.pins[f := r.pins[f] - 1]))
  {
    var s' := DecrementReferences(s, f);
    var r' := r.(pins := r.pins[f := r.pins[f] - 1]);
    assert s.refs[f] == r.pins[f] + |Naming(s, r, f)|;
    SameMemory(s, r, s');
    PinsDoNotName(s', r, r');
    FreeingKeepsList(s, f, s');
  }

  lemma PinsDoNotName(s: State, r: Roots, r': Roots)
    requires r'.dirs == r.dirs
    ensures Tables(s, r') == Tables(s, r)
    ensures forall f: nat :: Naming(s, r', f) == Naming(s, r, f)
  {
    assert Tables(s, r') == Tables(s, r);
    forall f: nat ensures Naming(s, r', f) == Naming(s, r, f) {
      assert forall k: nat :: k < |s.mem| ==> (Names(s, r', k, f) <==> Names(s, r, k, f));
    }
  }

  lemma LegalIsSafe(w: World, step: Step)
    requires Inv(w.s, w.r) && Legal(w, step)
    ensures Safe(w, step)
  {
    match step
    case Map(d, _, va, _) => InvWalkable(w.s, w.r, d, va);
    case Unmap(d, va) => InvWalkable(w.s, w.r, d, va);
    case SysAllocate(d, va, _) => InvSysWalkable(w.s, w.r, d, va);
    case _ =>
  }

  lemma NextPagingKeepsInv(w: World, step: Step)
    requires Inv(w.s, w.r) && Safe(w, step) && Legal(w, step)
    requires step.Map? || step.Unmap? || step.SysAllocate?
    ensures Inv(Next(w, step).s, Next(w, step).r) && Next(w, step).r.dirs == w.r.dirs
  {
    var s, r := w.s, w.r;
    match step
    case Map(d, f, va, perm) =>
      MapKeepsInv(s, r, d, f, va, perm);
      assert Next(w, step) == World(MapFrame(s, d, f, va, perm).1, r);
    case Unmap(d, va) =>
      UnmapKeepsInv(s, r, d, va);
      assert Next(w, step) == World(UnmapFrame(s, d, va), r);
    case SysAllocate(d, va, bits) =>
      SysAllocateKeepsInv(s, r, d, va, bits);
      assert Next(w, step) == World(SysAllocatePage(s, d, va, bits).1, RootsAfter(s, r, d, va, bits));
  }

  lemma NextFrameKeepsInv(w: World, step: Step)
    requires Inv(w.s, w.r) && Safe(w, step) && Legal(w, step)
    requires step.Allocate? || step.Free? || step.Store?
    ensures Inv(Next(w, step).s, w.r) && Next(w, step).r == w.r
  {
    var s, r := w.s, w.r;
    match step
    case Allocate =>
      AllocateKeepsInv(s, r);
      assert Next(w, step) == World(AllocateFrame(s).1, r);
    case Free(f) =>
      FreeKeepsInv(s, r, f);
      assert Next(w, step) == World(FreeFrame(s, f), r);
    case Store(k, e) =>
      assert Next(w, step) == World(s.(mem := s.mem[k := e]), r);
      OtherMemoryKeepsInv(s, r, s.(mem := s.mem[k := e]));
  }

  lemma NextKeepsInv(w: World, step: Step)
    requires Inv(w.s, w.r) && Safe(w, step) && Legal(w, step)
    ensures Inv(Next(w, step).s, Next(w, step).r)
    ensures Next(w, step).r.dirs == w.r.dirs
  {
    if step.Decrement? {
      DecrementKeepsInv(w.s, w.r, step.f);
    } else if step.Map? || step.Unmap? || step.SysAllocate? {
      NextPagingKeepsInv(w, step);
    } else {
      NextFrameKeepsInv(w, step);
    }
  }

  // The steps lead from w to w'.
  ghost predicate Run(w: World, steps: seq<Step>, w': World)
    decreases |steps|
  {
    if steps == [] then w' == w
    else Legal(w, steps[0]) && Safe(w, steps[0]) && Run(Next(w, steps[0]), steps[1..], w')
  }

  // Over every run the invariant holds, and no call that is legal at its end panics.
  lemma {:induction false} RunKeepsInv(w: World, steps: seq<Step>, w': World)
    requires Inv(w.s, w.r) && Run(w, steps, w')
    ensures Inv(w'.s, w'.r) && w'.r.dirs == w.r.dirs
    ensures forall step :: Legal(w', step) ==> Safe(w', step)
    decreases |steps|
  {
    if steps == [] {
      forall step | Legal(w', step) ensures Safe(w', step) { LegalIsSafe(w', step); }
    } else {
      NextKeepsInv(w, steps[0]);
      RunKeepsInv(Next(w, steps[0]), steps[1..], w');
    }
  }

  // ----- refinement of the flat map over runs

  // Whether the call reports success.
  ghost predicate Succeeds(w: World, step: Step)
    requires Safe(w, step) && Legal(w, step)
  {
    match step
    case Map(d, f, va, perm) => MapFrame(w.s, d, f, va, perm).0
    case SysAllocate(d, va, bits) => SysAllocatePage(w.s, d, va, bits).0 == SysOk
    case _ => true
  }

  // What a step does to the flat map; a call that fails does nothing to it.
  ghost predicate FlatNext(m: imap<Page, Word>, step: Step, ok: bool, m': imap<Page, Word>) {
    if !ok then m' == m
    else
      match step
      case Map(d, f, va, perm) => f < 0x10_0000 && perm < 4096 && m' == FlatMapped(m, d, PPN(va), f, perm)
      case Unmap(d, va) => m' == m - {(d, PPN(va))}
      case SysAllocate(d, va, bits) => bits < 4096 && exists f: nat :: FreshPage(m, d, PPN(va), f, bits, m')
      case _ => m' == m
  }

  // The page now maps a frame that no page mapped before.
  ghost predicate FreshPage(m: imap<Page, Word>, d: nat, p: nat, f: nat, perm: nat, m': imap<Page, Word>)
    requires perm < 4096
  {
    && f < 0x10_0000
    && (forall dp :: dp in m ==> FrameOf(m[dp]) != f)
    && m' == m[(d, p) := ConstructEntry(f, WithPresent(perm))]
  }

  lemma NextRefinesFlat(w: World, step: Step)
    requires Inv(w.s, w.r) && Safe(w, step) && Legal(w, step)
    requires Inv(Next(w, step).s, Next(w, step).r)
    ensures FlatNext(Flat(w.s, w.r), step, Succeeds(w, step), Flat(Next(w, step).s, Next(w, step).r))
  {
    var s, r := w.s, w.r;
    match step
    case Map(d, f, va, perm) =>
      MapKeepsInv(s, r, d, f, va, perm);
      if MapFrame(s, d, f, va, perm).0 { MapIsFlatUpdate(s, r, d, f, va, perm); }
    case Unmap(d, va) => UnmapIsFlatRemove(s, r, d, va);
    case SysAllocate(d, va, bits) => SysRefinesFlat(s, r, d, va, bits);
    case Store(k, e) => OtherMemoryKeepsInv(s, r, s.(mem := s.mem[k := e]));
    case Decrement(f) => PinsDoNotMap(s, r, Next(w, step).s, Next(w, step).r);
    case _ => FlatOfSameLeaves(s, r, Next(w, step).s);
  }

  lemma PinsDoNotMap(s: State, r: Roots, s': State, r': Roots)
    requires Shape(s) && RootsOk(s, r) && Shape(s') && RootsOk(s', r')
    requires s'.mem == s.mem && r'.dirs == r.dirs
    ensures Flat(s', r') == Flat(s, r)
  {
  }

  lemma SysRefinesFlat(s: State, r: Roots, d: nat, va: Word, bits: Word)
    requires Inv(s, r) && d in r.dirs && SysWalkable(s, d, va)
    ensures var (res, s') := SysAllocatePage(s, d, va, bits);
      && Inv(s', RootsAfter(s, r, d, va, bits))
      && FlatNext(Flat(s, r), SysAllocate(d, va, bits), res == SysOk, Flat(s', RootsAfter(s, r, d, va, bits)))
  {
    SysAllocateKeepsInv(s, r, d, va, bits);
    if SysAllocatePage(s, d, va, bits).0 == SysOk {
      SysAllocateKeepsInvIff(s, r, d, va, bits);
      SysAllocateMaps(s, r, d, va, bits);
      FreeNotInFlat(s, r, s.free[0]);
      assert FreshPage(Flat(s, r), d, PPN(va), s.free[0], bits, Flat(SysAllocatePage(s, d, va, bits).1, r));
    }
  }

  // Which calls of a run report success.
  ghost function Outcomes(w: World, steps: seq<Step>, w': World): (oks: seq<bool>)
    requires Run(w, steps, w')
    ensures |oks| == |steps|
    decreases |steps|
  {
    if steps == [] then []
    else [Succeeds(w, steps[0])] + Outcomes(Next(w, steps[0]), steps[1..], w')
  }

  ghost predicate FlatRun(m: imap<Page, Word>, steps: seq<Step>, oks: seq<bool>, m': imap<Page, Word>)
    requires |oks| == |steps|
  {
    if steps == [] then m' == m
    else exists m1 :: FlatNext(m, steps[0], oks[0], m1) && FlatRun(m1, steps[1..], oks[1..], m')
  }

  // Every run of the paging structures is a run of the flat map, call by call
  // with the same success.
  lemma {:induction false} RunRefinesFlat(w: World, steps: seq<Step>, w': World)
    requires Inv(w.s, w.r) && Run(w, steps, w')
    ensures Inv(w'.s, w'.r)
    ensures FlatRun(Flat(w.s, w.r), steps, Outcomes(w, steps, w'), Flat(w'.s, w'.r))
    decreases |steps|
  {
    if steps != [] {
      var w1 := Next(w, steps[0]);
      NextKeepsInv(w, steps[0]);
      NextRefinesFlat(w, steps[0]);
      RunRefinesFlat(w1, steps[1..], w');
      assert FlatNext(Flat(w.s, w.r), steps[0], Succeeds(w, steps[0]), Flat(w1.s, w1.r));
      assert Outcomes(w, steps, w')[1..] == Outcomes(w1, steps[1..], w');
    }
  }
}
