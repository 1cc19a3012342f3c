/**
 The invariant that ties reference counts, free list and page tables together,
 and its preservation by every operation (kern/memory_manager.c:311-503).
 */
module ReferenceCounts {
  import opened Words
  import opened Paging

  // dirs: the frames used as page directories.
  // pins[f]: references to f that the kernel holds outside the user page
  // tables: boot frames have one, frames handed out by allocate_frame none, and a
  // frame whose count has wrapped below 0 is taken to have 65535.
  datatype Roots = Roots(dirs: set<nat>, pins: seq<nat>)

  // Word k of memory is an entry of the user part of a directory.
  predicate IsDirSlot(r: Roots, k: nat) {
    k / 1024 in r.dirs && k % 1024 < USER_PDES
  }

  // The frames that user directory entries use as page tables.
  ghost function Tables(s: State, r: Roots): set<nat> {
    set k: nat | k < |s.mem| && IsDirSlot(r, k) && s.mem[k] != 0 :: FrameOf(s.mem[k])
  }

  // Word k is an entry of the user part of a directory or of a user page table.
  ghost predicate IsSlot(s: State, r: Roots, k: nat) {
    IsDirSlot(r, k) || k / 1024 in Tables(s, r)
  }

  ghost predicate Names(s: State, r: Roots, k: nat, f: nat)
    requires k < |s.mem|
  {
    IsSlot(s, r, k) && s.mem[k] != 0 && FrameOf(s.mem[k]) == f
  }

  // The entries, in any directory or table, that name frame f.
  ghost function Naming(s: State, r: Roots, f: nat): set<nat> {
    set k: nat | k < |s.mem| && Names(s, r, k, f)
  }

  ghost predicate RootsOk(s: State, r: Roots) {
    && |r.pins| == |s.refs|
    && forall d :: d in r.dirs ==> d < |s.refs| && r.pins[d] > 0
  }

  // A directory entry is empty or installs a frame of its own as page table.
  ghost predicate DirEntriesOk(s: State, r: Roots) {
    && (forall k: nat :: k < |s.mem| && IsDirSlot(r, k) && s.mem[k] != 0 ==>
          && Permissions(s.mem[k]) == PERM_PRESENT + PERM_USER + PERM_WRITEABLE
          && FrameOf(s.mem[k]) < |s.refs|
          && FrameOf(s.mem[k]) !in r.dirs)
    && (forall k: nat, k': nat ::
          (k < |s.mem| && k' < |s.mem| && IsDirSlot(r, k) && IsDirSlot(r, k') &&
           s.mem[k] != 0 && s.mem[k'] != 0 && FrameOf(s.mem[k]) == FrameOf(s.mem[k'])) ==> k == k')
  }

  ghost predicate TableEntriesOk(s: State, r: Roots) {
    forall k: nat :: k < |s.mem| && k / 1024 in Tables(s, r) && s.mem[k] != 0 ==>
      Present(s.mem[k]) && FrameOf(s.mem[k]) < |s.refs|
  }

  ghost predicate FreeListOk(s: State)
    requires Shape(s)
  {
    && (forall i, j :: 0 <= i < j < |s.free| ==> s.free[i] != s.free[j])
    && (forall i :: 0 <= i < |s.free| ==> s.refs[s.free[i]] == 0)
  }

  ghost predicate CountsOk(s: State, r: Roots) {
    |r.pins| == |s.refs| &&
    forall f: nat :: f < |s.refs| ==> s.refs[f] == r.pins[f] + |Naming(s, r, f)|
  }

  ghost predicate Inv(s: State, r: Roots) {
    && Shape(s)
    && RootsOk(s, r)
    && DirEntriesOk(s, r)
    && TableEntriesOk(s, r)
    && FreeListOk(s)
    && CountsOk(s, r)
  }

  // ----- counting

  lemma CardinalityStep(a: set<nat>, b: set<nat>, k: nat)
    requires a - {k} == b - {k}
    ensures |b| == |a| - (if k in a then 1 else 0) + (if k in b then 1 else 0)
  {
    if k in a { assert a == (a - {k}) + {k}; } else { assert a == a - {k}; }
    if k in b { assert b == (b - {k}) + {k}; } else { assert b == b - {k}; }
  }

  // Changing one entry of a page table.
  lemma TableWrite(s: State, r: Roots, k: nat, e: Word, s': State)
    requires k < |s.mem| && k / 1024 in Tables(s, r)
    requires k / 1024 !in r.dirs
    requires s'.mem == s.mem[k := e]
    ensures Tables(s', r) == Tables(s, r)
    ensures forall f: nat ::
      |Naming(s', r, f)| == |Naming(s, r, f)|
        - (if s.mem[k] != 0 && FrameOf(s.mem[k]) == f then 1 else 0)
        + (if e != 0 && FrameOf(e) == f then 1 else 0)
  {
    assert Tables(s', r) == Tables(s, r);
    forall f: nat
      ensures |Naming(s', r, f)| == |Naming(s, r, f)|
        - (if s.mem[k] != 0 && FrameOf(s.mem[k]) == f then 1 else 0)
        + (if e != 0 && FrameOf(e) == f then 1 else 0)
    {
      assert Naming(s, r, f) - {k} == Naming(s', r, f) - {k};
      CardinalityStep(Naming(s, r, f), Naming(s', r, f), k);
    }
  }

  // Installing a zeroed frame t as the page table of the empty directory entry k.
  lemma TableAdded(s: State, r: Roots, k: nat, t: nat, e: Word, s': State)
    requires k < |s.mem| && IsDirSlot(r, k) && s.mem[k] == 0
    requires t !in r.dirs && t !in Tables(s, r)
    requires e != 0 && FrameOf(e) == t
    requires s'.mem == ZeroFrame(s.mem, t)[k := e]
    ensures Tables(s', r) == Tables(s, r) + {t}
    ensures forall f: nat :: |Naming(s', r, f)| == |Naming(s, r, f)| + (if f == t then 1 else 0)
  {
    assert s'.mem[k] == e;
    assert forall i: nat :: i < |s.mem| && i != k && i / 1024 != t ==> s'.mem[i] == s.mem[i];
    assert Tables(s', r) == Tables(s, r) + {t};
    forall f: nat
      ensures |Naming(s', r, f)| == |Naming(s, r, f)| + (if f == t then 1 else 0)
    {
      assert Naming(s, r, f) - {k} == Naming(s', r, f) - {k};
      CardinalityStep(Naming(s, r, f), Naming(s', r, f), k);
    }
  }

  // ----- consequences of the invariant

  // A named frame has a positive count.
  lemma NamedIsCounted(s: State, r: Roots, k: nat, f: nat)
    requires CountsOk(s, r) && f < |s.refs| && k < |s.mem| && Names(s, r, k, f)
    ensures s.refs[f] > 0
  {
    assert k in Naming(s, r, f);
    assert |Naming(s, r, f)| > 0;
  }

  // No entry names a frame on the free list, which is neither a directory nor a table.
  lemma FreeIsUnused(s: State, r: Roots, f: nat)
    requires Inv(s, r) && f in s.free
    ensures s.refs[f] == 0 && r.pins[f] == 0 && Naming(s, r, f) == {}
    ensures f !in r.dirs && f !in Tables(s, r)
  {
    if f in Tables(s, r) {
      var k: nat :| k < |s.mem| && IsDirSlot(r, k) && s.mem[k] != 0 && f == FrameOf(s.mem[k]);
      NamedIsCounted(s, r, k, f);
    }
  }

  lemma TablesAreFrames(s: State, r: Roots, t: nat)
    requires Inv(s, r) && t in Tables(s, r)
    ensures t < |s.refs| && t !in r.dirs
  {
  }

  // Walks from a directory stay inside physical memory: none of the panics fires.
  lemma InvWalkable(s: State, r: Roots, d: nat, va: Word)
    requires Inv(s, r) && d in r.dirs && va < USER_TOP
    ensures Walkable(s, d, va)
    ensures IsDirSlot(r, Slot(d, PDX(va)))
    ensures Pde(s, d, va) != 0 ==> FrameOf(Pde(s, d, va)) in Tables(s, r)
  {
    PageSplit(va);
    var k := Slot(d, PDX(va));
    assert k / 1024 == d && k % 1024 == PDX(va);
    if s.mem[k] != 0 {
      var t := FrameOf(s.mem[k]);
      var j := Slot(t, PTX(va));
      assert j / 1024 == t;
    }
  }

  // ----- every operation keeps the invariant

  lemma AllocateKeepsInv(s: State, r: Roots)
    requires Inv(s, r)
    ensures Inv(AllocateFrame(s).1, r)
    ensures s.free != [] ==> AllocateFrame(s).0 == Some(s.free[0]) && AllocateFrame(s).1.refs == s.refs
  {
    var s' := AllocateFrame(s).1;
    assert s'.refs == s.refs;
    SameMemory(s, r, s');
  }

  // Directories, tables and entries depend on memory alone.
  lemma SameMemory(s: State, r: Roots, s': State)
    requires s'.mem == s.mem
    ensures Tables(s', r) == Tables(s, r)
    ensures forall f: nat :: Naming(s', r, f) == Naming(s, r, f)
  {
    assert Tables(s', r) == Tables(s, r);
    forall f: nat ensures Naming(s', r, f) == Naming(s, r, f) {
      assert forall k: nat :: k < |s.mem| ==> (Names(s', r, k, f) <==> Names(s, r, k, f));
    }
  }

  lemma FreeKeepsInv(s: State, r: Roots, f: nat)
    requires Inv(s, r) && f < |s.refs| && s.refs[f] == 0 && f !in s.free
    ensures Inv(FreeFrame(s, f), r)
  {
    SameMemory(s, r, FreeFrame(s, f));
  }

  // Directory entries left alone stay right.
  lemma SameDirectories(s: State, r: Roots, s': State)
    requires |s'.mem| == |s.mem| && |s'.refs| == |s.refs|
    requires forall k: nat :: k < |s.mem| && IsDirSlot(r, k) ==> s'.mem[k] == s.mem[k]
    ensures Tables(s', r) == Tables(s, r)
    ensures DirEntriesOk(s, r) ==> DirEntriesOk(s', r)
  {
    assert Tables(s', r) == Tables(s, r);
  }

  // Rewriting a page-table entry to nothing or to a present entry for a frame.
  lemma EntryKeepsStructure(s: State, r: Roots, k: nat, e: Word, s': State)
    requires RootsOk(s, r) && DirEntriesOk(s, r) && TableEntriesOk(s, r)
    requires k < |s.mem| && k / 1024 in Tables(s, r)
    requires s'.mem == s.mem[k := e] && |s'.refs| == |s.refs|
    requires e == 0 || (Present(e) && FrameOf(e) < |s.refs|)
    ensures k / 1024 !in r.dirs
    ensures RootsOk(s', r) && DirEntriesOk(s', r) && TableEntriesOk(s', r)
  {
    assert k / 1024 !in r.dirs;
    SameDirectories(s, r, s');
    assert TableEntriesOk(s', r);
  }

  lemma UnmapKeepsInv(s: State, r: Roots, d: nat, va: Word)
    requires Inv(s, r) && d in r.dirs && va < USER_TOP
    requires Walkable(s, d, va)
    ensures Inv(UnmapFrame(s, d, va), r)
    ensures Tables(UnmapFrame(s, d, va), r) == Tables(s, r)
  {
    InvWalkable(s, r, d, va);
    if Pde(s, d, va) != 0 {
      var t := FrameOf(Pde(s, d, va));
      var k := Slot(t, PTX(va));
      assert k / 1024 == t;
      if s.mem[k] != 0 {
        var g := FrameOf(s.mem[k]);
        assert Names(s, r, k, g);
        NamedIsCounted(s, r, k, g);
        UnmapEntryKeepsInv(s, r, k, UnmapFrame(s, d, va));
      }
    }
  }

  lemma UnmapEntryKeepsInv(s: State, r: Roots, k: nat, s': State)
    requires Inv(s, r) && k < |s.mem| && k / 1024 in Tables(s, r) && s.mem[k] != 0
    requires s.refs[FrameOf(s.mem[k])] > 0
    requires s' == DecrementReferences(s, FrameOf(s.mem[k])).(mem := s.mem[k := 0])
    ensures Inv(s', r) && Tables(s', r) == Tables(s, r)
  {
    var g := FrameOf(s.mem[k]);
    EntryKeepsStructure(s, r, k, 0, s');
    assert s'.refs == s.refs[g := s.refs[g] - 1];
    FreeingKeepsList(s, g, s');
    ErasedEntryCounts(s, r, k, s');
  }

  lemma ErasedEntryCounts(s: State, r: Roots, k: nat, s': State)
    requires CountsOk(s, r)
    requires k < |s.mem| && k / 1024 in Tables(s, r) && k / 1024 !in r.dirs && s.mem[k] != 0
    requires FrameOf(s.mem[k]) < |s.refs| && s.refs[FrameOf(s.mem[k])] > 0
    requires s'.mem == s.mem[k := 0]
    requires s'.refs == s.refs[FrameOf(s.mem[k]) := s.refs[FrameOf(s.mem[k])] - 1]
    ensures CountsOk(s', r) && Tables(s', r) == Tables(s, r)
  {
    TableWrite(s, r, k, 0, s');
    CountsFollow(s, r, s', FrameOf(s.mem[k]), -1);
  }

  // The counts stay right when one count moves with the number of entries naming its frame.
  lemma CountsFollow(s: State, r: Roots, s': State, g: nat, delta: int)
    requires CountsOk(s, r) && g < |s.refs| && |s'.refs| == |s.refs|
    requires forall f: nat :: f < |s.refs| ==> s'.refs[f] == s.refs[f] + (if f == g then delta else 0)
    requires forall f: nat :: |Naming(s', r, f)| == |Naming(s, r, f)| + (if f == g then delta else 0)
    ensures CountsOk(s', r)
  {
  }

  // A frame whose last reference goes is put on the free list, where it was not before.
  lemma FreeingKeepsList(s: State, g: nat, s': State)
    requires Shape(s) && FreeListOk(s) && g < |s.refs| && s.refs[g] > 0
    requires |s'.mem| == |s.mem| && s'.refs == s.refs[g := s.refs[g] - 1]
    requires s'.free == if s.refs[g] == 1 then [g] + s.free else s.free
    ensures Shape(s') && FreeListOk(s')
  {
  }

  // A fresh page table, in a recycled frame.
  lemma TableInstallKeepsInv(s: State, r: Roots, d: nat, va: Word, t: nat, s': State)
    requires Inv(s, r) && d in r.dirs && va < USER_TOP && Pde(s, d, va) == 0
    requires t < |s.refs| && s.refs[t] == 0 && t !in s.free && t !in r.dirs && t !in Tables(s, r)
    requires s' == InstallTable(s, d, va, t)
    ensures Inv(s', r) && Tables(s', r) == Tables(s, r) + {t} && Pte(s', t, va) == 0
  {
    InvWalkable(s, r, d, va);
    var k := Slot(d, PDX(va));
    assert s'.mem == ZeroFrame(s.mem, t)[k := t * 4096 + 7];
    NewTableCounts(s, r, k, t, s');
    NewDirEntryOk(s, r, k, t, s');
    NewTableEntriesOk(s, r, k, t, s');
    CountedKeepsList(s, t, s');
    assert Slot(t, PTX(va)) / 1024 == t && Slot(t, PTX(va)) != k;
  }

  lemma NewTableCounts(s: State, r: Roots, k: nat, t: nat, s': State)
    requires CountsOk(s, r)
    requires k < |s.mem| && IsDirSlot(r, k) && s.mem[k] == 0
    requires t < |s.refs| <= 0x1_0000 && s.refs[t] == 0 && t !in r.dirs && t !in Tables(s, r)
    requires s'.mem == ZeroFrame(s.mem, t)[k := t * 4096 + 7]
    requires s'.refs == s.refs[t := 1]
    ensures CountsOk(s', r) && Tables(s', r) == Tables(s, r) + {t}
  {
    TableAdded(s, r, k, t, t * 4096 + 7, s');
    CountsFollow(s, r, s', t, 1);
  }

  // Counting a frame that is not free leaves the free list right.
  lemma CountedKeepsList(s: State, f: nat, s': State)
    requires Shape(s) && FreeListOk(s) && f < |s.refs| && f !in s.free
    requires |s'.mem| == |s.mem| && s'.free == s.free
    requires |s'.refs| == |s.refs| && s'.refs == s.refs[f := s'.refs[f]]
    ensures Shape(s') && FreeListOk(s')
  {
  }

  lemma NewDirEntryOk(s: State, r: Roots, k: nat, t: nat, s': State)
    requires DirEntriesOk(s, r)
    requires k < |s.mem| && IsDirSlot(r, k) && s.mem[k] == 0
    requires t < |s.refs| <= 0x1_0000 && t !in r.dirs && t !in Tables(s, r)
    requires s'.mem == ZeroFrame(s.mem, t)[k := t * 4096 + 7] && |s'.refs| == |s.refs|
    ensures DirEntriesOk(s', r)
  {
    assert FrameOf(t * 4096 + 7) == t;
    forall i: nat | i < |s.mem| && IsDirSlot(r, i) && i != k
      ensures s'.mem[i] == s.mem[i]
      ensures s.mem[i] != 0 ==> FrameOf(s.mem[i]) != t
    {
      assert s.mem[i] != 0 ==> FrameOf(s.mem[i]) in Tables(s, r);
    }
  }

  lemma NewTableEntriesOk(s: State, r: Roots, k: nat, t: nat, s': State)
    requires DirEntriesOk(s, r) && TableEntriesOk(s, r)
    requires k < |s.mem| && IsDirSlot(r, k)
    requires t < 0x1_0000 && t !in r.dirs
    requires s'.mem == ZeroFrame(s.mem, t)[k := t * 4096 + 7] && |s'.refs| == |s.refs|
    requires Tables(s', r) == Tables(s, r) + {t}
    ensures TableEntriesOk(s', r)
  {
    forall i: nat | i < |s.mem| && i / 1024 in Tables(s', r)
      ensures i != k
      ensures s'.mem[i] == 0 || (s'.mem[i] == s.mem[i] && i / 1024 in Tables(s, r))
    {
    }
  }

  lemma GetPageTableKeepsInv(s: State, r: Roots, d: nat, va: Word)
    requires Inv(s, r) && d in r.dirs && va < USER_TOP
    ensures var (tab, s') := GetPageTable(s, d, va, true);
      && Inv(s', r)
      && (tab.NoTable? || tab.NoMemory? ==> s' == s)
      && (tab.Table? ==> tab.frame in Tables(s', r) && Pde(s', d, va) != 0 && FrameOf(Pde(s', d, va)) == tab.frame)
      && (tab.Table? && Pde(s, d, va) == 0 ==>
            s.free != [] && tab.frame == s.free[0] && s'.free == s.free[1..] && s'.refs == s.refs[tab.frame := 1]
            && Pte(s', tab.frame, va) == 0)
  {
    InvWalkable(s, r, d, va);
    if Pde(s, d, va) == 0 && s.free != [] {
      var t := s.free[0];
      FreeIsUnused(s, r, t);
      AllocateKeepsInv(s, r);
      var s1 := AllocateFrame(s).1;
      SameMemory(s, r, s1);
      assert t !in s1.free;
      TableInstallKeepsInv(s1, r, d, va, t, InstallTable(s1, d, va, t));
    }
  }

  // The new entry and the new count.  Wrapping the 16-bit count breaks the invariant.
  lemma InstallPageKeepsInv(s: State, r: Roots, t: nat, va: Word, f: nat, perm: nat)
    requires Inv(s, r) && t in Tables(s, r) && t < |s.refs| && Pte(s, t, va) == 0
    requires f < |s.refs| && f !in s.free && perm < 4096
    ensures Inv(InstallPage(s, t, va, f, perm), r) <==> s.refs[f] < 0xFFFF
  {
    var k := Slot(t, PTX(va));
    assert k / 1024 == t;
    EntryInstallKeepsInv(s, r, k, ConstructEntry(f, WithPresent(perm)), InstallPage(s, t, va, f, perm));
  }

  lemma EntryInstallKeepsInv(s: State, r: Roots, k: nat, e: Word, s': State)
    requires Inv(s, r) && k < |s.mem| && k / 1024 in Tables(s, r) && s.mem[k] == 0
    requires Present(e) && FrameOf(e) < |s.refs| && FrameOf(e) !in s.free
    requires s' == s.(mem := s.mem[k := e], refs := s.refs[FrameOf(e) := Incremented(s.refs[FrameOf(e)])])
    ensures Inv(s', r) <==> s.refs[FrameOf(e)] < 0xFFFF
  {
    PresentIsSet(e);
    EntryKeepsStructure(s, r, k, e, s');
    WrittenEntryCounts(s, r, k, e, s');
    CountedKeepsList(s, FrameOf(e), s');
  }

  lemma WrittenEntryCounts(s: State, r: Roots, k: nat, e: Word, s': State)
    requires CountsOk(s, r)
    requires k < |s.mem| && k / 1024 in Tables(s, r) && k / 1024 !in r.dirs && s.mem[k] == 0
    requires e != 0 && FrameOf(e) < |s.refs|
    requires s'.mem == s.mem[k := e]
    requires s'.refs == s.refs[FrameOf(e) := Incremented(s.refs[FrameOf(e)])]
    ensures CountsOk(s', r) <==> s.refs[FrameOf(e)] < 0xFFFF
    ensures Tables(s', r) == Tables(s, r)
  {
    TableWrite(s, r, k, e, s');
    if s.refs[FrameOf(e)] < 0xFFFF {
      CountsFollow(s, r, s', FrameOf(e), 1);
    } else {
      assert |Naming(s', r, FrameOf(e))| == |Naming(s, r, FrameOf(e))| + 1;
    }
  }

  ghost predicate MapsTo(s: State, d: nat, va: Word, f: nat)
    requires Walkable(s, d, va)
  {
    Pde(s, d, va) != 0 && Pte(s, FrameOf(Pde(s, d, va)), va) != 0 && FrameOf(Pte(s, FrameOf(Pde(s, d, va)), va)) == f
  }

  // A failed map_frame changes nothing at all.  A successful one keeps the
  // invariant, unless it counts frame f once more than 16 bits can hold.
  lemma MapKeepsInv(s: State, r: Roots, d: nat, f: nat, va: Word, perm: nat)
    requires Inv(s, r) && d in r.dirs && va < USER_TOP && Walkable(s, d, va)
    requires f < |s.refs| && f !in s.free && perm < 4096
    ensures var (ok, s') := MapFrame(s, d, f, va, perm);
      && (!ok <==> Pde(s, d, va) == 0 && s.free == [])
      && (!ok ==> s' == s)
      && (ok ==> (Inv(s', r) <==> (s.refs[f] < 0xFFFF || MapsTo(s, d, va, f))))
  {
    GetPageTableKeepsInv(s, r, d, va);
    var (tab, s1) := GetPageTable(s, d, va, true);
    if tab.Table? {
      InvWalkable(s1, r, d, va);
      assert f !in s1.free && s1.refs[f] == s.refs[f];
      MapInTableKeepsInv(s1, r, d, f, va, perm);
    }
  }

  // Entry e translates va: it is in table t, which directory d has for va.
  ghost predicate EntryIs(s: State, d: nat, va: Word, t: nat, e: Word) {
    Walkable(s, d, va) && Pde(s, d, va) != 0 && FrameOf(Pde(s, d, va)) == t && Pte(s, t, va) == e
  }

  lemma MapInTableCases(s: State, d: nat, t: nat, e: Word, f: nat, va: Word, perm: nat)
    requires EntryIs(s, d, va, t, e) && f < |s.refs| && perm < 4096
    ensures e == 0 ==> MapInTable(s, d, t, f, va, perm) == InstallPage(s, t, va, f, perm)
    ensures Present(e) ==>
      MapInTable(s, d, t, f, va, perm) == if FrameOf(e) == f then s else InstallPage(UnmapFrame(s, d, va), t, va, f, perm)
  {
  }

  lemma MapInTableKeepsInv(s: State, r: Roots, d: nat, f: nat, va: Word, perm: nat)
    requires Inv(s, r) && d in r.dirs && va < USER_TOP && Walkable(s, d, va) && Pde(s, d, va) != 0
    requires f < |s.refs| && f !in s.free && perm < 4096
    ensures var s' := MapInTable(s, d, FrameOf(Pde(s, d, va)), f, va, perm);
      Inv(s', r) <==> (s.refs[f] < 0xFFFF || MapsTo(s, d, va, f))
  {
    InvWalkable(s, r, d, va);
    var t := FrameOf(Pde(s, d, va));
    EntryPresent(s, r, t, va);
    MapInTableCases(s, d, t, Pte(s, t, va), f, va, perm);
    if Pte(s, t, va) == 0 {
      InstallPageKeepsInv(s, r, t, va, f, perm);
    } else if FrameOf(Pte(s, t, va)) != f {
      var s1 := UnmapFrame(s, d, va);
      UnmapKeepsInv(s, r, d, va);
      UnmapOther(s, d, t, Pte(s, t, va), va, f);
      InstallPageKeepsInv(s1, r, t, va, f, perm);
    }
  }

  lemma EntryPresent(s: State, r: Roots, t: nat, va: Word)
    requires TableEntriesOk(s, r) && t in Tables(s, r) && Shape(s) && t < |s.refs|
    ensures Pte(s, t, va) == 0 || (Present(Pte(s, t, va)) && FrameOf(Pte(s, t, va)) < |s.refs|)
  {
    assert Slot(t, PTX(va)) / 1024 == t;
  }

  // Unmapping clears the entry and does not touch the count of any other frame.
  lemma UnmapOther(s: State, d: nat, t: nat, e: Word, va: Word, f: nat)
    requires EntryIs(s, d, va, t, e) && f < |s.refs| && f !in s.free && e != 0 && FrameOf(e) != f
    ensures var s' := UnmapFrame(s, d, va);
      && s'.mem == s.mem[Slot(t, PTX(va)) := 0] && s'.refs[f] == s.refs[f] && f !in s'.free
      && Pte(s', t, va) == 0
  {
  }

  lemma MappedIsNotFree(s: State, r: Roots, d: nat, va: Word)
    requires Inv(s, r) && d in r.dirs && va < USER_TOP && Walkable(s, d, va)
    requires Pde(s, d, va) != 0 && Pte(s, FrameOf(Pde(s, d, va)), va) != 0
    ensures FrameOf(Pte(s, FrameOf(Pde(s, d, va)), va)) !in s.free
  {
    InvWalkable(s, r, d, va);
    var k := Slot(FrameOf(Pde(s, d, va)), PTX(va));
    assert k / 1024 == FrameOf(Pde(s, d, va));
    NamedIsCounted(s, r, k, FrameOf(s.mem[k]));
  }
}
