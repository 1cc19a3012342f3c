/**
 The two-level page tables refine one flat map from (directory, page number) to
 entry: each operation changes the flat map at one point at most, whatever
 frames it recycles (kern/memory_manager.c:372-503, kern/helpers.c:131-142).
 */
module FlatMap {
  import opened Words
  import opened Paging
  import opened ReferenceCounts

  const USER_PAGES: nat := USER_PDES * 1024

  // The entry that translates page p in directory d, 0 if there is none.
  ghost function Leaf(s: State, d: nat, p: nat): Word
    requires Shape(s) && d < |s.refs| && p < USER_PAGES
  {
    var pde := s.mem[Slot(d, p / 1024)];
    if pde == 0 || FrameOf(pde) >= |s.refs| then 0 else s.mem[Slot(FrameOf(pde), p % 1024)]
  }

  type Page = (nat, nat)  // directory and page number

  ghost function Flat(s: State, r: Roots): imap<Page, Word>
    requires Shape(s) && RootsOk(s, r)
  {
    imap dp: Page | dp.0 in r.dirs && dp.1 < USER_PAGES && Leaf(s, dp.0, dp.1) != 0 :: Leaf(s, dp.0, dp.1)
  }

  // The leaves of s' are those of s, except that page p of directory d has entry e.
  ghost predicate OneLeafChanged(s: State, r: Roots, s': State, d: nat, p: nat, e: Word)
    requires Shape(s) && RootsOk(s, r) && Shape(s') && RootsOk(s', r)
  {
    forall d', p' :: d' in r.dirs && 0 <= p' < USER_PAGES ==>
      Leaf(s', d', p') == if d' == d && p' == p then e else Leaf(s, d', p')
  }

  lemma FlatOfChange(s: State, r: Roots, s': State, d: nat, p: nat, e: Word)
    requires Shape(s) && RootsOk(s, r) && Shape(s') && RootsOk(s', r)
    requires d in r.dirs && p < USER_PAGES && OneLeafChanged(s, r, s', d, p, e)
    ensures Flat(s', r) == if e == 0 then Flat(s, r) - {(d, p)} else Flat(s, r)[(d, p) := e]
  {
    var m := if e == 0 then Flat(s, r) - {(d, p)} else Flat(s, r)[(d, p) := e];
    assert Flat(s', r) == m;
  }

  // check_va2pa reads the flat map.
  lemma CheckVa2paIsFlat(s: State, r: Roots, d: nat, va: Word)
    requires Inv(s, r) && d in r.dirs && va < USER_TOP && Walkable(s, d, va)
    ensures CanWalk(s.mem, d, va)
    ensures CheckVa2pa(s.mem, d, va) ==
      if (d, PPN(va)) in Flat(s, r) then ExtractAddress(Flat(s, r)[(d, PPN(va))]) else NOT_MAPPED
  {
    LeafOfWalk(s, r, d, va);
    InvWalkable(s, r, d, va);
    PdePresent(s, r, d, va);
    if Pde(s, d, va) != 0 { EntryPresent(s, r, FrameOf(Pde(s, d, va)), va); }
    Va2paOfLeaf(s, d, va);
    assert (d, PPN(va)) in Flat(s, r) <==> Leaf(s, d, PPN(va)) != 0;
  }

  lemma PdePresent(s: State, r: Roots, d: nat, va: Word)
    requires DirEntriesOk(s, r) && Walkable(s, d, va)
    requires IsDirSlot(r, Slot(d, PDX(va)))
    ensures Pde(s, d, va) == 0 || Present(Pde(s, d, va))
  {
  }

  lemma Va2paOfLeaf(s: State, d: nat, va: Word)
    requires Walkable(s, d, va)
    requires Pde(s, d, va) == 0 || Present(Pde(s, d, va))
    requires Pde(s, d, va) != 0 ==>
      var e := Pte(s, FrameOf(Pde(s, d, va)), va); e == 0 || Present(e)
    ensures CanWalk(s.mem, d, va)
    ensures CheckVa2pa(s.mem, d, va) ==
      if Pde(s, d, va) == 0 || Pte(s, FrameOf(Pde(s, d, va)), va) == 0 then NOT_MAPPED
      else ExtractAddress(Pte(s, FrameOf(Pde(s, d, va)), va))
  {
  }

  lemma LeafOfWalk(s: State, r: Roots, d: nat, va: Word)
    requires Shape(s) && RootsOk(s, r) && d in r.dirs && va < USER_TOP && Walkable(s, d, va)
    ensures PPN(va) < USER_PAGES && PPN(va) / 1024 == PDX(va) && PPN(va) % 1024 == PTX(va)
    ensures Leaf(s, d, PPN(va)) == if Pde(s, d, va) == 0 then 0 else Pte(s, FrameOf(Pde(s, d, va)), va)
  {
    PageSplit(va);
  }

  // No two pages share an entry: rewriting the entry of one leaves all others.
  lemma WriteOneLeaf(s: State, r: Roots, d: nat, p: nat, e: Word, s': State)
    requires Shape(s) && RootsOk(s, r) && DirEntriesOk(s, r) && RootsOk(s', r)
    requires d in r.dirs && p < USER_PAGES && s.mem[Slot(d, p / 1024)] != 0
    requires FrameOf(s.mem[Slot(d, p / 1024)]) < |s.refs|
    requires s'.mem == s.mem[Slot(FrameOf(s.mem[Slot(d, p / 1024)]), p % 1024) := e]
    requires Shape(s')
    ensures OneLeafChanged(s, r, s', d, p, e)
  {
    var t := FrameOf(s.mem[Slot(d, p / 1024)]);
    assert IsDirSlot(r, Slot(d, p / 1024));
    forall d', p' | d' in r.dirs && 0 <= p' < USER_PAGES
      ensures Leaf(s', d', p') == if d' == d && p' == p then e else Leaf(s, d', p')
    {
      var k' := Slot(d', p' / 1024);
      assert IsDirSlot(r, k');
      assert s'.mem[k'] == s.mem[k'];
      if s.mem[k'] != 0 && FrameOf(s.mem[k']) == t {
        assert k' == Slot(d, p / 1024);
      }
    }
  }

  // Hanging an empty table into an empty directory entry translates nothing new.
  lemma NewTableLeaves(s: State, r: Roots, d: nat, va: Word, t: nat)
    requires Inv(s, r) && d in r.dirs && va < USER_TOP && Pde(s, d, va) == 0
    requires t < |s.refs| && t !in r.dirs && t !in Tables(s, r)
    ensures var s' := InstallTable(s, d, va, t);
      && Shape(s') && RootsOk(s', r)
      && forall d', p' :: d' in r.dirs && 0 <= p' < USER_PAGES ==> Leaf(s', d', p') == Leaf(s, d', p')
  {
    var s' := InstallTable(s, d, va, t);
    var k := Slot(d, PDX(va));
    InvWalkable(s, r, d, va);
    TableKeepsLeaves(s, r, k, t, ConstructEntry(t, PERM_PRESENT + PERM_USER + PERM_WRITEABLE), s');
  }

  lemma TableKeepsLeaves(s: State, r: Roots, k: nat, t: nat, e: Word, s': State)
    requires Shape(s) && RootsOk(s, r) && DirEntriesOk(s, r) && Shape(s') && RootsOk(s', r)
    requires k < |s.mem| && IsDirSlot(r, k) && s.mem[k] == 0
    requires t < |s.refs| && t !in r.dirs && t !in Tables(s, r)
    requires FrameOf(e) == t && e != 0
    requires s'.mem == ZeroFrame(s.mem, t)[k := e]
    ensures forall d', p' :: d' in r.dirs && 0 <= p' < USER_PAGES ==> Leaf(s', d', p') == Leaf(s, d', p')
  {
    forall d', p' | d' in r.dirs && 0 <= p' < USER_PAGES
      ensures Leaf(s', d', p') == Leaf(s, d', p')
    {
      var k' := Slot(d', p' / 1024);
      assert IsDirSlot(r, k');
      if k' == k {
        assert Slot(t, p' % 1024) / 1024 == t && Slot(t, p' % 1024) != k;
      } else {
        assert s'.mem[k'] == s.mem[k'];
        if s.mem[k'] != 0 {
          assert FrameOf(s.mem[k']) in Tables(s, r);
          assert Slot(FrameOf(s.mem[k']), p' % 1024) != k;
        }
      }
    }
  }

  // unmap_frame removes its page from the flat map and nothing else.
  lemma UnmapIsFlatRemove(s: State, r: Roots, d: nat, va: Word)
    requires Inv(s, r) && d in r.dirs && va < USER_TOP && Walkable(s, d, va)
    ensures RootsOk(UnmapFrame(s, d, va), r) && Shape(UnmapFrame(s, d, va))
    ensures Flat(UnmapFrame(s, d, va), r) == Flat(s, r) - {(d, PPN(va))}
  {
    UnmapKeepsInv(s, r, d, va);
    LeafOfWalk(s, r, d, va);
    var s' := UnmapFrame(s, d, va);
    if Pde(s, d, va) != 0 && Pte(s, FrameOf(Pde(s, d, va)), va) != 0 {
      UnmapMemory(s, d, FrameOf(Pde(s, d, va)), Pte(s, FrameOf(Pde(s, d, va)), va), va);
      WriteOneLeaf(s, r, d, PPN(va), 0, s');
    }
    FlatOfChange(s, r, s', d, PPN(va), 0);
  }

  lemma UnmapMemory(s: State, d: nat, t: nat, e: Word, va: Word)
    requires EntryIs(s, d, va, t, e) && e != 0
    ensures UnmapFrame(s, d, va).mem == s.mem[Slot(t, PTX(va)) := 0]
  {
  }

  lemma GetPageTableIsFlatIdentity(s: State, r: Roots, d: nat, va: Word)
    requires Inv(s, r) && d in r.dirs && va < USER_TOP
    ensures var s' := GetPageTable(s, d, va, true).1;
      Shape(s') && RootsOk(s', r) && Flat(s', r) == Flat(s, r)
  {
    GetPageTableKeepsInv(s, r, d, va);
    if Pde(s, d, va) == 0 && s.free != [] {
      var t := s.free[0];
      FreeIsUnused(s, r, t);
      AllocateKeepsInv(s, r);
      var s1 := AllocateFrame(s).1;
      SameMemory(s, r, s1);
      NewTableLeaves(s1, r, d, va, t);
      FlatOfSameLeaves(s, r, s1);
      FlatOfSameLeaves(s1, r, InstallTable(s1, d, va, t));
    }
  }

  lemma FlatOfSameLeaves(s: State, r: Roots, s': State)
    requires Shape(s) && RootsOk(s, r) && Shape(s') && RootsOk(s', r)
    requires s'.mem == s.mem ||
      forall d', p' :: d' in r.dirs && 0 <= p' < USER_PAGES ==> Leaf(s', d', p') == Leaf(s, d', p')
    ensures Flat(s', r) == Flat(s, r)
  {
  }

  // The page's new entry, unless it already mapped this very frame.
  ghost function FlatMapped(m: imap<Page, Word>, d: nat, p: nat, f: nat, perm: nat): imap<Page, Word>
    requires f < 0x10_0000 && perm < 4096
  {
    if (d, p) in m && FrameOf(m[(d, p)]) == f then m
    else m[(d, p) := ConstructEntry(f, WithPresent(perm))]
  }

  // A successful map_frame sets its page in the flat map and nothing else, also
  // when it builds a table in a recycled frame or replaces another mapping.
  lemma MapIsFlatUpdate(s: State, r: Roots, d: nat, f: nat, va: Word, perm: nat)
    requires Inv(s, r) && d in r.dirs && va < USER_TOP && Walkable(s, d, va)
    requires f < |s.refs| && perm < 4096
    requires MapFrame(s, d, f, va, perm).0
    ensures var s' := MapFrame(s, d, f, va, perm).1;
      && Shape(s') && RootsOk(s', r)
      && Flat(s', r) == FlatMapped(Flat(s, r), d, PPN(va), f, perm)
  {
    GetPageTableKeepsInv(s, r, d, va);
    GetPageTableIsFlatIdentity(s, r, d, va);
    var s1 := GetPageTable(s, d, va, true).1;
    InvWalkable(s1, r, d, va);
    MapInTableIsFlatUpdate(s1, r, d, f, va, perm);
  }

  lemma MapInTableIsFlatUpdate(s: State, r: Roots, d: nat, f: nat, va: Word, perm: nat)
    requires Inv(s, r) && d in r.dirs && va < USER_TOP && Walkable(s, d, va) && Pde(s, d, va) != 0
    requires f < |s.refs| && perm < 4096
    ensures var s' := MapInTable(s, d, FrameOf(Pde(s, d, va)), f, va, perm);
      && Shape(s') && RootsOk(s', r)
      && Flat(s', r) == FlatMapped(Flat(s, r), d, PPN(va), f, perm)
  {
    var p, t := PPN(va), FrameOf(Pde(s, d, va));
    InvWalkable(s, r, d, va);
    EntryPresent(s, r, t, va);
    MapInTableCases(s, d, t, Pte(s, t, va), f, va, perm);
    LeafOfWalk(s, r, d, va);
    assert (d, p) in Flat(s, r) <==> Pte(s, t, va) != 0;
    if Pte(s, t, va) == 0 {
      InstallIsFlatUpdate(s, r, d, f, va, perm);
    } else if FrameOf(Pte(s, t, va)) != f {
      var s1 := UnmapFrame(s, d, va);
      UnmapKeepsInv(s, r, d, va);
      UnmapIsFlatRemove(s, r, d, va);
      UnmapKeepsPde(s, r, d, va);
      InvWalkable(s1, r, d, va);
      InstallIsFlatUpdate(s1, r, d, f, va, perm);
      RemoveThenSet(Flat(s, r), (d, p), ConstructEntry(f, WithPresent(perm)));
    }
  }

  lemma RemoveThenSet(m: imap<Page, Word>, dp: Page, e: Word)
    ensures (m - {dp})[dp := e] == m[dp := e]
  {
  }

  lemma UnmapKeepsPde(s: State, r: Roots, d: nat, va: Word)
    requires Inv(s, r) && d in r.dirs && va < USER_TOP && Walkable(s, d, va)
    ensures Pde(UnmapFrame(s, d, va), d, va) == Pde(s, d, va)
  {
    InvWalkable(s, r, d, va);
    if Pde(s, d, va) != 0 {
      var t := FrameOf(Pde(s, d, va));
      TablesAreFrames(s, r, t);
      assert Slot(t, PTX(va)) / 1024 == t && Slot(d, PDX(va)) / 1024 == d;
    }
  }

  lemma InstallIsFlatUpdate(s: State, r: Roots, d: nat, f: nat, va: Word, perm: nat)
    requires Inv(s, r) && d in r.dirs && va < USER_TOP && Walkable(s, d, va) && Pde(s, d, va) != 0
    requires f < |s.refs| && perm < 4096
    ensures var s' := InstallPage(s, FrameOf(Pde(s, d, va)), va, f, perm);
      && Shape(s') && RootsOk(s', r)
      && Flat(s', r) == Flat(s, r)[(d, PPN(va)) := ConstructEntry(f, WithPresent(perm))]
  {
    var e := ConstructEntry(f, WithPresent(perm));
    var s' := InstallPage(s, FrameOf(Pde(s, d, va)), va, f, perm);
    LeafOfWalk(s, r, d, va);
    WriteOneLeaf(s, r, d, PPN(va), e, s');
    FlatOfChange(s, r, s', d, PPN(va), e);
  }
}
